/**
 * Insertions that fail. A node too large for its page is refused after the
 * splits of the descent were saved, so what the pages hold then is neither the
 * old tree nor the new one.
 */
module TreeFailure {
  import opened Keys
  import opened Trees
  import opened TreeOrder
  import opened TreeRange
  import opened TreePages
  import opened TreeFit
  import opened TreeRuns

  /** The tree reachable from the node's page after an attempt, the next free page, and whether it went well. */
  datatype Attempted = Attempted(tree: Tree, pages: nat, ok: bool)

  /** A node that was not saved again, over what the page of its child i holds now. */
  function Unsaved(t: Tree, i: nat, n: nat, j: nat, c: Tree): Tree
    requires t.Branch? && i < |t.kids| && (j != i ==> Splittable(t.kids[i]))
  {
    t.(kids := t.kids[i := if j == i then c else Split(t.kids[i], n).0])
  }

  function Attempt(t: Tree, h: nat, k: Key, v: Val, n: nat, tie: Tie): (r: Attempted)
    requires Shape(t, h)
    decreases h
  {
    if t.Leaf? then
      var t' := LeafInsert(t, k, v);
      if Size(t') <= NODE_LIMIT then Attempted(t', n, true) else Attempted(t, n, false)
    else
      var (t1, j, n1) := Descend(t, h, k, n, tie);
      var c := Attempt(t1.kids[j], h - 1, k, v, n1, tie);
      if c.ok && Size(t1) <= NODE_LIMIT then Attempted(t1.(kids := t1.kids[j := c.tree]), c.pages, true)
      else
        DescendsInto(t, h, k, n, tie);
        Attempted(Unsaved(t, Route(t.keys, k), n, j, c.tree), c.pages, false)
  }

  function AttemptInsert(t: Tree, h: nat, k: Key, v: Val, n: nat, tie: Tie): Attempted
    requires Shape(t, h)
  {
    if Full(t) then Attempt(GrowRoot(t, h, n), h + 1, k, v, n + 2, tie) else Attempt(t, h, k, v, n, tie)
  }

  /** The child entered: the routed child, or one half of it. */
  lemma DescendsInto(t: Tree, h: nat, k: Key, n: nat, tie: Tie)
    requires Shape(t, h) && t.Branch?
    ensures var i := Route(t.keys, k);
      var (t1, j, n1) := Descend(t, h, k, n, tie);
      var c := t.kids[i];
      && i < |t.kids| && Shape(c, h - 1) && Shape(t1.kids[j], h - 1) && (j == i || j == i + 1) && n <= n1 <= n + 1
      && (if Full(c) then
            Splittable(c) && n1 == n + 1 && t1 == SplitKid(t, i, n)
            && t1.kids[j] == (if j == i then Split(c, n).0 else Split(c, n).2)
          else j == i && n1 == n && t1 == t)
  {
    hide Less, Split;
    var i := Route(t.keys, k);
    if Full(t.kids[i]) {
      FullIsSplittable(t.kids[i], h - 1);
      var (t1, j, n1) := Descend(t, h, k, n, tie);
      SplitKidAt(t, i, n, j);
    }
  }

  lemma {:induction false} AttemptShape(t: Tree, h: nat, k: Key, v: Val, n: nat, tie: Tie)
    requires Shape(t, h)
    ensures Shape(Attempt(t, h, k, v, n, tie).tree, h)
    decreases h
  {
    hide Descend, Size, LeafInsert, Split;
    if t.Branch? {
      DescendsInto(t, h, k, n, tie);
      var (t1, j, n1) := Descend(t, h, k, n, tie);
      AttemptShape(t1.kids[j], h - 1, k, v, n1, tie);
      if j != Route(t.keys, k) {
        SplitShape(t.kids[Route(t.keys, k)], h - 1, n);
      }
    } else {
      LeafShape(t, k, v);
    }
  }

  lemma LeafShape(t: Tree, k: Key, v: Val)
    requires Shape(t, 0)
    ensures Shape(LeafInsert(t, k, v), 0)
  {
  }

  /** An attempt goes well if and only if every node fits in the end, and then it is the insertion; it takes the same pages anyhow. */
  lemma {:induction false} AttemptIsInsertion(t: Tree, h: nat, k: Key, v: Val, n: nat, tie: Tie)
    requires Shape(t, h) && Fits(t)
    ensures var (r, (t', n')) := (Attempt(t, h, k, v, n, tie), InsertNonFull(t, h, k, v, n, tie));
      && r.pages == n' && (r.ok <==> Fits(t')) && (r.ok ==> r.tree == t')
    decreases h
  {
    hide Descend, Size, LeafInsert, Unsaved;
    if t.Branch? {
      DescendFitsIff(t, h, k, n, tie);
      var (t1, j, n1) := Descend(t, h, k, n, tie);
      AttemptIsInsertion(t1.kids[j], h - 1, k, v, n1, tie);
      ReplaceKidFits(t1, j, InsertNonFull(t1.kids[j], h - 1, k, v, n1, tie).0);
    }
  }

  lemma AttemptInsertIsInsertion(t: Tree, h: nat, k: Key, v: Val, n: nat, tie: Tie)
    requires Shape(t, h) && Fits(t)
    ensures var (r, (t', n')) := (AttemptInsert(t, h, k, v, n, tie), Insert(t, h, k, v, n, tie));
      && r.pages == n' && (r.ok <==> Fits(t')) && (r.ok ==> r.tree == t')
  {
    hide Attempt, GrowRoot, InsertNonFull, Fits, Shape, Size;
    if Full(t) {
      GrownFits(t, h, n);
      AttemptIsInsertion(GrowRoot(t, h, n), h + 1, k, v, n + 2, tie);
    } else {
      AttemptIsInsertion(t, h, k, v, n, tie);
    }
  }

  lemma UnsavedFits(t: Tree, i: nat, n: nat, j: nat, c: Tree)
    requires t.Branch? && i < |t.kids| && (j != i ==> Splittable(t.kids[i])) && Fits(t)
    requires j == i ==> Fits(c)
    ensures Fits(Unsaved(t, i, n, j, c))
  {
    if j != i {
      HalvesFit(t.kids[i], n);
    }
  }

  /** Whatever happens, no page ever holds a node that is too large. */
  lemma {:induction false} AttemptFits(t: Tree, h: nat, k: Key, v: Val, n: nat, tie: Tie)
    requires Shape(t, h) && Fits(t)
    ensures Fits(Attempt(t, h, k, v, n, tie).tree)
    decreases h
  {
    hide Descend, Size, LeafInsert, Unsaved, Split;
    if t.Branch? {
      DescendFitsIff(t, h, k, n, tie);
      DescendsInto(t, h, k, n, tie);
      var (t1, j, n1) := Descend(t, h, k, n, tie);
      AttemptFits(t1.kids[j], h - 1, k, v, n1, tie);
      var c := Attempt(t1.kids[j], h - 1, k, v, n1, tie);
      if c.ok && Size(t1) <= NODE_LIMIT {
        ReplaceKidFits(t1, j, c.tree);
      } else {
        UnsavedFits(t, Route(t.keys, k), n, j, c.tree);
      }
    }
  }

  // ----------------------------------------------------------------- pages

  /** Page use of an attempt: a proper tree in the same page, on some of the old pages and some of the fresh ones. */
  ghost predicate UsesAtMost(t: Tree, t': Tree, n: nat, n': nat) {
    Proper(t') && t'.id == t.id && n <= n' && forall x :: x in Ids(t') ==> x in Ids(t) || n <= x < n'
  }

  lemma ReplaceKidUses(t: Tree, j: nat, c: Tree, n: nat, n': nat)
    requires t.Branch? && j < |t.kids| && Proper(t) && UsesAtMost(t.kids[j], c, n, n')
    requires forall x :: x in Ids(t) ==> x < n
    ensures UsesAtMost(t, t.(kids := t.kids[j := c]), n, n')
  {
    hide Ids;
    var t' := t.(kids := t.kids[j := c]);
    OwnId(t);
    forall i, x | 0 <= i < |t.kids| && x in Ids(t.kids[i])
      ensures x < n
    {
      InIds(t, i, x);
    }
    forall i, i' | 0 <= i < i' < |t'.kids|
      ensures Ids(t'.kids[i]) !! Ids(t'.kids[i'])
    {
      assert Ids(t.kids[i]) !! Ids(t.kids[i']);
    }
    assert forall i :: 0 <= i < |t'.kids| ==> Proper(t'.kids[i]) && t.id !in Ids(t'.kids[i]);
    forall x: nat | x in Ids(t') && x != t.id
      ensures x in Ids(t) || n <= x < n'
    {
      var i := IdsHasKid(t', x);
      if i != j || x in Ids(t.kids[j]) {
        InIds(t, i, x);
      }
    }
  }

  lemma ExactIsAtMost(t: Tree, t': Tree, n: nat, n': nat)
    requires UsesPages(t, t', n, n')
    ensures UsesAtMost(t, t', n, n')
  {
  }

  lemma UsesAtMostThen(t: Tree, t1: Tree, t2: Tree, n: nat, n1: nat, n2: nat)
    requires UsesAtMost(t, t1, n, n1) && UsesAtMost(t1, t2, n1, n2)
    ensures UsesAtMost(t, t2, n, n2)
  {
  }

  lemma LeftHalfUses(c: Tree, n: nat)
    requires Splittable(c) && Proper(c) && n !in Ids(c)
    ensures UsesAtMost(c, Split(c, n).0, n, n + 1) && UsesAtMost(c, Split(c, n).0, n, n)
  {
    hide Ids, Proper, Split;
    SplitPages(c, n);
    SplitPagesAre(c, n);
    OwnId(Split(c, n).2);
  }

  lemma UnsavedUses(t: Tree, i: nat, n: nat, j: nat, c: Tree, n1: nat, n': nat)
    requires t.Branch? && i < |t.kids| && (j != i ==> Splittable(t.kids[i])) && Proper(t)
    requires forall x :: x in Ids(t) ==> x < n
    requires n <= n1 <= n' && (j == i ==> UsesAtMost(t.kids[i], c, n, n'))
    ensures UsesAtMost(t, Unsaved(t, i, n, j, c), n, n')
  {
    hide Ids, Proper, Split;
    if j == i {
      ReplaceKidUses(t, i, c, n, n');
    } else {
      KidProper(t, i);
      KidIdsBelow(t, i, n);
      LeftHalfUses(t.kids[i], n);
      ReplaceKidUses(t, i, Split(t.kids[i], n).0, n, n');
    }
  }

  /** What one half of a split child may use, as seen from the child. */
  lemma HalfThen(c: Tree, n: nat, t': Tree, n': nat)
    requires Splittable(c) && Proper(c) && n !in Ids(c) && UsesAtMost(Split(c, n).0, t', n + 1, n')
    ensures UsesAtMost(c, t', n, n')
  {
    hide Proper, Split;
    LeftHalfUses(c, n);
    UsesAtMostThen(c, Split(c, n).0, t', n, n + 1, n');
  }

  lemma {:induction false} AttemptPages(t: Tree, h: nat, k: Key, v: Val, n: nat, tie: Tie)
    requires Shape(t, h) && Proper(t)
    requires forall x :: x in Ids(t) ==> x < n
    ensures UsesAtMost(t, Attempt(t, h, k, v, n, tie).tree, n, Attempt(t, h, k, v, n, tie).pages)
    ensures Attempt(t, h, k, v, n, tie).pages <= n + h
    decreases h
  {
    hide Descend, Size, Unsaved, Split, Ids, UsesPages, UsesAtMost;
    if t.Branch? {
      DescendPages(t, h, k, n, tie);
      DescendsInto(t, h, k, n, tie);
      var (t1, j, n1) := Descend(t, h, k, n, tie);
      PagesGiven(t, t1, n, n1);
      KidIdsBelow(t1, j, n1);
      KidProper(t1, j);
      AttemptPages(t1.kids[j], h - 1, k, v, n1, tie);
      AttemptNodePages(t, h, k, n, tie, Attempt(t1.kids[j], h - 1, k, v, n1, tie));
    } else {
      SameLeafPages(t, LeafInsert(t, k, v), n);
      SameLeafPages(t, t, n);
    }
  }

  lemma SameLeafPages(t: Tree, t': Tree, n: nat)
    requires t.Leaf? && t'.Leaf? && t'.id == t.id
    ensures UsesAtMost(t, t', n, n)
  {
  }

  lemma PagesGiven(t: Tree, t1: Tree, n: nat, n1: nat)
    requires UsesPages(t, t1, n, n1)
    requires forall x :: x in Ids(t) ==> x < n
    ensures Proper(t1) && forall x :: x in Ids(t1) ==> x < n1
  {
  }

  lemma AttemptNodePages(t: Tree, h: nat, k: Key, n: nat, tie: Tie, c: Attempted)
    requires Shape(t, h) && t.Branch? && Proper(t)
    requires forall x :: x in Ids(t) ==> x < n
    requires var (t1, j, n1) := Descend(t, h, k, n, tie);
      && UsesPages(t, t1, n, n1) && UsesAtMost(t1.kids[j], c.tree, n1, c.pages)
      && forall x :: x in Ids(t1) ==> x < n1
    ensures var (t1, j, n1) := Descend(t, h, k, n, tie);
      && UsesAtMost(t, t1.(kids := t1.kids[j := c.tree]), n, c.pages)
      && (j != Route(t.keys, k) ==> Splittable(t.kids[Route(t.keys, k)]))
      && UsesAtMost(t, Unsaved(t, Route(t.keys, k), n, j, c.tree), n, c.pages)
  {
    hide Descend, Size, Unsaved, Split, Ids, Proper, SplitKid;
    DescendsInto(t, h, k, n, tie);
    var (t1, j, n1) := Descend(t, h, k, n, tie);
    var i := Route(t.keys, k);
    ExactIsAtMost(t, t1, n, n1);
    ReplaceKidUses(t1, j, c.tree, n1, c.pages);
    UsesAtMostThen(t, t1, t1.(kids := t1.kids[j := c.tree]), n, n1, c.pages);
    if j == i && Full(t.kids[i]) {
      KidProper(t, i);
      KidIdsBelow(t, i, n);
      HalfThen(t.kids[i], n, c.tree, c.pages);
    }
    UnsavedUses(t, i, n, j, c.tree, n1, c.pages);
  }

  // ----------------------------------------------------------------- links

  /** Every leaf links to an existing page, if to any. */
  ghost predicate LinksBelow(t: Tree, n: nat) {
    match t
    case Leaf(_, _, _, next) => next.Some? ==> next.value < n
    case Branch(_, _, kids) => forall i :: 0 <= i < |kids| ==> LinksBelow(kids[i], n)
  }

  lemma {:induction false} LinksGrow(t: Tree, n: nat, n': nat)
    requires LinksBelow(t, n) && n <= n'
    ensures LinksBelow(t, n')
  {
    if t.Branch? {
      forall i | 0 <= i < |t.kids|
        ensures LinksBelow(t.kids[i], n')
      {
        LinksGrow(t.kids[i], n, n');
      }
    }
  }

  lemma HalvesLink(c: Tree, n: nat)
    requires Splittable(c) && LinksBelow(c, n + 1)
    ensures LinksBelow(Split(c, n).0, n + 1) && LinksBelow(Split(c, n).2, n + 1)
  {
  }

  lemma SplitKidLinks(t: Tree, i: nat, n: nat)
    requires t.Branch? && |t.kids| == |t.keys| + 1 && i < |t.kids| && Splittable(t.kids[i]) && LinksBelow(t, n + 1)
    ensures LinksBelow(SplitKid(t, i, n), n + 1)
  {
    hide Split, SplitKid;
    HalvesLink(t.kids[i], n);
    SplitKidNode(t, i, n);
    var t1 := SplitKid(t, i, n);
    forall j | 0 <= j < |t1.kids|
      ensures LinksBelow(t1.kids[j], n + 1)
    {
      SplitKidAt(t, i, n, j);
    }
  }

  lemma {:induction false} AttemptLinks(t: Tree, h: nat, k: Key, v: Val, n: nat, tie: Tie)
    requires Shape(t, h) && LinksBelow(t, n)
    ensures LinksBelow(Attempt(t, h, k, v, n, tie).tree, Attempt(t, h, k, v, n, tie).pages)
    ensures Attempt(t, h, k, v, n, tie).pages >= n
    decreases h
  {
    hide Descend, Size, Split, SplitKid;
    if t.Branch? {
      DescendsInto(t, h, k, n, tie);
      var (t1, j, n1) := Descend(t, h, k, n, tie);
      var i := Route(t.keys, k);
      LinksGrow(t, n, n1);
      if Full(t.kids[i]) {
        SplitKidLinks(t, i, n);
        HalvesLink(t.kids[i], n);
      }
      AttemptLinks(t1.kids[j], h - 1, k, v, n1, tie);
      var c := Attempt(t1.kids[j], h - 1, k, v, n1, tie);
      LinksGrow(t1, n1, c.pages);
      LinksGrow(t, n, c.pages);
      if j != i {
        LinksGrow(Split(t.kids[i], n).0, n1, c.pages);
      }
    }
  }

  lemma GrownLinks(t: Tree, h: nat, n: nat)
    requires Shape(t, h) && Full(t) && LinksBelow(t, n)
    ensures LinksBelow(GrowRoot(t, h, n), n + 2)
  {
    FullIsSplittable(t, h);
    LinksGrow(t, n, n + 2);
    var moved := t.(id := n);
    assert LinksBelow(moved, n + 2);
    SplitKidLinks(Branch(t.id, [], [moved]), 0, n + 1);
  }

  // -------------------------------------------------- what an attempt leaves

  /** The new value is where a search for its key arrives: it was saved, and not cut off. */
  ghost predicate Saved(t: Tree, h: nat, k: Key, v: Val, n: nat, tie: Tie)
    requires Shape(t, h)
    decreases h
  {
    if Attempt(t, h, k, v, n, tie).ok then tie.EqualGoesRight? || !MeetsPromoted(t, h, k, n)
    else
      t.Branch? &&
      var (t1, j, n1) := Descend(t, h, k, n, tie);
      j == Route(t.keys, k) && Saved(t1.kids[j], h - 1, k, v, n1, tie)
  }

  /** The key belongs to the right half of a split that was saved although its parent was not. */
  ghost predicate CutOff(t: Tree, h: nat, k: Key, v: Val, n: nat, tie: Tie, q: Key)
    requires Shape(t, h)
    decreases h
  {
    && t.Branch? && !Attempt(t, h, k, v, n, tie).ok && Route(t.keys, q) == Route(t.keys, k)
    && (CutHere(t, k, q) ||
        var (t1, j, n1) := Descend(t, h, k, n, tie);
        j == Route(t.keys, k) && CutOff(t1.kids[j], h - 1, k, v, n1, tie, q))
  }

  predicate CutHere(t: Tree, k: Key, q: Key)
    requires t.Branch? && Route(t.keys, k) < |t.kids|
  {
    var c := t.kids[Route(t.keys, k)];
    Full(c) && |c.keys| > 0 && !Less(q, c.keys[|c.keys| / 2])
  }

  /** What a search for a key that was cut off finds in the left half instead. */
  ghost function CutAnswer(t: Tree, h: nat, k: Key, v: Val, n: nat, tie: Tie, q: Key): Option<Val>
    requires Shape(t, h)
    decreases h
  {
    if t.Leaf? then None
    else
      DescendsInto(t, h, k, n, tie);
      var (t1, j, n1) := Descend(t, h, k, n, tie);
      var c := Attempt(t1.kids[j], h - 1, k, v, n1, tie);
      if CutHere(t, k, q) then Lookup(if j == Route(t.keys, k) then c.tree else Split(t.kids[Route(t.keys, k)], n).0, q)
      else CutAnswer(t1.kids[j], h - 1, k, v, n1, tie, q)
  }

  /** The answer after an attempt. */
  ghost function AnswerAfter(t: Tree, h: nat, k: Key, v: Val, n: nat, tie: Tie, q: Key): Option<Val>
    requires Shape(t, h)
  {
    if q == k && Saved(t, h, k, v, n, tie) then Some(v)
    else if CutOff(t, h, k, v, n, tie, q) then CutAnswer(t, h, k, v, n, tie, q)
    else Lookup(t, q)
  }

  /** Ranges survive every attempt, and no key appears but its own. */
  lemma {:induction false} AttemptRanged(t: Tree, h: nat, k: Key, v: Val, n: nat, tie: Tie, o: Order)
    requires Shape(t, h) && Ranged(t, o) && !MeetsClash(t, h, k, n, tie)
    requires o.Weak? || tie.EqualGoesRight? || !MeetsPromoted(t, h, k, n)
    ensures Ranged(Attempt(t, h, k, v, n, tie).tree, o)
    ensures forall x :: x in AllKeys(Attempt(t, h, k, v, n, tie).tree) ==> x == k || x in AllKeys(t)
    decreases h
  {
    hide Descend, AllKeys, Clash, Promoted, Less, Split, Size, LeafInsert;
    if t.Leaf? {
      LeafInsertRanged(t, k, v, o);
    } else {
      DescendsInto(t, h, k, n, tie);
      DescendRanged(t, h, k, n, tie, o);
      var (t1, j, n1) := Descend(t, h, k, n, tie);
      AttemptRanged(t1.kids[j], h - 1, k, v, n1, tie, o);
      var c := Attempt(t1.kids[j], h - 1, k, v, n1, tie).tree;
      ReplaceKidRanged(t1, j, c, k, o);
      UnsavedRanged(t, h, k, n, tie, c, o);
    }
  }

  lemma UnsavedRanged(t: Tree, h: nat, k: Key, n: nat, tie: Tie, c: Tree, o: Order)
    requires Shape(t, h) && t.Branch? && Ranged(t, o) && Ranged(c, o)
    requires var (t1, j, n1) := Descend(t, h, k, n, tie); forall x :: x in AllKeys(c) ==> x == k || x in AllKeys(t1.kids[j])
    ensures var (t1, j, n1) := Descend(t, h, k, n, tie);
      var i := Route(t.keys, k);
      && (j != i ==> Splittable(t.kids[i]))
      && Ranged(Unsaved(t, i, n, j, c), o) && forall x :: x in AllKeys(Unsaved(t, i, n, j, c)) ==> x == k || x in AllKeys(t)
  {
    hide Descend, AllKeys, Less, Split, Size;
    DescendsInto(t, h, k, n, tie);
    var (t1, j, n1) := Descend(t, h, k, n, tie);
    var i := Route(t.keys, k);
    RangedNode(t, o);
    if Full(t.kids[i]) {
      SplitSides(t.kids[i], n, o);
    }
    ReplaceKidRanged(t, i, if j == i then c else Split(t.kids[i], n).0, k, o);
  }

  /** Every answer after an attempt: the new value if it was saved, and for keys that were cut off what the left half holds. */
  lemma {:induction false} AttemptAnswers(t: Tree, h: nat, k: Key, v: Val, n: nat, tie: Tie, o: Order, q: Key)
    requires Shape(t, h) && Ranged(t, o) && !MeetsClash(t, h, k, n, tie)
    ensures Lookup(Attempt(t, h, k, v, n, tie).tree, q) == AnswerAfter(t, h, k, v, n, tie, q)
    decreases h
  {
    hide Descend, AllKeys, Clash, Promoted, Less, Split, Size, LeafInsert, Unsaved, CutHere;
    if t.Leaf? {
      RangedNode(t, o);
      LeafInsertLookup(t, k, v, q);
    } else {
      DescendsInto(t, h, k, n, tie);
      DescendRanged(t, h, k, n, tie, o);
      var (t1, j, n1) := Descend(t, h, k, n, tie);
      AttemptAnswers(t1.kids[j], h - 1, k, v, n1, tie, o, q);
      if Attempt(t, h, k, v, n, tie).ok {
        SuccessfulNode(t, h, k, v, n, tie, o, q);
      } else {
        FailedNode(t, h, k, v, n, tie, o, q);
      }
    }
  }

  lemma SuccessfulNode(t: Tree, h: nat, k: Key, v: Val, n: nat, tie: Tie, o: Order, q: Key)
    requires Shape(t, h) && Ranged(t, o) && t.Branch? && !MeetsClash(t, h, k, n, tie) && Attempt(t, h, k, v, n, tie).ok
    requires var (t1, j, n1) := Descend(t, h, k, n, tie);
      Lookup(Attempt(t1.kids[j], h - 1, k, v, n1, tie).tree, q) == AnswerAfter(t1.kids[j], h - 1, k, v, n1, tie, q)
    ensures Lookup(Attempt(t, h, k, v, n, tie).tree, q) == AnswerAfter(t, h, k, v, n, tie, q)
  {
    hide Descend, AllKeys, Clash, Promoted, Less, Split, Size, LeafInsert, Unsaved, CutHere, CutAnswer;
    DescendRanged(t, h, k, n, tie, o);
    var (t1, j, n1) := Descend(t, h, k, n, tie);
    assert Lookup(t1, q) == Lookup(t1.kids[Route(t1.keys, q)], q);
    assert Attempt(t1.kids[j], h - 1, k, v, n1, tie).ok;
  }

  /** A failed attempt at a node, in terms of the attempt at the child it entered. */
  lemma FailedUnfolds(t: Tree, h: nat, k: Key, v: Val, n: nat, tie: Tie, q: Key)
    requires Shape(t, h) && t.Branch? && !Attempt(t, h, k, v, n, tie).ok
    ensures var (t1, j, n1) := Descend(t, h, k, n, tie);
      var i := Route(t.keys, k);
      var (kid, c) := (t1.kids[j], t.kids[i]);
      var got := Attempt(kid, h - 1, k, v, n1, tie).tree;
      && i < |t.kids| && Shape(kid, h - 1) && (j != i ==> Splittable(c))
      && Lookup(Attempt(t, h, k, v, n, tie).tree, q) ==
           (if Route(t.keys, q) == i then Lookup(if j == i then got else Split(c, n).0, q) else Lookup(t, q))
      && (Saved(t, h, k, v, n, tie) <==> j == i && Saved(kid, h - 1, k, v, n1, tie))
      && (CutOff(t, h, k, v, n, tie, q) <==>
            Route(t.keys, q) == i && (CutHere(t, k, q) || (j == i && CutOff(kid, h - 1, k, v, n1, tie, q))))
      && CutAnswer(t, h, k, v, n, tie, q) ==
           (if CutHere(t, k, q) then Lookup(if j == i then got else Split(c, n).0, q) else CutAnswer(kid, h - 1, k, v, n1, tie, q))
  {
    hide Descend, AllKeys, Clash, Promoted, Less, Split, Size, LeafInsert, Route, CutHere, MeetsPromoted;
    DescendsInto(t, h, k, n, tie);
  }

  lemma FailedNode(t: Tree, h: nat, k: Key, v: Val, n: nat, tie: Tie, o: Order, q: Key)
    requires Shape(t, h) && Ranged(t, o) && t.Branch? && !Attempt(t, h, k, v, n, tie).ok
    requires var (t1, j, n1) := Descend(t, h, k, n, tie);
      Lookup(Attempt(t1.kids[j], h - 1, k, v, n1, tie).tree, q) == AnswerAfter(t1.kids[j], h - 1, k, v, n1, tie, q)
    ensures Lookup(Attempt(t, h, k, v, n, tie).tree, q) == AnswerAfter(t, h, k, v, n, tie, q)
  {
    hide Descend, AllKeys, Clash, Promoted, Less, Split, Size, LeafInsert, Route, Attempt, Saved, CutOff, CutAnswer;
    FailedUnfolds(t, h, k, v, n, tie, q);
    DescendsInto(t, h, k, n, tie);
    DescendTies(t, h, k, n, tie);
    var i := Route(t.keys, k);
    assert Route(t.keys, q) == i ==> Lookup(t, q) == Lookup(t.kids[i], q);
    hide Lookup;
    RangedNode(t.kids[i], o);
    if Full(t.kids[i]) {
      SplitLookup(t.kids[i], n, q);
    }
  }

  /** Which half of a full child the key enters. */
  lemma DescendTies(t: Tree, h: nat, k: Key, n: nat, tie: Tie)
    requires Shape(t, h) && t.Branch?
    ensures var i := Route(t.keys, k);
      var c := t.kids[i];
      Full(c) ==> (
        && Splittable(c) && Split(c, n).1 == c.keys[|c.keys| / 2]
        && (Descend(t, h, k, n, tie).1 == i + 1 <==> GoesRight(Split(c, n).1, k, tie)))
  {
    hide Less;
    if Full(t.kids[Route(t.keys, k)]) {
      DescendSplits(t, h, k, n, tie);
    }
  }

  // ------------------------------------------------------- without dead copies

  lemma NotInLeftHalf(c: Tree, n: nat, q: Key)
    requires Ranged(c, Strict) && Splittable(c) && !Less(q, Split(c, n).1)
    ensures q !in AllKeys(Split(c, n).0)
  {
    hide Less, AllKeys, Lookup, Split;
    SplitSides(c, n, Strict);
  }

  /** Without dead copies a key that was cut off is not found, unless it is the new one and was saved. */
  lemma {:induction false} CutIsLost(t: Tree, h: nat, k: Key, v: Val, n: nat, tie: Tie, q: Key)
    requires Shape(t, h) && Ranged(t, Strict) && !MeetsClash(t, h, k, n, tie)
    requires CutOff(t, h, k, v, n, tie, q) && !(q == k && Saved(t, h, k, v, n, tie))
    ensures CutAnswer(t, h, k, v, n, tie, q) == None
    decreases h
  {
    hide Descend, AllKeys, Clash, Promoted, Less, Split, Size, Lookup;
    DescendsInto(t, h, k, n, tie);
    DescendTies(t, h, k, n, tie);
    DescendRanged(t, h, k, n, tie, Strict);
    var (t1, j, n1) := Descend(t, h, k, n, tie);
    var i := Route(t.keys, k);
    if CutHere(t, k, q) {
      NotInLeftHalf(t.kids[i], n, q);
      NotFound(Split(t.kids[i], n).0, q);
      if j == i {
        AttemptAnswers(t1.kids[j], h - 1, k, v, n1, tie, Strict, q);
        if CutOff(t1.kids[j], h - 1, k, v, n1, tie, q) {
          CutIsLost(t1.kids[j], h - 1, k, v, n1, tie, q);
        }
      }
    } else {
      CutIsLost(t1.kids[j], h - 1, k, v, n1, tie, q);
    }
  }

  lemma NotFound(t: Tree, q: Key)
    requires q !in AllKeys(t)
    ensures Lookup(t, q) == None
  {
    hide AllKeys, Lookup;
    if Lookup(t, q).Some? {
      FoundIsKey(t, q);
    }
  }

  // ------------------------------------------------------------ entry sizes

  lemma UnsavedSmall(t: Tree, i: nat, n: nat, j: nat, c: Tree, e: nat, d: nat)
    requires t.Branch? && i < |t.kids| && (j != i ==> Splittable(t.kids[i])) && Small(t, e, d) && (j == i ==> Small(c, e, d))
    ensures Small(Unsaved(t, i, n, j, c), e, d)
  {
    hide Split;
    if j != i {
      SplitSmall(t.kids[i], n, e, d);
    }
  }

  lemma {:induction false} AttemptSmall(t: Tree, h: nat, k: Key, v: Val, n: nat, tie: Tie, e: nat, d: nat)
    requires Shape(t, h) && Small(t, e, d) && 16 + |k| + |v| <= e && 12 + |k| <= d
    ensures Small(Attempt(t, h, k, v, n, tie).tree, e, d)
    decreases h
  {
    hide Descend, LeafInsert, Unsaved, Size;
    if t.Leaf? {
      LeafInsertSmall(t, k, v, e, d);
    } else {
      DescendSmall(t, h, k, n, tie, e, d);
      DescendsInto(t, h, k, n, tie);
      var (t1, j, n1) := Descend(t, h, k, n, tie);
      AttemptSmall(t1.kids[j], h - 1, k, v, n1, tie, e, d);
      UnsavedSmall(t, Route(t.keys, k), n, j, Attempt(t1.kids[j], h - 1, k, v, n1, tie).tree, e, d);
    }
  }

  // ------------------------------------------------------ whole attempts

  lemma SplitTidy(c: Tree, n: nat)
    requires Splittable(c) && Tidy(c)
    ensures Tidy(Split(c, n).0) && Tidy(Split(c, n).2)
  {
  }

  /** What an attempt keeps of the tree in the file: shape, page fit, distinct pages, links to existing pages. */
  lemma AttemptInsertKeeps(t: Tree, h: nat, k: Key, v: Val, n: nat, tie: Tie)
    requires Shape(t, h) && Fits(t) && Proper(t) && LinksBelow(t, n)
    requires forall x :: x in Ids(t) ==> x < n
    ensures var r := AttemptInsert(t, h, k, v, n, tie);
      && Shape(r.tree, NewHeight(t, h)) && Fits(r.tree) && LinksBelow(r.tree, r.pages)
      && UsesAtMost(t, r.tree, n, r.pages) && r.pages <= n + h + 3
  {
    hide Attempt, GrowRoot, Fits, Size, LinksBelow, Proper, Ids, UsesPages, UsesAtMost;
    if Full(t) {
      var g := GrowRoot(t, h, n);
      GrownFits(t, h, n);
      GrownLinks(t, h, n);
      GrowRootPages(t, h, n);
      PagesGiven(t, g, n, n + 2);
      AttemptShape(g, h + 1, k, v, n + 2, tie);
      AttemptFits(g, h + 1, k, v, n + 2, tie);
      AttemptLinks(g, h + 1, k, v, n + 2, tie);
      AttemptPages(g, h + 1, k, v, n + 2, tie);
      ExactIsAtMost(t, g, n, n + 2);
      var r := Attempt(g, h + 1, k, v, n + 2, tie);
      UsesAtMostThen(t, g, r.tree, n, n + 2, r.pages);
    } else {
      AttemptShape(t, h, k, v, n, tie);
      AttemptFits(t, h, k, v, n, tie);
      AttemptLinks(t, h, k, v, n, tie);
      AttemptPages(t, h, k, v, n, tie);
    }
  }

  /** The new value was saved where a search for its key arrives. */
  ghost predicate SavedAtInsert(t: Tree, h: nat, k: Key, v: Val, n: nat, tie: Tie)
    requires Shape(t, h)
  {
    if Full(t) then Saved(GrowRoot(t, h, n), h + 1, k, v, n + 2, tie) else Saved(t, h, k, v, n, tie)
  }

  ghost predicate CutAtInsert(t: Tree, h: nat, k: Key, v: Val, n: nat, tie: Tie, q: Key)
    requires Shape(t, h)
  {
    if Full(t) then CutOff(GrowRoot(t, h, n), h + 1, k, v, n + 2, tie, q) else CutOff(t, h, k, v, n, tie, q)
  }

  ghost function CutAnswerAtInsert(t: Tree, h: nat, k: Key, v: Val, n: nat, tie: Tie, q: Key): Option<Val>
    requires Shape(t, h)
  {
    if Full(t) then CutAnswer(GrowRoot(t, h, n), h + 1, k, v, n + 2, tie, q) else CutAnswer(t, h, k, v, n, tie, q)
  }

  /** Ranges survive a whole attempt, so every node stays sorted, whether it succeeds or fails. */
  lemma AttemptInsertRanged(t: Tree, h: nat, k: Key, v: Val, n: nat, tie: Tie, o: Order)
    requires Shape(t, h) && Ranged(t, o) && !MeetsClashAtInsert(t, h, k, n, tie)
    requires o.Weak? || tie.EqualGoesRight? || !MeetsPromotedAtInsert(t, h, k, n)
    ensures Ranged(AttemptInsert(t, h, k, v, n, tie).tree, o) && Tidy(AttemptInsert(t, h, k, v, n, tie).tree)
  {
    hide Attempt, GrowRoot, Size, Ranged, Tidy, AllKeys, Lookup, Shape;
    if Full(t) {
      GrowRootRanged(t, h, n, o);
      AttemptRanged(GrowRoot(t, h, n), h + 1, k, v, n + 2, tie, o);
    } else {
      AttemptRanged(t, h, k, v, n, tie, o);
    }
    RangedIsTidy(AttemptInsert(t, h, k, v, n, tie).tree, o);
  }

  /** Every answer after a whole attempt, for every key. */
  lemma AttemptInsertAnswers(t: Tree, h: nat, k: Key, v: Val, n: nat, tie: Tie, o: Order, q: Key)
    requires Shape(t, h) && Ranged(t, o) && !MeetsClashAtInsert(t, h, k, n, tie)
    ensures Lookup(AttemptInsert(t, h, k, v, n, tie).tree, q) ==
      if q == k && SavedAtInsert(t, h, k, v, n, tie) then Some(v)
      else if CutAtInsert(t, h, k, v, n, tie, q) then CutAnswerAtInsert(t, h, k, v, n, tie, q)
      else Lookup(t, q)
  {
    hide Attempt, GrowRoot, Size, Ranged, AllKeys, Lookup, Shape, Saved, CutOff, CutAnswer;
    if Full(t) {
      GrowRootRanged(t, h, n, o);
      AttemptAnswers(GrowRoot(t, h, n), h + 1, k, v, n + 2, tie, o, q);
    } else {
      AttemptAnswers(t, h, k, v, n, tie, o, q);
    }
  }

  /**
   * Without dead copies: after an attempt a key is answered with its new value
   * if that was saved, not at all if it was cut off, and as before otherwise.
   */
  lemma FailureLosesRightHalves(t: Tree, h: nat, k: Key, v: Val, n: nat, tie: Tie, q: Key)
    requires Shape(t, h) && Ranged(t, Strict) && !MeetsClashAtInsert(t, h, k, n, tie)
    ensures Lookup(AttemptInsert(t, h, k, v, n, tie).tree, q) ==
      if q == k && SavedAtInsert(t, h, k, v, n, tie) then Some(v)
      else if CutAtInsert(t, h, k, v, n, tie, q) then None
      else Lookup(t, q)
  {
    hide Attempt, GrowRoot, Size, Ranged, AllKeys, Lookup, Shape, Saved, CutOff, CutAnswer;
    AttemptInsertAnswers(t, h, k, v, n, tie, Strict, q);
    if CutAtInsert(t, h, k, v, n, tie, q) && !(q == k && SavedAtInsert(t, h, k, v, n, tie)) {
      if Full(t) {
        GrowRootRanged(t, h, n, Strict);
        CutIsLost(GrowRoot(t, h, n), h + 1, k, v, n + 2, tie, q);
      } else {
        CutIsLost(t, h, k, v, n, tie, q);
      }
    }
  }

  /** A successful attempt cuts nothing off, and saves the value unless it met the promoted copy. */
  lemma SuccessSaves(t: Tree, h: nat, k: Key, v: Val, n: nat, tie: Tie, q: Key)
    requires Shape(t, h) && AttemptInsert(t, h, k, v, n, tie).ok
    ensures SavedAtInsert(t, h, k, v, n, tie) <==> tie.EqualGoesRight? || !MeetsPromotedAtInsert(t, h, k, n)
    ensures !CutAtInsert(t, h, k, v, n, tie, q)
  {
    hide Attempt, GrowRoot, Size, MeetsPromoted;
  }

  /** A run of attempts, each dropped if it fails. */
  function Drained(r: Run, tie: Tie): (s: Store)
    ensures Shape(s.tree, s.height)
  {
    match r
    case Start => EMPTY_STORE
    case Then(before, k, v) =>
      var s := Drained(before, tie);
      DrainedShape(s, k, v, tie);
      DrainStep(s, k, v, tie)
  }

  function DrainStep(s: Store, k: Key, v: Val, tie: Tie): Store
    requires Shape(s.tree, s.height)
  {
    var r := AttemptInsert(s.tree, s.height, k, v, s.pages, tie);
    Store(r.tree, NewHeight(s.tree, s.height), r.pages)
  }

  lemma DrainedShape(s: Store, k: Key, v: Val, tie: Tie)
    requires Shape(s.tree, s.height)
    ensures var s' := DrainStep(s, k, v, tie); Shape(s'.tree, s'.height)
  {
    hide Attempt, GrowRoot, Size;
    if Full(s.tree) {
      AttemptShape(GrowRoot(s.tree, s.height, s.pages), s.height + 1, k, v, s.pages + 2, tie);
    } else {
      AttemptShape(s.tree, s.height, k, v, s.pages, tie);
    }
  }

  /** While everything fits, attempts are insertions. */
  lemma {:induction false} DrainedIsApply(r: Run, tie: Tie)
    requires AllFit(r, tie)
    ensures Drained(r, tie) == Apply(r, tie)
  {
    if r.Then? {
      hide Fits, Insert, AttemptInsert;
      DrainedIsApply(r.before, tie);
      var s := Apply(r.before, tie);
      BeforeFits(r, tie);
      AttemptInsertIsInsertion(s.tree, s.height, r.key, r.val, s.pages, tie);
    }
  }

  lemma BeforeFits(r: Run, tie: Tie)
    requires AllFit(r, tie) && r.Then?
    ensures Fits(Apply(r.before, tie).tree)
  {
  }

  /** Entries of cost at most 3039 stay so, whatever fails. */
  lemma {:induction false} DrainedSmall(r: Run, tie: Tie)
    requires Costs(r, ENTRY_LIMIT, ENTRY_LIMIT)
    ensures Small(Drained(r, tie).tree, ENTRY_LIMIT, ENTRY_LIMIT)
  {
    if r.Then? {
      hide Small, Attempt, GrowRoot, Size;
      DrainedSmall(r.before, tie);
      var s := Drained(r.before, tie);
      if Full(s.tree) {
        MovedSmall(s.tree, s.height, s.pages);
        AttemptSmall(GrowRoot(s.tree, s.height, s.pages), s.height + 1, r.key, r.val, s.pages + 2, tie, ENTRY_LIMIT, ENTRY_LIMIT);
      } else {
        AttemptSmall(s.tree, s.height, r.key, r.val, s.pages, tie, ENTRY_LIMIT, ENTRY_LIMIT);
      }
    } else {
      EmptyIsSmall();
    }
  }

  lemma EmptyIsSmall()
    ensures Small(EMPTY_STORE.tree, ENTRY_LIMIT, ENTRY_LIMIT)
  {
  }
}
