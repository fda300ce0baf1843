/** The page graph of the tree: every page reached once, and the leaf chain in key order. */
module TreePages {
  import opened Keys
  import opened Trees

  ghost function Ids(t: Tree): set<nat> {
    match t
    case Leaf(id, _, _, _) => {id}
    case Branch(id, _, kids) => {id} + set i, x | 0 <= i < |kids| && x in Ids(kids[i]) :: x
  }

  /** No page is reached twice. */
  ghost predicate Proper(t: Tree) {
    t.Branch? ==>
      && (forall i :: 0 <= i < |t.kids| ==> Proper(t.kids[i]) && t.id !in Ids(t.kids[i]))
      && (forall i, j :: 0 <= i < j < |t.kids| ==> Ids(t.kids[i]) !! Ids(t.kids[j]))
  }

  function FirstLeaf(t: Tree): nat {
    if t.Leaf? || t.kids == [] then t.id else FirstLeaf(t.kids[0])
  }

  /** Each leaf links to the next leaf in order; the last one of t links to nxt. */
  ghost predicate Chained(t: Tree, nxt: Option<nat>) {
    match t
    case Leaf(_, _, _, next) => next == nxt
    case Branch(_, _, kids) => forall i :: 0 <= i < |kids| ==> Chained(kids[i], LinkAfter(kids, i, nxt))
  }

  ghost function LinkAfter(kids: seq<Tree>, i: nat, nxt: Option<nat>): Option<nat>
    requires i < |kids|
  {
    if i + 1 < |kids| then Some(FirstLeaf(kids[i + 1])) else nxt
  }

  ghost function Range(a: nat, b: nat): (s: set<nat>)
    ensures forall x :: x in s <==> a <= x < b
  {
    if a >= b then {} else Range(a, b - 1) + {b - 1}
  }

  lemma InIds(t: Tree, i: nat, x: nat)
    requires t.Branch? && i < |t.kids| && x in Ids(t.kids[i])
    ensures x in Ids(t)
  {
  }

  lemma IdsHasKid(t: Tree, x: nat) returns (i: nat)
    requires t.Branch? && x in Ids(t) && x != t.id
    ensures i < |t.kids| && x in Ids(t.kids[i])
  {
    i :| 0 <= i < |t.kids| && x in Ids(t.kids[i]);
  }

  lemma OwnId(t: Tree)
    ensures t.id in Ids(t)
  {
  }

  lemma KidIdsBelow(t: Tree, i: nat, n: nat)
    requires t.Branch? && i < |t.kids|
    requires forall x :: x in Ids(t) ==> x < n
    ensures forall x :: x in Ids(t.kids[i]) ==> x < n
  {
    forall x | x in Ids(t.kids[i])
      ensures x < n
    {
      InIds(t, i, x);
    }
  }

  lemma KidProper(t: Tree, i: nat)
    requires t.Branch? && i < |t.kids| && Proper(t)
    ensures Proper(t.kids[i])
  {
  }

  // ------------------------------------------------------------- one split

  /** The two halves use the pages of the split node and one new page, each once. */
  ghost predicate SplitsPages(c: Tree, l: Tree, r: Tree, n: nat) {
    && Proper(l) && Proper(r) && l.id == c.id
    && Ids(l) !! Ids(r)
    && Ids(l) + Ids(r) == Ids(c) + {n}
  }

  lemma SplitBranchIds(c: Tree, n: nat, x: nat)
    requires c.Branch? && Splittable(c)
    ensures x in Ids(c) + {n} <==> x in Ids(Split(c, n).0) || x in Ids(Split(c, n).2)
  {
    hide Ids, Split, Proper;
    var (l, m, r) := Split(c, n);
    var mid := |c.keys| / 2;
    SplitPagesAre(c, n);
    OwnId(c);
    OwnId(l);
    OwnId(r);
    SplitBranchKids(c, n, 0);
    if x in Ids(c) && x != c.id {
      var i := IdsHasKid(c, x);
      SplitBranchKids(c, n, i);
      if i <= mid {
        InIds(l, i, x);
      } else {
        InIds(r, i - mid - 1, x);
      }
    }
    if x in Ids(l) && x != c.id {
      var i := IdsHasKid(l, x);
      SplitBranchKids(c, n, i);
      InIds(c, i, x);
    }
    if x in Ids(r) && x != n {
      var i := IdsHasKid(r, x);
      SplitBranchKids(c, n, mid + 1 + i);
      InIds(c, mid + 1 + i, x);
    }
  }

  lemma SplitBranchProper(c: Tree, n: nat)
    requires c.Branch? && Splittable(c) && Proper(c) && n !in Ids(c)
    ensures Proper(Split(c, n).0) && Proper(Split(c, n).2)
  {
    hide Ids;
    var (l, m, r) := Split(c, n);
    var mid := |c.keys| / 2;
    assert forall i :: 0 <= i < |l.kids| ==> l.kids[i] == c.kids[i];
    assert forall i :: 0 <= i < |r.kids| ==> r.kids[i] == c.kids[mid + 1 + i];
    forall i | 0 <= i < |c.kids|
      ensures n !in Ids(c.kids[i])
    {
      if n in Ids(c.kids[i]) {
        InIds(c, i, n);
      }
    }
  }

  lemma UniqueKid(t: Tree, i: nat, j: nat, x: nat)
    requires t.Branch? && Proper(t) && i < |t.kids| && j < |t.kids| && x in Ids(t.kids[i]) && x in Ids(t.kids[j])
    ensures i == j
  {
  }

  lemma SplitBranchDisjoint(c: Tree, n: nat, x: nat)
    requires c.Branch? && Splittable(c) && Proper(c) && n !in Ids(c)
    ensures !(x in Ids(Split(c, n).0) && x in Ids(Split(c, n).2))
  {
    hide Ids, Split;
    var (l, m, r) := Split(c, n);
    var mid := |c.keys| / 2;
    SplitPagesAre(c, n);
    OwnId(c);
    SplitBranchKids(c, n, 0);
    if x in Ids(l) && x in Ids(r) && x != n {
      var j := IdsHasKid(r, x);
      var o: nat := mid + 1 + j;
      SplitBranchKids(c, n, o);
      if x != c.id {
        var i := IdsHasKid(l, x);
        SplitBranchKids(c, n, i);
        UniqueKid(c, i, o, x);
      }
    } else if x in Ids(l) && x != c.id {
      var i := IdsHasKid(l, x);
      SplitBranchKids(c, n, i);
      InIds(c, i, x);
    }
  }

  lemma SplitPages(c: Tree, n: nat)
    requires Splittable(c) && Proper(c) && n !in Ids(c)
    ensures SplitsPages(c, Split(c, n).0, Split(c, n).2, n)
  {
    if c.Branch? {
      hide Ids, Split, Proper;
      SplitPagesAre(c, n);
      SplitBranchProper(c, n);
      forall x
        ensures x in Ids(c) + {n} <==> x in Ids(Split(c, n).0) || x in Ids(Split(c, n).2)
        ensures !(x in Ids(Split(c, n).0) && x in Ids(Split(c, n).2))
      {
        SplitBranchIds(c, n, x);
        SplitBranchDisjoint(c, n, x);
      }
    }
  }

  lemma KidChained(t: Tree, i: nat, nxt: Option<nat>)
    requires t.Branch? && i < |t.kids| && Chained(t, nxt)
    ensures Chained(t.kids[i], LinkAfter(t.kids, i, nxt))
  {
  }

  lemma FirstLeafBelow(t: Tree)
    requires t.Branch? && t.kids != []
    ensures FirstLeaf(t) == FirstLeaf(t.kids[0])
  {
  }

  lemma AllChained(t: Tree, nxt: Option<nat>)
    requires t.Branch? && forall i :: 0 <= i < |t.kids| ==> Chained(t.kids[i], LinkAfter(t.kids, i, nxt))
    ensures Chained(t, nxt)
  {
  }

  lemma SplitBranchChained(c: Tree, n: nat, nxt: Option<nat>)
    requires c.Branch? && Splittable(c) && Chained(c, nxt)
    ensures var (l, m, r) := Split(c, n);
      Chained(l, Some(FirstLeaf(r))) && Chained(r, nxt) && FirstLeaf(l) == FirstLeaf(c)
  {
    hide Split, Chained, FirstLeaf;
    var (l, m, r) := Split(c, n);
    var mid := |c.keys| / 2;
    SplitBranchKids(c, n, 0);
    SplitBranchKids(c, n, mid + 1);
    FirstLeafBelow(c);
    FirstLeafBelow(l);
    FirstLeafBelow(r);
    forall i | 0 <= i < |l.kids|
      ensures Chained(l.kids[i], LinkAfter(l.kids, i, Some(FirstLeaf(r))))
    {
      SplitBranchKids(c, n, i);
      SplitBranchKids(c, n, i + 1);
      KidChained(c, i, nxt);
    }
    AllChained(l, Some(FirstLeaf(r)));
    forall i | 0 <= i < |r.kids|
      ensures Chained(r.kids[i], LinkAfter(r.kids, i, nxt))
    {
      SplitBranchKids(c, n, mid + 1 + i);
      if i + 1 < |r.kids| {
        SplitBranchKids(c, n, mid + 2 + i);
      }
      KidChained(c, mid + 1 + i, nxt);
    }
    AllChained(r, nxt);
  }

  /** The new right half is linked in between. */
  lemma SplitChained(c: Tree, h: nat, n: nat, nxt: Option<nat>)
    requires Shape(c, h) && Splittable(c) && Chained(c, nxt)
    ensures var (l, m, r) := Split(c, n);
      Chained(l, Some(FirstLeaf(r))) && Chained(r, nxt) && FirstLeaf(l) == FirstLeaf(c)
  {
    if c.Branch? {
      hide Split, Chained;
      SplitBranchChained(c, n, nxt);
    }
  }

  // ---------------------------------------------- a split inside its parent

  lemma SplitKidIds(t: Tree, i: nat, n: nat, x: nat)
    requires t.Branch? && |t.kids| == |t.keys| + 1 && i < |t.kids| && Splittable(t.kids[i])
    requires var (l, m, r) := Split(t.kids[i], n); Ids(l) + Ids(r) == Ids(t.kids[i]) + {n}
    ensures x in Ids(SplitKid(t, i, n)) <==> x in Ids(t) || x == n
  {
    hide Ids, Split, SplitKid;
    var (l, m, r) := Split(t.kids[i], n);
    var t1 := SplitKid(t, i, n);
    SplitKidNode(t, i, n);
    OwnId(t);
    OwnId(t1);
    if x == n {
      var j := if x in Ids(l) then i else i + 1;
      SplitKidAt(t, i, n, j);
      InIds(t1, j, x);
    } else if x != t.id {
      if x in Ids(t) {
        var j := IdsHasKid(t, x);
        var j1 := if j < i || (j == i && x in Ids(l)) then j else j + 1;
        SplitKidAt(t, i, n, j1);
        InIds(t1, j1, x);
      }
      if x in Ids(t1) {
        var j := IdsHasKid(t1, x);
        SplitKidAt(t, i, n, j);
        InIds(t, if j <= i then j else j - 1, x);
      }
    }
  }

  lemma SplitKidProper(t: Tree, i: nat, n: nat)
    requires t.Branch? && |t.kids| == |t.keys| + 1 && i < |t.kids| && Splittable(t.kids[i])
    requires Proper(t) && n !in Ids(t)
    requires var (l, m, r) := Split(t.kids[i], n); SplitsPages(t.kids[i], l, r, n)
    ensures Proper(SplitKid(t, i, n))
  {
    hide Ids, Split, SplitKid;
    var (l, m, r) := Split(t.kids[i], n);
    var t1 := SplitKid(t, i, n);
    SplitKidNode(t, i, n);
    OwnId(t);
    if n in Ids(t.kids[i]) {
      InIds(t, i, n);
    }
    forall j | 0 <= j < |t.kids|
      ensures n !in Ids(t.kids[j])
    {
      if n in Ids(t.kids[j]) {
        InIds(t, j, n);
      }
    }
    forall j | 0 <= j < |t1.kids|
      ensures Proper(t1.kids[j]) && t.id !in Ids(t1.kids[j])
    {
      SplitKidAt(t, i, n, j);
    }
    forall j, j' | 0 <= j < j' < |t1.kids|
      ensures Ids(t1.kids[j]) !! Ids(t1.kids[j'])
    {
      SplitKidAt(t, i, n, j);
      SplitKidAt(t, i, n, j');
      if !(j == i && j' == i + 1) {
        assert Ids(t.kids[if j <= i then j else j - 1]) !! Ids(t.kids[if j' <= i then j' else j' - 1]);
      }
    }
  }

  lemma SplitKidChained(t: Tree, h: nat, i: nat, n: nat, nxt: Option<nat>)
    requires Shape(t, h) && t.Branch? && i < |t.kids| && Splittable(t.kids[i]) && Chained(t, nxt)
    ensures Chained(SplitKid(t, i, n), nxt) && FirstLeaf(SplitKid(t, i, n)) == FirstLeaf(t)
  {
    hide Split, SplitKid, Chained, FirstLeaf;
    var (l, m, r) := Split(t.kids[i], n);
    var t1 := SplitKid(t, i, n);
    SplitKidNode(t, i, n);
    KidChained(t, i, nxt);
    SplitChained(t.kids[i], h - 1, n, LinkAfter(t.kids, i, nxt));
    forall j | 0 <= j < |t1.kids|
      ensures Chained(t1.kids[j], LinkAfter(t1.kids, j, nxt))
    {
      SplitKidAt(t, i, n, j);
      if j + 1 < |t1.kids| {
        SplitKidAt(t, i, n, j + 1);
      }
      KidChained(t, if j <= i then j else j - 1, nxt);
    }
    AllChained(t1, nxt);
    SplitKidAt(t, i, n, 0);
    FirstLeafBelow(t);
    FirstLeafBelow(t1);
  }

  // ------------------------------------------------------------- insertion

  /** Page use of an insertion starting at free page n and ending at n1. */
  ghost predicate UsesPages(t: Tree, t': Tree, n: nat, n': nat) {
    Proper(t') && t'.id == t.id && n <= n' && Ids(t') == Ids(t) + Range(n, n')
  }

  lemma ReplaceKidIds(t: Tree, j: nat, c: Tree, n: nat, n': nat, x: nat)
    requires t.Branch? && j < |t.kids| && Ids(c) == Ids(t.kids[j]) + Range(n, n')
    ensures x in Ids(t.(kids := t.kids[j := c])) <==> x in Ids(t) || n <= x < n'
  {
    hide Ids;
    var t' := t.(kids := t.kids[j := c]);
    OwnId(t);
    OwnId(t');
    if n <= x < n' {
      InIds(t', j, x);
    } else if x != t.id {
      if x in Ids(t) {
        var i := IdsHasKid(t, x);
        InIds(t', i, x);
      }
      if x in Ids(t') {
        var i := IdsHasKid(t', x);
        InIds(t, i, x);
      }
    }
  }

  lemma ReplaceKidPages(t: Tree, j: nat, c: Tree, n: nat, n': nat)
    requires t.Branch? && j < |t.kids| && Proper(t)
    requires forall x :: x in Ids(t) ==> x < n
    requires UsesPages(t.kids[j], c, n, n')
    ensures UsesPages(t, t.(kids := t.kids[j := c]), n, n')
  {
    hide Ids;
    var t' := t.(kids := t.kids[j := c]);
    OwnId(t);
    forall i, x | 0 <= i < |t.kids| && x in Ids(t.kids[i])
      ensures x < n
    {
      InIds(t, i, x);
    }
    forall i, i' | 0 <= i < i' < |t'.kids|
      ensures Ids(t'.kids[i]) !! Ids(t'.kids[i'])
    {
      assert Ids(t.kids[i]) !! Ids(t.kids[i']);
    }
    assert forall i :: 0 <= i < |t'.kids| ==> Proper(t'.kids[i]) && t.id !in Ids(t'.kids[i]);
    forall x: nat
      ensures x in Ids(t') <==> x in Ids(t) || n <= x < n'
    {
      ReplaceKidIds(t, j, c, n, n', x);
    }
  }

  lemma UsesPagesThen(t: Tree, t1: Tree, t2: Tree, n: nat, n1: nat, n2: nat)
    requires UsesPages(t, t1, n, n1) && UsesPages(t1, t2, n1, n2)
    ensures UsesPages(t, t2, n, n2)
  {
  }

  lemma SplitKidPages(t: Tree, h: nat, i: nat, n: nat)
    requires Shape(t, h) && t.Branch? && i < |t.kids| && Splittable(t.kids[i])
    requires Proper(t)
    requires forall x :: x in Ids(t) ==> x < n
    ensures UsesPages(t, SplitKid(t, i, n), n, n + 1)
  {
    hide Ids, Split, Proper;
    if n in Ids(t.kids[i]) {
      InIds(t, i, n);
    }
    KidProper(t, i);
    SplitPages(t.kids[i], n);
    SplitKidProper(t, i, n);
    var t1 := SplitKid(t, i, n);
    forall x
      ensures x in Ids(t1) <==> x in Ids(t) || x == n
    {
      SplitKidIds(t, i, n, x);
    }
  }

  lemma DescendPages(t: Tree, h: nat, k: Key, n: nat, tie: Tie)
    requires Shape(t, h) && t.Branch? && Proper(t)
    requires forall x :: x in Ids(t) ==> x < n
    ensures var (t1, j, n1) := Descend(t, h, k, n, tie); n1 <= n + 1 && UsesPages(t, t1, n, n1)
  {
    var i := Route(t.keys, k);
    if Full(t.kids[i]) {
      FullIsSplittable(t.kids[i], h - 1);
      SplitKidPages(t, h, i, n);
    }
  }

  /** Page use of one level: making room, then replacing the child entered. */
  lemma LevelPages(t: Tree, t1: Tree, j: nat, c: Tree, n: nat, n1: nat, n2: nat)
    requires t1.Branch? && j < |t1.kids| && UsesPages(t, t1, n, n1)
    requires forall x :: x in Ids(t1) ==> x < n1
    requires UsesPages(t1.kids[j], c, n1, n2)
    ensures UsesPages(t, t1.(kids := t1.kids[j := c]), n, n2)
  {
    ReplaceKidPages(t1, j, c, n1, n2);
  }

  /** An insertion keeps the page graph a proper tree, takes only fresh pages, and at most one per level. */
  lemma {:induction false} InsertNonFullPages(t: Tree, h: nat, k: Key, v: Val, n: nat, tie: Tie)
    requires Shape(t, h) && Proper(t)
    requires forall x :: x in Ids(t) ==> x < n
    ensures var (t', n') := InsertNonFull(t, h, k, v, n, tie); UsesPages(t, t', n, n') && n' <= n + h
    decreases h
  {
    hide Descend, SplitKid, Split, Full, Chained;
    if t.Branch? {
      DescendPages(t, h, k, n, tie);
      var (t1, j, n1) := Descend(t, h, k, n, tie);
      KidIdsBelow(t1, j, n1);
      KidProper(t1, j);
      InsertNonFullPages(t1.kids[j], h - 1, k, v, n1, tie);
      var (c, n2) := InsertNonFull(t1.kids[j], h - 1, k, v, n1, tie);
      LevelPages(t, t1, j, c, n, n1, n2);
    }
  }

  lemma ReplaceKidChained(t: Tree, j: nat, c: Tree, nxt: Option<nat>)
    requires t.Branch? && j < |t.kids| && Chained(t, nxt)
    requires Chained(c, LinkAfter(t.kids, j, nxt)) && FirstLeaf(c) == FirstLeaf(t.kids[j])
    ensures var t' := t.(kids := t.kids[j := c]); Chained(t', nxt) && FirstLeaf(t') == FirstLeaf(t)
  {
    var kids := t.kids[j := c];
    forall o | 0 <= o < |kids|
      ensures Chained(kids[o], LinkAfter(kids, o, nxt))
    {
      assert LinkAfter(kids, o, nxt) == LinkAfter(t.kids, o, nxt);
      assert Chained(t.kids[o], LinkAfter(t.kids, o, nxt));
    }
  }

  lemma DescendChained(t: Tree, h: nat, k: Key, n: nat, tie: Tie, nxt: Option<nat>)
    requires Shape(t, h) && t.Branch? && Chained(t, nxt)
    ensures var t1 := Descend(t, h, k, n, tie).0; Chained(t1, nxt) && FirstLeaf(t1) == FirstLeaf(t)
  {
    var i := Route(t.keys, k);
    if Full(t.kids[i]) {
      FullIsSplittable(t.kids[i], h - 1);
      SplitKidChained(t, h, i, n, nxt);
    }
  }

  /** An insertion keeps the leaf chain in tree order. */
  lemma {:induction false} InsertNonFullChained(t: Tree, h: nat, k: Key, v: Val, n: nat, tie: Tie, nxt: Option<nat>)
    requires Shape(t, h) && Chained(t, nxt)
    ensures var t' := InsertNonFull(t, h, k, v, n, tie).0; Chained(t', nxt) && FirstLeaf(t') == FirstLeaf(t)
    decreases h
  {
    hide Descend, SplitKid, Split, Full;
    if t.Branch? {
      DescendChained(t, h, k, n, tie, nxt);
      var (t1, j, n1) := Descend(t, h, k, n, tie);
      assert Chained(t1.kids[j], LinkAfter(t1.kids, j, nxt));
      InsertNonFullChained(t1.kids[j], h - 1, k, v, n1, tie, LinkAfter(t1.kids, j, nxt));
      ReplaceKidChained(t1, j, InsertNonFull(t1.kids[j], h - 1, k, v, n1, tie).0, nxt);
    }
  }

  // ---------------------------------------------------- following the chain

  /** The leaves from left to right. */
  ghost function Leaves(t: Tree): (ls: seq<Tree>)
    decreases t, 1
  {
    if t.Leaf? then [t] else LeavesOf(t.kids)
  }

  ghost function LeavesOf(kids: seq<Tree>): seq<Tree>
    decreases kids, 0
  {
    if kids == [] then [] else Leaves(kids[0]) + LeavesOf(kids[1..])
  }

  /** ls is a run of leaves in which each links to its successor and the last to nxt. */
  ghost predicate IsChain(ls: seq<Tree>, nxt: Option<nat>) {
    forall i :: 0 <= i < |ls| ==> LinksOn(ls, i, nxt)
  }

  ghost predicate LinksOn(ls: seq<Tree>, i: nat, nxt: Option<nat>)
    requires i < |ls|
  {
    ls[i].Leaf? && ls[i].next == if i + 1 < |ls| then Some(ls[i + 1].id) else nxt
  }

  lemma ChainConcat(a: seq<Tree>, b: seq<Tree>, nxt: Option<nat>)
    requires b != [] && IsChain(a, Some(b[0].id)) && IsChain(b, nxt)
    ensures IsChain(a + b, nxt)
  {
    var ls := a + b;
    forall i | 0 <= i < |ls|
      ensures LinksOn(ls, i, nxt)
    {
      if i < |a| {
        assert LinksOn(a, i, Some(b[0].id));
        assert ls[i + 1] == if i + 1 < |a| then a[i + 1] else b[0];
      } else {
        assert LinksOn(b, i - |a|, nxt);
      }
    }
  }

  /** Following next_leaf from the leftmost leaf visits the leaves in tree order and ends after the last. */
  lemma {:induction false} ChainIsInOrder(t: Tree, h: nat, nxt: Option<nat>)
    requires Shape(t, h) && Chained(t, nxt)
    ensures IsChain(Leaves(t), nxt) && Leaves(t) != [] && Leaves(t)[0].id == FirstLeaf(t)
    decreases t, 1
  {
    if t.Branch? {
      ForestChainIsInOrder(t.kids, h - 1, nxt);
    }
  }

  lemma {:induction false} ForestChainIsInOrder(kids: seq<Tree>, h: nat, nxt: Option<nat>)
    requires forall i :: 0 <= i < |kids| ==> Shape(kids[i], h) && Chained(kids[i], LinkAfter(kids, i, nxt))
    requires kids != []
    ensures IsChain(LeavesOf(kids), nxt) && LeavesOf(kids) != [] && LeavesOf(kids)[0].id == FirstLeaf(kids[0])
    decreases kids, 0
  {
    ChainIsInOrder(kids[0], h, LinkAfter(kids, 0, nxt));
    if |kids| == 1 {
      assert LeavesOf(kids) == Leaves(kids[0]);
    } else {
      var rest := kids[1..];
      forall i | 0 <= i < |rest|
        ensures Shape(rest[i], h) && Chained(rest[i], LinkAfter(rest, i, nxt))
      {
        assert LinkAfter(rest, i, nxt) == LinkAfter(kids, i + 1, nxt);
      }
      ForestChainIsInOrder(rest, h, nxt);
      ChainConcat(Leaves(kids[0]), LeavesOf(rest), nxt);
    }
  }
}
