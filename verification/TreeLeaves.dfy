/**
 * What an attempt leaves in the leaf pages. A leaf page is written as soon as
 * it changes, so the leaves are those of the tree with all splits made, even
 * where a parent was not saved and search cannot reach them any more.
 */
module TreeLeaves {
  import opened Keys
  import opened Trees
  import opened TreePages
  import opened TreeFailure

  ghost predicate LeafIn(t: Tree, x: Tree) {
    match t
    case Leaf(_, _, _, _) => t == x
    case Branch(_, _, kids) => exists i :: 0 <= i < |kids| && LeafIn(kids[i], x)
  }

  lemma {:induction false} LeafInIds(t: Tree, x: Tree)
    requires LeafIn(t, x)
    ensures x.Leaf? && x.id in Ids(t)
  {
    if t.Branch? {
      var i :| 0 <= i < |t.kids| && LeafIn(t.kids[i], x);
      LeafInIds(t.kids[i], x);
      InIds(t, i, x.id);
    }
  }

  lemma {:induction false} LeafInShape(t: Tree, h: nat, x: Tree)
    requires Shape(t, h) && LeafIn(t, x)
    ensures Shape(x, 0)
  {
    if t.Branch? {
      var i :| 0 <= i < |t.kids| && LeafIn(t.kids[i], x);
      LeafInShape(t.kids[i], h - 1, x);
    }
  }

  lemma InLeaves(t: Tree, i: nat, x: Tree)
    requires t.Branch? && i < |t.kids| && LeafIn(t.kids[i], x)
    ensures LeafIn(t, x)
  {
  }

  lemma LeafHasKid(t: Tree, x: Tree) returns (i: nat)
    requires t.Branch? && LeafIn(t, x)
    ensures i < |t.kids| && LeafIn(t.kids[i], x)
  {
    i :| 0 <= i < |t.kids| && LeafIn(t.kids[i], x);
  }

  /** A leaf is below only one child. */
  lemma LeafKidUnique(t: Tree, i: nat, j: nat, x: Tree, y: Tree)
    requires t.Branch? && Proper(t) && i < |t.kids| && j < |t.kids| && LeafIn(t.kids[i], x) && LeafIn(t.kids[j], y) && x.id == y.id
    ensures i == j
  {
    hide Ids, LeafIn;
    LeafInIds(t.kids[i], x);
    LeafInIds(t.kids[j], y);
    UniqueKid(t, i, j, x.id);
  }

  // ------------------------------------------------------- parts of a tree

  /** The tree a has the pages of s, some of its children left out. */
  ghost predicate PartOf(a: Tree, s: Tree) {
    match a
    case Leaf(_, _, _, _) => a == s
    case Branch(id, _, kids) =>
      s.Branch? && id == s.id && forall o :: 0 <= o < |kids| ==> PartOfSome(kids[o], s.kids)
  }

  ghost predicate PartOfSome(a: Tree, kids: seq<Tree>) {
    exists m :: 0 <= m < |kids| && PartOf(a, kids[m])
  }

  lemma {:induction false} PartOfItself(t: Tree)
    ensures PartOf(t, t)
  {
    if t.Branch? {
      forall o | 0 <= o < |t.kids|
        ensures PartOfSome(t.kids[o], t.kids)
      {
        PartOfItself(t.kids[o]);
      }
    }
  }

  lemma PartHasKid(a: Tree, s: Tree, o: nat) returns (m: nat)
    requires PartOf(a, s) && a.Branch? && o < |a.kids|
    ensures s.Branch? && m < |s.kids| && PartOf(a.kids[o], s.kids[m])
  {
    assert PartOfSome(a.kids[o], s.kids);
    m :| 0 <= m < |s.kids| && PartOf(a.kids[o], s.kids[m]);
  }

  lemma {:induction false} PartIds(a: Tree, s: Tree, x: nat)
    requires PartOf(a, s) && x in Ids(a)
    ensures x in Ids(s)
  {
    hide Ids, PartOf;
    if a.Branch? {
      PartNode(a, s);
      if x == a.id {
        OwnId(s);
      } else {
        var o := IdsHasKid(a, x);
        var m := PartHasKid(a, s, o);
        PartIds(a.kids[o], s.kids[m], x);
        InIds(s, m, x);
      }
    } else {
      PartLeaf(a, s);
    }
  }

  lemma PartNode(a: Tree, s: Tree)
    requires PartOf(a, s) && a.Branch?
    ensures s.Branch? && s.id == a.id
  {
  }

  lemma PartLeaf(a: Tree, s: Tree)
    requires PartOf(a, s) && a.Leaf?
    ensures a == s
  {
  }

  lemma {:induction false} PartLeaves(a: Tree, s: Tree, x: Tree)
    requires PartOf(a, s) && LeafIn(a, x)
    ensures LeafIn(s, x)
  {
    if a.Branch? {
      hide PartOf, LeafIn;
      PartNode(a, s);
      var o := LeafHasKid(a, x);
      var m := PartHasKid(a, s, o);
      PartLeaves(a.kids[o], s.kids[m], x);
      InLeaves(s, m, x);
    }
  }

  lemma NodeIsNoLeaf(s: Tree, x: Tree)
    requires Proper(s) && s.Branch? && LeafIn(s, x)
    ensures x.id != s.id
  {
    hide Ids;
    var i := LeafHasKid(s, x);
    LeafInIds(s.kids[i], x);
  }

  /** A leaf whose page the part reaches is in the part. */
  lemma {:induction false} PartHasLeaf(a: Tree, s: Tree, x: Tree)
    requires PartOf(a, s) && Proper(s) && LeafIn(s, x) && x.id in Ids(a)
    ensures LeafIn(a, x)
  {
    if a.Branch? {
      hide PartOf, LeafIn, Ids;
      PartNode(a, s);
      NodeIsNoLeaf(s, x);
      var o := IdsHasKid(a, x.id);
      var m := PartHasKid(a, s, o);
      PartIds(a.kids[o], s.kids[m], x.id);
      var i := LeafHasKid(s, x);
      LeafInIds(s.kids[i], x);
      UniqueKid(s, i, m, x.id);
      KidProper(s, m);
      PartHasLeaf(a.kids[o], s.kids[m], x);
      InLeaves(a, o, x);
    }
  }

  // -------------------------------------------------------- what was made

  /** The tree as if every parent had been saved: all splits made, and the entry in its leaf if that has room for it. */
  function Made(t: Tree, h: nat, k: Key, v: Val, n: nat, tie: Tie): Tree
    requires Shape(t, h)
    decreases h
  {
    if t.Leaf? then Attempt(t, h, k, v, n, tie).tree
    else
      var (t1, j, n1) := Descend(t, h, k, n, tie);
      t1.(kids := t1.kids[j := Made(t1.kids[j], h - 1, k, v, n1, tie)])
  }

  lemma {:induction false} MadePages(t: Tree, h: nat, k: Key, v: Val, n: nat, tie: Tie)
    requires Shape(t, h) && Proper(t)
    requires forall x :: x in Ids(t) ==> x < n
    ensures UsesPages(t, Made(t, h, k, v, n, tie), n, Attempt(t, h, k, v, n, tie).pages)
    decreases h
  {
    hide Descend, Split, Size, Ids, UsesPages;
    if t.Branch? {
      DescendPages(t, h, k, n, tie);
      var (t1, j, n1) := Descend(t, h, k, n, tie);
      PagesGiven(t, t1, n, n1);
      KidIdsBelow(t1, j, n1);
      KidProper(t1, j);
      MadePages(t1.kids[j], h - 1, k, v, n1, tie);
      LevelPages(t, t1, j, Made(t1.kids[j], h - 1, k, v, n1, tie), n, n1, Attempt(t1.kids[j], h - 1, k, v, n1, tie).pages);
    } else {
      LeafKeepsPage(t, Attempt(t, h, k, v, n, tie).tree, n);
    }
  }

  lemma LeafKeepsPage(t: Tree, t': Tree, n: nat)
    requires t.Leaf? && t'.Leaf? && t'.id == t.id
    ensures UsesPages(t, t', n, n)
  {
  }

  /** Once every parent is saved, that is the tree. */
  lemma {:induction false} SuccessIsMade(t: Tree, h: nat, k: Key, v: Val, n: nat, tie: Tie)
    requires Shape(t, h) && Attempt(t, h, k, v, n, tie).ok
    ensures Attempt(t, h, k, v, n, tie).tree == Made(t, h, k, v, n, tie)
    decreases h
  {
    hide Descend, Size, LeafInsert;
    if t.Branch? {
      var (t1, j, n1) := Descend(t, h, k, n, tie);
      SuccessIsMade(t1.kids[j], h - 1, k, v, n1, tie);
    }
  }

  lemma PartKid(a: Tree, kids: seq<Tree>, m: nat)
    requires m < |kids| && PartOf(a, kids[m])
    ensures PartOfSome(a, kids)
  {
  }

  lemma SavedPart(t1: Tree, j: nat, c: Tree, m: Tree)
    requires t1.Branch? && j < |t1.kids| && PartOf(c, m)
    ensures PartOf(t1.(kids := t1.kids[j := c]), t1.(kids := t1.kids[j := m]))
  {
    hide PartOfSome;
    var (a, s) := (t1.kids[j := c], t1.kids[j := m]);
    forall o | 0 <= o < |a|
      ensures PartOfSome(a[o], s)
    {
      PartOfItself(a[o]);
      PartKid(a[o], s, o);
    }
  }

  lemma UnsavedPart(t: Tree, h: nat, k: Key, n: nat, tie: Tie, c: Tree, m: Tree)
    requires Shape(t, h) && t.Branch? && PartOf(c, m)
    ensures var (t1, j, n1) := Descend(t, h, k, n, tie);
      var i := Route(t.keys, k);
      (j != i ==> Splittable(t.kids[i])) && PartOf(Unsaved(t, i, n, j, c), t1.(kids := t1.kids[j := m]))
  {
    hide PartOfSome, Descend, Split, SplitKid;
    DescendsInto(t, h, k, n, tie);
    var (t1, j, n1) := Descend(t, h, k, n, tie);
    var i := Route(t.keys, k);
    var (a, s) := (Unsaved(t, i, n, j, c).kids, t1.kids[j := m]);
    assert t1.id == t.id by {
      if Full(t.kids[i]) {
        SplitKidNode(t, i, n);
      }
    }
    forall o | 0 <= o < |a|
      ensures PartOfSome(a[o], s)
    {
      PartOfItself(a[o]);
      var at := if o <= i || !Full(t.kids[i]) then o else o + 1;
      if Full(t.kids[i]) {
        SplitKidNode(t, i, n);
        SplitKidAt(t, i, n, at);
      }
      PartKid(a[o], s, at);
    }
  }

  /** What search can reach after an attempt is part of what it made. */
  lemma {:induction false} AttemptIsPart(t: Tree, h: nat, k: Key, v: Val, n: nat, tie: Tie)
    requires Shape(t, h)
    ensures PartOf(Attempt(t, h, k, v, n, tie).tree, Made(t, h, k, v, n, tie))
    decreases h
  {
    hide Descend, Size, LeafInsert, Unsaved, PartOf;
    if t.Branch? {
      DescendsInto(t, h, k, n, tie);
      var (t1, j, n1) := Descend(t, h, k, n, tie);
      AttemptIsPart(t1.kids[j], h - 1, k, v, n1, tie);
      var (c, m) := (Attempt(t1.kids[j], h - 1, k, v, n1, tie).tree, Made(t1.kids[j], h - 1, k, v, n1, tie));
      SavedPart(t1, j, c, m);
      UnsavedPart(t, h, k, n, tie, c, m);
    } else {
      PartOfItself(Attempt(t, h, k, v, n, tie).tree);
    }
  }

  // ------------------------------------------------------- the leaf touched

  /** The leaf that the attempt arrives at, before it is split. */
  ghost function Touched(t: Tree, h: nat, k: Key, n: nat, tie: Tie): Tree
    requires Shape(t, h)
    decreases h
  {
    if t.Leaf? then t
    else
      var (t1, j, n1) := Descend(t, h, k, n, tie);
      var c := t.kids[Route(t.keys, k)];
      if Full(c) && c.Leaf? then c else Touched(t1.kids[j], h - 1, k, n1, tie)
  }

  /** The leaves that are in its place afterwards. */
  ghost function NewLeaves(t: Tree, h: nat, k: Key, v: Val, n: nat, tie: Tie): seq<Tree>
    requires Shape(t, h)
    decreases h
  {
    if t.Leaf? then [Made(t, h, k, v, n, tie)]
    else
      var (t1, j, n1) := Descend(t, h, k, n, tie);
      var i := Route(t.keys, k);
      var c := t.kids[i];
      if Full(c) && c.Leaf? then
        DescendsInto(t, h, k, n, tie);
        var m := Made(t1.kids[j], h - 1, k, v, n1, tie);
        if j == i then [m, Split(c, n).2] else [Split(c, n).0, m]
      else NewLeaves(t1.kids[j], h - 1, k, v, n1, tie)
  }

  /** The entry was put into its leaf and the leaf was saved. */
  ghost predicate LeafSaved(t: Tree, h: nat, k: Key, v: Val, n: nat, tie: Tie)
    requires Shape(t, h)
    decreases h
  {
    if t.Leaf? then Attempt(t, h, k, v, n, tie).ok
    else
      var (t1, j, n1) := Descend(t, h, k, n, tie);
      LeafSaved(t1.kids[j], h - 1, k, v, n1, tie)
  }

  lemma {:induction false} TouchedIsLeaf(t: Tree, h: nat, k: Key, n: nat, tie: Tie)
    requires Shape(t, h)
    ensures LeafIn(t, Touched(t, h, k, n, tie))
    decreases h
  {
    hide Descend, LeafIn, Split;
    if t.Branch? {
      DescendsInto(t, h, k, n, tie);
      var (t1, j, n1) := Descend(t, h, k, n, tie);
      var i := Route(t.keys, k);
      var c := t.kids[i];
      if Full(c) && c.Leaf? {
        LeafInItself(c);
        InLeaves(t, i, c);
      } else {
        var u := Touched(t1.kids[j], h - 1, k, n1, tie);
        TouchedIsLeaf(t1.kids[j], h - 1, k, n1, tie);
        if Full(c) {
          SplitLeafIn(c, n, u);
        }
        InLeaves(t, i, u);
      }
    } else {
      LeafInItself(t);
    }
  }

  lemma LeafInItself(t: Tree)
    requires t.Leaf?
    ensures forall x :: LeafIn(t, x) <==> x == t
  {
  }

  /** Splitting an internal node moves leaves, but changes none. */
  lemma SplitLeafIn(c: Tree, n: nat, x: Tree)
    requires c.Branch? && Splittable(c)
    ensures LeafIn(c, x) <==> LeafIn(Split(c, n).0, x) || LeafIn(Split(c, n).2, x)
  {
    hide LeafIn, Split;
    var (l, m, r) := Split(c, n);
    var mid := |c.keys| / 2;
    SplitBranchKids(c, n, 0);
    if LeafIn(c, x) {
      var i := LeafHasKid(c, x);
      SplitBranchKids(c, n, i);
      if i <= mid {
        InLeaves(l, i, x);
      } else {
        InLeaves(r, i - mid - 1, x);
      }
    }
    if LeafIn(l, x) {
      var i := LeafHasKid(l, x);
      SplitBranchKids(c, n, i);
      InLeaves(c, i, x);
    }
    if LeafIn(r, x) {
      var i := LeafHasKid(r, x);
      SplitBranchKids(c, n, mid + 1 + i);
      InLeaves(c, mid + 1 + i, x);
    }
  }

  /** After a split the parent's leaves are those of its other children and of the two halves. */
  lemma SplitKidLeafIn(t: Tree, i: nat, n: nat, x: Tree)
    requires t.Branch? && |t.kids| == |t.keys| + 1 && i < |t.kids| && Splittable(t.kids[i])
    ensures LeafIn(SplitKid(t, i, n), x) <==>
      LeafElsewhere(t, i, x) || LeafIn(Split(t.kids[i], n).0, x) || LeafIn(Split(t.kids[i], n).2, x)
  {
    hide LeafIn, Split, SplitKid;
    var t1 := SplitKid(t, i, n);
    SplitKidNode(t, i, n);
    SplitKidAt(t, i, n, i);
    SplitKidAt(t, i, n, i + 1);
    if LeafIn(t1, x) {
      var o := LeafHasKid(t1, x);
      SplitKidAt(t, i, n, o);
      if o < i || o > i + 1 {
        var at := if o < i then o else o - 1;
        assert LeafIn(t.kids[at], x);
      }
    }
    if LeafElsewhere(t, i, x) {
      var o :| 0 <= o < |t.kids| && o != i && LeafIn(t.kids[o], x);
      SplitKidAt(t, i, n, if o < i then o else o + 1);
      InLeaves(t1, if o < i then o else o + 1, x);
    }
    if LeafIn(Split(t.kids[i], n).0, x) {
      InLeaves(t1, i, x);
    }
    if LeafIn(Split(t.kids[i], n).2, x) {
      InLeaves(t1, i + 1, x);
    }
  }

  /** A leaf below another child than i. */
  ghost predicate LeafElsewhere(t: Tree, i: nat, x: Tree)
    requires t.Branch?
  {
    exists o :: 0 <= o < |t.kids| && o != i && LeafIn(t.kids[o], x)
  }

  lemma LeafHereOrElsewhere(t: Tree, i: nat, x: Tree)
    requires t.Branch? && i < |t.kids|
    ensures LeafIn(t, x) <==> LeafElsewhere(t, i, x) || LeafIn(t.kids[i], x)
    ensures Proper(t) && LeafElsewhere(t, i, x) ==> forall y :: LeafIn(t.kids[i], y) ==> y.id != x.id
  {
    hide LeafIn, Proper;
    if LeafIn(t, x) {
      var o := LeafHasKid(t, x);
    }
    if LeafElsewhere(t, i, x) {
      var o :| 0 <= o < |t.kids| && o != i && LeafIn(t.kids[o], x);
      InLeaves(t, o, x);
      forall y | Proper(t) && LeafIn(t.kids[i], y)
        ensures y.id != x.id
      {
        if y.id == x.id {
          LeafKidUnique(t, i, o, y, x);
        }
      }
    }
    if LeafIn(t.kids[i], x) {
      InLeaves(t, i, x);
    }
  }

  lemma ReplaceLeafIn(t: Tree, j: nat, c: Tree, x: Tree)
    requires t.Branch? && j < |t.kids|
    ensures LeafIn(t.(kids := t.kids[j := c]), x) <==> LeafElsewhere(t, j, x) || LeafIn(c, x)
  {
    hide LeafIn;
    var t' := t.(kids := t.kids[j := c]);
    LeafHereOrElsewhere(t', j, x);
    if o :| 0 <= o < |t'.kids| && o != j && LeafIn(t'.kids[o], x) {
      assert LeafIn(t.kids[o], x);
    }
    if o :| 0 <= o < |t.kids| && o != j && LeafIn(t.kids[o], x) {
      assert LeafIn(t'.kids[o], x);
    }
  }

  /** One level up: replacing a child replaces the leaf touched below it. */
  lemma LeavesOneUp(t1: Tree, j: nat, c: Tree, u: Tree, news: seq<Tree>, x: Tree)
    requires t1.Branch? && j < |t1.kids| && Proper(t1) && LeafIn(t1.kids[j], u)
    requires LeafIn(c, x) <==> (LeafIn(t1.kids[j], x) && x != u) || x in news
    ensures LeafIn(t1.(kids := t1.kids[j := c]), x) <==> (LeafIn(t1, x) && x != u) || x in news
  {
    hide LeafIn, Proper;
    LeafHereOrElsewhere(t1, j, x);
    ReplaceLeafIn(t1, j, c, x);
  }

  /** A leaf child is split: the two halves, one of them with the entry, are in its place. */
  lemma LeavesOfSplit(t: Tree, i: nat, n: nat, j: nat, m: Tree, x: Tree)
    requires t.Branch? && |t.kids| == |t.keys| + 1 && i < |t.kids| && t.kids[i].Leaf? && Splittable(t.kids[i])
    requires Proper(t) && m.Leaf? && (j == i || j == i + 1) && j < |SplitKid(t, i, n).kids|
    ensures var (l, r) := (Split(t.kids[i], n).0, Split(t.kids[i], n).2);
      var news := if j == i then [m, r] else [l, m];
      LeafIn(SplitKid(t, i, n).(kids := SplitKid(t, i, n).kids[j := m]), x) <==> (LeafIn(t, x) && x != t.kids[i]) || x in news
  {
    hide LeafIn, Proper, Split, SplitKid;
    var (c, l, r) := (t.kids[i], Split(t.kids[i], n).0, Split(t.kids[i], n).2);
    var l' := if j == i then m else l;
    var r' := if j == i then r else m;
    SplitKidNode(t, i, n);
    var t' := SplitKid(t, i, n).(kids := SplitKid(t, i, n).kids[j := m]);
    HalvesAreLeaves(c, n);
    LeafInItself(c);
    LeafInItself(l');
    LeafInItself(r');
    LeafHereOrElsewhere(t, i, x);
    SplitKidAt(t, i, n, i);
    SplitKidAt(t, i, n, i + 1);
    if LeafIn(t', x) {
      var o := LeafHasKid(t', x);
      SplitKidAt(t, i, n, o);
      if o < i || o > i + 1 {
        var at := if o < i then o else o - 1;
        assert LeafIn(t.kids[at], x);
      }
    }
    if LeafElsewhere(t, i, x) {
      var o :| 0 <= o < |t.kids| && o != i && LeafIn(t.kids[o], x);
      var at := if o < i then o else o + 1;
      SplitKidAt(t, i, n, at);
      InLeaves(t', at, x);
    }
    if x == l' {
      InLeaves(t', i, x);
    }
    if x == r' {
      InLeaves(t', i + 1, x);
    }
  }

  lemma HalvesAreLeaves(c: Tree, n: nat)
    requires c.Leaf? && Splittable(c)
    ensures Split(c, n).0.Leaf? && Split(c, n).2.Leaf?
    ensures Split(c, n).0.id == c.id && Split(c, n).0.next == Some(n) && Split(c, n).2.id == n && Split(c, n).2.next == c.next
  {
  }

  /** A leaf stays in its page and keeps its link. */
  lemma MadeOfLeaf(t: Tree, k: Key, v: Val, n: nat, tie: Tie)
    requires Shape(t, 0) && t.Leaf?
    ensures var m := Made(t, 0, k, v, n, tie);
      && m == (if LeafSaved(t, 0, k, v, n, tie) then LeafInsert(t, k, v) else t)
      && m.Leaf? && m.id == t.id && m.next == t.next && Shape(m, 0)
  {
    hide Size;
  }

  /** A full internal child: the parent's leaves are the same after its split. */
  lemma DescendLeafIn(t: Tree, h: nat, k: Key, n: nat, tie: Tie, x: Tree)
    requires Shape(t, h) && t.Branch?
    requires var c := t.kids[Route(t.keys, k)]; !(Full(c) && c.Leaf?)
    ensures LeafIn(Descend(t, h, k, n, tie).0, x) <==> LeafIn(t, x)
  {
    hide LeafIn, Split, SplitKid, Descend;
    DescendsInto(t, h, k, n, tie);
    var i := Route(t.keys, k);
    if Full(t.kids[i]) {
      SplitKidLeafIn(t, i, n, x);
      SplitLeafIn(t.kids[i], n, x);
      LeafHereOrElsewhere(t, i, x);
    }
  }

  /** An attempt replaces the leaf it arrives at, and no other one. */
  lemma {:induction false} MadeLeaves(t: Tree, h: nat, k: Key, v: Val, n: nat, tie: Tie, x: Tree)
    requires Shape(t, h) && Proper(t)
    requires forall y :: y in Ids(t) ==> y < n
    ensures LeafIn(Made(t, h, k, v, n, tie), x) <==>
      (LeafIn(t, x) && x != Touched(t, h, k, n, tie)) || x in NewLeaves(t, h, k, v, n, tie)
    decreases h
  {
    hide LeafIn, Split, SplitKid, Descend, Ids, Proper, UsesPages, Attempt;
    if t.Branch? {
      DescendsInto(t, h, k, n, tie);
      DescendPages(t, h, k, n, tie);
      var (t1, j, n1) := Descend(t, h, k, n, tie);
      PagesGiven(t, t1, n, n1);
      KidIdsBelow(t1, j, n1);
      KidProper(t1, j);
      var i := Route(t.keys, k);
      if Full(t.kids[i]) && t.kids[i].Leaf? {
        HalvesAreLeaves(t.kids[i], n);
        MadeOfLeaf(t1.kids[j], k, v, n1, tie);
        LeavesOfSplit(t, i, n, j, Made(t1.kids[j], h - 1, k, v, n1, tie), x);
      } else {
        MadeLeaves(t1.kids[j], h - 1, k, v, n1, tie, x);
        TouchedIsLeaf(t1.kids[j], h - 1, k, n1, tie);
        DescendLeafIn(t, h, k, n, tie, x);
        LeavesOneUp(t1, j, Made(t1.kids[j], h - 1, k, v, n1, tie), Touched(t1.kids[j], h - 1, k, n1, tie),
          NewLeaves(t1.kids[j], h - 1, k, v, n1, tie), x);
      }
    } else {
      MadeOfLeaf(t, k, v, n, tie);
      LeafInItself(t);
      LeafInItself(Made(t, h, k, v, n, tie));
    }
  }

  /** The new leaves link to each other and on to where the old one did; the second, if any, is in a fresh page. */
  ghost predicate InPlaceOf(u: Tree, news: seq<Tree>, n: nat, n': nat) {
    && u.Leaf? && 1 <= |news| <= 2 && IsChain(news, u.next) && news[0].id == u.id
    && (|news| == 2 ==> n <= news[1].id < n')
    && forall i :: 0 <= i < |news| ==> Shape(news[i], 0)
  }

  lemma {:induction false} NewLeavesInPlace(t: Tree, h: nat, k: Key, v: Val, n: nat, tie: Tie)
    requires Shape(t, h)
    ensures InPlaceOf(Touched(t, h, k, n, tie), NewLeaves(t, h, k, v, n, tie), n, Attempt(t, h, k, v, n, tie).pages)
    decreases h
  {
    hide Split, SplitKid, Descend, Size, LeafInsert;
    if t.Branch? {
      DescendsInto(t, h, k, n, tie);
      var (t1, j, n1) := Descend(t, h, k, n, tie);
      var c := t.kids[Route(t.keys, k)];
      if Full(c) && c.Leaf? {
        HalvesInPlace(c, n, j == Route(t.keys, k), k, v, n1, tie);
      } else {
        NewLeavesInPlace(t1.kids[j], h - 1, k, v, n1, tie);
      }
    } else {
      MadeOfLeaf(t, k, v, n, tie);
    }
  }

  lemma HalvesInPlace(c: Tree, n: nat, left: bool, k: Key, v: Val, n1: nat, tie: Tie)
    requires c.Leaf? && Splittable(c) && Shape(c, 0)
    ensures var (l, r) := (Split(c, n).0, Split(c, n).2);
      && Shape(l, 0) && Shape(r, 0)
      && InPlaceOf(c, if left then [Made(l, 0, k, v, n1, tie), r] else [l, Made(r, 0, k, v, n1, tie)], n, n + 1)
  {
    hide Split, Made, InPlaceOf, Shape;
    SplitShape(c, 0, n);
    HalvesAreLeaves(c, n);
    var (l, r) := (Split(c, n).0, Split(c, n).2);
    MadeOfLeaf(l, k, v, n1, tie);
    MadeOfLeaf(r, k, v, n1, tie);
    if left {
      TwoInPlace(c, Made(l, 0, k, v, n1, tie), r, n, n + 1);
    } else {
      TwoInPlace(c, l, Made(r, 0, k, v, n1, tie), n, n + 1);
    }
  }

  lemma TwoInPlace(u: Tree, a: Tree, b: Tree, n: nat, n': nat)
    requires u.Leaf? && a.Leaf? && b.Leaf? && Shape(a, 0) && Shape(b, 0)
    requires a.id == u.id && a.next == Some(b.id) && b.next == u.next && n <= b.id < n'
    ensures InPlaceOf(u, [a, b], n, n')
  {
    var news := [a, b];
    assert LinksOn(news, 0, u.next) && LinksOn(news, 1, u.next);
  }
}
