/** Search order of the tree: what every insertion keeps, and what it does to lookups. */
module TreeOrder {
  import opened Keys
  import opened Trees

  /**
   * Whether a copy of a separator may be stored to its left. Search goes right
   * of an equal separator, so such a copy is dead: it is never found.
   */
  datatype Order = Strict | Weak

  predicate LeftOf(x: Key, m: Key, o: Order) {
    Less(x, m) || (o.Weak? && x == m)
  }

  ghost predicate Below(s: set<Key>, m: Key, o: Order) {
    forall x :: x in s ==> LeftOf(x, m, o)
  }

  ghost predicate From(m: Key, s: set<Key>) {
    forall x :: x in s ==> !Less(x, m)
  }

  /**
   * The search-tree invariant. Separator i is a key really stored in the
   * subtree to its right, and the least one there.
   */
  ghost predicate Ordered(t: Tree, o: Order) {
    && Sorted(t.keys)
    && (t.Branch? ==>
      && |t.kids| == |t.keys| + 1
      && (forall i :: 0 <= i < |t.kids| ==> Ordered(t.kids[i], o))
      && (forall i :: 0 <= i < |t.keys| ==> Separates(t, i, o)))
  }

  ghost predicate Separates(t: Tree, i: nat, o: Order)
    requires t.Branch? && |t.kids| == |t.keys| + 1 && i < |t.keys|
  {
    Below(KeySet(t.kids[i]), t.keys[i], o) && From(t.keys[i], KeySet(t.kids[i + 1])) && t.keys[i] in KeySet(t.kids[i + 1])
  }

  lemma {:induction false} StrictIsWeak(t: Tree)
    requires Ordered(t, Strict)
    ensures Ordered(t, Weak)
  {
    hide KeySet, Less;
    if t.Branch? {
      forall i | 0 <= i < |t.kids|
        ensures Ordered(t.kids[i], Weak)
      {
        StrictIsWeak(t.kids[i]);
      }
      forall i | 0 <= i < |t.keys|
        ensures Separates(t, i, Weak)
      {
        assert Separates(t, i, Strict);
      }
    }
  }

  // ------------------------------------------------------------- key sets

  lemma InKeySet(t: Tree, i: nat, x: Key)
    requires t.Branch? && i < |t.kids| && x in KeySet(t.kids[i])
    ensures x in KeySet(t)
  {
  }

  lemma KeyHasKid(t: Tree, x: Key) returns (i: nat)
    requires t.Branch? && x in KeySet(t)
    ensures i < |t.kids| && x in KeySet(t.kids[i])
  {
    i :| 0 <= i < |t.kids| && x in KeySet(t.kids[i]);
  }

  /** What separator j says about a key next to it. */
  lemma LeftSide(t: Tree, j: nat, x: Key, o: Order)
    requires t.Branch? && Ordered(t, o) && j < |t.keys| && x in KeySet(t.kids[j])
    ensures LeftOf(x, t.keys[j], o)
  {
    assert Separates(t, j, o);
  }

  lemma RightSide(t: Tree, j: nat, x: Key, o: Order)
    requires t.Branch? && Ordered(t, o) && j < |t.keys| && x in KeySet(t.kids[j + 1])
    ensures !Less(x, t.keys[j])
  {
    assert Separates(t, j, o);
  }

  lemma SeparatorStored(t: Tree, j: nat, o: Order)
    requires t.Branch? && Ordered(t, o) && j < |t.keys|
    ensures j + 1 < |t.kids| && t.keys[j] in KeySet(t.kids[j + 1])
  {
    assert Separates(t, j, o);
  }

  /** Each subtree lies between the separators around it, not just its own two. */
  lemma KidRange(t: Tree, i: nat, x: Key, o: Order)
    requires Ordered(t, o) && t.Branch? && i < |t.kids| && x in KeySet(t.kids[i])
    ensures forall j :: 0 <= j < i ==> !Less(x, t.keys[j])
    ensures forall j :: i <= j < |t.keys| ==> LeftOf(x, t.keys[j], o)
    ensures forall j :: i < j < |t.keys| ==> Less(x, t.keys[j])
  {
    hide Less, KeySet;
    if i > 0 {
      RightSide(t, i - 1, x, o);
      SortedAround(t.keys, x, i);
    }
    if i < |t.keys| {
      LeftSide(t, i, x, o);
      forall j | i < j < |t.keys|
        ensures Less(x, t.keys[j])
      {
        Transitive(x, t.keys[i], t.keys[j]);
      }
    }
  }

  /** A stored key is routed to a subtree that stores it. */
  lemma StoredKeyRoute(t: Tree, i: nat, x: Key, o: Order)
    requires Ordered(t, o) && t.Branch? && i < |t.kids| && x in KeySet(t.kids[i])
    ensures Route(t.keys, x) == i || (i < |t.keys| && x == t.keys[i] && Route(t.keys, x) == i + 1)
    ensures x in KeySet(t.kids[Route(t.keys, x)])
    ensures o.Strict? ==> Route(t.keys, x) == i
  {
    hide Less, KeySet;
    KidRange(t, i, x, o);
    if i < |t.keys| && x == t.keys[i] {
      Trichotomy(x, x);
      SeparatorStored(t, i, o);
      RouteIs(t.keys, x, i + 1);
    } else {
      RouteIs(t.keys, x, i);
    }
  }

  lemma {:induction false} OrderedIsTidy(t: Tree, o: Order)
    requires Ordered(t, o)
    ensures Tidy(t)
  {
    hide KeySet, Less;
    if t.Branch? {
      forall i | 0 <= i < |t.kids|
        ensures Tidy(t.kids[i])
      {
        OrderedIsTidy(t.kids[i], o);
      }
    }
  }

  lemma LeafFinds(t: Tree, q: Key)
    requires t.Leaf? && Sorted(t.keys) && |t.keys| == |t.vals|
    ensures Lookup(t, q).Some? <==> q in KeySet(t)
  {
    hide Less;
    if q in t.keys {
      var j :| 0 <= j < |t.keys| && t.keys[j] == q;
      FoundAt(t.keys, q, j);
    }
  }

  /** Search finds exactly the stored keys. */
  lemma {:induction false} LookupFindsKeys(t: Tree, h: nat, q: Key, o: Order)
    requires Shape(t, h) && Ordered(t, o)
    ensures Lookup(t, q).Some? <==> q in KeySet(t)
    decreases h
  {
    hide Less, KeySet;
    if t.Leaf? {
      LeafFinds(t, q);
    } else {
      var i := Route(t.keys, q);
      LookupFindsKeys(t.kids[i], h - 1, q, o);
      if q in KeySet(t) {
        var j := KeyHasKid(t, q);
        StoredKeyRoute(t, j, q, o);
      }
      if q in KeySet(t.kids[i]) {
        InKeySet(t, i, q);
      }
    }
  }

  // ------------------------------------------------------------- one split

  /** The halves of a split: two search trees on the two sides of the promoted key. */
  ghost predicate Halves(c: Tree, l: Tree, m: Key, r: Tree, o: Order) {
    && Ordered(l, o) && Ordered(r, o)
    && KeySet(c) == KeySet(l) + KeySet(r)
    && Below(KeySet(l), m, o) && From(m, KeySet(r)) && m in KeySet(r)
  }

  lemma LeftHalfBelow(keys: seq<Key>, mid: nat, o: Order)
    requires Sorted(keys) && mid < |keys|
    ensures forall x :: x in keys[..mid] ==> LeftOf(x, keys[mid], o)
  {
    hide Less;
    forall x | x in keys[..mid]
      ensures LeftOf(x, keys[mid], o)
    {
      var j :| 0 <= j < mid && keys[..mid][j] == x;
      assert Less(keys[j], keys[mid]);
    }
  }

  lemma RightHalfFrom(keys: seq<Key>, mid: nat)
    requires Sorted(keys) && mid < |keys|
    ensures keys[mid] in keys[mid..] && forall x :: x in keys[mid..] ==> !Less(x, keys[mid])
  {
    hide Less;
    assert keys[mid..][0] == keys[mid];
    forall x | x in keys[mid..]
      ensures !Less(x, keys[mid])
    {
      var j :| 0 <= j < |keys| - mid && keys[mid..][j] == x;
      Trichotomy(keys[mid], x);
      Trichotomy(x, x);
      if j > 0 {
        assert Less(keys[mid], keys[mid + j]);
      }
    }
  }

  lemma SplitLeafHalves(c: Tree, n: nat, o: Order)
    requires c.Leaf? && Sorted(c.keys) && Splittable(c)
    ensures var (l, m, r) := Split(c, n); Halves(c, l, m, r, o)
  {
    hide Less, LeftOf;
    var mid := |c.keys| / 2;
    assert c.keys[..mid] + c.keys[mid..] == c.keys;
    LeftHalfBelow(c.keys, mid, o);
    RightHalfFrom(c.keys, mid);
  }

  /** Where a key is bound in the half it belongs to. */
  lemma BoundInHalf(keys: seq<Key>, mid: nat, q: Key)
    requires Sorted(keys) && mid < |keys|
    ensures var i := LowerBound(keys, q);
      if Less(q, keys[mid]) then i <= mid && LowerBound(keys[..mid], q) == i
      else i >= mid && LowerBound(keys[mid..], q) == i - mid
  {
    hide Less;
    var i := LowerBound(keys, q);
    if Less(q, keys[mid]) {
      Trichotomy(q, keys[mid]);
      assert i <= mid;
      LowerBoundIs(keys[..mid], q, i);
    } else {
      BelowMiddle(keys, q, mid);
      LowerBoundIs(keys[mid..], q, i - mid);
    }
  }

  lemma SplitLeafLookup(c: Tree, n: nat, q: Key)
    requires c.Leaf? && Sorted(c.keys) && Splittable(c)
    ensures var (l, m, r) := Split(c, n); Lookup(c, q) == if Less(q, m) then Lookup(l, q) else Lookup(r, q)
  {
    hide Less, Sorted, LowerBound;
    BoundInHalf(c.keys, |c.keys| / 2, q);
    if LowerBound(c.keys, q) == |c.keys| / 2 {
      Trichotomy(q, q);
    }
  }

  lemma BelowMiddle(keys: seq<Key>, q: Key, mid: nat)
    requires Sorted(keys) && mid < |keys| && !Less(q, keys[mid])
    ensures LowerBound(keys, q) >= mid
  {
    hide Less;
    var i := LowerBound(keys, q);
    if i < mid {
      Transitive(keys[i], keys[mid], q);
    }
  }

  lemma SplitBranchKeys(c: Tree, n: nat, i: nat)
    requires c.Branch? && Splittable(c) && i < |c.keys|
    ensures var (l, m, r) := Split(c, n);
      var mid := |c.keys| / 2;
      && |l.keys| == mid && |r.keys| == |c.keys| - mid - 1
      && c.keys[i] == if i < mid then l.keys[i] else if i == mid then m else r.keys[i - mid - 1]
  {
  }

  lemma SplitBranchLeft(c: Tree, n: nat, o: Order)
    requires c.Branch? && Ordered(c, o) && Splittable(c)
    ensures Ordered(Split(c, n).0, o)
  {
    hide Less, KeySet;
    var l := Split(c, n).0;
    forall i | 0 <= i < |l.keys|
      ensures Separates(l, i, o)
    {
      assert Separates(c, i, o);
    }
  }

  lemma SplitBranchRight(c: Tree, n: nat, o: Order)
    requires c.Branch? && Ordered(c, o) && Splittable(c)
    ensures Ordered(Split(c, n).2, o)
  {
    hide Less, KeySet;
    var r := Split(c, n).2;
    var mid := |c.keys| / 2;
    assert forall i :: 0 <= i < |r.keys| ==> r.keys[i] == c.keys[mid + 1 + i];
    assert forall i :: 0 <= i < |r.kids| ==> r.kids[i] == c.kids[mid + 1 + i];
    forall i | 0 <= i < |r.keys|
      ensures Separates(r, i, o)
    {
      assert Separates(c, mid + 1 + i, o);
    }
  }

  lemma SplitBranchBounds(c: Tree, n: nat, o: Order)
    requires c.Branch? && Ordered(c, o) && Splittable(c)
    ensures var (l, m, r) := Split(c, n);
      Below(KeySet(l), m, o) && From(m, KeySet(r)) && m in KeySet(r)
  {
    hide Less, KeySet, Split;
    var (l, m, r) := Split(c, n);
    var mid := |c.keys| / 2;
    SplitBranchKids(c, n, mid + 1);
    SplitBranchKeys(c, n, mid);
    SeparatorStored(c, mid, o);
    InKeySet(r, 0, m);
    forall y | y in KeySet(l)
      ensures LeftOf(y, m, o)
    {
      var i := KeyHasKid(l, y);
      SplitBranchKids(c, n, i);
      KidRange(c, i, y, o);
    }
    forall y | y in KeySet(r)
      ensures !Less(y, m)
    {
      var i := KeyHasKid(r, y);
      SplitBranchKids(c, n, mid + 1 + i);
      KidRange(c, mid + 1 + i, y, o);
    }
  }

  lemma SplitBranchMember(c: Tree, n: nat, y: Key)
    requires c.Branch? && Splittable(c)
    ensures y in KeySet(c) <==> y in KeySet(Split(c, n).0) || y in KeySet(Split(c, n).2)
  {
    hide KeySet, Split;
    var (l, m, r) := Split(c, n);
    var mid := |c.keys| / 2;
    SplitBranchKids(c, n, 0);
    if y in KeySet(c) {
      var i := KeyHasKid(c, y);
      SplitBranchKids(c, n, i);
      if i <= mid {
        InKeySet(l, i, y);
      } else {
        InKeySet(r, i - mid - 1, y);
      }
    }
    if y in KeySet(l) {
      var i := KeyHasKid(l, y);
      SplitBranchKids(c, n, i);
      InKeySet(c, i, y);
    }
    if y in KeySet(r) {
      var i := KeyHasKid(r, y);
      SplitBranchKids(c, n, mid + 1 + i);
      InKeySet(c, mid + 1 + i, y);
    }
  }

  /** Where a key is routed in the half it belongs to. */
  lemma RouteInHalf(keys: seq<Key>, mid: nat, q: Key)
    requires Sorted(keys) && mid < |keys|
    ensures var i := Route(keys, q);
      if Less(q, keys[mid]) then i <= mid && Route(keys[..mid], q) == i
      else i > mid && Route(keys[mid + 1..], q) == i - mid - 1
  {
    hide Less;
    var i := Route(keys, q);
    if Less(q, keys[mid]) {
      assert i <= mid;
      RouteIs(keys[..mid], q, i);
    } else {
      PastMiddle(keys, q, mid);
      RouteIs(keys[mid + 1..], q, i - mid - 1);
    }
  }

  lemma SplitBranchLookup(c: Tree, n: nat, q: Key)
    requires c.Branch? && Sorted(c.keys) && Splittable(c)
    ensures var (l, m, r) := Split(c, n); Lookup(c, q) == if Less(q, m) then Lookup(l, q) else Lookup(r, q)
  {
    hide Less, Sorted;
    RouteInHalf(c.keys, |c.keys| / 2, q);
    SplitBranchKids(c, n, Route(c.keys, q));
  }

  lemma PastMiddle(keys: seq<Key>, q: Key, mid: nat)
    requires Sorted(keys) && mid < |keys| && !Less(q, keys[mid])
    ensures Route(keys, q) > mid
  {
    hide Less;
    var i := Route(keys, q);
    if i < mid {
      assert Less(keys[i], keys[mid]);
      Transitive(q, keys[i], keys[mid]);
    }
  }

  lemma SplitHalves(c: Tree, n: nat, o: Order)
    requires Ordered(c, o) && Splittable(c)
    ensures var (l, m, r) := Split(c, n); Halves(c, l, m, r, o)
  {
    if c.Leaf? {
      SplitLeafHalves(c, n, o);
    } else {
      hide Ordered, KeySet, Split;
      SplitBranchLeft(c, n, o);
      SplitBranchRight(c, n, o);
      SplitBranchBounds(c, n, o);
      forall y
        ensures y in KeySet(c) <==> y in KeySet(Split(c, n).0) || y in KeySet(Split(c, n).2)
      {
        SplitBranchMember(c, n, y);
      }
    }
  }

  lemma SplitLookup(c: Tree, n: nat, q: Key)
    requires Sorted(c.keys) && Splittable(c)
    ensures var (l, m, r) := Split(c, n); Lookup(c, q) == if Less(q, m) then Lookup(l, q) else Lookup(r, q)
  {
    hide KeySet;
    if c.Leaf? {
      SplitLeafLookup(c, n, q);
    } else {
      SplitBranchLookup(c, n, q);
    }
  }

  // ---------------------------------------------- a split inside its parent

  /** The parent t with child i replaced by l and r around the separator m. */
  ghost function Parted(t: Tree, i: nat, l: Tree, m: Key, r: Tree): Tree
    requires t.Branch? && |t.kids| == |t.keys| + 1 && i < |t.kids|
  {
    Branch(t.id, InsertAt(t.keys, i, m), InsertAt(t.kids[i := l], i + 1, r))
  }

  lemma PartedKid(t: Tree, i: nat, l: Tree, m: Key, r: Tree, j: nat)
    requires t.Branch? && |t.kids| == |t.keys| + 1 && i < |t.kids| && j < |t.kids| + 1
    ensures Parted(t, i, l, m, r).kids[j] ==
      if j < i then t.kids[j] else if j == i then l else if j == i + 1 then r else t.kids[j - 1]
  {
  }

  lemma PartedKeySet(t: Tree, i: nat, l: Tree, m: Key, r: Tree)
    requires t.Branch? && |t.kids| == |t.keys| + 1 && i < |t.kids|
    requires KeySet(t.kids[i]) == KeySet(l) + KeySet(r)
    ensures KeySet(Parted(t, i, l, m, r)) == KeySet(t)
  {
    hide KeySet, Parted;
    var t1 := Parted(t, i, l, m, r);
    assert t1.Branch? && |t1.kids| == |t.kids| + 1 by {
      assert t1 == Branch(t.id, InsertAt(t.keys, i, m), InsertAt(t.kids[i := l], i + 1, r)) by {
        PartedIs(t, i, l, m, r);
      }
    }
    forall y | y in KeySet(t)
      ensures y in KeySet(t1)
    {
      var j := KeyHasKid(t, y);
      var j1 := if j < i || (j == i && y in KeySet(l)) then j else j + 1;
      PartedKid(t, i, l, m, r, j1);
      InKeySet(t1, j1, y);
    }
    forall y | y in KeySet(t1)
      ensures y in KeySet(t)
    {
      var j := KeyHasKid(t1, y);
      PartedKid(t, i, l, m, r, j);
      InKeySet(t, if j <= i then j else j - 1, y);
    }
  }

  lemma PartedIs(t: Tree, i: nat, l: Tree, m: Key, r: Tree)
    requires t.Branch? && |t.kids| == |t.keys| + 1 && i < |t.kids|
    ensures Parted(t, i, l, m, r) == Branch(t.id, InsertAt(t.keys, i, m), InsertAt(t.kids[i := l], i + 1, r))
  {
  }

  /** A promoted key that is new falls strictly between the separators around the child. */
  lemma PartedKeysSorted(t: Tree, i: nat, l: Tree, m: Key, r: Tree, o: Order)
    requires t.Branch? && Ordered(t, o) && i < |t.kids| && Halves(t.kids[i], l, m, r, o) && NewSeparator(t, i, m)
    ensures Sorted(InsertAt(t.keys, i, m))
    ensures i > 0 ==> Less(t.keys[i - 1], m)
  {
    hide Less, KeySet, Ordered;
    assert Sorted(t.keys) && |t.kids| == |t.keys| + 1 by {
      OrderedNode(t, o);
    }
    KidRange(t, i, m, o);
    if i > 0 {
      Trichotomy(t.keys[i - 1], m);
    }
    SortedInsert(t.keys, i, m);
  }

  lemma OrderedNode(t: Tree, o: Order)
    requires Ordered(t, o)
    ensures Sorted(t.keys) && (t.Branch? ==> |t.kids| == |t.keys| + 1)
  {
  }

  /** Left of the promoted key: the separator of the split child still is the least key to its right. */
  lemma PartedLeft(t: Tree, i: nat, l: Tree, m: Key, r: Tree, o: Order)
    requires t.Branch? && Ordered(t, o) && 0 < i < |t.kids| && Halves(t.kids[i], l, m, r, o) && Less(t.keys[i - 1], m)
    ensures From(t.keys[i - 1], KeySet(l)) && t.keys[i - 1] in KeySet(l)
  {
    hide Less, KeySet;
    assert Separates(t, i - 1, o);
  }

  lemma PartedSeparates(t: Tree, i: nat, l: Tree, m: Key, r: Tree, o: Order, j: nat)
    requires t.Branch? && Ordered(t, o) && i < |t.kids| && Halves(t.kids[i], l, m, r, o) && NewSeparator(t, i, m)
    requires j < |t.keys| + 1
    ensures Separates(Parted(t, i, l, m, r), j, o)
  {
    hide Less, KeySet, Ordered;
    OrderedNode(t, o);
    PartedKeysSorted(t, i, l, m, r, o);
    var t1 := Parted(t, i, l, m, r);
    PartedKid(t, i, l, m, r, j);
    PartedKid(t, i, l, m, r, j + 1);
    if j < i {
      SeparatesAt(t, j, o);
      if j == i - 1 {
        PartedLeft(t, i, l, m, r, o);
      }
    } else if j > i {
      SeparatesAt(t, j - 1, o);
    }
  }

  lemma SeparatesAt(t: Tree, j: nat, o: Order)
    requires t.Branch? && Ordered(t, o) && j < |t.keys|
    ensures |t.kids| == |t.keys| + 1 && Separates(t, j, o)
  {
  }

  lemma PartedOrdered(t: Tree, i: nat, l: Tree, m: Key, r: Tree, o: Order)
    requires t.Branch? && Ordered(t, o) && i < |t.kids| && Halves(t.kids[i], l, m, r, o) && NewSeparator(t, i, m)
    ensures Ordered(Parted(t, i, l, m, r), o)
  {
    hide Less, KeySet, Separates;
    PartedKeysSorted(t, i, l, m, r, o);
    var t1 := Parted(t, i, l, m, r);
    forall j | 0 <= j < |t1.keys|
      ensures Separates(t1, j, o)
    {
      PartedSeparates(t, i, l, m, r, o, j);
    }
    forall j | 0 <= j < |t1.kids|
      ensures Ordered(t1.kids[j], o)
    {
      PartedKid(t, i, l, m, r, j);
    }
  }

  lemma PartedLookup(t: Tree, i: nat, l: Tree, m: Key, r: Tree, q: Key)
    requires t.Branch? && |t.kids| == |t.keys| + 1 && i < |t.kids|
    requires Sorted(InsertAt(t.keys, i, m))
    requires Lookup(t.kids[i], q) == if Less(q, m) then Lookup(l, q) else Lookup(r, q)
    ensures Lookup(Parted(t, i, l, m, r), q) == Lookup(t, q)
  {
    hide Less, Sorted, Route, Parted;
    var t1 := Parted(t, i, l, m, r);
    PartedIs(t, i, l, m, r);
    PartedRoute(t.keys, i, m, q);
    PartedKid(t, i, l, m, r, Route(t1.keys, q));
  }

  lemma PartedRoute(keys: seq<Key>, i: nat, m: Key, q: Key)
    requires i <= |keys| && Sorted(InsertAt(keys, i, m))
    ensures var j := Route(keys, q);
      Route(InsertAt(keys, i, m), q) == if j < i || (j == i && Less(q, m)) then j else j + 1
  {
    hide Less;
    var keys1 := InsertAt(keys, i, m);
    var j := Route(keys, q);
    var j1 := if j < i || (j == i && Less(q, m)) then j else j + 1;
    if j > i {
      assert keys1[j] == keys[j - 1];
    }
    if j < i && j1 > 0 {
      assert keys1[j1 - 1] == keys[j - 1];
    }
    RouteIs(keys1, q, j1);
  }

  /** What making room below a node leaves unchanged. */
  ghost predicate SameContent(t: Tree, t1: Tree) {
    KeySet(t1) == KeySet(t) && forall q :: Lookup(t1, q) == Lookup(t, q)
  }

  /** A split that promotes a new key preserves the search invariant and the meaning of the tree. */
  lemma SplitKidKeeps(t: Tree, i: nat, n: nat, o: Order)
    requires t.Branch? && Ordered(t, o) && i < |t.kids| && Splittable(t.kids[i])
    requires NewSeparator(t, i, t.kids[i].keys[|t.kids[i].keys| / 2])
    ensures Ordered(SplitKid(t, i, n), o) && SameContent(t, SplitKid(t, i, n))
  {
    hide Less, KeySet, Lookup;
    var (l, m, r) := Split(t.kids[i], n);
    SplitHalves(t.kids[i], n, o);
    PartedKeySet(t, i, l, m, r);
    PartedKeysSorted(t, i, l, m, r, o);
    PartedOrdered(t, i, l, m, r, o);
    OrderedNode(t.kids[i], o);
    assert SplitKid(t, i, n) == Parted(t, i, l, m, r);
    forall q
      ensures Lookup(Parted(t, i, l, m, r), q) == Lookup(t, q)
    {
      SplitLookup(t.kids[i], n, q);
      PartedLookup(t, i, l, m, r, q);
    }
  }

  // ------------------------------------------------------------- insertion

  lemma LeafInsertIs(t: Tree, k: Key, v: Val)
    requires t.Leaf? && |t.keys| == |t.vals| && Sorted(t.keys)
    ensures var i := LowerBound(t.keys, k);
      if i < |t.keys| && t.keys[i] == k then
        LeafInsert(t, k, v) == t.(vals := t.vals[i := v])
      else
        && LeafInsert(t, k, v) == t.(keys := InsertAt(t.keys, i, k), vals := InsertAt(t.vals, i, v))
        && (i > 0 ==> Less(t.keys[i - 1], k)) && (i < |t.keys| ==> Less(k, t.keys[i]))
  {
    hide Less;
    var i := LowerBound(t.keys, k);
    if i < |t.keys| {
      Trichotomy(t.keys[i], k);
    }
  }

  lemma LeafInsertOrdered(t: Tree, k: Key, v: Val)
    requires t.Leaf? && |t.keys| == |t.vals| && Sorted(t.keys)
    ensures var t' := LeafInsert(t, k, v); Sorted(t'.keys) && |t'.keys| == |t'.vals| && KeySet(t') == KeySet(t) + {k}
  {
    hide Less, LowerBound, LeafInsert;
    LeafInsertIs(t, k, v);
    var i := LowerBound(t.keys, k);
    if i < |t.keys| && t.keys[i] == k {
    } else {
      SortedInsert(t.keys, i, k);
      InsertAtMembers(t.keys, i, k);
    }
  }

  lemma InsertAtMembers(keys: seq<Key>, i: nat, k: Key)
    requires i <= |keys|
    ensures forall x :: x in InsertAt(keys, i, k) <==> x == k || x in keys
  {
    var r := InsertAt(keys, i, k);
    assert r[i] == k;
    forall x | x in keys
      ensures x in r
    {
      var j :| 0 <= j < |keys| && keys[j] == x;
      assert r[if j < i then j else j + 1] == x;
    }
  }

  lemma LeafOverwriteLookup(t: Tree, i: nat, v: Val, q: Key)
    requires t.Leaf? && |t.keys| == |t.vals| && i < |t.keys| && i == LowerBound(t.keys, t.keys[i])
    ensures Lookup(t.(vals := t.vals[i := v]), q) == if q == t.keys[i] then Some(v) else Lookup(t, q)
  {
    hide Less, LowerBound;
  }

  lemma LeafAddLookup(t: Tree, i: nat, k: Key, v: Val, q: Key)
    requires t.Leaf? && |t.keys| == |t.vals| && i <= |t.keys| && (i < |t.keys| ==> t.keys[i] != k)
    requires var j := LowerBound(t.keys, q);
      && LowerBound(InsertAt(t.keys, i, k), q) == (if q == k then i else if j < i || (j == i && !Less(k, q)) then j else j + 1)
      && (q == k ==> j == i) && (j == i && !Less(k, q) && i < |t.keys| ==> t.keys[i] != q)
    ensures Lookup(t.(keys := InsertAt(t.keys, i, k), vals := InsertAt(t.vals, i, v)), q) == if q == k then Some(v) else Lookup(t, q)
  {
    hide Less, LowerBound;
  }

  lemma LeafInsertLookup(t: Tree, k: Key, v: Val, q: Key)
    requires t.Leaf? && |t.keys| == |t.vals| && Sorted(t.keys)
    ensures Lookup(LeafInsert(t, k, v), q) == if q == k then Some(v) else Lookup(t, q)
  {
    if LowerBound(t.keys, k) < |t.keys| && t.keys[LowerBound(t.keys, k)] == k {
      OverwrittenLookup(t, k, v, q);
    } else {
      AddedLookup(t, k, v, q);
    }
  }

  lemma OverwrittenLookup(t: Tree, k: Key, v: Val, q: Key)
    requires t.Leaf? && |t.keys| == |t.vals| && Sorted(t.keys)
    requires LowerBound(t.keys, k) < |t.keys| && t.keys[LowerBound(t.keys, k)] == k
    ensures Lookup(LeafInsert(t, k, v), q) == if q == k then Some(v) else Lookup(t, q)
  {
    hide Less, LeafInsert, Lookup, LowerBound, Sorted, InsertAt;
    LeafInsertIs(t, k, v);
    LeafOverwriteLookup(t, LowerBound(t.keys, k), v, q);
  }

  lemma AddedLookup(t: Tree, k: Key, v: Val, q: Key)
    requires t.Leaf? && |t.keys| == |t.vals| && Sorted(t.keys)
    requires !(LowerBound(t.keys, k) < |t.keys| && t.keys[LowerBound(t.keys, k)] == k)
    ensures Lookup(LeafInsert(t, k, v), q) == if q == k then Some(v) else Lookup(t, q)
  {
    hide Less, LeafInsert, Lookup, LowerBound, Sorted, InsertAt;
    LeafInsertIs(t, k, v);
    var i := LowerBound(t.keys, k);
    NewKeyBound(t.keys, i, k, q);
    LeafAddLookup(t, i, k, v, q);
  }

  lemma NewKeyBound(keys: seq<Key>, i: nat, k: Key, q: Key)
    requires Sorted(keys) && i == LowerBound(keys, k)
    requires (i > 0 ==> Less(keys[i - 1], k)) && (i < |keys| ==> Less(k, keys[i]))
    ensures var j := LowerBound(keys, q);
      LowerBound(InsertAt(keys, i, k), q) == if q == k then i else if j < i || (j == i && !Less(k, q)) then j else j + 1
    ensures q == k ==> LowerBound(keys, q) == i
    ensures i < |keys| && !Less(k, q) ==> keys[i] != q
  {
    hide Less;
    SortedInsert(keys, i, k);
    var r := InsertAt(keys, i, k);
    var j := LowerBound(keys, q);
    var j1 := if q == k then i else if j < i || (j == i && !Less(k, q)) then j else j + 1;
    Trichotomy(k, q);
    Trichotomy(k, k);
    if j1 > 0 {
      assert r[j1 - 1] == if j1 - 1 < i then keys[j1 - 1] else if j1 - 1 == i then k else keys[j1 - 2];
    }
    if j1 < |r| {
      assert r[j1] == if j1 < i then keys[j1] else if j1 == i then k else keys[j1 - 1];
    }
    if q != k && j > i {
      KeyBetween(keys, i, k, q, j);
    }
    LowerBoundIs(r, q, j1);
  }

  lemma KeyBetween(keys: seq<Key>, i: nat, k: Key, q: Key, j: nat)
    requires Sorted(keys) && i < j <= |keys| && Less(k, keys[i]) && Less(keys[j - 1], q)
    ensures Less(k, q)
  {
    hide Less;
    if i < j - 1 {
      Transitive(k, keys[i], keys[j - 1]);
    }
    Transitive(k, keys[j - 1], q);
  }

  /** The subtree that gets a key between the separators around it. */
  lemma ReplaceKidOrdered(t: Tree, j: nat, c: Tree, k: Key, o: Order)
    requires t.Branch? && Ordered(t, o) && j < |t.kids| && Ordered(c, o) && KeySet(c) == KeySet(t.kids[j]) + {k}
    requires (j > 0 ==> !Less(k, t.keys[j - 1])) && (j < |t.keys| ==> LeftOf(k, t.keys[j], o))
    ensures var t' := t.(kids := t.kids[j := c]); Ordered(t', o) && KeySet(t') == KeySet(t) + {k}
  {
    hide Less, KeySet;
    var t' := t.(kids := t.kids[j := c]);
    forall i | 0 <= i < |t'.keys|
      ensures Separates(t', i, o)
    {
      assert Separates(t, i, o);
    }
    ReplaceKidKeySet(t, j, c, k);
  }

  lemma ReplaceKidKeySet(t: Tree, j: nat, c: Tree, k: Key)
    requires t.Branch? && j < |t.kids| && KeySet(c) == KeySet(t.kids[j]) + {k}
    ensures KeySet(t.(kids := t.kids[j := c])) == KeySet(t) + {k}
  {
    hide KeySet;
    var t' := t.(kids := t.kids[j := c]);
    forall x | x in KeySet(t)
      ensures x in KeySet(t')
    {
      var i := KeyHasKid(t, x);
      InKeySet(t', i, x);
    }
    forall x | x in KeySet(t')
      ensures x in KeySet(t) + {k}
    {
      var i := KeyHasKid(t', x);
      if x != k {
        InKeySet(t, i, x);
      }
    }
    InKeySet(t', j, k);
  }

  /** Between which separators the child entered after making room lies. */
  ghost predicate Between(t: Tree, j: nat, k: Key, o: Order)
    requires t.Branch? && j <= |t.keys|
  {
    (j > 0 ==> !Less(k, t.keys[j - 1])) && (j < |t.keys| ==> LeftOf(k, t.keys[j], o))
  }

  lemma SplitEntry(keys: seq<Key>, i: nat, m: Key, k: Key, tie: Tie)
    requires i == Route(keys, k) && Sorted(InsertAt(keys, i, m))
    ensures var keys1 := InsertAt(keys, i, m);
      var j := if GoesRight(m, k, tie) then i + 1 else i;
      && (j > 0 ==> !Less(k, keys1[j - 1]))
      && (j < |keys1| ==> if tie.AsWritten? && m == k then k == keys1[j] else Less(k, keys1[j]))
      && Route(keys1, k) == if tie.AsWritten? && m == k then j + 1 else j
  {
    hide Less;
    Trichotomy(m, k);
    Trichotomy(k, k);
    PartedRoute(keys, i, m, k);
  }

  lemma DescendSplits(t: Tree, h: nat, k: Key, n: nat, tie: Tie)
    requires Shape(t, h) && t.Branch? && Full(t.kids[Route(t.keys, k)])
    ensures var i := Route(t.keys, k);
      && Splittable(t.kids[i]) && |t.kids| == |t.keys| + 1
      && var m := Split(t.kids[i], n).1;
         && m == t.kids[i].keys[|t.kids[i].keys| / 2]
         && Descend(t, h, k, n, tie) == (SplitKid(t, i, n), if GoesRight(m, k, tie) then i + 1 else i, n + 1)
         && SplitKid(t, i, n).keys == InsertAt(t.keys, i, m) && SplitKid(t, i, n).Branch?
         && (Promoted(t, h, k, n) <==> m == k) && (Clash(t, i) <==> !NewSeparator(t, i, m))
  {
    FullIsSplittable(t.kids[Route(t.keys, k)], h - 1);
  }

  /** The child entered after making room is the one a search would enter, unless k was just promoted. */
  lemma DescendKeeps(t: Tree, h: nat, k: Key, n: nat, tie: Tie, o: Order)
    requires Shape(t, h) && t.Branch? && Ordered(t, o) && !Clash(t, Route(t.keys, k))
    ensures var (t1, j, n1) := Descend(t, h, k, n, tie);
      && Ordered(t1, o) && SameContent(t, t1)
      && Between(t1, j, k, if tie.AsWritten? && Promoted(t, h, k, n) then Weak else Strict)
      && Route(t1.keys, k) == if tie.AsWritten? && Promoted(t, h, k, n) then j + 1 else j
  {
    hide Less, KeySet, Lookup, Ordered, Route, GoesRight;
    var i := Route(t.keys, k);
    if Full(t.kids[i]) {
      hide Descend, Promoted, Clash, SplitKid, Split, NewSeparator, SameContent;
      DescendSplits(t, h, k, n, tie);
      SplitKidKeeps(t, i, n, o);
      OrderedNode(SplitKid(t, i, n), o);
      SplitEntry(t.keys, i, Split(t.kids[i], n).1, k, tie);
    }
  }

  /** What an insertion of k into t promises when the search invariant is kept. */
  ghost predicate Inserted(t: Tree, t': Tree, k: Key, o: Order) {
    Ordered(t', o) && KeySet(t') == KeySet(t) + {k}
  }

  /**
   * Insertion keeps the search invariant and adds exactly the key, unless it
   * meets a clash; met at its own promoted copy, the key leaves a dead copy.
   */
  lemma {:induction false} InsertNonFullOrdered(t: Tree, h: nat, k: Key, v: Val, n: nat, tie: Tie, o: Order)
    requires Shape(t, h) && Ordered(t, o) && !MeetsClash(t, h, k, n, tie)
    requires o.Weak? || tie.EqualGoesRight? || !MeetsPromoted(t, h, k, n)
    ensures Inserted(t, InsertNonFull(t, h, k, v, n, tie).0, k, o)
    decreases h
  {
    hide Less, Descend, KeySet, Promoted, Clash;
    if t.Leaf? {
      LeafInsertOrdered(t, k, v);
    } else {
      DescendKeeps(t, h, k, n, tie, o);
      var (t1, j, n1) := Descend(t, h, k, n, tie);
      InsertNonFullOrdered(t1.kids[j], h - 1, k, v, n1, tie, o);
      var c := InsertNonFull(t1.kids[j], h - 1, k, v, n1, tie).0;
      ReplaceKidOrdered(t1, j, c, k, o);
    }
  }

  /** Every lookup after an insertion: the new value, or the old answer. */
  lemma {:induction false} InsertNonFullLookup(t: Tree, h: nat, k: Key, v: Val, n: nat, tie: Tie, o: Order, q: Key)
    requires Shape(t, h) && Ordered(t, o) && !MeetsClash(t, h, k, n, tie)
    ensures Lookup(InsertNonFull(t, h, k, v, n, tie).0, q) ==
      if q == k && (tie.EqualGoesRight? || !MeetsPromoted(t, h, k, n)) then Some(v) else Lookup(t, q)
    decreases h
  {
    hide Less, Descend, KeySet, Promoted, Clash;
    if t.Leaf? {
      LeafInsertLookup(t, k, v, q);
    } else {
      DescendKeeps(t, h, k, n, tie, o);
      var (t1, j, n1) := Descend(t, h, k, n, tie);
      InsertNonFullLookup(t1.kids[j], h - 1, k, v, n1, tie, o, q);
      assert Lookup(t1, q) == Lookup(t1.kids[Route(t1.keys, q)], q);
    }
  }

  // ------------------------------------------------------------ entry sizes

  /**
   * Entry and separator sizes: every leaf entry costs at most c bytes, and
   * every key, which a split may promote, at most d bytes in an internal node.
   */
  ghost predicate Small(t: Tree, c: nat, d: nat) {
    && (forall i :: 0 <= i < |t.keys| ==> 12 + |t.keys[i]| <= d)
    && (t.Leaf? ==> |t.keys| == |t.vals| && forall i :: 0 <= i < |t.keys| ==> 16 + |t.keys[i]| + |t.vals[i]| <= c)
    && (t.Branch? ==> forall i :: 0 <= i < |t.kids| ==> Small(t.kids[i], c, d))
  }

  /** Largest entry for which a full leaf must hold two: 33 + 3039 is the fullness threshold. */
  const ENTRY_LIMIT := 3039

  lemma SplitSmall(c: Tree, n: nat, e: nat, d: nat)
    requires Small(c, e, d) && Splittable(c)
    ensures Small(Split(c, n).0, e, d) && Small(Split(c, n).2, e, d) && 12 + |Split(c, n).1| <= d
  {
  }

  lemma DescendSmall(t: Tree, h: nat, k: Key, n: nat, tie: Tie, e: nat, d: nat)
    requires Shape(t, h) && t.Branch? && Small(t, e, d)
    ensures Small(Descend(t, h, k, n, tie).0, e, d)
  {
    hide Less;
    var i := Route(t.keys, k);
    if Full(t.kids[i]) {
      hide Split;
      FullIsSplittable(t.kids[i], h - 1);
      SplitSmall(t.kids[i], n, e, d);
    }
  }

  lemma LeafInsertSmall(t: Tree, k: Key, v: Val, e: nat, d: nat)
    requires t.Leaf? && Small(t, e, d) && 16 + |k| + |v| <= e && 12 + |k| <= d
    ensures Small(LeafInsert(t, k, v), e, d)
  {
    hide Less, LowerBound;
  }

  /** Entry sizes stay bounded by the largest ever inserted. */
  lemma {:induction false} InsertNonFullSmall(t: Tree, h: nat, k: Key, v: Val, n: nat, tie: Tie, e: nat, d: nat)
    requires Shape(t, h) && Small(t, e, d) && 16 + |k| + |v| <= e && 12 + |k| <= d
    ensures Small(InsertNonFull(t, h, k, v, n, tie).0, e, d)
    decreases h
  {
    hide LeafInsert, Descend;
    if t.Leaf? {
      LeafInsertSmall(t, k, v, e, d);
    } else {
      DescendSmall(t, h, k, n, tie, e, d);
      var (t1, j, n1) := Descend(t, h, k, n, tie);
      InsertNonFullSmall(t1.kids[j], h - 1, k, v, n1, tie, e, d);
    }
  }

  lemma OneEntrySize(c: Tree, h: nat)
    requires Shape(c, h) && |c.keys| == 1
    ensures c.Leaf? ==> Size(c) <= 49 + |c.keys[0]| + |c.vals[0]|
    ensures c.Branch? ==> Size(c) == 45 + |c.keys[0]|
  {
    assert c.keys[1..] == [] && SumLen(c.keys) == 8 + |c.keys[0]|;
    if c.Leaf? {
      assert c.vals[1..] == [] && SumLen(c.vals) == 8 + |c.vals[0]|;
    }
  }

  /** A full node of small entries holds at least two. */
  lemma FullHoldsTwo(c: Tree, h: nat)
    requires Shape(c, h) && Full(c) && Small(c, ENTRY_LIMIT, ENTRY_LIMIT)
    ensures |c.keys| >= 2
  {
    hide SumLen;
    FullIsSplittable(c, h);
    if |c.keys| == 1 {
      OneEntrySize(c, h);
    }
  }

  lemma NodeKeyIsStored(c: Tree, h: nat, i: nat, o: Order)
    requires Shape(c, h) && Ordered(c, o) && i < |c.keys|
    ensures c.keys[i] in KeySet(c)
  {
    if c.Branch? {
      SeparatorStored(c, i, o);
      InKeySet(c, i + 1, c.keys[i]);
    }
  }
}
