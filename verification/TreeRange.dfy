/**
 * The part of the search order that survives everything: keys and separators
 * lie between the separators around them. A separator need not be stored any
 * more, so this also holds after insertions that failed half-way.
 */
module TreeRange {
  import opened Keys
  import opened Trees
  import opened TreeOrder

  /** The keys of the leaves and all separators. */
  ghost function AllKeys(t: Tree): set<Key> {
    match t
    case Leaf(_, keys, _, _) => set x | x in keys
    case Branch(_, keys, kids) => (set x | x in keys) + set i, x | 0 <= i < |kids| && x in AllKeys(kids[i]) :: x
  }

  ghost predicate Ranged(t: Tree, o: Order) {
    && Sorted(t.keys)
    && (t.Branch? ==>
      && |t.kids| == |t.keys| + 1
      && (forall i :: 0 <= i < |t.kids| ==> Ranged(t.kids[i], o))
      && (forall i :: 0 <= i < |t.keys| ==> Divides(t, i, o)))
  }

  ghost predicate Divides(t: Tree, i: nat, o: Order)
    requires t.Branch? && |t.kids| == |t.keys| + 1 && i < |t.keys|
  {
    Below(AllKeys(t.kids[i]), t.keys[i], o) && From(t.keys[i], AllKeys(t.kids[i + 1]))
  }

  // ------------------------------------------------------------- key sets

  lemma OwnKey(t: Tree, i: nat)
    requires i < |t.keys|
    ensures t.keys[i] in AllKeys(t)
  {
  }

  lemma KidKey(t: Tree, i: nat, x: Key)
    requires t.Branch? && i < |t.kids| && x in AllKeys(t.kids[i])
    ensures x in AllKeys(t)
  {
  }

  lemma KeyIsSomewhere(t: Tree, x: Key) returns (own: bool, i: nat)
    requires t.Branch? && x in AllKeys(t)
    ensures if own then i < |t.keys| && t.keys[i] == x else i < |t.kids| && x in AllKeys(t.kids[i])
  {
    own := x in t.keys;
    if own {
      i :| 0 <= i < |t.keys| && t.keys[i] == x;
    } else {
      i :| 0 <= i < |t.kids| && x in AllKeys(t.kids[i]);
    }
  }

  lemma LeafKeys(t: Tree)
    requires t.Leaf?
    ensures AllKeys(t) == KeySet(t)
  {
  }

  /** In an ordered tree the separators are stored keys, so nothing is left out. */
  lemma {:induction false} OrderedKeys(t: Tree, o: Order)
    requires Ordered(t, o)
    ensures AllKeys(t) == KeySet(t)
  {
    hide Less;
    if t.Leaf? {
      LeafKeys(t);
    } else {
      hide AllKeys, KeySet;
      forall i | 0 <= i < |t.kids|
        ensures AllKeys(t.kids[i]) == KeySet(t.kids[i])
      {
        OrderedKeys(t.kids[i], o);
      }
      forall x
        ensures x in AllKeys(t) <==> x in KeySet(t)
      {
        if x in AllKeys(t) {
          var own, i := KeyIsSomewhere(t, x);
          if own {
            SeparatorStored(t, i, o);
          }
          InKeySet(t, if own then i + 1 else i, x);
        }
        if x in KeySet(t) {
          var i := KeyHasKid(t, x);
          KidKey(t, i, x);
        }
      }
    }
  }

  lemma {:induction false} OrderedIsRanged(t: Tree, o: Order)
    requires Ordered(t, o)
    ensures Ranged(t, o)
  {
    hide Less, AllKeys, KeySet;
    if t.Branch? {
      forall i | 0 <= i < |t.kids|
        ensures Ranged(t.kids[i], o) && AllKeys(t.kids[i]) == KeySet(t.kids[i])
      {
        OrderedIsRanged(t.kids[i], o);
        OrderedKeys(t.kids[i], o);
      }
      forall i | 0 <= i < |t.keys|
        ensures Divides(t, i, o)
      {
        assert Separates(t, i, o);
      }
    }
  }

  lemma {:induction false} StrictRangeIsWeak(t: Tree)
    requires Ranged(t, Strict)
    ensures Ranged(t, Weak)
  {
    hide Less, AllKeys;
    if t.Branch? {
      forall i | 0 <= i < |t.kids|
        ensures Ranged(t.kids[i], Weak)
      {
        StrictRangeIsWeak(t.kids[i]);
      }
      forall i | 0 <= i < |t.keys|
        ensures Divides(t, i, Weak)
      {
        assert Divides(t, i, Strict);
      }
    }
  }

  lemma {:induction false} RangedIsTidy(t: Tree, o: Order)
    requires Ranged(t, o)
    ensures Tidy(t)
  {
    hide Less, AllKeys;
    if t.Branch? {
      forall i | 0 <= i < |t.kids|
        ensures Tidy(t.kids[i])
      {
        RangedIsTidy(t.kids[i], o);
      }
    }
  }

  lemma LeftSideR(t: Tree, j: nat, x: Key, o: Order)
    requires t.Branch? && Ranged(t, o) && j < |t.keys| && x in AllKeys(t.kids[j])
    ensures LeftOf(x, t.keys[j], o)
  {
    assert Divides(t, j, o);
  }

  lemma RightSideR(t: Tree, j: nat, x: Key, o: Order)
    requires t.Branch? && Ranged(t, o) && j < |t.keys| && x in AllKeys(t.kids[j + 1])
    ensures !Less(x, t.keys[j])
  {
    assert Divides(t, j, o);
  }

  /** Each subtree lies between the separators around it, not just its own two. */
  lemma RangeOfKid(t: Tree, i: nat, x: Key, o: Order)
    requires Ranged(t, o) && t.Branch? && i < |t.kids| && x in AllKeys(t.kids[i])
    ensures forall j :: 0 <= j < i ==> !Less(x, t.keys[j])
    ensures forall j :: i <= j < |t.keys| ==> LeftOf(x, t.keys[j], o)
  {
    hide Less, AllKeys;
    if i > 0 {
      RightSideR(t, i - 1, x, o);
      SortedAround(t.keys, x, i);
    }
    if i < |t.keys| {
      LeftSideR(t, i, x, o);
      forall j | i < j < |t.keys|
        ensures Less(x, t.keys[j])
      {
        Transitive(x, t.keys[i], t.keys[j]);
      }
    }
  }

  /** Search only finds keys that are there. */
  lemma {:induction false} FoundIsKey(t: Tree, q: Key)
    requires Lookup(t, q).Some?
    ensures q in AllKeys(t)
  {
    hide Less, LowerBound, Route;
    if t.Branch? {
      FoundIsKey(t.kids[Route(t.keys, q)], q);
      KidKey(t, Route(t.keys, q), q);
    }
  }

  // ------------------------------------------------------------- one split

  /** The halves of a split lie on the two sides of the promoted key. */
  ghost predicate Sides(c: Tree, l: Tree, m: Key, r: Tree, o: Order) {
    && Ranged(l, o) && Ranged(r, o)
    && AllKeys(l) <= AllKeys(c) && AllKeys(r) <= AllKeys(c) && m in AllKeys(c)
    && Below(AllKeys(l), m, o) && From(m, AllKeys(r))
  }

  lemma SplitLeafSides(c: Tree, n: nat, o: Order)
    requires c.Leaf? && Sorted(c.keys) && Splittable(c)
    ensures var (l, m, r) := Split(c, n); Sides(c, l, m, r, o)
  {
    hide Less, LeftOf;
    var mid := |c.keys| / 2;
    assert c.keys[..mid] + c.keys[mid..] == c.keys;
    LeftHalfBelow(c.keys, mid, o);
    RightHalfFrom(c.keys, mid);
  }

  lemma SplitBranchRanged(c: Tree, n: nat, o: Order)
    requires c.Branch? && Ranged(c, o) && Splittable(c)
    ensures Ranged(Split(c, n).0, o) && Ranged(Split(c, n).2, o)
  {
    hide Less, AllKeys;
    var (l, m, r) := Split(c, n);
    var mid := |c.keys| / 2;
    forall i | 0 <= i < |l.keys|
      ensures Divides(l, i, o)
    {
      assert Divides(c, i, o);
    }
    assert forall i :: 0 <= i < |r.keys| ==> r.keys[i] == c.keys[mid + 1 + i];
    assert forall i :: 0 <= i < |r.kids| ==> r.kids[i] == c.kids[mid + 1 + i];
    forall i | 0 <= i < |r.keys|
      ensures Divides(r, i, o)
    {
      assert Divides(c, mid + 1 + i, o);
    }
  }

  lemma LeftHalfKey(c: Tree, n: nat, o: Order, y: Key)
    requires c.Branch? && Ranged(c, o) && Splittable(c) && y in AllKeys(Split(c, n).0)
    ensures y in AllKeys(c) && LeftOf(y, Split(c, n).1, o)
  {
    hide Less, AllKeys, Split;
    var l := Split(c, n).0;
    var mid := |c.keys| / 2;
    SplitBranchKids(c, n, 0);
    SplitBranchKeys(c, n, mid);
    var own, i := KeyIsSomewhere(l, y);
    if own {
      SplitBranchKeys(c, n, i);
      OwnKey(c, i);
      assert Less(c.keys[i], c.keys[mid]);
    } else {
      SplitBranchKids(c, n, i);
      KidKey(c, i, y);
      RangeOfKid(c, i, y, o);
    }
  }

  lemma RightHalfKey(c: Tree, n: nat, o: Order, y: Key)
    requires c.Branch? && Ranged(c, o) && Splittable(c) && y in AllKeys(Split(c, n).2)
    ensures y in AllKeys(c) && !Less(y, Split(c, n).1)
  {
    hide Less, AllKeys, Split;
    var r := Split(c, n).2;
    var mid := |c.keys| / 2;
    SplitBranchKids(c, n, 0);
    SplitBranchKeys(c, n, mid);
    var own, i := KeyIsSomewhere(r, y);
    if own {
      SplitBranchKeys(c, n, mid + 1 + i);
      OwnKey(c, mid + 1 + i);
      Trichotomy(c.keys[mid], c.keys[mid + 1 + i]);
    } else {
      SplitBranchKids(c, n, mid + 1 + i);
      KidKey(c, mid + 1 + i, y);
      RangeOfKid(c, mid + 1 + i, y, o);
    }
  }

  lemma SplitSides(c: Tree, n: nat, o: Order)
    requires Ranged(c, o) && Splittable(c)
    ensures var (l, m, r) := Split(c, n); Sides(c, l, m, r, o)
  {
    if c.Leaf? {
      SplitLeafSides(c, n, o);
    } else {
      hide Ranged, AllKeys, Split, Less;
      var (l, m, r) := Split(c, n);
      SplitBranchRanged(c, n, o);
      SplitBranchKeys(c, n, |c.keys| / 2);
      OwnKey(c, |c.keys| / 2);
      forall y | y in AllKeys(l)
        ensures y in AllKeys(c) && LeftOf(y, m, o)
      {
        LeftHalfKey(c, n, o, y);
      }
      forall y | y in AllKeys(r)
        ensures y in AllKeys(c) && !Less(y, m)
      {
        RightHalfKey(c, n, o, y);
      }
    }
  }

  // ---------------------------------------------- a split inside its parent

  lemma RangedNode(t: Tree, o: Order)
    requires Ranged(t, o)
    ensures Sorted(t.keys) && (t.Branch? ==> |t.kids| == |t.keys| + 1)
  {
  }

  lemma DividesAt(t: Tree, j: nat, o: Order)
    requires t.Branch? && Ranged(t, o) && j < |t.keys|
    ensures |t.kids| == |t.keys| + 1 && Divides(t, j, o)
  {
  }

  lemma NewKeySorted(t: Tree, i: nat, m: Key, o: Order)
    requires t.Branch? && Ranged(t, o) && i < |t.kids| && m in AllKeys(t.kids[i]) && NewSeparator(t, i, m)
    ensures Sorted(InsertAt(t.keys, i, m))
  {
    hide Less, AllKeys, Ranged;
    RangedNode(t, o);
    RangeOfKid(t, i, m, o);
    if i > 0 {
      Trichotomy(t.keys[i - 1], m);
    }
    SortedInsert(t.keys, i, m);
  }

  lemma PartedDivides(t: Tree, i: nat, l: Tree, m: Key, r: Tree, o: Order, j: nat)
    requires t.Branch? && Ranged(t, o) && i < |t.kids| && Sides(t.kids[i], l, m, r, o) && j < |t.keys| + 1
    ensures Divides(Parted(t, i, l, m, r), j, o)
  {
    hide Less, AllKeys, Ranged;
    RangedNode(t, o);
    PartedKid(t, i, l, m, r, j);
    PartedKid(t, i, l, m, r, j + 1);
    if j < i {
      DividesAt(t, j, o);
    } else if j > i {
      DividesAt(t, j - 1, o);
    }
  }

  lemma PartedRanged(t: Tree, i: nat, l: Tree, m: Key, r: Tree, o: Order)
    requires t.Branch? && Ranged(t, o) && i < |t.kids| && Sides(t.kids[i], l, m, r, o) && NewSeparator(t, i, m)
    ensures Ranged(Parted(t, i, l, m, r), o)
  {
    hide Less, AllKeys, Divides;
    NewKeySorted(t, i, m, o);
    var t1 := Parted(t, i, l, m, r);
    forall j | 0 <= j < |t1.keys|
      ensures Divides(t1, j, o)
    {
      PartedDivides(t, i, l, m, r, o, j);
    }
    forall j | 0 <= j < |t1.kids|
      ensures Ranged(t1.kids[j], o)
    {
      PartedKid(t, i, l, m, r, j);
    }
  }

  lemma PartedAllKeys(t: Tree, i: nat, l: Tree, m: Key, r: Tree, x: Key)
    requires t.Branch? && |t.kids| == |t.keys| + 1 && i < |t.kids|
    requires AllKeys(l) <= AllKeys(t.kids[i]) && AllKeys(r) <= AllKeys(t.kids[i]) && m in AllKeys(t.kids[i])
    requires x in AllKeys(Parted(t, i, l, m, r))
    ensures x in AllKeys(t)
  {
    PartedIs(t, i, l, m, r);
    hide AllKeys, Parted;
    var own, j := KeyIsSomewhere(Parted(t, i, l, m, r), x);
    if own {
      if j == i {
        KidKey(t, i, x);
      } else {
        OwnKey(t, if j < i then j else j - 1);
      }
    } else {
      PartedKid(t, i, l, m, r, j);
      KidKey(t, if j <= i then j else j - 1, x);
    }
  }

  /** A split that promotes a new key keeps the ranges and the answer to every search. */
  lemma SplitKidRanged(t: Tree, i: nat, n: nat, o: Order)
    requires t.Branch? && Ranged(t, o) && i < |t.kids| && Splittable(t.kids[i])
    requires NewSeparator(t, i, t.kids[i].keys[|t.kids[i].keys| / 2])
    ensures Ranged(SplitKid(t, i, n), o) && AllKeys(SplitKid(t, i, n)) <= AllKeys(t)
    ensures forall q :: Lookup(SplitKid(t, i, n), q) == Lookup(t, q)
  {
    hide Less, AllKeys, Lookup;
    var (l, m, r) := Split(t.kids[i], n);
    SplitSides(t.kids[i], n, o);
    NewKeySorted(t, i, m, o);
    PartedRanged(t, i, l, m, r, o);
    assert SplitKid(t, i, n) == Parted(t, i, l, m, r);
    RangedNode(t.kids[i], o);
    forall q
      ensures Lookup(Parted(t, i, l, m, r), q) == Lookup(t, q)
    {
      SplitLookup(t.kids[i], n, q);
      PartedLookup(t, i, l, m, r, q);
    }
    forall x | x in AllKeys(Parted(t, i, l, m, r))
      ensures x in AllKeys(t)
    {
      PartedAllKeys(t, i, l, m, r, x);
    }
  }

  // ------------------------------------------------------------- insertion

  /** The child entered after making room is the one a search would enter, unless k was just promoted. */
  lemma DescendRanged(t: Tree, h: nat, k: Key, n: nat, tie: Tie, o: Order)
    requires Shape(t, h) && t.Branch? && Ranged(t, o) && !Clash(t, Route(t.keys, k))
    ensures var (t1, j, n1) := Descend(t, h, k, n, tie);
      && Ranged(t1, o) && AllKeys(t1) <= AllKeys(t) && (forall q :: Lookup(t1, q) == Lookup(t, q))
      && Between(t1, j, k, if tie.AsWritten? && Promoted(t, h, k, n) then Weak else Strict)
      && Route(t1.keys, k) == if tie.AsWritten? && Promoted(t, h, k, n) then j + 1 else j
  {
    hide Less, AllKeys, Lookup, Ranged, Route, GoesRight;
    var i := Route(t.keys, k);
    if Full(t.kids[i]) {
      hide Descend, Promoted, Clash, SplitKid, Split, NewSeparator;
      DescendSplits(t, h, k, n, tie);
      SplitKidRanged(t, i, n, o);
      RangedNode(SplitKid(t, i, n), o);
      SplitEntry(t.keys, i, Split(t.kids[i], n).1, k, tie);
    }
  }

  /** A subtree that gains at most a key between the separators around it. */
  lemma ReplaceKidRanged(t: Tree, j: nat, c: Tree, k: Key, o: Order)
    requires t.Branch? && Ranged(t, o) && j < |t.kids| && Ranged(c, o)
    requires forall x :: x in AllKeys(c) ==> x == k || x in AllKeys(t.kids[j])
    requires j <= |t.keys| && Between(t, j, k, o)
    ensures var t' := t.(kids := t.kids[j := c]);
      Ranged(t', o) && forall x :: x in AllKeys(t') ==> x == k || x in AllKeys(t)
  {
    hide Less, AllKeys;
    var t' := t.(kids := t.kids[j := c]);
    forall i | 0 <= i < |t'.keys|
      ensures Divides(t', i, o)
    {
      assert Divides(t, i, o);
    }
    forall x | x in AllKeys(t') && x != k
      ensures x in AllKeys(t)
    {
      var own, i := KeyIsSomewhere(t', x);
      if own {
        OwnKey(t, i);
      } else {
        KidKey(t, i, x);
      }
    }
  }

  lemma LeafInsertRanged(t: Tree, k: Key, v: Val, o: Order)
    requires t.Leaf? && |t.keys| == |t.vals| && Ranged(t, o)
    ensures var t' := LeafInsert(t, k, v); Ranged(t', o) && forall x :: x in AllKeys(t') ==> x == k || x in AllKeys(t)
  {
    hide Less, LeafInsert;
    LeafInsertOrdered(t, k, v);
    LeafKeys(t);
    LeafKeys(LeafInsert(t, k, v));
  }

  // ----------------------------------------------------------------- clashes

  /** Without dead copies, a node that keeps a smaller key in its left half promotes a new one. */
  lemma StrictSplitIsNew(t: Tree, i: nat)
    requires t.Branch? && Ranged(t, Strict) && i < |t.kids| && |t.kids[i].keys| >= 2
    ensures NewSeparator(t, i, t.kids[i].keys[|t.kids[i].keys| / 2])
  {
    hide Less, AllKeys;
    var c := t.kids[i];
    var mid := |c.keys| / 2;
    OwnKey(c, 0);
    OwnKey(c, mid);
    RangeOfKid(t, i, c.keys[0], Strict);
    RangeOfKid(t, i, c.keys[mid], Strict);
    assert Less(c.keys[0], c.keys[mid]);
    if i < |t.keys| {
      Trichotomy(c.keys[mid], t.keys[i]);
    }
  }

  /** With small entries and no dead copies no split clashes. */
  lemma {:induction false} SmallNeverClashes(t: Tree, h: nat, k: Key, n: nat, tie: Tie)
    requires Shape(t, h) && Ranged(t, Strict) && Small(t, ENTRY_LIMIT, ENTRY_LIMIT)
    ensures !MeetsClash(t, h, k, n, tie)
    decreases h
  {
    hide Less, AllKeys, Descend, Promoted;
    if t.Branch? {
      var i := Route(t.keys, k);
      if Full(t.kids[i]) {
        FullHoldsTwo(t.kids[i], h - 1);
        StrictSplitIsNew(t, i);
      }
      DescendSmall(t, h, k, n, tie, ENTRY_LIMIT, ENTRY_LIMIT);
      DescendRanged(t, h, k, n, tie, Strict);
      var (t1, j, n1) := Descend(t, h, k, n, tie);
      SmallNeverClashes(t1.kids[j], h - 1, k, n1, tie);
    }
  }
}
