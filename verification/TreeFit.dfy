/**
 * Page fit. The half an insertion enters after a split is never tested for
 * fullness again, so what rules out "Node too large" is a count of the entries
 * the other half took away.
 */
module TreeFit {
  import opened Keys
  import opened Limits
  import opened Trees
  import opened TreeOrder

  /** Room for a node in a page behind its four checksum bytes. */
  const NODE_LIMIT := PAGE_SIZE - 4

  /** Largest cost 16 + |k| + |v| of a leaf entry, and 12 + |k| of a separator, for which every node fits. */
  const ENTRY_FIT := 240
  const KEY_FIT := 216

  ghost predicate Fits(t: Tree)
    decreases t, 1
  {
    Size(t) <= NODE_LIMIT && FitsBelow(t)
  }

  ghost predicate FitsBelow(t: Tree)
    decreases t, 0
  {
    t.Branch? ==> forall i :: 0 <= i < |t.kids| ==> Fits(t.kids[i])
  }

  /** The node itself can take one more entry or separator. */
  ghost predicate Roomy(t: Tree) {
    Size(t) + (if t.Leaf? then ENTRY_FIT else KEY_FIT) <= NODE_LIMIT
  }

  // ------------------------------------------------------------------ sums

  lemma {:induction false} SumLenConcat(a: seq<Bytes>, b: seq<Bytes>)
    ensures SumLen(a + b) == SumLen(a) + SumLen(b)
  {
    if a == [] {
      assert a + b == b;
    } else {
      assert (a + b)[1..] == a[1..] + b;
      SumLenConcat(a[1..], b);
    }
  }

  lemma SumLenSplit(a: seq<Bytes>, i: nat)
    requires i <= |a|
    ensures SumLen(a) == SumLen(a[..i]) + SumLen(a[i..])
  {
    assert a == a[..i] + a[i..];
    SumLenConcat(a[..i], a[i..]);
  }

  lemma SumLenAt(a: seq<Bytes>, i: nat)
    requires i < |a|
    ensures SumLen(a) == SumLen(a[..i]) + 8 + |a[i]| + SumLen(a[i + 1..])
  {
    SumLenSplit(a, i);
    assert a[i..][1..] == a[i + 1..];
  }

  lemma SumLenInsertAt(a: seq<Bytes>, i: nat, x: Bytes)
    requires i <= |a|
    ensures SumLen(InsertAt(a, i, x)) == SumLen(a) + 8 + |x|
  {
    var b := InsertAt(a, i, x);
    SumLenAt(b, i);
    SumLenSplit(a, i);
    assert b[..i] == a[..i] && b[i + 1..] == a[i..];
  }

  lemma SumLenUpdate(a: seq<Bytes>, i: nat, x: Bytes)
    requires i < |a|
    ensures SumLen(a[i := x]) == SumLen(a) - |a[i]| + |x|
  {
    SumLenAt(a, i);
    SumLenAt(a[i := x], i);
    assert a[i := x][..i] == a[..i] && a[i := x][i + 1..] == a[i + 1..];
  }

  /** n leaf entries cost between 16 n and 240 n bytes. */
  lemma {:induction false} LeafSumBounds(keys: seq<Key>, vals: seq<Val>)
    requires |keys| == |vals|
    requires forall i :: 0 <= i < |keys| ==> 16 + |keys[i]| + |vals[i]| <= ENTRY_FIT
    ensures 16 * |keys| <= SumLen(keys) + SumLen(vals) <= ENTRY_FIT * |keys|
  {
    if keys != [] {
      LeafSumBounds(keys[1..], vals[1..]);
    }
  }

  /** n separators with their children cost between 12 n and 216 n bytes. */
  lemma {:induction false} KeySumBounds(keys: seq<Key>)
    requires forall i :: 0 <= i < |keys| ==> 12 + |keys[i]| <= KEY_FIT
    ensures 12 * |keys| <= SumLen(keys) + 4 * |keys| <= KEY_FIT * |keys|
  {
    if keys != [] {
      KeySumBounds(keys[1..]);
    }
  }

  // ------------------------------------------------------------- one split

  /** The counting argument for a leaf: n entries of total cost a + b in halves of n/2 and n - n/2. */
  lemma HalvesOfLeaf(n: nat, a: nat, b: nat, link: nat)
    requires 16 * (n / 2) <= a <= ENTRY_FIT * (n / 2)
    requires 16 * (n - n / 2) <= b <= ENTRY_FIT * (n - n / 2)
    requires link <= 4 && 29 + link + a + b <= NODE_LIMIT
    ensures 33 + a + ENTRY_FIT <= NODE_LIMIT
    ensures 29 + link + b + ENTRY_FIT <= NODE_LIMIT
  {
  }

  /** The counting argument for an internal node, whose middle key leaves it. */
  lemma HalvesOfBranch(n: nat, a: nat, m: nat, b: nat)
    requires n > 0
    requires 12 * (n / 2) <= a <= KEY_FIT * (n / 2)
    requires 12 * (n - n / 2 - 1) <= b <= KEY_FIT * (n - n / 2 - 1)
    requires 12 <= m
    requires 33 + a + m + b <= NODE_LIMIT
    ensures 33 + a + KEY_FIT <= NODE_LIMIT
    ensures 33 + b + KEY_FIT <= NODE_LIMIT
  {
  }

  lemma SplitLeafRoomy(c: Tree, n: nat)
    requires c.Leaf? && Splittable(c) && Size(c) <= NODE_LIMIT && Small(c, ENTRY_FIT, KEY_FIT)
    ensures var (l, m, r) := Split(c, n); Roomy(l) && Roomy(r)
  {
    var mid := |c.keys| / 2;
    var (keysL, valsL, keysR, valsR) := (c.keys[..mid], c.vals[..mid], c.keys[mid..], c.vals[mid..]);
    SumLenSplit(c.keys, mid);
    SumLenSplit(c.vals, mid);
    LeafSumBounds(keysL, valsL);
    LeafSumBounds(keysR, valsR);
    var link := if c.next.Some? then 4 else 0;
    HalvesOfLeaf(|c.keys|, SumLen(keysL) + SumLen(valsL), SumLen(keysR) + SumLen(valsR), link);
  }

  lemma SplitBranchRoomy(c: Tree, n: nat)
    requires c.Branch? && Splittable(c) && Size(c) <= NODE_LIMIT && Small(c, ENTRY_FIT, KEY_FIT)
    ensures var (l, m, r) := Split(c, n); Roomy(l) && Roomy(r)
  {
    var mid := |c.keys| / 2;
    var (keysL, keysR) := (c.keys[..mid], c.keys[mid + 1..]);
    SumLenAt(c.keys, mid);
    KeySumBounds(keysL);
    KeySumBounds(keysR);
    HalvesOfBranch(|c.keys|, SumLen(keysL) + 4 * |keysL|, 12 + |c.keys[mid]|, SumLen(keysR) + 4 * |keysR|);
  }

  /** Both halves of any split of a fitting node take one more entry, whichever half is chosen. */
  lemma SplitRoomy(c: Tree, h: nat, n: nat)
    requires Shape(c, h) && Splittable(c) && Fits(c) && Small(c, ENTRY_FIT, KEY_FIT)
    ensures var (l, m, r) := Split(c, n); Roomy(l) && Roomy(r) && FitsBelow(l) && FitsBelow(r)
  {
    if c.Leaf? {
      SplitLeafRoomy(c, n);
    } else {
      SplitBranchRoomy(c, n);
    }
  }

  // ------------------------------------------------------------- insertion

  lemma LeafInsertSize(t: Tree, k: Key, v: Val)
    requires t.Leaf? && |t.keys| == |t.vals|
    ensures Size(LeafInsert(t, k, v)) <= Size(t) + 16 + |k| + |v|
  {
    var i := LowerBound(t.keys, k);
    if i < |t.keys| && t.keys[i] == k {
      SumLenUpdate(t.vals, i, v);
    } else {
      SumLenInsertAt(t.keys, i, k);
      SumLenInsertAt(t.vals, i, v);
    }
  }

  /** After making room: the parent still fits, and so does everything but the child entered, which has room. */
  lemma DescendFits(t: Tree, h: nat, k: Key, n: nat, tie: Tie)
    requires Shape(t, h) && t.Branch? && Small(t, ENTRY_FIT, KEY_FIT) && Roomy(t) && FitsBelow(t)
    ensures var (t1, j, n1) := Descend(t, h, k, n, tie);
      Size(t1) <= NODE_LIMIT && Roomy(t1.kids[j]) && FitsBelow(t1.kids[j]) && FitsBelow(t1)
  {
    hide SumLen, GoesRight, Less;
    var i := Route(t.keys, k);
    if Full(t.kids[i]) {
      var c := t.kids[i];
      FullIsSplittable(c, h - 1);
      SplitRoomy(c, h - 1, n);
      var (l, m, r) := Split(c, n);
      SumLenInsertAt(t.keys, i, m);
      assert m == c.keys[|c.keys| / 2];
    }
  }

  /** An insertion of a small entry into a fitting tree of small entries meets no oversized node. */
  lemma {:induction false} InsertNonFullFits(t: Tree, h: nat, k: Key, v: Val, n: nat, tie: Tie)
    requires Shape(t, h) && Small(t, ENTRY_FIT, KEY_FIT) && Roomy(t) && FitsBelow(t)
    requires 16 + |k| + |v| <= ENTRY_FIT && 12 + |k| <= KEY_FIT
    ensures Fits(InsertNonFull(t, h, k, v, n, tie).0)
    decreases h
  {
    if t.Leaf? {
      LeafInsertSize(t, k, v);
    } else {
      DescendFits(t, h, k, n, tie);
      DescendSmall(t, h, k, n, tie, ENTRY_FIT, KEY_FIT);
      var (t1, j, n1) := Descend(t, h, k, n, tie);
      InsertNonFullFits(t1.kids[j], h - 1, k, v, n1, tie);
    }
  }

  lemma GrowRootFits(t: Tree, h: nat, n: nat)
    requires Shape(t, h) && Full(t) && Fits(t) && Small(t, ENTRY_FIT, KEY_FIT)
    ensures Roomy(GrowRoot(t, h, n)) && FitsBelow(GrowRoot(t, h, n)) && Small(GrowRoot(t, h, n), ENTRY_FIT, KEY_FIT)
  {
    FullIsSplittable(t, h);
    var c := t.(id := n);
    SplitRoomy(c, h, n + 1);
    SplitSmall(c, n + 1, ENTRY_FIT, KEY_FIT);
    var (l, m, r) := Split(c, n + 1);
    var g := GrowRoot(t, h, n);
    assert g.keys == [m] && g.kids == [l, r];
    assert SumLen(g.keys) == 8 + |m|;
  }

  /** Page-fit theorem: with costs at most 240 and keys at most 204 bytes, no insertion fails to fit. */
  lemma InsertFits(t: Tree, h: nat, k: Key, v: Val, n: nat, tie: Tie)
    requires Shape(t, h) && Small(t, ENTRY_FIT, KEY_FIT) && Fits(t)
    requires 16 + |k| + |v| <= ENTRY_FIT && 12 + |k| <= KEY_FIT
    ensures Fits(Insert(t, h, k, v, n, tie).0) && Small(Insert(t, h, k, v, n, tie).0, ENTRY_FIT, KEY_FIT)
  {
    hide GrowRoot, InsertNonFull;
    if Full(t) {
      GrowRootFits(t, h, n);
      var g := GrowRoot(t, h, n);
      InsertNonFullFits(g, h + 1, k, v, n + 2, tie);
      InsertNonFullSmall(g, h + 1, k, v, n + 2, tie, ENTRY_FIT, KEY_FIT);
    } else {
      InsertNonFullFits(t, h, k, v, n, tie);
      InsertNonFullSmall(t, h, k, v, n, tie, ENTRY_FIT, KEY_FIT);
    }
  }

  // --------------------------------------------------------- exactly when

  /** A split of a fitting node fits before anything is added to it. */
  lemma HalvesFit(c: Tree, n: nat)
    requires Splittable(c) && Fits(c)
    ensures Fits(Split(c, n).0) && Fits(Split(c, n).2)
  {
    var mid := |c.keys| / 2;
    SumLenAt(c.keys, mid);
    SumLenSplit(c.keys, mid);
    if c.Leaf? {
      SumLenAt(c.vals, mid);
      SumLenSplit(c.vals, mid);
    }
  }

  lemma SplitKidFitsBelow(t: Tree, i: nat, n: nat)
    requires t.Branch? && |t.kids| == |t.keys| + 1 && i < |t.kids| && Splittable(t.kids[i]) && FitsBelow(t)
    ensures FitsBelow(SplitKid(t, i, n))
  {
    HalvesFit(t.kids[i], n);
    var t1 := SplitKid(t, i, n);
    forall j | 0 <= j < |t1.kids|
      ensures Fits(t1.kids[j])
    {
      SplitKidAt(t, i, n, j);
    }
  }

  lemma MovedFits(t: Tree, n: nat)
    requires Fits(t)
    ensures Fits(t.(id := n))
  {
    assert Size(t.(id := n)) == Size(t);
  }

  /** One separator and two links cost no more than the node they were cut from. */
  lemma GrownFits(t: Tree, h: nat, n: nat)
    requires Shape(t, h) && Full(t) && Fits(t)
    ensures Fits(GrowRoot(t, h, n))
  {
    FullIsSplittable(t, h);
    MovedFits(t, n);
    SplitKidFitsBelow(Branch(t.id, [], [t.(id := n)]), 0, n + 1);
    var g := GrowRoot(t, h, n);
    var mid := |t.keys| / 2;
    assert g.keys == [t.keys[mid]] && |g.kids| == 2;
    assert g.keys[1..] == [] && SumLen(g.keys) == 8 + |g.keys[0]|;
    SumLenAt(t.keys, mid);
    if t.Leaf? {
      SumLenAt(t.vals, mid);
    }
  }

  /** What an entry adds to a leaf: itself, or the difference to the value it replaces. */
  function Growth(t: Tree, k: Key, v: Val): int
    requires t.Leaf? && |t.keys| == |t.vals|
  {
    var i := LowerBound(t.keys, k);
    if i < |t.keys| && t.keys[i] == k then |v| - |t.vals[i]| else 16 + |k| + |v|
  }

  lemma LeafInsertSizeIs(t: Tree, k: Key, v: Val)
    requires t.Leaf? && |t.keys| == |t.vals|
    ensures Size(LeafInsert(t, k, v)) == Size(t) + Growth(t, k, v)
  {
    var i := LowerBound(t.keys, k);
    if i < |t.keys| && t.keys[i] == k {
      SumLenUpdate(t.vals, i, v);
    } else {
      SumLenInsertAt(t.keys, i, k);
      SumLenInsertAt(t.vals, i, v);
    }
  }

  /** The promoted key does not fit into the parent any more. */
  predicate ParentOverfull(t: Tree, c: Tree)
    requires t.Branch?
  {
    Full(c) && |c.keys| > 0 && Size(t) + 12 + |c.keys[|c.keys| / 2]| > NODE_LIMIT
  }

  /** The descent for k meets a parent or a leaf that outgrows its page. */
  ghost predicate MeetsOverfull(t: Tree, h: nat, k: Key, v: Val, n: nat, tie: Tie)
    requires Shape(t, h)
    decreases h
  {
    if t.Leaf? then Size(t) + Growth(t, k, v) > NODE_LIMIT
    else
      var (t1, j, n1) := Descend(t, h, k, n, tie);
      ParentOverfull(t, t.kids[Route(t.keys, k)]) || MeetsOverfull(t1.kids[j], h - 1, k, v, n1, tie)
  }

  ghost predicate MeetsOverfullAtInsert(t: Tree, h: nat, k: Key, v: Val, n: nat, tie: Tie)
    requires Shape(t, h)
  {
    if Full(t) then MeetsOverfull(GrowRoot(t, h, n), h + 1, k, v, n + 2, tie) else MeetsOverfull(t, h, k, v, n, tie)
  }

  /** Making room: everything below fits, and the parent does unless it is overfull. */
  lemma DescendFitsIff(t: Tree, h: nat, k: Key, n: nat, tie: Tie)
    requires Shape(t, h) && t.Branch? && Fits(t)
    ensures var (t1, j, n1) := Descend(t, h, k, n, tie);
      && FitsBelow(t1) && Fits(t1.kids[j])
      && (Size(t1) <= NODE_LIMIT <==> !ParentOverfull(t, t.kids[Route(t.keys, k)]))
  {
    hide SumLen, Less, Route;
    var i := Route(t.keys, k);
    if Full(t.kids[i]) {
      FullIsSplittable(t.kids[i], h - 1);
      SplitKidFitsBelow(t, i, n);
      SumLenInsertAt(t.keys, i, Split(t.kids[i], n).1);
    }
  }

  lemma ReplaceKidFits(t: Tree, j: nat, c: Tree)
    requires t.Branch? && j < |t.kids| && FitsBelow(t)
    ensures Fits(t.(kids := t.kids[j := c])) <==> Size(t) <= NODE_LIMIT && Fits(c)
  {
    var t' := t.(kids := t.kids[j := c]);
    assert t'.kids[j] == c;
  }

  /** In any fitting tree, an insertion leaves every node within its page if and only if it meets no overfull one. */
  lemma {:induction false} InsertNonFullFitsIff(t: Tree, h: nat, k: Key, v: Val, n: nat, tie: Tie)
    requires Shape(t, h) && Fits(t)
    ensures Fits(InsertNonFull(t, h, k, v, n, tie).0) <==> !MeetsOverfull(t, h, k, v, n, tie)
    decreases h
  {
    hide Descend, Size, Growth, ParentOverfull, LeafInsert, Less;
    if t.Leaf? {
      LeafInsertSizeIs(t, k, v);
    } else {
      DescendFitsIff(t, h, k, n, tie);
      var (t1, j, n1) := Descend(t, h, k, n, tie);
      InsertNonFullFitsIff(t1.kids[j], h - 1, k, v, n1, tie);
      ReplaceKidFits(t1, j, InsertNonFull(t1.kids[j], h - 1, k, v, n1, tie).0);
    }
  }

  /** The same for a whole insertion; a new root always fits. */
  lemma InsertFitsIff(t: Tree, h: nat, k: Key, v: Val, n: nat, tie: Tie)
    requires Shape(t, h) && Fits(t)
    ensures Fits(Insert(t, h, k, v, n, tie).0) <==> !MeetsOverfullAtInsert(t, h, k, v, n, tie)
  {
    hide GrowRoot, InsertNonFull, MeetsOverfull, Size, Fits, Shape;
    if Full(t) {
      GrownFits(t, h, n);
      InsertNonFullFitsIff(GrowRoot(t, h, n), h + 1, k, v, n + 2, tie);
    } else {
      InsertNonFullFitsIff(t, h, k, v, n, tie);
    }
  }
}
