/** Concrete runs on which insertion as written goes wrong. */
module TreeDeviations {
  import opened Keys
  import opened Limits
  import opened Trees
  import opened TreeOrder
  import opened TreeRange
  import opened TreeFit
  import opened TreeRuns
  import opened TreeExact
  import opened TreeFailure
  import opened TreeTies

  function Filler(n: nat): (v: Val)
    ensures |v| == n
  {
    seq(n, i => 0)
  }

  const BIG: Val := Filler(1510)

  lemma SumLenOfTwo(a: Bytes, b: Bytes)
    ensures SumLen([a, b]) == 16 + |a| + |b|
  {
    assert [a, b][1..] == [b] && [b][1..] == [];
    assert SumLen([b]) == 8 + |b|;
  }

  /** Insertion of a new key into a root leaf with room. */
  lemma RootLeafStep(s: Store, k: Key, v: Val, i: nat)
    requires s.height == 0 && s.tree.Leaf? && |s.tree.keys| == |s.tree.vals| && Size(s.tree) <= 3072
    requires i <= |s.tree.keys| && LowerBound(s.tree.keys, k) == i && (i < |s.tree.keys| ==> s.tree.keys[i] != k)
    ensures var s' := InsertStep(s, k, v, AsWritten);
      && s' == Store(s.tree.(keys := InsertAt(s.tree.keys, i, k), vals := InsertAt(s.tree.vals, i, v)), 0, s.pages)
      && Size(s'.tree) == Size(s.tree) + 16 + |k| + |v|
  {
    LeafInsertSizeIs(s.tree, k, v);
  }

  /** One more insertion of a run into a root leaf. */
  lemma RootRunStep(r: Run, s: Store, k: Key, v: Val)
    requires Apply(r, AsWritten) == s && AllFit(r, AsWritten)
    requires s.height == 0 && s.tree.Leaf? && |s.tree.keys| == |s.tree.vals| && Size(s.tree) <= 3072 && Size(s.tree) + 16 + |k| + |v| <= NODE_LIMIT
    requires Sorted(s.tree.keys) && (s.tree.keys != [] ==> Less(s.tree.keys[|s.tree.keys| - 1], k))
    ensures var t' := s.tree.(keys := s.tree.keys + [k], vals := s.tree.vals + [v]);
      && Apply(Then(r, k, v), AsWritten) == Store(t', 0, s.pages) && AllFit(Then(r, k, v), AsWritten)
      && Size(t') == Size(s.tree) + 16 + |k| + |v| && Sorted(t'.keys)
  {
    hide Less, LowerBound, InsertStep, Size;
    var n := |s.tree.keys|;
    MissingAt(s.tree.keys, k, n);
    RootLeafStep(s, k, v, n);
    SortedInsert(s.tree.keys, n, k);
    assert InsertAt(s.tree.keys, n, k) == s.tree.keys + [k] && InsertAt(s.tree.vals, n, v) == s.tree.vals + [v];
    var t' := s.tree.(keys := s.tree.keys + [k], vals := s.tree.vals + [v]);
    assert Apply(Then(r, k, v), AsWritten) == Store(t', 0, s.pages);
    assert Fits(t');
  }

  lemma EmptyRunFits()
    ensures AllFit(Start, AsWritten) && Apply(Start, AsWritten) == EMPTY_STORE && Size(EMPTY_STORE.tree) == 29
  {
  }

  lemma GrowsAt(l: Tree, k: Key, v: Val, at: nat)
    requires l.Leaf? && |l.keys| == |l.vals| && at == LowerBound(l.keys, k) && k !in l.keys
    ensures LeafInsert(l, k, v) == l.(keys := InsertAt(l.keys, at, k), vals := InsertAt(l.vals, at, v))
    ensures Size(LeafInsert(l, k, v)) == Size(l) + 16 + |k| + |v|
  {
    LeafInsertSizeIs(l, k, v);
  }

  // ------------------------------------------------- the promoted-key tie

  const ONE_LEAF := Leaf(0, [[1], [2]], [BIG, BIG], None)

  const LEFT_LEAF := Leaf(1, [[1]], [BIG], Some(2))

  const RIGHT_LEAF := Leaf(2, [[2], [3]], [BIG, BIG], None)

  const TWO_LEAVES := Branch(0, [[2]], [LEFT_LEAF, RIGHT_LEAF])

  /** Three insertions of large values, then a second value for the third key. */
  const TIE_RUN := Then(Then(Then(Start, [1], BIG), [2], BIG), [3], BIG)

  const FIRST_LEAF := Leaf(0, [[1]], [BIG], None)

  lemma OneInsert()
    ensures Apply(Then(Start, [1], BIG), AsWritten) == Store(FIRST_LEAF, 0, 1) && AllFit(Then(Start, [1], BIG), AsWritten)
    ensures Size(FIRST_LEAF) == 1556
  {
    hide Less, Apply, AllFit;
    EmptyRunFits();
    RootRunStep(Start, EMPTY_STORE, [1], BIG);
    assert [] + [[1]] == [[1]] && [] + [BIG] == [BIG];
  }

  lemma TieKeysCompare()
    ensures Less([1], [2]) && Less([2], [3]) && Less([1], [3]) && !Less([3], [2]) && !Less([3], [3])
  {
  }

  lemma TwoInserts()
    ensures var r := Then(Then(Start, [1], BIG), [2], BIG);
      Apply(r, AsWritten) == Store(ONE_LEAF, 0, 1) && AllFit(r, AsWritten)
    ensures Size(ONE_LEAF) == 3083
  {
    hide Less, Apply, AllFit, Size;
    OneInsert();
    TieKeysCompare();
    RootRunStep(Then(Start, [1], BIG), Store(FIRST_LEAF, 0, 1), [2], BIG);
    assert [[1]] + [[2]] == [[1], [2]] && [BIG] + [BIG] == [BIG, BIG];
  }

  const SECOND_LEAF := Leaf(2, [[2]], [BIG], None)

  lemma TieRootGrows()
    ensures Shape(ONE_LEAF, 0) && Full(ONE_LEAF) && GrowRoot(ONE_LEAF, 0, 1) == Branch(0, [[2]], [LEFT_LEAF, SECOND_LEAF])
    ensures Size(LEFT_LEAF) == 1560 && Size(SECOND_LEAF) == 1556
  {
    TwoInserts();
    var moved := Leaf(1, [[1], [2]], [BIG, BIG], None);
    assert moved.keys[..1] == [[1]] && moved.keys[1..] == [[2]] && moved.vals[..1] == [BIG] && moved.vals[1..] == [BIG];
    assert Split(moved, 2) == (LEFT_LEAF, [2], SECOND_LEAF);
    assert InsertAt([], 0, [2]) == [[2]];
    assert InsertAt([moved][0 := LEFT_LEAF], 1, SECOND_LEAF) == [LEFT_LEAF, SECOND_LEAF];
    assert SECOND_LEAF.keys[1..] == [] && SECOND_LEAF.vals[1..] == [] && LEFT_LEAF.keys[1..] == [];
  }

  lemma ThirdInsert()
    ensures Shape(ONE_LEAF, 0)
    ensures Insert(ONE_LEAF, 0, [3], BIG, 1, AsWritten) == (TWO_LEAVES, 3) && NewHeight(ONE_LEAF, 0) == 1
    ensures Size(RIGHT_LEAF) == 3083
  {
    TieRootGrows();
    hide Less, Size, GrowRoot, LowerBound;
    TieKeysCompare();
    RouteIs([[2]], [3], 1);
    MissingAt([[2]], [3], 1);
    GrowsAt(SECOND_LEAF, [3], BIG, 1);
    assert InsertAt([[2]], 1, [3]) == [[2], [3]] && InsertAt([BIG], 1, BIG) == [BIG, BIG];
    assert [LEFT_LEAF, SECOND_LEAF][1 := RIGHT_LEAF] == [LEFT_LEAF, RIGHT_LEAF];
  }

  lemma LeafFits(l: Tree)
    requires l.Leaf? && Size(l) <= NODE_LIMIT
    ensures Fits(l)
  {
  }

  lemma BranchFits(t: Tree)
    requires t.Branch? && Size(t) <= NODE_LIMIT
    requires forall i :: 0 <= i < |t.kids| ==> Fits(t.kids[i])
    ensures Fits(t)
  {
  }

  lemma TwoLeavesFit()
    requires Size(LEFT_LEAF) == 1560 && Size(RIGHT_LEAF) == 3083 && Size(TWO_LEAVES) == 46
    ensures Fits(TWO_LEAVES)
  {
    hide Size, Fits;
    LeafFits(LEFT_LEAF);
    LeafFits(RIGHT_LEAF);
    BranchFits(TWO_LEAVES);
  }

  lemma TieTreeFits()
    ensures Fits(TWO_LEAVES) && Size(TWO_LEAVES) == 46
  {
    TieRootGrows();
    ThirdInsert();
    assert Size(TWO_LEAVES) == 46 by {
      assert TWO_LEAVES.keys[1..] == [];
    }
    TwoLeavesFit();
  }

  /** Re-inserting the third key splits its leaf, promotes the key, and goes left of it. */
  lemma FourthInsertMeets()
    ensures Shape(TWO_LEAVES, 1) && MeetsPromotedAtInsert(TWO_LEAVES, 1, [3], 3)
    ensures Lookup(TWO_LEAVES, [3]) == Some(BIG)
  {
    TieTreeFits();
    ThirdInsert();
    hide Less, Size, LowerBound;
    TieKeysCompare();
    RouteIs([[2]], [3], 1);
    assert Promoted(TWO_LEAVES, 1, [3], 3);
    FoundAt([[2], [3]], [3], 1);
  }

  /** A reachable tree on which a second value for a key is stored but never found again. */
  lemma SecondValueLost(v: Val)
    requires |v| <= 2500 && v != BIG
    ensures AllFit(Then(TIE_RUN, [3], v), AsWritten)
    ensures var s := Apply(TIE_RUN, AsWritten);
      && Lookup(s.tree, [3]) == Some(BIG)
      && Meets(s, [3])
      && Lookup(InsertStep(s, [3], v, AsWritten).tree, [3]) == Some(BIG)
      && Lookup(InsertStep(s, [3], v, EqualGoesRight).tree, [3]) == Some(v)
  {
    hide Less, Size, LowerBound, Insert, Fits;
    TieRunStored();
    FourthInsertMeets();
    FourthFits(v);
    var s := Apply(TIE_RUN, AsWritten);
    TieRunSound();
    OrderedIsRanged(TWO_LEAVES, Strict);
    SmallInsertNeverClashes(TWO_LEAVES, 1, [3], 3, AsWritten);
    SmallInsertNeverClashes(TWO_LEAVES, 1, [3], 3, EqualGoesRight);
    InsertLookup(TWO_LEAVES, 1, [3], v, 3, AsWritten, Strict, [3]);
    InsertLookup(TWO_LEAVES, 1, [3], v, 3, EqualGoesRight, Strict, [3]);
  }

  lemma TieRunSound()
    ensures Sound(Apply(TIE_RUN, AsWritten), Strict) && Small(Apply(TIE_RUN, AsWritten).tree, ENTRY_LIMIT, ENTRY_LIMIT)
  {
    var r1 := Then(Start, [1], BIG);
    var r2 := Then(r1, [2], BIG);
    assert Latest(Start) == map[];
    assert [1] !in Latest(Start) && [2] !in Latest(r1) && [3] !in Latest(r2);
    assert AllFresh(r1) && AllFresh(r2) && AllFresh(TIE_RUN);
    assert Costs(Start, ENTRY_LIMIT, ENTRY_LIMIT) && Costs(r1, ENTRY_LIMIT, ENTRY_LIMIT);
    SmallFreshRuns(TIE_RUN);
    SmallRunsNeverClash(TIE_RUN, AsWritten);
    RunsAreRight(TIE_RUN, AsWritten);
  }

  lemma TieRunStored()
    ensures Apply(TIE_RUN, AsWritten) == Store(TWO_LEAVES, 1, 3) && AllFit(TIE_RUN, AsWritten)
  {
    hide Insert, Fits, Size;
    TwoInserts();
    ThirdInsert();
    TieTreeFits();
  }

  lemma FourthDescends()
    ensures Shape(TWO_LEAVES, 1) && Route([[2]], [3]) == 1
    ensures Descend(TWO_LEAVES, 1, [3], 3, AsWritten) ==
      (Branch(0, [[2], [3]], [LEFT_LEAF, Leaf(2, [[2]], [BIG], Some(3)), Leaf(3, [[3]], [BIG], None)]), 1, 4)
  {
    TieTreeFits();
    ThirdInsert();
    hide Less, Size;
    TieKeysCompare();
    RouteIs([[2]], [3], 1);
    var (l, r) := (Leaf(2, [[2]], [BIG], Some(3)), Leaf(3, [[3]], [BIG], None));
    assert RIGHT_LEAF.keys[..1] == [[2]] && RIGHT_LEAF.keys[1..] == [[3]] && RIGHT_LEAF.vals[..1] == [BIG] && RIGHT_LEAF.vals[1..] == [BIG];
    assert Split(RIGHT_LEAF, 3) == (l, [3], r);
    assert InsertAt([[2]], 1, [3]) == [[2], [3]];
    assert InsertAt([LEFT_LEAF, RIGHT_LEAF][1 := l], 2, r) == [LEFT_LEAF, l, r];
  }

  lemma FourthPlace()
    ensures LowerBound([[2]], [3]) == 1
  {
    hide Less;
    TieKeysCompare();
    MissingAt([[2]], [3], 1);
  }

  /** The second value goes to a leaf that has room for it. */
  lemma FourthFits(v: Val)
    requires |v| <= 2500
    ensures AllFit(Then(TIE_RUN, [3], v), AsWritten)
  {
    TieTreeFits();
    TieRunStored();
    FourthDescends();
    FourthPlace();
    var l := Leaf(2, [[2]], [BIG], Some(3));
    assert Size(l) == 1560 by {
      assert l.keys[1..] == [] && l.vals[1..] == [];
    }
    hide Size, Less, LowerBound, Descend, Insert, Fits;
    assert !MeetsOverfull(TWO_LEAVES, 1, [3], v, 3, AsWritten);
    assert !Full(TWO_LEAVES);
    InsertFitsIff(TWO_LEAVES, 1, [3], v, 3, AsWritten);
  }

  // ------------------------------------------------------ the naive fit bound

  /** A value that makes an entry of cost 1020 under a key of one byte. */
  const HEAVY: Val := Filler(1003)
  const HEAVY2: Val := Filler(1002)

  const RIGHT := Leaf(2, [[5], [6]], [HEAVY, HEAVY], None)

  function WithLeft(l: Tree): Tree {
    Branch(0, [[5]], [l, RIGHT])
  }

  const LEFT_KEYS: seq<seq<Key>> := [
    [[4]],
    [[1], [4]],
    [[1], [2], [4]],
    [[1], [2], [3], [4]],
    [[1], [2], [3], [4], [4, 1]],
    [[1], [2], [3], [4], [4, 1], [4, 2]]]

  const LEFT_VALS: seq<seq<Val>> := [
    [HEAVY],
    [[], HEAVY],
    [[], [], HEAVY],
    [[], [], [], HEAVY],
    [[], [], [], HEAVY, HEAVY2],
    [[], [], [], HEAVY, HEAVY2, HEAVY2]]

  function LeftLeaf(i: nat): Tree
    requires i < 6
  {
    Leaf(1, LEFT_KEYS[i], LEFT_VALS[i], Some(2))
  }

  const NEW_KEYS: seq<Key> := [[1], [2], [3], [4, 1], [4, 2]]
  const NEW_VALS: seq<Val> := [[], [], [], HEAVY2, HEAVY2]
  const PLACES: seq<nat> := [0, 1, 2, 4, 5]
  const LEFT_SIZES: seq<nat> := [1053, 1070, 1087, 1104, 2124, 3144]

  const HEAVY_ROOT := Then(Then(Then(Start, [4], HEAVY), [5], HEAVY), [6], HEAVY)

  /** Three insertions of heavy entries, which fill the root, then i more into the left leaf. */
  function HeavyRun(i: nat): Run
    requires i <= 5
  {
    if i == 0 then HEAVY_ROOT else Then(HeavyRun(i - 1), NEW_KEYS[i - 1], NEW_VALS[i - 1])
  }

  const HEAVY_RUN := HeavyRun(5)

  lemma RootKeysCompare()
    ensures Less([4], [5]) && Less([5], [6]) && Less([4], [6])
  {
  }

  lemma OneHeavy()
    ensures var r := Then(Start, [4], HEAVY);
      && Apply(r, AsWritten) == Store(Leaf(0, [[4]], [HEAVY], None), 0, 1) && AllFit(r, AsWritten)
      && Size(Leaf(0, [[4]], [HEAVY], None)) == 1049
  {
    hide Less, Apply, AllFit;
    EmptyRunFits();
    RootRunStep(Start, EMPTY_STORE, [4], HEAVY);
    assert [] + [[4]] == [[4]] && [] + [HEAVY] == [HEAVY];
  }

  lemma TwoHeavy()
    ensures var r := Then(Then(Start, [4], HEAVY), [5], HEAVY);
      && Apply(r, AsWritten) == Store(Leaf(0, [[4], [5]], [HEAVY, HEAVY], None), 0, 1) && AllFit(r, AsWritten)
      && Size(Leaf(0, [[4], [5]], [HEAVY, HEAVY], None)) == 2069
  {
    hide Less, Apply, AllFit, Size;
    OneHeavy();
    RootKeysCompare();
    RootRunStep(Then(Start, [4], HEAVY), Store(Leaf(0, [[4]], [HEAVY], None), 0, 1), [5], HEAVY);
    assert [[4]] + [[5]] == [[4], [5]] && [HEAVY] + [HEAVY] == [HEAVY, HEAVY];
  }

  lemma HeavyRootStored()
    ensures var s := Apply(HEAVY_ROOT, AsWritten);
      s == Store(Leaf(0, [[4], [5], [6]], [HEAVY, HEAVY, HEAVY], None), 0, 1) && Size(s.tree) == 3089
    ensures AllFit(HEAVY_ROOT, AsWritten)
  {
    hide Less, Apply, AllFit, Size;
    TwoHeavy();
    RootKeysCompare();
    var s := Store(Leaf(0, [[4], [5]], [HEAVY, HEAVY], None), 0, 1);
    RootRunStep(Then(Then(Start, [4], HEAVY), [5], HEAVY), s, [6], HEAVY);
    assert [[4], [5]] + [[6]] == [[4], [5], [6]] && [HEAVY, HEAVY] + [HEAVY] == [HEAVY, HEAVY, HEAVY];
  }

  lemma HeavyKeysCompare()
    ensures Less([1], [2]) && Less([1], [3]) && Less([1], [4]) && Less([1], [4, 1]) && Less([1], [4, 2])
    ensures Less([2], [3]) && Less([2], [4]) && Less([2], [4, 1]) && Less([2], [4, 2])
    ensures Less([3], [4]) && Less([3], [4, 1]) && Less([3], [4, 2])
    ensures Less([4], [4, 1]) && Less([4], [4, 2]) && Less([4, 1], [4, 2])
    ensures Less([4], [4, 3]) && Less([4, 2], [4, 3]) && Less([4, 3], [5]) && Less([4, 1], [5])
    ensures forall i :: 0 <= i < 5 ==> Less(NEW_KEYS[i], [5])
  {
  }

  lemma LeftKeysSorted(i: nat)
    requires i < 6
    ensures Sorted(LEFT_KEYS[i])
  {
    hide Less;
    HeavyKeysCompare();
  }

  lemma PlaceIsBetween(i: nat)
    requires i < 5
    ensures var (keys, at) := (LEFT_KEYS[i], PLACES[i]);
      && at <= |keys| && (at > 0 ==> Less(keys[at - 1], NEW_KEYS[i])) && (at < |keys| ==> Less(NEW_KEYS[i], keys[at]))
  {
    hide Less;
    HeavyKeysCompare();
  }

  lemma LeftKeysGrow(i: nat)
    requires i < 5
    ensures PLACES[i] <= |LEFT_KEYS[i]| && InsertAt(LEFT_KEYS[i], PLACES[i], NEW_KEYS[i]) == LEFT_KEYS[i + 1]
  {
  }

  lemma LeftValsGrow(i: nat)
    requires i < 5
    ensures PLACES[i] <= |LEFT_VALS[i]| && InsertAt(LEFT_VALS[i], PLACES[i], NEW_VALS[i]) == LEFT_VALS[i + 1]
  {
  }

  lemma LeftIsShaped(i: nat)
    requires i < 6
    ensures Shape(LeftLeaf(i), 0) && Shape(WithLeft(LeftLeaf(i)), 1) && !Full(WithLeft(LeftLeaf(i)))
  {
    assert WithLeft(LeftLeaf(i)).keys[1..] == [];
  }

  lemma {:induction false} LeftSize(i: nat)
    requires i < 6
    ensures Size(LeftLeaf(i)) == LEFT_SIZES[i]
  {
    hide Size, LeafInsert;
    if i == 0 {
      FirstLeftSize();
    } else {
      LeftSize(i - 1);
      LeftGrows(i - 1);
    }
  }

  lemma FirstLeftSize()
    ensures Size(LeftLeaf(0)) == 1053
  {
    assert LEFT_KEYS[0][1..] == [] && LEFT_VALS[0][1..] == [];
  }

  lemma LeftGrows(i: nat)
    requires i < 5
    ensures Shape(LeftLeaf(i), 0) && LeafInsert(LeftLeaf(i), NEW_KEYS[i], NEW_VALS[i]) == LeftLeaf(i + 1)
    ensures Size(LeftLeaf(i + 1)) == Size(LeftLeaf(i)) + 16 + |NEW_KEYS[i]| + |NEW_VALS[i]|
  {
    hide Less, Size;
    LeftIsShaped(i);
    LeftKeysSorted(i);
    PlaceIsBetween(i);
    MissingAt(LEFT_KEYS[i], NEW_KEYS[i], PLACES[i]);
    LeftKeysGrow(i);
    LeftValsGrow(i);
    GrowsAt(LeftLeaf(i), NEW_KEYS[i], NEW_VALS[i], PLACES[i]);
  }

  /** Insertion of a key below [5] while the left leaf has room. */
  lemma LeftStep(i: nat)
    requires i < 5
    ensures Shape(WithLeft(LeftLeaf(i)), 1)
    ensures InsertNonFull(WithLeft(LeftLeaf(i)), 1, NEW_KEYS[i], NEW_VALS[i], 3, AsWritten) == (WithLeft(LeftLeaf(i + 1)), 3)
  {
    hide Less, LeafInsert, Size;
    var t := WithLeft(LeftLeaf(i));
    LeftIsShaped(i);
    LeftGrows(i);
    LeftSize(i);
    HeavyKeysCompare();
    RouteIs([[5]], NEW_KEYS[i], 0);
    assert !Full(t.kids[0]);
    assert Descend(t, 1, NEW_KEYS[i], 3, AsWritten) == (t, 0, 3);
    assert [LeftLeaf(i), RIGHT][0 := LeftLeaf(i + 1)] == [LeftLeaf(i + 1), RIGHT];
  }

  const HEAVY_MOVED := Leaf(1, [[4], [5], [6]], [HEAVY, HEAVY, HEAVY], None)

  lemma HeavyRootSplits()
    ensures Splittable(HEAVY_MOVED) && Split(HEAVY_MOVED, 2) == (LeftLeaf(0), [5], RIGHT)
  {
    var moved := HEAVY_MOVED;
    assert moved.keys[..1] == [[4]] && moved.keys[1..] == [[5], [6]];
    assert moved.vals[..1] == [HEAVY] && moved.vals[1..] == [HEAVY, HEAVY];
  }

  lemma HeavyRootGrows()
    ensures var s := Apply(HEAVY_ROOT, AsWritten);
      s.height == 0 && s.pages == 1 && Full(s.tree) && GrowRoot(s.tree, 0, 1) == WithLeft(LeftLeaf(0))
  {
    hide Size, Apply;
    HeavyRootStored();
    HeavyRootSplits();
    assert InsertAt([], 0, [5]) == [[5]];
    assert InsertAt([HEAVY_MOVED][0 := LeftLeaf(0)], 1, RIGHT) == [LeftLeaf(0), RIGHT];
  }

  /** The fourth insertion splits the root; then the left leaf fills up. */
  lemma {:induction false} HeavyRunStored(i: nat)
    requires 0 < i <= 5
    ensures Apply(HeavyRun(i), AsWritten) == Store(WithLeft(LeftLeaf(i)), 1, 3)
  {
    hide InsertNonFull, GrowRoot, Shape;
    LeftStep(i - 1);
    if i == 1 {
      HeavyRootGrows();
    } else {
      HeavyRunStored(i - 1);
      LeftIsShaped(i - 1);
    }
  }

  const HEAVY_HALF := Leaf(3, [[4], [4, 1], [4, 2]], [HEAVY, HEAVY2, HEAVY2], Some(2))
  const LIGHT_HALF := Leaf(1, [[1], [2], [3]], [[], [], []], Some(3))

  lemma HeavySplit()
    ensures Splittable(LeftLeaf(5)) && Split(LeftLeaf(5), 3) == (LIGHT_HALF, [4], HEAVY_HALF)
  {
    var (keys, vals) := (LEFT_KEYS[5], LEFT_VALS[5]);
    assert keys[..3] == LIGHT_HALF.keys && keys[3..] == HEAVY_HALF.keys;
    assert vals[..3] == LIGHT_HALF.vals && vals[3..] == HEAVY_HALF.vals;
  }

  lemma LightSums()
    ensures SumLen(LIGHT_HALF.keys) == 27 && SumLen(LIGHT_HALF.vals) == 24
  {
    assert LIGHT_HALF.keys[1..] == [[2], [3]] && [[2], [3]][1..] == [[3]] && [[3]][1..] == [];
    var empty: seq<Val> := [[], [], []];
    assert empty[1..] == [[], []] && empty[1..][1..] == [[]] && empty[1..][1..][1..] == [];
  }

  lemma HeavyHalfSize()
    ensures Size(HEAVY_HALF) == 3093
  {
    hide SumLen;
    var (keys, vals) := (LEFT_KEYS[5], LEFT_VALS[5]);
    LeftSize(5);
    LightSums();
    assert keys[..3] == LIGHT_HALF.keys && keys[3..] == HEAVY_HALF.keys;
    assert vals[..3] == LIGHT_HALF.vals && vals[3..] == HEAVY_HALF.vals;
    SumLenSplit(keys, 3);
    SumLenSplit(vals, 3);
  }

  const THREE_KIDS := Branch(0, [[4], [5]], [LIGHT_HALF, HEAVY_HALF, RIGHT])

  lemma NinthDescends(tie: Tie)
    ensures Shape(WithLeft(LeftLeaf(5)), 1) && Full(LeftLeaf(5)) && Route([[5]], [4, 3]) == 0
    ensures Descend(WithLeft(LeftLeaf(5)), 1, [4, 3], 3, tie) == (THREE_KIDS, 1, 4)
  {
    hide Less, Size, Split;
    var t := WithLeft(LeftLeaf(5));
    LeftIsShaped(5);
    LeftSize(5);
    HeavySplit();
    HeavyKeysCompare();
    RouteIs([[5]], [4, 3], 0);
    assert InsertAt([[5]], 0, [4]) == [[4], [5]];
    assert InsertAt(t.kids[0 := LIGHT_HALF], 1, HEAVY_HALF) == [LIGHT_HALF, HEAVY_HALF, RIGHT];
  }

  lemma NinthPlace()
    ensures LowerBound(HEAVY_HALF.keys, [4, 3]) == 3
  {
    hide Less;
    HeavyKeysCompare();
    MissingAt(HEAVY_HALF.keys, [4, 3], 3);
  }

  /** The ninth insertion enters the heavy half, which has no room for it. */
  lemma NinthIsOverfull(tie: Tie)
    ensures Shape(WithLeft(LeftLeaf(5)), 1) && MeetsOverfull(WithLeft(LeftLeaf(5)), 1, [4, 3], HEAVY2, 3, tie)
  {
    hide Less, Size, LowerBound, Descend;
    NinthDescends(tie);
    NinthPlace();
    HeavyHalfSize();
  }

  lemma {:induction false} HeavyCosts(i: nat)
    requires i <= 5
    ensures Costs(HeavyRun(i), 1020, 1020)
  {
    if i == 0 {
      assert Costs(Start, 1020, 1020) && Costs(Then(Start, [4], HEAVY), 1020, 1020);
      assert Costs(Then(Then(Start, [4], HEAVY), [5], HEAVY), 1020, 1020);
    } else {
      HeavyCosts(i - 1);
    }
  }

  lemma HeavyTreeFits(i: nat)
    requires i < 6
    ensures Fits(WithLeft(LeftLeaf(i)))
  {
    hide SumLen;
    LeftSize(i);
    assert LEFT_SIZES[i] <= 3144;
    SumLenOfTwo([5], [6]);
    SumLenOfTwo(HEAVY, HEAVY);
    LeftIsShaped(i);
    assert Fits(LeftLeaf(i));
    assert Fits(RIGHT);
    assert Size(WithLeft(LeftLeaf(i))) <= NODE_LIMIT;
  }

  lemma {:induction false} HeavyRunsFit(i: nat)
    requires i <= 5
    ensures AllFit(HeavyRun(i), AsWritten)
  {
    hide Fits, Insert;
    if i == 0 {
      HeavyRootStored();
    } else {
      HeavyRunsFit(i - 1);
      HeavyRunStored(i);
      HeavyTreeFits(i);
    }
  }

  lemma HeavyRunAllFits()
    ensures AllFit(HEAVY_RUN, AsWritten)
  {
    HeavyRunsFit(5);
  }

  /** A bound of threshold plus one entry does not suffice: 3072 + 1020 fits, and yet a ninth insertion of such entries does not. */
  lemma ThresholdPlusEntryDoesNotSuffice()
    ensures PAGE_SIZE * 3 / 4 + 1020 <= NODE_LIMIT
    ensures Costs(Then(HEAVY_RUN, [4, 3], HEAVY2), 1020, 1020)
    ensures Fits(Apply(HEAVY_RUN, AsWritten).tree) && Overfull(Apply(HEAVY_RUN, AsWritten), [4, 3], HEAVY2, AsWritten)
    ensures !Fits(Apply(Then(HEAVY_RUN, [4, 3], HEAVY2), AsWritten).tree)
  {
    hide Fits, Size, Insert, MeetsOverfull;
    HeavyCosts(5);
    HeavyRunStored(5);
    HeavyTreeFits(5);
    LeftIsShaped(5);
    NinthIsOverfull(AsWritten);
    InsertFitsIff(WithLeft(LeftLeaf(5)), 1, [4, 3], HEAVY2, 3, AsWritten);
  }

  // ------------------------------------------------------ a failed insertion

  lemma LightHalfOnly()
    ensures Lookup(WithLeft(LIGHT_HALF), [4, 1]) == None && Lookup(WithLeft(LIGHT_HALF), [4, 3]) == None
  {
    hide Less;
    HeavyKeysCompare();
    RouteIs([[5]], [4, 1], 0);
    RouteIs([[5]], [4, 3], 0);
    assert Less([3], [4, 3]) by {
      Transitive([3], [4], [4, 3]);
    }
    MissingAt(LIGHT_HALF.keys, [4, 1], 3);
    MissingAt(LIGHT_HALF.keys, [4, 3], 3);
  }

  lemma HeavyLeafFinds()
    ensures Lookup(WithLeft(LeftLeaf(5)), [4, 1]) == Some(HEAVY2)
  {
    hide Less;
    HeavyKeysCompare();
    LeftKeysSorted(5);
    RouteIs([[5]], [4, 1], 0);
    FoundAt(LEFT_KEYS[5], [4, 1], 4);
  }

  lemma NinthFails(tie: Tie)
    ensures Shape(WithLeft(LeftLeaf(5)), 1)
    ensures var r := AttemptInsert(WithLeft(LeftLeaf(5)), 1, [4, 3], HEAVY2, 3, tie); !r.ok && r.tree == WithLeft(LIGHT_HALF)
  {
    hide Less, Size, LowerBound, Descend;
    LeftIsShaped(5);
    NinthDescends(tie);
    NinthPlace();
    HeavySplit();
    HeavyHalfSize();
    LeafInsertSizeIs(HEAVY_HALF, [4, 3], HEAVY2);
    assert !Attempt(HEAVY_HALF, 0, [4, 3], HEAVY2, 4, tie).ok;
    var t := WithLeft(LeftLeaf(5));
    assert t.kids[0 := LIGHT_HALF] == [LIGHT_HALF, RIGHT];
  }

  /** The ninth insertion is refused, and three entries stored before are not found any more. */
  lemma FailedInsertLosesKeys()
    ensures var (s, s') := (Drained(HEAVY_RUN, AsWritten), Drained(Then(HEAVY_RUN, [4, 3], HEAVY2), AsWritten));
      && Lookup(s.tree, [4, 1]) == Some(HEAVY2)
      && Lookup(s'.tree, [4, 1]) == None && Lookup(s'.tree, [4, 3]) == None
  {
    hide Size, AttemptInsert, Shape;
    HeavyRunAllFits();
    DrainedIsApply(HEAVY_RUN, AsWritten);
    HeavyRunStored(5);
    HeavyLeafFinds();
    LeftIsShaped(5);
    NinthFails(AsWritten);
    LightHalfOnly();
    assert !Full(WithLeft(LeftLeaf(5)));
  }

  // ------------------------------------------------ two equal separators

  /** An entry of cost 3117, which fills a leaf by itself and still fits a page. */
  const HUGE: Val := Filler(3100)

  const HUGE_LEAF := Leaf(0, [[3]], [HUGE], None)

  lemma HugeLeafStored(tie: Tie)
    ensures Apply(Then(Start, [3], HUGE), tie) == Store(HUGE_LEAF, 0, 1)
    ensures Shape(HUGE_LEAF, 0) && Ordered(HUGE_LEAF, Strict) && Fits(HUGE_LEAF) && Full(HUGE_LEAF)
  {
    assert LowerBound([], [3]) == 0 && Size(EMPTY_STORE.tree) == 29;
    assert InsertAt([], 0, [3]) == [[3]] && InsertAt([], 0, HUGE) == [HUGE];
    assert SumLen(HUGE_LEAF.keys) == 9 && SumLen(HUGE_LEAF.vals) == 3108 by {
      assert HUGE_LEAF.keys[1..] == [] && HUGE_LEAF.vals[1..] == [];
    }
  }

  const OVER := Branch(0, [[3]], [Leaf(1, [], [], Some(2)), Leaf(2, [[3]], [HUGE], None)])

  lemma HugeRootGrown()
    ensures Shape(HUGE_LEAF, 0) && Full(HUGE_LEAF) && GrowRoot(HUGE_LEAF, 0, 1) == OVER
  {
    HugeLeafStored(AsWritten);
    var moved := Leaf(1, [[3]], [HUGE], None);
    assert moved.keys[..0] == [] && moved.keys[0..] == [[3]] && moved.vals[..0] == [] && moved.vals[0..] == [HUGE];
    assert Split(moved, 2) == (OVER.kids[0], [3], OVER.kids[1]);
    assert GrowRoot(HUGE_LEAF, 0, 1).kids == OVER.kids;
  }

  const HUGE_HALF := Leaf(3, [[3]], [HUGE], None)

  /** The one-entry leaf is split again: its separator is doubled around an empty leaf. */
  lemma HugeSplitsAgain(tie: Tie)
    ensures Shape(OVER, 1) && Clash(OVER, 1) && Route([[3]], [4]) == 1
    ensures Descend(OVER, 1, [4], 3, tie) == (Branch(0, [[3], [3]], [OVER.kids[0], DOUBLED.kids[1], HUGE_HALF]), 2, 4)
  {
    HugeLeafStored(tie);
    var c := OVER.kids[1];
    assert Less([3], [4]) && !Less([4], [3]);
    RouteIs([[3]], [4], 1);
    assert Clash(OVER, 1) by {
      assert c.keys[1..] == [] && c.vals[1..] == [];
    }
    assert c.keys[..0] == [] && c.keys[0..] == [[3]] && c.vals[..0] == [] && c.vals[0..] == [HUGE];
    assert Split(c, 3) == (DOUBLED.kids[1], [3], HUGE_HALF);
    assert InsertAt([[3]], 1, [3]) == [[3], [3]];
    assert SplitKid(OVER, 1, 3).kids == [OVER.kids[0], DOUBLED.kids[1], HUGE_HALF];
  }

  /**
   * One entry over the limit, then any larger key: the one-entry leaf is split
   * twice, and two equal separators enclose an empty leaf.
   */
  lemma OversizedEntryBreaksOrder(tie: Tie)
    ensures var s := Apply(Then(Start, [3], HUGE), tie);
      var t' := InsertStep(s, [4], [], tie).tree;
      && Ordered(s.tree, Strict) && Fits(s.tree) && Clashes(s, [4], tie)
      && t' == DOUBLED && t'.keys == [[3], [3]] && t'.kids[1].keys == [] && !Tidy(t')
  {
    HugeLeafStored(tie);
    HugeRootGrown();
    HugeSplitsAgain(tie);
    assert Less([3], [4]);
    hide Less, Size, SplitKid, Split, Descend, GrowRoot;
    EqualNeighbours([[3], [3]], 0);
    MissingAt([[3]], [4], 1);
    assert InsertAt([[3]], 1, [4]) == [[3], [4]] && InsertAt([HUGE], 1, []) == [HUGE, []];
    assert [OVER.kids[0], DOUBLED.kids[1], HUGE_HALF][2 := DOUBLED.kids[2]] == DOUBLED.kids;
  }

  const DOUBLED := Branch(0, [[3], [3]],
    [Leaf(1, [], [], Some(2)), Leaf(2, [], [], Some(3)), Leaf(3, [[3], [4]], [HUGE, []], None)])

  /** There a search for the doubled key finds its value or not, depending on where the binary search of the root stops. */
  lemma DoubledKeyMayBeMissed()
    ensures Climbs(DOUBLED) && MayAnswer(DOUBLED, [3], Some(HUGE)) && MayAnswer(DOUBLED, [3], None)
    ensures NowhereDoubled(DOUBLED, [4]) && forall a :: MayAnswer(DOUBLED, [4], a) <==> a == Lookup(DOUBLED, [4])
  {
    assert Less([3], [4]);
    Trichotomy([3], [3]);
    Trichotomy([3], [4]);
    hide Less;
    var (l, r) := (DOUBLED.kids[1], DOUBLED.kids[2]);
    assert [3] in DOUBLED.keys && DOUBLED.keys[0] == [3] && DOUBLED.keys[1] == [3];
    assert MayRoute(DOUBLED.keys, [3], 1) && MayRoute(DOUBLED.keys, [3], 2);
    assert MayAnswer(l, [3], None);
    assert MayAnswer(r, [3], Some(HUGE)) by {
      assert r.keys[0] == [3];
    }
    assert Climbs(DOUBLED.kids[0]) && Climbs(l) && Climbs(r);
    assert Shape(DOUBLED, 1);
    forall a
      ensures MayAnswer(DOUBLED, [4], a) <==> a == Lookup(DOUBLED, [4])
    {
      UndoubledAnswer(DOUBLED, 1, [4], a);
    }
  }
}
