/** Concrete runs after which a scan and a search find different things. */
module ScanDeviations {
  import opened Keys
  import opened Limits
  import opened Trees
  import opened TreePages
  import opened TreeFit
  import opened TreeRuns
  import opened TreeScan
  import opened TreeFailure
  import opened TreeChain
  import opened TreeDeviations
  import opened OverlayScans

  // ------------------------------------------------------------- a dead copy

  /** The tree after three large values and a second one for the third key. */
  function DeadCopyTree(v: Val): Tree {
    Branch(0, [[2], [3]], [LEFT_LEAF, Leaf(2, [[2], [3]], [BIG, v], Some(3)), Leaf(3, [[3]], [BIG], None)])
  }

  lemma FourthInserts(v: Val)
    ensures Shape(TWO_LEAVES, 1) && !Full(TWO_LEAVES)
    ensures InsertStep(Store(TWO_LEAVES, 1, 3), [3], v, AsWritten) == Store(DeadCopyTree(v), 1, 4)
  {
    FourthDescends();
    FourthPlace();
    TieTreeFits();
    var l := Leaf(2, [[2]], [BIG], Some(3));
    hide Descend, Less, LowerBound, Size;
    GrowsAt(l, [3], v, 1);
    assert InsertAt([[2]], 1, [3]) == [[2], [3]] && InsertAt([BIG], 1, v) == [BIG, v];
    var grown := Leaf(2, [[2], [3]], [BIG, v], Some(3));
    var last := Leaf(3, [[3]], [BIG], None);
    assert [LEFT_LEAF, l, last][1 := grown] == [LEFT_LEAF, grown, last];
  }

  lemma DeadCopyLeaves(v: Val)
    ensures Listing(Leaves(DeadCopyTree(v))) == [([1], BIG), ([2], BIG), ([3], v), ([3], BIG)]
  {
    var t := DeadCopyTree(v);
    var (a, b, c) := (t.kids[0], t.kids[1], t.kids[2]);
    assert t.kids[1..] == [b, c] && [b, c][1..] == [c] && [c][1..] == [];
    assert Leaves(a) == [a] && Leaves(b) == [b] && Leaves(c) == [c];
    assert LeavesOf([c]) == [c];
    assert LeavesOf([b, c]) == [b, c];
    assert Leaves(t) == [a, b, c];
    assert [a, b, c][1..] == [b, c];
    ScanTwo(b, c);
    assert Pairs(a.keys, a.vals) == [([1], BIG)];
    assert Pairs(b.keys, b.vals) == [([2], BIG), ([3], v)];
    assert Pairs(c.keys, c.vals) == [([3], BIG)];
  }

  lemma DeadCopyChain(v: Val)
    requires |v| <= 2500 && v != BIG
    ensures var run := Then(TIE_RUN, [3], v);
      && Drained(run, AsWritten) == Store(DeadCopyTree(v), 1, 4)
      && ChainAfter(run, AsWritten) == Leaves(DeadCopyTree(v))
  {
    hide Size, Fits, Less, Insert, Apply, AllFit, InsertStep, Drained, ChainAfter, Chained, Ids, Leaves, InsertChain;
    var run := Then(TIE_RUN, [3], v);
    SecondValueLost(v);
    DrainedIsApply(run, AsWritten);
    TieRunStored();
    FourthInserts(v);
    RunUnfolds(TIE_RUN, [3], v);
    RunsAreLaid(run, AsWritten);
    WholeChainIsLeaves(ChainAfter(run, AsWritten), DeadCopyTree(v), 1, 4);
  }

  lemma RunUnfolds(r: Run, k: Key, v: Val)
    ensures Apply(Then(r, k, v), AsWritten) == InsertStep(Apply(r, AsWritten), k, v, AsWritten)
  {
  }

  /** A second value for a promoted key: the chain lists it before the first one, which is all that search finds. */
  lemma ScanShowsWhatSearchMisses(v: Val)
    requires |v| <= 2500 && v != BIG
    ensures var run := Then(TIE_RUN, [3], v);
      var (t, ps) := (Drained(run, AsWritten).tree, Listing(ChainAfter(run, AsWritten)));
      && ps == [([1], BIG), ([2], BIG), ([3], v), ([3], BIG)]
      && Lookup(t, [3]) == Some(BIG) && !ScansTo(t, ps)
  {
    hide Size, Fits, Insert, InsertStep, Drained, ChainAfter, Chained, Ids, Leaves, Lookup, Listing, Apply, AllFit, Less;
    DeadCopyChain(v);
    DeadCopyLeaves(v);
    SecondValueLost(v);
    DrainedIsApply(Then(TIE_RUN, [3], v), AsWritten);
    RunUnfolds(TIE_RUN, [3], v);
    var ps := Listing(ChainAfter(Then(TIE_RUN, [3], v), AsWritten));
    assert ([3], v) == ps[2];
  }

  /** In terms of records: the second version of the row is what a scan shows, and search never returns it. */
  lemma ScanAndSearchDisagree(r: StoredRecord, version: nat)
    requires 25 + |r.value| <= 2500 && r.version <= version < U64_BOUND && r.timestamp < U64_BOUND && !r.isDeleted
    requires Shown(BIG, version) != Some(r)
    ensures var run := Then(TIE_RUN, [3], WriteStored(r));
      var (t, ps) := (Drained(run, AsWritten).tree, Listing(ChainAfter(run, AsWritten)));
      && FirstShown(ps, [3], version) == Some(r) && FoundShows(Lookup(t, [3]), version) != Some(r)
  {
    hide Drained, ChainAfter, Listing, Lookup, WriteStored, ReadStored, FirstShown, InKeyOrder;
    StoredRoundTrip(r);
    StoredSize(r);
    var v := WriteStored(r);
    ScanShowsWhatSearchMisses(v);
    FirstOfThree(([1], BIG), ([2], BIG), ([3], v), ([3], BIG), version);
  }

  lemma FirstOfThree(a: (Key, Val), b: (Key, Val), c: (Key, Val), d: (Key, Val), v: nat)
    requires a.0 != c.0 && b.0 != c.0 && Shown(c.1, v).Some?
    ensures FirstShown([a, b, c, d], c.0, v) == Shown(c.1, v)
  {
    hide Shown;
    assert [a, b, c, d][1..] == [b, c, d] && [b, c, d][1..] == [c, d];
    assert FirstShown([c, d], c.0, v) == Shown(c.1, v);
    assert FirstShown([b, c, d], c.0, v) == Shown(c.1, v);
  }

  // -------------------------------------------------------- a failed insertion

  /** The refused ninth insertion: an entry that search has lost is still listed. */
  lemma ScanShowsWhatSearchLost()
    ensures var run := Then(HEAVY_RUN, [4, 3], HEAVY2);
      var (t, ps) := (Drained(run, AsWritten).tree, Listing(ChainAfter(run, AsWritten)));
      && Lookup(t, [4, 1]) == None && ([4, 1], HEAVY2) in ps && !ScansTo(t, ps)
  {
    hide Drained, ChainAfter, Listing, Lookup, AttemptInsert, LeafSavedAtInsert, InKeyOrder, Chainable;
    var run := Then(HEAVY_RUN, [4, 3], HEAVY2);
    FailedInsertLosesKeys();
    var s := Drained(HEAVY_RUN, AsWritten);
    var ls := ChainAfter(HEAVY_RUN, AsWritten);
    assert Chainable(ls, s.tree, s.height, s.pages);
    ChainedRun(ls, s);
    FoundIsListed(ls, s.tree, s.height, s.pages, [4, 1]);
    StepListing(HEAVY_RUN, [4, 3], HEAVY2, [4, 1], HEAVY2);
  }

  lemma ChainedRun(ls: seq<Tree>, s: Store)
    requires Chainable(ls, s.tree, s.height, s.pages)
    ensures Shape(s.tree, s.height) && ChainOf(ls, s.tree, s.pages)
  {
  }

  /** One attempt more leaves the entries of other keys listed. */
  lemma StepListing(r: Run, k: Key, v: Val, q: Key, w: Val)
    requires q != k && (q, w) in Listing(ChainAfter(r, AsWritten))
    ensures (q, w) in Listing(ChainAfter(Then(r, k, v), AsWritten))
  {
    hide Drained, Listing, InsertChain, LeafSavedAtInsert, AttemptInsert, Chainable, Listed;
    var s := Drained(r, AsWritten);
    var ls := ChainAfter(r, AsWritten);
    assert Chainable(ls, s.tree, s.height, s.pages);
    var ls' := ChainAfter(Then(r, k, v), AsWritten);
    InsertListing(ls, s.tree, s.height, k, v, s.pages, AsWritten);
    ListedKeeps(Listing(ls), Listing(ls'), k, v, LeafSavedAtInsert(s.tree, s.height, k, v, s.pages, AsWritten), q, w);
  }
}
