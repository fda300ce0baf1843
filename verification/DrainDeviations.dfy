/** Schedules after which the tiers disagree, and what they never disagree about. */
module DrainDeviations {
  import opened Keys
  import opened Trees
  import opened TreeRuns
  import opened TreeFailure
  import opened TreeOrigin
  import opened TreeDeviations
  import opened OverlayScans
  import Pipeline
  import Reads

  // ------------------------------------------------------- evicted values

  /** Two large records and twice a third: evicting the third takes the read back to its first value. */
  lemma EvictionLosesValue(v: Val) returns (r: Pipeline.Run)
    requires |v| <= 2500 && v != BIG
    ensures Pipeline.Legal(r) && Reads.LatestApplied(Pipeline.After(r), {[3]})
    ensures var s := Pipeline.After(r);
      && Reads.Get(s, [3], AsWritten) == Some(v)
      && Reads.Get(Pipeline.Do(s, Pipeline.Evict({[3]})), [3], AsWritten) == Some(BIG)
  {
    hide Pipeline.Legal, Pipeline.After, Reads.DrainRun, Reads.LatestApplied, InsertStep, Apply, Drained, AllFit, Lookup;
    var run := Then(TIE_RUN, [3], v);
    var accepted;
    r, accepted := Reads.ScheduleOf(run);
    SecondValueLost(v);
    DrainedIsApply(run, AsWritten);
    OneStepMore(TIE_RUN, [3], v);
    ghost var s := Pipeline.After(r);
    Reads.EvictKeepsTree(s, {[3]});
  }

  lemma OneStepMore(run: Run, k: Key, v: Val)
    ensures Apply(Then(run, k, v), AsWritten) == InsertStep(Apply(run, AsWritten), k, v, AsWritten)
  {
  }

  /** A record too large for its page is dropped by the drainer: evicting it, or one it cut off, loses the read. */
  lemma EvictionLosesRecord() returns (r: Pipeline.Run)
    ensures Pipeline.Legal(r) && Reads.LatestApplied(Pipeline.After(r), {[4, 1], [4, 3]})
    ensures var s := Pipeline.After(r);
      var s' := Pipeline.Do(s, Pipeline.Evict({[4, 1], [4, 3]}));
      && Reads.Get(s, [4, 3], AsWritten) == Some(HEAVY2) && Reads.Get(s', [4, 3], AsWritten) == None
      && Reads.Get(s, [4, 1], AsWritten) == Some(HEAVY2) && Reads.Get(s', [4, 1], AsWritten) == None
  {
    hide Pipeline.Legal, Pipeline.After, Reads.DrainRun, Reads.LatestApplied, Drained, Lookup;
    var run := Then(HEAVY_RUN, [4, 3], HEAVY2);
    var accepted;
    r, accepted := Reads.ScheduleOf(run);
    FailedInsertLosesKeys();
    HeavyLatest();
    Reads.EvictKeepsTree(Pipeline.After(r), {[4, 1], [4, 3]});
  }

  lemma HeavyLatest()
    ensures var m := Latest(Then(HEAVY_RUN, [4, 3], HEAVY2));
      [4, 3] in m && m[[4, 3]] == HEAVY2 && [4, 1] in m && m[[4, 1]] == HEAVY2
  {
    assert HEAVY_RUN == Then(HeavyRun(4), [4, 2], HEAVY2) && HeavyRun(4) == Then(HeavyRun(3), [4, 1], HEAVY2);
    assert Latest(HeavyRun(4))[[4, 1]] == HEAVY2;
  }

  // ------------------------------------------------------ resurrected rows

  const LIVE := StoredRecord([], 0, false, 0)
  const DEAD := StoredRecord([], 1, true, 0)

  /** A row is inserted and drained, then deleted: until the tombstone is drained too, a scan at its version returns the row. */
  lemma DeletedRowComesBack(k: Key) returns (r: Pipeline.Run)
    requires |k| <= 1000
    ensures Pipeline.Legal(r)
    ensures var s := Pipeline.After(r);
      var (memory, inTree) := (Find(s.memory, k), Lookup(Reads.TreeOf(s, AsWritten), k));
      && memory == Some(WriteStored(DEAD)) && inTree == Some(WriteStored(LIVE))
      && Resurrects(memory, inTree, 1, LiveOnly)
      && Answer(memory, inTree, 1, LiveOnly) == Some(LIVE) && Meaning(memory, inTree, 1) == None
      && Answer(memory, inTree, 1, AlsoTombstones) == None
  {
    hide Pipeline.Legal, Pipeline.After, Reads.LatestApplied, WriteStored, ReadStored, Lookup, Drained;
    StoredSize(LIVE);
    var run := Then(Start, k, WriteStored(LIVE));
    var accepted;
    r, accepted := Reads.ScheduleOf(run);
    ghost var s0 := Pipeline.After(r);
    ghost var e := Pipeline.Record(k, WriteStored(DEAD), true);
    r := Pipeline.Next(r, Pipeline.Enqueue(e), Pipeline.Do(s0, Pipeline.Enqueue(e)));
    Reads.SameRun(s0.applied, s0.accepted, e);
    OneEntryFound(k, WriteStored(LIVE));
    StoredRoundTrip(LIVE);
    StoredRoundTrip(DEAD);
  }

  lemma OneEntryFound(k: Key, v: Val)
    requires 45 + |k| + |v| <= 3000
    ensures Lookup(Drained(Then(Start, k, v), AsWritten).tree, k) == Some(v)
  {
    assert Size(EMPTY_STORE.tree) == 29;
    hide Size, Less, LowerBound, LeafInsert;
    MissingAt([], k, 0);
    GrowsAt(EMPTY_STORE.tree, k, v, 0);
    var t := Leaf(0, [k], [v], None);
    assert InsertAt([], 0, k) == [k] && InsertAt([], 0, v) == [v];
    FoundAt([k], k, 0);
    assert Drained(Start, AsWritten) == EMPTY_STORE;
    assert AttemptInsert(EMPTY_STORE.tree, 0, k, v, 1, AsWritten).tree == t;
  }

  // ---------------------------------------------------- the tree is not newer

  /** Records of a key are enqueued with versions that never decrease. */
  ghost predicate VersionsGrow(accepted: seq<Pipeline.Entry>) {
    forall i, j :: 0 <= i < j < |accepted| && accepted[i].Record? && accepted[j].Record? && accepted[i].key == accepted[j].key ==>
      TreeNotNewer(Some(accepted[j].val), Some(accepted[i].val))
  }

  /** What the drainer inserted was accepted. */
  lemma {:induction false} GivenWasAccepted(applied: seq<nat>, accepted: seq<Pipeline.Entry>, k: Key, v: Val) returns (t: nat)
    requires (k, v) in Given(Reads.RunOf(applied, accepted))
    ensures t < |accepted| && accepted[t].Record? && accepted[t].key == k && accepted[t].val == v
  {
    var n := |applied| - 1;
    if applied[n] < |accepted| && accepted[applied[n]].Record? && accepted[applied[n]].key == k && accepted[applied[n]].val == v {
      t := applied[n];
    } else {
      t := GivenWasAccepted(applied[..n], accepted, k, v);
    }
  }

  /** In every schedule the tree copy of a key is no newer than its memory copy, whatever the tree lost. */
  lemma TreeNeverNewer(r: Pipeline.Run, k: Key, tie: Tie)
    requires Pipeline.Legal(r) && VersionsGrow(Pipeline.After(r).accepted) && Reads.RowKey(Pipeline.After(r).accepted, k)
    ensures var s := Pipeline.After(r); TreeNotNewer(Find(s.memory, k), Lookup(Reads.TreeOf(s, tie), k))
  {
    hide Pipeline.Legal, Pipeline.After, ReadStored, Lookup, Drained;
    var s := Pipeline.After(r);
    Reads.MemoryAlwaysLatest(r);
    if k in s.memory && Lookup(Reads.TreeOf(s, tie), k).Some? {
      var v := Lookup(Reads.TreeOf(s, tie), k).value;
      AnswersWereGiven(Reads.DrainRun(s), tie, k);
      var t := GivenWasAccepted(s.applied, s.accepted, k, v);
      assert Reads.HasLatest(s.accepted, k, s.memory[k]);
      var u: nat :| Reads.IsLatest(s.accepted, k, u) && s.accepted[u].val == s.memory[k];
    }
  }
}
