/** What reads find while the pipeline runs: the memory tier over the tree that the drainer fills. */
module Reads {
  import opened Keys
  import opened Trees
  import opened Pipeline
  import TreeOrder
  import TreeFit
  import TreeRuns
  import TreeExact
  import TreeFailure
  import TreeAnswers

  // ------------------------------------------------------- memory over tree

  /** The insertions the drainer tried, one for each applied record. */
  ghost function RunOf(applied: seq<nat>, accepted: seq<Entry>): TreeRuns.Run {
    if applied == [] then TreeRuns.Start
    else
      var n := |applied| - 1;
      var before := RunOf(applied[..n], accepted);
      if applied[n] < |accepted| && accepted[applied[n]].Record? then
        TreeRuns.Then(before, accepted[applied[n]].key, accepted[applied[n]].val)
      else before
  }

  ghost function DrainRun(s: State): TreeRuns.Run {
    RunOf(s.applied, s.accepted)
  }

  /** The tree as the drainer leaves it: every failed insertion is dropped. */
  ghost function TreeOf(s: State, tie: Tie): Tree {
    TreeFailure.Drained(DrainRun(s), tie).tree
  }

  /** The ticket of the latest accepted record of a key. */
  ghost predicate IsLatest(accepted: seq<Entry>, k: Key, t: nat) {
    && t < |accepted| && accepted[t].Record? && accepted[t].key == k
    && forall u: nat :: t < u < |accepted| ==> !(accepted[u].Record? && accepted[u].key == k)
  }

  /** Search: the memory tier first, then the tree. */
  ghost function Get(s: State, k: Key, tie: Tie): Option<Val> {
    if k in s.memory then Some(s.memory[k]) else Lookup(TreeOf(s, tie), k)
  }

  lemma EvictKeepsTree(s: State, keys: set<Key>)
    ensures DrainRun(Do(s, Evict(keys))) == DrainRun(s) && Do(s, Evict(keys)).memory == s.memory - keys
  {
  }

  /** Applied in increasing order, the last record of a key is its last insertion. */
  lemma {:induction false} LastAppliedIsLatest(applied: seq<nat>, accepted: seq<Entry>, k: Key, t: nat)
    requires InOrder(applied, |accepted|) && IsLatest(accepted, k, t) && t in applied
    ensures var last := TreeExact.UpToLast(RunOf(applied, accepted), k); last.Then? && last.val == accepted[t].val
  {
    var n := |applied| - 1;
    if applied[n] != t {
      var i :| 0 <= i < |applied| && applied[i] == t;
      assert applied[..n][i] == t && t < applied[n];
      LastAppliedIsLatest(applied[..n], accepted, k, t);
    }
  }

  /**
   * While no attempt clashes and none fails over dead copies, the tree holds
   * the latest record of a key if and only if its attempt left it to be found
   * and no later one cut it off.
   */
  lemma TreeHasLatestIff(applied: seq<nat>, accepted: seq<Entry>, k: Key, t: nat, tie: Tie)
    requires InOrder(applied, |accepted|) && IsLatest(accepted, k, t) && t in applied
    requires var run := RunOf(applied, accepted); TreeAnswers.DrainNeverClashes(run, tie) && TreeAnswers.CutsClean(run, tie)
    ensures var run := RunOf(applied, accepted);
      && TreeExact.UpToLast(run, k).Then?
      && (Lookup(TreeFailure.Drained(run, tie).tree, k) == Some(accepted[t].val) <==> TreeAnswers.LastHeld(run, tie, k))
  {
    LastAppliedIsLatest(applied, accepted, k, t);
    TreeAnswers.LastFoundIff(RunOf(applied, accepted), tie, k);
  }

  /** Every record of the key is one that is also written to memory, as for a table row. */
  ghost predicate RowKey(accepted: seq<Entry>, k: Key) {
    forall t: nat :: t < |accepted| && accepted[t].Record? && accepted[t].key == k ==> accepted[t].cached
  }

  /** The latest of the key's records that were also written to memory. */
  ghost predicate IsLatestCached(accepted: seq<Entry>, k: Key, t: nat) {
    && t < |accepted| && accepted[t].Record? && accepted[t].cached && accepted[t].key == k
    && forall u: nat :: t < u < |accepted| ==> !(accepted[u].Record? && accepted[u].cached && accepted[u].key == k)
  }

  ghost predicate HasLatestCached(accepted: seq<Entry>, k: Key, val: Val) {
    exists t: nat :: IsLatestCached(accepted, k, t) && accepted[t].val == val
  }

  /** Whatever the memory tier holds is the latest record that was written to it: the others never get there. */
  ghost predicate MemoryIsCached(s: State) {
    forall k :: k in s.memory ==> HasLatestCached(s.accepted, k, s.memory[k])
  }

  /** So of a row it holds only ever the latest record. */
  ghost predicate MemoryIsLatest(s: State) {
    forall k :: k in s.memory && RowKey(s.accepted, k) ==> HasLatest(s.accepted, k, s.memory[k])
  }

  ghost predicate HasLatest(accepted: seq<Entry>, k: Key, val: Val) {
    exists t: nat :: IsLatest(accepted, k, t) && accepted[t].val == val
  }

  lemma CachedStays(accepted: seq<Entry>, e: Entry, k: Key, val: Val)
    requires HasLatestCached(accepted, k, val) && !(e.Record? && e.cached && e.key == k)
    ensures HasLatestCached(accepted + [e], k, val)
  {
    var t: nat :| IsLatestCached(accepted, k, t) && accepted[t].val == val;
    assert IsLatestCached(accepted + [e], k, t);
  }

  lemma NewestIsCached(accepted: seq<Entry>, e: Entry)
    requires e.Record? && e.cached
    ensures HasLatestCached(accepted + [e], e.key, e.val)
  {
    assert IsLatestCached(accepted + [e], e.key, |accepted|);
  }

  lemma MemoryStep(s: State, step: Step)
    requires Can(s, step) && MemoryIsCached(s)
    ensures MemoryIsCached(Do(s, step))
  {
    hide HasLatestCached;
    var s' := Do(s, step);
    forall k | k in s'.memory
      ensures HasLatestCached(s'.accepted, k, s'.memory[k])
    {
      if step.Enqueue? {
        if step.e.Record? && step.e.cached && step.e.key == k {
          NewestIsCached(s.accepted, step.e);
        } else {
          CachedStays(s.accepted, step.e, k, s.memory[k]);
        }
      }
    }
  }

  lemma {:induction false} MemoryAlwaysCached(r: Run)
    requires Legal(r)
    ensures MemoryIsCached(After(r))
  {
    if r.Then? {
      hide MemoryIsCached;
      MemoryAlwaysCached(r.before);
      MemoryStep(After(r.before), r.step);
    } else {
      assert After(r).memory == map[];
    }
  }

  lemma MemoryAlwaysLatest(r: Run)
    requires Legal(r)
    ensures MemoryIsLatest(After(r))
  {
    MemoryAlwaysCached(r);
    var s := After(r);
    forall k | k in s.memory && RowKey(s.accepted, k)
      ensures HasLatest(s.accepted, k, s.memory[k])
    {
      assert HasLatestCached(s.accepted, k, s.memory[k]);
      var t: nat :| IsLatestCached(s.accepted, k, t) && s.accepted[t].val == s.memory[k];
      assert IsLatest(s.accepted, k, t);
    }
  }

  /** The latest record of every key given was applied. */
  ghost predicate LatestApplied(s: State, keys: set<Key>) {
    forall k, t: nat :: k in keys && IsLatest(s.accepted, k, t) ==> t in s.applied
  }

  ghost predicate Rows(s: State, keys: set<Key>) {
    forall k :: k in keys ==> RowKey(s.accepted, k)
  }

  /** A row whose latest record was applied has a last attempt, on the value that memory holds. */
  lemma MemoryIsLastAttempt(s: State, q: Key)
    requires InOrder(s.applied, |s.accepted|) && MemoryIsLatest(s) && q in s.memory && RowKey(s.accepted, q) && LatestApplied(s, {q})
    ensures TreeExact.UpToLast(DrainRun(s), q).Then? && TreeExact.UpToLast(DrainRun(s), q).val == s.memory[q]
  {
    hide RowKey;
    assert HasLatest(s.accepted, q, s.memory[q]);
    var t: nat :| IsLatest(s.accepted, q, t) && s.accepted[t].val == s.memory[q];
    LastAppliedIsLatest(s.applied, s.accepted, q, t);
  }

  /** What the drained attempts leave under every key given is what memory holds. */
  ghost predicate AllAnswered(s: State, keys: set<Key>, tie: Tie) {
    forall k :: k in keys && k in s.memory ==> TreeAnswers.Answered(DrainRun(s), tie, k) == Some(s.memory[k])
  }

  /** The last attempt on every key given left its value to be found, and no later one cut it off. */
  ghost predicate AllHeld(s: State, keys: set<Key>, tie: Tie) {
    forall k :: k in keys && k in s.memory && TreeExact.UpToLast(DrainRun(s), k).Then? ==> TreeAnswers.LastHeld(DrainRun(s), tie, k)
  }

  /** Evicting any keys in any schedule changes no read if and only if the drained attempts left what memory held. */
  lemma EvictionIff(r: Run, keys: set<Key>, tie: Tie)
    requires Legal(r) && TreeAnswers.DrainNeverClashes(DrainRun(After(r)), tie)
    ensures (forall q :: Get(Do(After(r), Evict(keys)), q, tie) == Get(After(r), q, tie)) <==> AllAnswered(After(r), keys, tie)
  {
    hide Legal, After, Lookup, TreeFailure.Drained, TreeAnswers.Answered;
    var s := After(r);
    var s' := Do(s, Evict(keys));
    EvictKeepsTree(s, keys);
    forall q
      ensures Get(s', q, tie) == if q in keys && q in s.memory then TreeAnswers.Answered(DrainRun(s), tie, q) else Get(s, q, tie)
    {
      TreeAnswers.DrainedAnswers(DrainRun(s), tie, q);
    }
    if k :| k in keys && k in s.memory && TreeAnswers.Answered(DrainRun(s), tie, k) != Some(s.memory[k]) {
      assert Get(s', k, tie) != Get(s, k, tie);
    }
  }

  /**
   * Eviction and reads: while no drained attempt clashes and none fails over
   * dead copies, evicting rows whose latest records were applied changes no
   * read if and only if each of these was left to be found and not cut off since.
   */
  lemma CacheTransparencyIff(r: Run, keys: set<Key>, tie: Tie)
    requires Legal(r) && LatestApplied(After(r), keys) && Rows(After(r), keys)
    requires TreeAnswers.DrainNeverClashes(DrainRun(After(r)), tie) && TreeAnswers.CutsClean(DrainRun(After(r)), tie)
    ensures (forall q :: Get(Do(After(r), Evict(keys)), q, tie) == Get(After(r), q, tie)) <==> AllHeld(After(r), keys, tie)
  {
    hide Legal, After, Lookup, RowKey, TreeAnswers.LastHeld, TreeAnswers.Answered, TreeExact.UpToLast;
    AppliedBelow(r);
    MemoryAlwaysLatest(r);
    EvictionIff(r, keys, tie);
    var s := After(r);
    forall k | k in keys && k in s.memory
      ensures TreeExact.UpToLast(DrainRun(s), k).Then?
      ensures TreeAnswers.Answered(DrainRun(s), tie, k) == Some(s.memory[k]) <==> TreeAnswers.LastHeld(DrainRun(s), tie, k)
    {
      MemoryIsLastAttempt(s, k);
      TreeAnswers.DrainedAnswers(DrainRun(s), tie, k);
      TreeAnswers.LastFoundIff(DrainRun(s), tie, k);
    }
  }

  /** With small records, and no promoted copy met or equal keys sent right, eviction never changes a read. */
  lemma SmallRecordsTransparent(r: Run, keys: set<Key>, tie: Tie)
    requires Legal(r) && LatestApplied(After(r), keys) && Rows(After(r), keys)
    requires TreeRuns.Costs(DrainRun(After(r)), TreeFit.ENTRY_FIT, TreeFit.KEY_FIT)
    requires tie.EqualGoesRight? || TreeRuns.NeverMeets(DrainRun(After(r)))
    ensures forall q :: Get(Do(After(r), Evict(keys)), q, tie) == Get(After(r), q, tie)
  {
    hide Legal, After, Lookup, RowKey, TreeAnswers.LastHeld, TreeExact.LastKept, TreeRuns.AllFit, TreeRuns.NeverMeets;
    var run := DrainRun(After(r));
    CostsGrow(run, TreeFit.ENTRY_FIT, TreeFit.KEY_FIT);
    TreeRuns.SmallRunsNeverClash(run, tie);
    TreeRuns.RunsFit(run, tie);
    TreeAnswers.FittingNeverClashes(run, tie);
    TreeAnswers.FittingCutsClean(run, tie);
    forall k | TreeExact.UpToLast(run, k).Then?
      ensures TreeAnswers.LastHeld(run, tie, k)
    {
      NeverMetIsKept(run, tie, k);
      TreeAnswers.FittingHeldIsKept(run, tie, k);
    }
    CacheTransparencyIff(r, keys, tie);
  }

  lemma {:induction false} CostsGrow(run: TreeRuns.Run, e: nat, d: nat)
    requires TreeRuns.Costs(run, e, d) && e <= TreeOrder.ENTRY_LIMIT && d <= TreeOrder.ENTRY_LIMIT
    ensures TreeRuns.Costs(run, TreeOrder.ENTRY_LIMIT, TreeOrder.ENTRY_LIMIT)
  {
    if run.Then? {
      CostsGrow(run.before, e, d);
    }
  }

  lemma {:induction false} NeverMetIsKept(run: TreeRuns.Run, tie: Tie, k: Key)
    requires tie.EqualGoesRight? || TreeRuns.NeverMeets(run)
    requires TreeExact.UpToLast(run, k).Then?
    ensures TreeExact.LastKept(run, tie, k)
  {
    hide TreeRuns.Meets;
    if run.Then? && run.key != k {
      NeverMetIsKept(run.before, tie, k);
    } else if run.Then? && !tie.EqualGoesRight? {
      TreeExact.LastIsThere(run, k);
    }
  }

  // ------------------------------------------------- one record after another

  /** The pipeline at rest: everything accepted was applied, and the memory tier holds the latest records. */
  function AtRest(accepted: seq<Entry>, memory: map<Key, Val>): State {
    State(accepted, [], [], [], [], true, [], [], true, [], FirstTickets(|accepted|), [], memory)
  }

  /** At rest the latest record of every key was applied. */
  lemma AppliedAtRest(accepted: seq<Entry>, memory: map<Key, Val>, keys: set<Key>)
    ensures LatestApplied(AtRest(accepted, memory), keys)
  {
    forall k, t: nat | k in keys && IsLatest(accepted, k, t)
      ensures t in FirstTickets(|accepted|)
    {
      assert FirstTickets(|accepted|)[t] == t;
    }
  }

  lemma OneMoreRecord(r: Run, accepted: seq<Entry>, memory: map<Key, Val>, k: Key, v: Val) returns (r': Run)
    requires Legal(r) && After(r) == AtRest(accepted, memory)
    ensures Legal(r') && After(r') == AtRest(accepted + [Record(k, v, true)], memory[k := v])
  {
    hide Legal, After;
    var n := |accepted|;
    var queued := AtRest(accepted, memory).(accepted := accepted + [Record(k, v, true)], queue := [n], memory := memory[k := v]);
    r' := Next(r, Enqueue(Record(k, v, true)), queued);
    var popped := queued.(queue := [], local := [n]);
    assert [n][1..] == [];
    r' := Next(r', DrainPop, popped);
    r' := Next(r', DrainTurn, popped.(collecting := false));
    assert FirstTickets(n) + [n] == FirstTickets(n + 1);
    r' := Next(r', Apply, AtRest(accepted + [Record(k, v, true)], memory[k := v]));
  }

  /** A schedule that comes to rest after draining the run, all of it rows. */
  ghost predicate Drains(r: Run, accepted: seq<Entry>, run: TreeRuns.Run) {
    && Legal(r) && After(r) == AtRest(accepted, TreeRuns.Latest(run)) && RunOf(FirstTickets(|accepted|), accepted) == run
    && forall i :: 0 <= i < |accepted| ==> accepted[i].Record? && accepted[i].cached
  }

  lemma DrainsOneMore(r: Run, accepted: seq<Entry>, run: TreeRuns.Run, k: Key, v: Val) returns (r': Run)
    requires Drains(r, accepted, run)
    ensures Drains(r', accepted + [Record(k, v, true)], TreeRuns.Then(run, k, v))
  {
    hide Legal, After, RunOf;
    r' := OneMoreRecord(r, accepted, TreeRuns.Latest(run), k, v);
    AppliedOneMore(accepted, Record(k, v, true));
  }

  lemma {:induction false} DrainingSchedule(run: TreeRuns.Run) returns (r: Run, accepted: seq<Entry>)
    ensures Drains(r, accepted, run)
  {
    match run
    case Start =>
      r, accepted := Start(0), [];
    case Then(before, k, v) =>
      hide Drains;
      r, accepted := DrainingSchedule(before);
      r := DrainsOneMore(r, accepted, before, k, v);
      accepted := accepted + [Record(k, v, true)];
  }

  /** Every run of insertions is what some schedule drains. */
  lemma ScheduleOf(run: TreeRuns.Run) returns (r: Run, accepted: seq<Entry>)
    ensures Legal(r) && After(r) == AtRest(accepted, TreeRuns.Latest(run)) && DrainRun(After(r)) == run
    ensures forall keys: set<Key> :: LatestApplied(After(r), keys) && Rows(After(r), keys)
  {
    hide Legal, After, LatestApplied, RunOf;
    r, accepted := DrainingSchedule(run);
    forall keys: set<Key>
      ensures LatestApplied(After(r), keys)
    {
      AppliedAtRest(accepted, TreeRuns.Latest(run), keys);
    }
  }

  lemma AppliedOneMore(accepted: seq<Entry>, e: Entry)
    requires e.Record?
    ensures RunOf(FirstTickets(|accepted| + 1), accepted + [e]) ==
      TreeRuns.Then(RunOf(FirstTickets(|accepted|), accepted), e.key, e.val)
  {
    var n := |accepted|;
    FirstTicketsGrow(n);
    hide FirstTickets;
    SameRun(FirstTickets(n), accepted, e);
    RunOfOneMore(FirstTickets(n), n, accepted + [e]);
  }

  lemma FirstTicketsGrow(n: nat)
    ensures FirstTickets(n + 1) == FirstTickets(n) + [n] && AllBelow(FirstTickets(n), n)
  {
  }

  lemma RunOfOneMore(applied: seq<nat>, t: nat, accepted: seq<Entry>)
    requires t < |accepted| && accepted[t].Record?
    ensures RunOf(applied + [t], accepted) == TreeRuns.Then(RunOf(applied, accepted), accepted[t].key, accepted[t].val)
  {
    assert (applied + [t])[..|applied|] == applied;
  }

  lemma {:induction false} SameRun(applied: seq<nat>, accepted: seq<Entry>, e: Entry)
    requires AllBelow(applied, |accepted|)
    ensures RunOf(applied, accepted + [e]) == RunOf(applied, accepted)
  {
    if applied != [] {
      SameRun(applied[..|applied| - 1], accepted, e);
    }
  }
}
