/**
 * The ingestion pipeline as a state machine. Accepted entries carry their
 * position in enqueue order as a ticket. Any number of connections enqueue and
 * flush, FLUSH discards, one writer appends to the log, one drainer applies
 * records to the tree, and the memory tier may evict at any time.
 */
module Pipeline {
  import opened Keys
  import opened Limits

  /**
   * A record is cached if it is also written to the memory tier, as table rows
   * are; index and schema records of INSERT are not.
   */
  datatype Entry = Record(key: Key, val: Val, cached: bool) | Other

  /** Where one flusher is; from filling on it holds the lock of its buffer. */
  datatype Flusher = Idle | Ready | Chosen(isA: bool) | Filling(isA: bool) | Sending(isA: bool, batch: seq<nat>)

  datatype State = State(
    accepted: seq<Entry>,
    queue: seq<nat>,
    flushers: seq<Flusher>,
    bufA: seq<nat>,
    bufB: seq<nat>,
    activeIsA: bool,
    channel: seq<seq<nat>>,
    log: seq<nat>,
    collecting: bool,
    local: seq<nat>,
    applied: seq<nat>,
    discarded: seq<nat>,
    memory: map<Key, Val>)

  datatype Step =
    | Enqueue(e: Entry)
    | Look(f: nat)
    | Choose(f: nat)
    | Lock(f: nat)
    | Pop(f: nat)
    | GiveUp(f: nat)
    | Swap(f: nat)
    | Send(f: nat)
    | Write
    | DrainPop
    | DrainTurn
    | Apply
    | Discard
    | Evict(keys: set<Key>)

  const DRAIN_BATCH := 1000

  ghost predicate Holds(fl: Flusher, isA: bool) {
    (fl.Filling? || fl.Sending?) && fl.isA == isA
  }

  function Buffer(s: State, isA: bool): seq<nat> {
    if isA then s.bufA else s.bufB
  }

  function WithBuffer(s: State, isA: bool, b: seq<nat>): State {
    if isA then s.(bufA := b) else s.(bufB := b)
  }

  /** When a step can happen. */
  ghost predicate Can(s: State, step: Step) {
    match step
    case Enqueue(e) => |s.queue| < CAPACITY
    case Look(f) => f < |s.flushers| && s.flushers[f].Idle? && s.queue != []
    case Choose(f) => f < |s.flushers| && s.flushers[f].Ready?
    case Lock(f) =>
      && f < |s.flushers| && s.flushers[f].Chosen?
      && forall g :: 0 <= g < |s.flushers| ==> !Holds(s.flushers[g], s.flushers[f].isA)
    case Pop(f) => f < |s.flushers| && s.flushers[f].Filling? && s.queue != []
    case GiveUp(f) => f < |s.flushers| && s.flushers[f].Filling? && Buffer(s, s.flushers[f].isA) == []
    case Swap(f) => f < |s.flushers| && s.flushers[f].Filling? && Buffer(s, s.flushers[f].isA) != []
    case Send(f) => f < |s.flushers| && s.flushers[f].Sending?
    case Write => s.channel != []
    case DrainPop => s.collecting && s.queue != [] && |s.local| < DRAIN_BATCH
    case DrainTurn => s.collecting && s.local != [] && (s.queue == [] || |s.local| == DRAIN_BATCH)
    case Apply => !s.collecting && s.local != []
    case Discard => s.queue != []
    case Evict(keys) => true
  }

  /** What it does. */
  function Do(s: State, step: Step): State
    requires Can(s, step)
  {
    match step
    case Enqueue(e) =>
      s.(accepted := s.accepted + [e], queue := s.queue + [|s.accepted|],
         memory := if e.Record? && e.cached then s.memory[e.key := e.val] else s.memory)
    case Look(f) => s.(flushers := s.flushers[f := Ready])
    case Choose(f) => s.(flushers := s.flushers[f := Chosen(s.activeIsA)])
    case Lock(f) => s.(flushers := s.flushers[f := Filling(s.flushers[f].isA)])
    case Pop(f) =>
      var isA := s.flushers[f].isA;
      WithBuffer(s, isA, Buffer(s, isA) + [s.queue[0]]).(queue := s.queue[1..])
    case GiveUp(f) => s.(flushers := s.flushers[f := Idle])
    case Swap(f) =>
      var isA := s.flushers[f].isA;
      WithBuffer(s, isA, []).(flushers := s.flushers[f := Sending(isA, Buffer(s, isA))], activeIsA := !isA)
    case Send(f) => s.(channel := s.channel + [s.flushers[f].batch], flushers := s.flushers[f := Idle])
    case Write => s.(log := s.log + s.channel[0], channel := s.channel[1..])
    case DrainPop => s.(local := s.local + [s.queue[0]], queue := s.queue[1..])
    case DrainTurn => s.(collecting := false)
    case Apply => s.(applied := s.applied + [s.local[0]], local := s.local[1..], collecting := |s.local| == 1)
    case Discard => s.(discarded := s.discarded + [s.queue[0]], queue := s.queue[1..])
    case Evict(keys) => s.(memory := s.memory - keys)
  }

  function Initial(flushers: nat): State {
    State([], [], seq(flushers, i => Idle), [], [], true, [], [], true, [], [], [], map[])
  }

  /** A schedule: any interleaving of steps that can happen. */
  datatype Run = Start(flushers: nat) | Then(before: Run, step: Step)

  ghost predicate Legal(r: Run)
    decreases r, 0
  {
    r.Then? ==> Legal(r.before) && Can(After(r.before), r.step)
  }

  ghost function After(r: Run): State
    requires Legal(r)
    decreases r, 1
  {
    match r
    case Start(n) => Initial(n)
    case Then(before, step) => Do(After(before), step)
  }

  // ---------------------------------------------------------------- places

  function Batch(fl: Flusher): seq<nat> {
    if fl.Sending? then fl.batch else []
  }

  function InFlight(fls: seq<Flusher>): seq<nat> {
    if fls == [] then [] else Batch(fls[0]) + InFlight(fls[1..])
  }

  function Flat(batches: seq<seq<nat>>): seq<nat> {
    if batches == [] then [] else batches[0] + Flat(batches[1..])
  }

  function Occurs(q: seq<nat>, t: nat): nat {
    multiset(q)[t]
  }

  /** How often a ticket occurs in all places together. */
  ghost function Places(s: State, t: nat): nat {
    Occurs(s.queue, t) + Occurs(s.bufA, t) + Occurs(s.bufB, t) + Occurs(InFlight(s.flushers), t) + Occurs(Flat(s.channel), t)
    + Occurs(s.log, t) + Occurs(s.local, t) + Occurs(s.applied, t) + Occurs(s.discarded, t)
  }

  lemma {:induction false} InFlightUpdate(fls: seq<Flusher>, f: nat, x: Flusher, t: nat)
    requires f < |fls|
    ensures Occurs(InFlight(fls[f := x]), t) + Occurs(Batch(fls[f]), t) == Occurs(InFlight(fls), t) + Occurs(Batch(x), t)
  {
    hide Batch;
    var fls' := fls[f := x];
    assert InFlight(fls) == Batch(fls[0]) + InFlight(fls[1..]) && InFlight(fls') == Batch(fls'[0]) + InFlight(fls'[1..]);
    if f == 0 {
      assert fls'[1..] == fls[1..];
    } else {
      assert fls'[1..] == fls[1..][f - 1 := x];
      InFlightUpdate(fls[1..], f - 1, x, t);
    }
  }

  lemma {:induction false} FlatSnoc(bs: seq<seq<nat>>, b: seq<nat>)
    ensures Flat(bs + [b]) == Flat(bs) + b
  {
    if bs == [] {
      assert [b][1..] == [];
    } else {
      assert (bs + [b])[1..] == bs[1..] + [b];
      FlatSnoc(bs[1..], b);
    }
  }

  /** A ticket moved from the front of one list to the end of another. */
  lemma Moved(q: seq<nat>, r: seq<nat>, t: nat)
    requires q != []
    ensures Occurs(q[1..], t) + Occurs(r + [q[0]], t) == Occurs(q, t) + Occurs(r, t)
  {
    assert q == [q[0]] + q[1..];
  }

  lemma FlusherStepConserves(s: State, step: Step, t: nat)
    requires Can(s, step) && (step.Look? || step.Choose? || step.Lock? || step.GiveUp?)
    ensures Places(Do(s, step), t) == Places(s, t)
  {
    hide InFlight, Flat;
    match step
    case Look(f) => InFlightUpdate(s.flushers, f, Ready, t);
    case Choose(f) => InFlightUpdate(s.flushers, f, Chosen(s.activeIsA), t);
    case Lock(f) => InFlightUpdate(s.flushers, f, Filling(s.flushers[f].isA), t);
    case GiveUp(f) => InFlightUpdate(s.flushers, f, Idle, t);
  }

  lemma PopConserves(s: State, f: nat, t: nat)
    requires Can(s, Pop(f))
    ensures Places(Do(s, Pop(f)), t) == Places(s, t)
  {
    hide InFlight, Flat;
    Moved(s.queue, Buffer(s, s.flushers[f].isA), t);
  }

  lemma SwapConserves(s: State, f: nat, t: nat)
    requires Can(s, Swap(f))
    ensures Places(Do(s, Swap(f)), t) == Places(s, t)
  {
    InFlightUpdate(s.flushers, f, Sending(s.flushers[f].isA, Buffer(s, s.flushers[f].isA)), t);
  }

  lemma SendConserves(s: State, f: nat, t: nat)
    requires Can(s, Send(f))
    ensures Places(Do(s, Send(f)), t) == Places(s, t)
  {
    InFlightUpdate(s.flushers, f, Idle, t);
    FlatSnoc(s.channel, s.flushers[f].batch);
  }

  lemma WriteConserves(s: State, t: nat)
    requires Can(s, Write)
    ensures Places(Do(s, Write), t) == Places(s, t)
  {
    assert Flat(s.channel) == s.channel[0] + Flat(s.channel[1..]);
  }

  lemma OtherStepConserves(s: State, step: Step, t: nat)
    requires Can(s, step) && (step.DrainPop? || step.DrainTurn? || step.Apply? || step.Discard? || step.Evict?)
    ensures Places(Do(s, step), t) == Places(s, t)
  {
    hide InFlight, Flat, Occurs;
    match step
    case DrainPop => Moved(s.queue, s.local, t);
    case Apply => Moved(s.local, s.applied, t);
    case Discard => Moved(s.queue, s.discarded, t);
    case _ =>
  }

  /** Every step but an accepted enqueue only moves tickets. */
  lemma StepConserves(s: State, step: Step, t: nat)
    requires Can(s, step)
    ensures Places(Do(s, step), t) == Places(s, t) + (if step.Enqueue? && t == |s.accepted| then 1 else 0)
    ensures |Do(s, step).accepted| == |s.accepted| + (if step.Enqueue? then 1 else 0)
  {
    if step.Look? || step.Choose? || step.Lock? || step.GiveUp? {
      FlusherStepConserves(s, step, t);
    } else if step.Pop? {
      PopConserves(s, step.f, t);
    } else if step.Swap? {
      SwapConserves(s, step.f, t);
    } else if step.Send? {
      SendConserves(s, step.f, t);
    } else if step.Write? {
      WriteConserves(s, t);
    } else if !step.Enqueue? {
      OtherStepConserves(s, step, t);
    }
  }

  lemma {:induction false} NobodyInFlight(n: nat)
    ensures InFlight(seq(n, i => Idle)) == []
  {
    if n > 0 {
      assert seq(n, i => Idle)[1..] == seq(n - 1, i => Idle);
      NobodyInFlight(n - 1);
    }
  }

  /** Conservation over every schedule: each accepted entry is in exactly one place, once, and nothing else is anywhere. */
  lemma {:induction false} Conservation(r: Run, t: nat)
    requires Legal(r)
    ensures Places(After(r), t) == if t < |After(r).accepted| then 1 else 0
  {
    match r
    case Start(n) => NobodyInFlight(n);
    case Then(before, step) =>
      hide Places, Do, Can;
      Conservation(before, t);
      StepConserves(After(before), step, t);
  }

  // ------------------------------------------------------------------ locks

  /** Each buffer is held by at most one flusher, and holds entries only while one is filling it. */
  ghost predicate BuffersOwned(s: State) {
    && (forall g, h, isA: bool :: 0 <= g < h < |s.flushers| ==> !(Holds(s.flushers[g], isA) && Holds(s.flushers[h], isA)))
    && (forall isA: bool :: Buffer(s, isA) != [] ==> FilledBySomeone(s, isA))
  }

  ghost predicate FilledBySomeone(s: State, isA: bool) {
    exists g :: 0 <= g < |s.flushers| && s.flushers[g] == Filling(isA)
  }

  lemma StillFilled(s: State, step: Step, isA: bool)
    requires Can(s, step) && BuffersOwned(s) && Buffer(Do(s, step), isA) != []
    ensures FilledBySomeone(Do(s, step), isA)
  {
    var s' := Do(s, step);
    if step.Pop? && s.flushers[step.f].isA == isA {
      assert s'.flushers[step.f] == Filling(isA);
    } else {
      assert Buffer(s, isA) != [] && FilledBySomeone(s, isA);
      var g :| 0 <= g < |s.flushers| && s.flushers[g] == Filling(isA);
      assert Holds(s.flushers[g], isA);
      assert s'.flushers[g] == Filling(isA);
    }
  }

  lemma StillExclusive(s: State, step: Step, g: nat, h: nat, isA: bool)
    requires Can(s, step) && BuffersOwned(s) && g < h < |s.flushers|
    ensures |Do(s, step).flushers| == |s.flushers|
    ensures !(Holds(Do(s, step).flushers[g], isA) && Holds(Do(s, step).flushers[h], isA))
  {
    assert !(Holds(s.flushers[g], isA) && Holds(s.flushers[h], isA));
  }

  lemma OwnedStep(s: State, step: Step)
    requires Can(s, step) && BuffersOwned(s)
    ensures BuffersOwned(Do(s, step))
  {
    hide Do, Can, Holds;
    forall isA: bool | Buffer(Do(s, step), isA) != []
      ensures FilledBySomeone(Do(s, step), isA)
    {
      StillFilled(s, step, isA);
    }
    forall g, h, isA: bool | 0 <= g < h < |Do(s, step).flushers|
      ensures !(Holds(Do(s, step).flushers[g], isA) && Holds(Do(s, step).flushers[h], isA))
    {
      SameFlushers(s, step);
      StillExclusive(s, step, g, h, isA);
    }
  }

  lemma SameFlushers(s: State, step: Step)
    requires Can(s, step)
    ensures |Do(s, step).flushers| == |s.flushers|
  {
  }

  /** Mutual exclusion over every schedule. */
  lemma {:induction false} BuffersAlwaysOwned(r: Run)
    requires Legal(r)
    ensures BuffersOwned(After(r))
  {
    if r.Then? {
      BuffersAlwaysOwned(r.before);
      OwnedStep(After(r.before), r.step);
    }
  }

  // ------------------------------------------------------------------ order

  ghost predicate Increasing(ts: seq<nat>) {
    forall i, j :: 0 <= i < j < |ts| ==> ts[i] < ts[j]
  }

  ghost predicate AllBelow(ts: seq<nat>, n: nat) {
    forall i :: 0 <= i < |ts| ==> ts[i] < n
  }

  /** What the drainer has seen and will see, in order. */
  ghost function DrainLine(s: State): seq<nat> {
    s.applied + s.local + s.queue
  }

  /** The same line with its first queued element gone is still increasing. */
  lemma DropMiddle(a: seq<nat>, q: seq<nat>)
    requires q != [] && Increasing(a + q)
    ensures Increasing(a + q[1..])
  {
    var (l, m) := (a + q, a + q[1..]);
    forall i, j | 0 <= i < j < |m|
      ensures m[i] < m[j]
    {
      assert m[i] == l[if i < |a| then i else i + 1] && m[j] == l[if j < |a| then j else j + 1];
    }
  }

  lemma BelowDrop(a: seq<nat>, q: seq<nat>, n: nat)
    requires q != [] && AllBelow(a + q, n)
    ensures AllBelow(a + q[1..], n)
  {
    var (l, m) := (a + q, a + q[1..]);
    forall i | 0 <= i < |m|
      ensures m[i] < n
    {
      assert m[i] == l[if i < |a| then i else i + 1];
    }
  }

  ghost predicate InOrder(line: seq<nat>, n: nat) {
    Increasing(line) && AllBelow(line, n)
  }

  /** Applied records are a subsequence of enqueue order: their tickets increase. */
  lemma DrainStep(s: State, step: Step)
    requires Can(s, step) && InOrder(DrainLine(s), |s.accepted|)
    ensures InOrder(DrainLine(Do(s, step)), |Do(s, step).accepted|)
  {
    var s' := Do(s, step);
    var head := s.applied + s.local;
    match step
    case Enqueue(e) => assert DrainLine(s') == DrainLine(s) + [|s.accepted|];
    case Pop(f) =>
      DropMiddle(head, s.queue);
      BelowDrop(head, s.queue, |s.accepted|);
    case Discard =>
      DropMiddle(head, s.queue);
      BelowDrop(head, s.queue, |s.accepted|);
    case DrainPop => assert DrainLine(s') == DrainLine(s);
    case Apply => assert DrainLine(s') == DrainLine(s);
    case _ => assert DrainLine(s') == DrainLine(s);
  }

  lemma {:induction false} DrainedInOrder(r: Run)
    requires Legal(r)
    ensures InOrder(DrainLine(After(r)), |After(r).accepted|)
  {
    if r.Then? {
      DrainedInOrder(r.before);
      DrainStep(After(r.before), r.step);
    }
  }

  /** What the log holds and will get from a single flusher, in order. */
  ghost function LogLine(s: State): seq<nat> {
    s.log + Flat(s.channel) + InFlight(s.flushers) + (s.bufA + s.bufB) + s.queue
  }

  /** A single flusher fills at most its own buffer, and none while it sends. */
  ghost predicate OneFlusher(s: State) {
    && |s.flushers| == 1
    && (s.flushers[0].Filling? ==> Buffer(s, !s.flushers[0].isA) == [])
    && (!s.flushers[0].Filling? ==> s.bufA == [] && s.bufB == [])
  }

  lemma OneInFlight(fl: Flusher)
    ensures InFlight([fl]) == Batch(fl)
  {
    assert [fl][1..] == [];
    assert Batch(fl) + [] == Batch(fl);
  }

  lemma QueueHeadGone(head: seq<nat>, q: seq<nat>, n: nat)
    requires q != [] && InOrder(head + q, n)
    ensures InOrder(head + q[1..], n)
  {
    DropMiddle(head, q);
    BelowDrop(head, q, n);
  }

  lemma FillStep(s: State, f: nat)
    requires Can(s, Pop(f)) && OneFlusher(s)
    ensures OneFlusher(Do(s, Pop(f))) && LogLine(Do(s, Pop(f))) == LogLine(s)
  {
    var s' := Do(s, Pop(f));
    assert s.bufA + s.bufB + s.queue == s'.bufA + s'.bufB + s'.queue;
    var head := s.log + Flat(s.channel) + InFlight(s.flushers);
    assert LogLine(s) == head + (s.bufA + s.bufB + s.queue) && LogLine(s') == head + (s'.bufA + s'.bufB + s'.queue);
  }

  lemma SwapBuffers(s: State, f: nat)
    requires Can(s, Swap(f)) && OneFlusher(s)
    ensures var s' := Do(s, Swap(f));
      && OneFlusher(s') && Batch(s.flushers[0]) == [] && Batch(s'.flushers[0]) == s.bufA + s.bufB && s'.bufA + s'.bufB == []
      && s'.flushers == [s'.flushers[0]] && s.flushers == [s.flushers[0]]
      && s'.log == s.log && s'.channel == s.channel && s'.queue == s.queue && |s'.accepted| == |s.accepted|
  {
  }

  lemma EmptyMoves(a: seq<nat>, x: seq<nat>, q: seq<nat>)
    ensures a + [] + x + q == a + x + [] + q
  {
  }

  lemma SwapStep(s: State, f: nat)
    requires Can(s, Swap(f)) && OneFlusher(s)
    ensures OneFlusher(Do(s, Swap(f))) && LogLine(Do(s, Swap(f))) == LogLine(s)
  {
    hide Do, Can, OneFlusher, InFlight, Batch, Flat;
    SwapBuffers(s, f);
    var s' := Do(s, Swap(f));
    OneInFlight(s.flushers[0]);
    OneInFlight(s'.flushers[0]);
    EmptyMoves(s.log + Flat(s.channel), s.bufA + s.bufB, s.queue);
  }

  lemma SendBatch(s: State, f: nat)
    requires Can(s, Send(f)) && OneFlusher(s)
    ensures var s' := Do(s, Send(f));
      && OneFlusher(s') && s'.channel == s.channel + [Batch(s.flushers[0])] && Batch(s'.flushers[0]) == []
      && s'.flushers == [s'.flushers[0]] && s.flushers == [s.flushers[0]] && s.bufA + s.bufB == [] && s'.bufA + s'.bufB == []
      && s'.log == s.log && s'.queue == s.queue && |s'.accepted| == |s.accepted|
  {
  }

  lemma SendStep(s: State, f: nat)
    requires Can(s, Send(f)) && OneFlusher(s)
    ensures OneFlusher(Do(s, Send(f))) && LogLine(Do(s, Send(f))) == LogLine(s)
  {
    hide Do, Can, OneFlusher, InFlight, Batch, Flat;
    SendBatch(s, f);
    var s' := Do(s, Send(f));
    var b := Batch(s.flushers[0]);
    OneInFlight(s.flushers[0]);
    OneInFlight(s'.flushers[0]);
    FlatSnoc(s.channel, b);
    assert s.log + (Flat(s.channel) + b) + [] == s.log + Flat(s.channel) + b;
  }

  lemma QuietStep(s: State, step: Step)
    requires Can(s, step) && OneFlusher(s)
    requires step.Look? || step.Choose? || step.Lock? || step.GiveUp? || step.DrainTurn? || step.Apply? || step.Evict?
    ensures OneFlusher(Do(s, step)) && LogLine(Do(s, step)) == LogLine(s)
  {
    var s' := Do(s, step);
    assert s.flushers == [s.flushers[0]] && s'.flushers == [s'.flushers[0]];
    OneInFlight(s.flushers[0]);
    OneInFlight(s'.flushers[0]);
  }

  /** Only enqueueing extends what was accepted. */
  lemma AcceptedGrows(s: State, step: Step)
    requires Can(s, step)
    ensures |Do(s, step).accepted| == if step.Enqueue? then |s.accepted| + 1 else |s.accepted|
  {
  }

  lemma TicketAdded(line: seq<nat>, n: nat)
    requires InOrder(line, n)
    ensures InOrder(line + [n], n + 1)
  {
  }

  lemma EnqueueStep(s: State, e: Entry)
    requires Can(s, Enqueue(e)) && OneFlusher(s)
    ensures OneFlusher(Do(s, Enqueue(e))) && LogLine(Do(s, Enqueue(e))) == LogLine(s) + [|s.accepted|]
  {
    assert LogLine(Do(s, Enqueue(e))) == LogLine(s) + [|s.accepted|];
  }

  lemma WriteStep(s: State)
    requires Can(s, Write) && OneFlusher(s)
    ensures OneFlusher(Do(s, Write)) && LogLine(Do(s, Write)) == LogLine(s)
  {
    assert LogLine(Do(s, Write)) == LogLine(s);
  }

  /** The drainer, or a full queue at the end, takes the head of the queue. */
  lemma HeadStep(s: State, step: Step)
    requires Can(s, step) && OneFlusher(s) && (step.DrainPop? || step.Discard?)
    requires InOrder(LogLine(s), |s.accepted|)
    ensures OneFlusher(Do(s, step)) && InOrder(LogLine(Do(s, step)), |s.accepted|)
  {
    hide InOrder;
    var head := s.log + Flat(s.channel) + InFlight(s.flushers) + (s.bufA + s.bufB);
    QueueHeadGone(head, s.queue, |s.accepted|);
  }

  lemma LogStep(s: State, step: Step)
    requires Can(s, step) && OneFlusher(s) && InOrder(LogLine(s), |s.accepted|)
    ensures OneFlusher(Do(s, step)) && InOrder(LogLine(Do(s, step)), |Do(s, step).accepted|)
  {
    hide Can, Do, LogLine, OneFlusher, InOrder;
    AcceptedGrows(s, step);
    if step.Pop? {
      FillStep(s, step.f);
    } else if step.Swap? {
      SwapStep(s, step.f);
    } else if step.Send? {
      SendStep(s, step.f);
    } else if step.Enqueue? {
      EnqueueStep(s, step.e);
      TicketAdded(LogLine(s), |s.accepted|);
    } else if step.Write? {
      WriteStep(s);
    } else if step.DrainPop? || step.Discard? {
      HeadStep(s, step);
    } else {
      QuietStep(s, step);
    }
  }

  ghost predicate StartsWith(r: Run, flushers: nat) {
    match r
    case Start(n) => n == flushers
    case Then(before, _) => StartsWith(before, flushers)
  }

  /** With a single flusher the log keeps enqueue order. */
  lemma {:induction false} LoggedInOrder(r: Run)
    requires Legal(r) && StartsWith(r, 1)
    ensures OneFlusher(After(r)) && InOrder(LogLine(After(r)), |After(r).accepted|)
  {
    match r
    case Start(n) =>
      NobodyInFlight(1);
      assert LogLine(After(r)) == [];
    case Then(before, step) =>
      LoggedInOrder(before);
      LogStep(After(before), step);
  }

  lemma AppliedBelow(r: Run)
    requires Legal(r)
    ensures InOrder(After(r).applied, |After(r).accepted|)
  {
    DrainedInOrder(r);
    var s := After(r);
    assert DrainLine(s) == s.applied + (s.local + s.queue);
    Front(s.applied, s.local + s.queue, |s.accepted|);
  }

  /** So both the log and the applied sequence list tickets in the order they were accepted. */
  lemma LogAndDrainKeepOrder(r: Run)
    requires Legal(r) && StartsWith(r, 1)
    ensures InOrder(After(r).log, |After(r).accepted|) && InOrder(After(r).applied, |After(r).accepted|)
  {
    hide InOrder, InFlight, Flat, Legal, After, StartsWith;
    LoggedInOrder(r);
    AppliedBelow(r);
    var s := After(r);
    Front(s.log, Flat(s.channel) + InFlight(s.flushers) + (s.bufA + s.bufB) + s.queue, |s.accepted|);
    assert LogLine(s) == s.log + (Flat(s.channel) + InFlight(s.flushers) + (s.bufA + s.bufB) + s.queue);
  }

  lemma Front(a: seq<nat>, b: seq<nat>, n: nat)
    ensures InOrder(a + b, n) ==> InOrder(a, n)
  {
    assert forall i :: 0 <= i < |a| ==> a[i] == (a + b)[i];
  }

  // ------------------------------------------------------- several flushers

  /** What was handed to the writer, in the order of its log. */
  ghost function Sent(s: State): seq<nat> {
    s.log + Flat(s.channel)
  }

  /** The flusher is about to send a batch that does not start behind everything already sent. */
  ghost predicate Overtaken(s: State, f: nat)
    requires f < |s.flushers|
  {
    var b := Batch(s.flushers[f]);
    b != [] && Sent(s) != [] && b[0] <= Sent(s)[|Sent(s)| - 1]
  }

  /** No batch of the schedule was overtaken by a later one. */
  ghost predicate NeverOvertaken(r: Run)
    requires Legal(r)
  {
    r.Then? ==> NeverOvertaken(r.before) && (r.step.Send? ==> !Overtaken(After(r.before), r.step.f))
  }

  /** Each buffer continues into the queue, and each batch on its way is in order and not empty. */
  ghost predicate Rising(s: State) {
    && (forall isA: bool :: InOrder(Buffer(s, isA) + s.queue, |s.accepted|))
    && (forall f :: 0 <= f < |s.flushers| && s.flushers[f].Sending? ==> s.flushers[f].batch != [] && Increasing(s.flushers[f].batch))
  }

  lemma BufferStillRises(s: State, step: Step, isA: bool)
    requires Can(s, step) && Rising(s)
    ensures var s' := Do(s, step); InOrder(Buffer(s', isA) + s'.queue, |s'.accepted|)
  {
    var (s', buf, n) := (Do(s, step), Buffer(s, isA), |s.accepted|);
    assert InOrder(buf + s.queue, n);
    hide InOrder, Rising;
    if step.Enqueue? {
      assert Buffer(s', isA) + s'.queue == (buf + s.queue) + [n];
      TicketAdded(buf + s.queue, n);
    } else if step.Pop? && s.flushers[step.f].isA == isA {
      assert Buffer(s', isA) + s'.queue == buf + s.queue;
    } else if step.Pop? || step.DrainPop? || step.Discard? {
      QueueHeadGone(buf, s.queue, n);
    } else if step.Swap? && s.flushers[step.f].isA == isA {
      Rest(buf, s.queue, n);
      assert [] + s.queue == s.queue;
    }
  }

  lemma Rest(a: seq<nat>, b: seq<nat>, n: nat)
    requires InOrder(a + b, n)
    ensures InOrder(b, n)
  {
    assert forall i :: 0 <= i < |b| ==> b[i] == (a + b)[|a| + i];
  }

  lemma BatchStillRises(s: State, step: Step, f: nat)
    requires Can(s, step) && Rising(s) && f < |Do(s, step).flushers| && Do(s, step).flushers[f].Sending?
    ensures Do(s, step).flushers[f].batch != [] && Increasing(Do(s, step).flushers[f].batch)
  {
    SameFlushers(s, step);
    if step.Swap? && step.f == f {
      var buf := Buffer(s, s.flushers[f].isA);
      assert InOrder(buf + s.queue, |s.accepted|);
      Front(buf, s.queue, |s.accepted|);
    } else {
      assert s.flushers[f] == Do(s, step).flushers[f];
    }
  }

  lemma RisingStep(s: State, step: Step)
    requires Can(s, step) && Rising(s)
    ensures Rising(Do(s, step))
  {
    hide Can, Do, InOrder, Increasing;
    forall isA: bool
      ensures InOrder(Buffer(Do(s, step), isA) + Do(s, step).queue, |Do(s, step).accepted|)
    {
      BufferStillRises(s, step, isA);
    }
    forall f | 0 <= f < |Do(s, step).flushers| && Do(s, step).flushers[f].Sending?
      ensures Do(s, step).flushers[f].batch != [] && Increasing(Do(s, step).flushers[f].batch)
    {
      BatchStillRises(s, step, f);
    }
  }

  lemma {:induction false} AlwaysRising(r: Run)
    requires Legal(r)
    ensures Rising(After(r))
  {
    if r.Then? {
      AlwaysRising(r.before);
      RisingStep(After(r.before), r.step);
    }
  }

  lemma Appended(a: seq<nat>, b: seq<nat>)
    requires b != [] && Increasing(b)
    ensures Increasing(a + b) <==> Increasing(a) && (a == [] || a[|a| - 1] < b[0])
  {
    var c := a + b;
    assert forall i :: 0 <= i < |a| ==> c[i] == a[i];
    assert forall j :: 0 <= j < |b| ==> c[|a| + j] == b[j];
    if Increasing(c) && a != [] {
      assert c[|a| - 1] < c[|a|];
    }
    if Increasing(a) && a != [] && a[|a| - 1] < b[0] {
      forall i, j | 0 <= i < j < |c|
        ensures c[i] < c[j]
      {
        if i < |a| <= j {
          assert a[i] <= a[|a| - 1] && b[0] <= b[j - |a|];
        }
      }
    }
  }

  lemma SentStep(s: State, step: Step)
    requires Can(s, step) && Rising(s)
    ensures Sent(Do(s, step)) == if step.Send? then Sent(s) + Batch(s.flushers[step.f]) else Sent(s)
  {
    if step.Send? {
      FlatSnoc(s.channel, s.flushers[step.f].batch);
    } else if step.Write? {
      assert Flat(s.channel) == s.channel[0] + Flat(s.channel[1..]);
    }
  }

  /** Only accepted entries are ever sent. */
  lemma SentBelow(r: Run)
    requires Legal(r)
    ensures AllBelow(Sent(After(r)), |After(r).accepted|)
  {
    var s := After(r);
    forall i | 0 <= i < |Sent(s)|
      ensures Sent(s)[i] < |s.accepted|
    {
      var t := Sent(s)[i];
      assert multiset(Sent(s)) == multiset(s.log) + multiset(Flat(s.channel));
      assert multiset(Sent(s))[t] > 0;
      Conservation(r, t);
    }
  }

  /** With any number of flushers: what was sent is in enqueue order if and only if no batch was overtaken. */
  lemma SentInOrderIff(r: Run)
    requires Legal(r)
    ensures InOrder(Sent(After(r)), |After(r).accepted|) <==> NeverOvertaken(r)
  {
    SentBelow(r);
    SentRisesIff(r);
  }

  lemma {:induction false} SentRisesIff(r: Run)
    requires Legal(r)
    ensures Increasing(Sent(After(r))) <==> NeverOvertaken(r)
  {
    hide Do, Increasing, Rising;
    if r.Then? {
      var s := After(r.before);
      SentRisesIff(r.before);
      AlwaysRising(r.before);
      SentStep(s, r.step);
      if r.step.Send? {
        SendingBatch(s, r.step.f);
        Appended(Sent(s), Batch(s.flushers[r.step.f]));
      }
    } else {
      NothingSent(r);
    }
  }

  lemma SendingBatch(s: State, f: nat)
    requires Can(s, Send(f)) && Rising(s)
    ensures Batch(s.flushers[f]) != [] && Increasing(Batch(s.flushers[f]))
  {
  }

  lemma NothingSent(r: Run)
    requires Legal(r) && r.Start?
    ensures Increasing(Sent(After(r)))
  {
  }

  function TwoFlushers(queue: seq<nat>, f0: Flusher, f1: Flusher, bufA: seq<nat>, bufB: seq<nat>, activeIsA: bool,
      channel: seq<seq<nat>>, log: seq<nat>): State
  {
    State([Other, Other], queue, [f0, f1], bufA, bufB, activeIsA, channel, log, true, [], [], [], map[])
  }

  lemma Extend(r: Run, step: Step, s': State) returns (r': Run)
    requires Legal(r) && StartsWith(r, 2) && Can(After(r), step) && s' == Do(After(r), step)
    ensures Legal(r') && StartsWith(r', 2) && After(r') == s'
  {
    r' := Then(r, step);
  }

  lemma TwoEntriesQueued() returns (r: Run)
    ensures Legal(r) && StartsWith(r, 2) && After(r) == TwoFlushers([0, 1], Idle, Idle, [], [], true, [], [])
  {
    r := Then(Then(Start(2), Enqueue(Other)), Enqueue(Other));
  }

  lemma FirstFlusherSwaps() returns (r: Run)
    ensures Legal(r) && StartsWith(r, 2) && After(r) == TwoFlushers([1], Sending(true, [0]), Idle, [], [], false, [], [])
  {
    hide Legal, After, StartsWith;
    r := TwoEntriesQueued();
    r := Extend(r, Look(0), TwoFlushers([0, 1], Ready, Idle, [], [], true, [], []));
    r := Extend(r, Choose(0), TwoFlushers([0, 1], Chosen(true), Idle, [], [], true, [], []));
    r := Extend(r, Lock(0), TwoFlushers([0, 1], Filling(true), Idle, [], [], true, [], []));
    r := Extend(r, Pop(0), TwoFlushers([1], Filling(true), Idle, [0], [], true, [], []));
    r := Extend(r, Swap(0), TwoFlushers([1], Sending(true, [0]), Idle, [], [], false, [], []));
  }

  lemma SecondFlusherSends() returns (r: Run)
    ensures Legal(r) && StartsWith(r, 2) && After(r) == TwoFlushers([], Sending(true, [0]), Idle, [], [], true, [[1]], [])
  {
    hide Legal, After, StartsWith;
    r := FirstFlusherSwaps();
    r := Extend(r, Look(1), TwoFlushers([1], Sending(true, [0]), Ready, [], [], false, [], []));
    r := Extend(r, Choose(1), TwoFlushers([1], Sending(true, [0]), Chosen(false), [], [], false, [], []));
    r := Extend(r, Lock(1), TwoFlushers([1], Sending(true, [0]), Filling(false), [], [], false, [], []));
    r := Extend(r, Pop(1), TwoFlushers([], Sending(true, [0]), Filling(false), [], [1], false, [], []));
    r := Extend(r, Swap(1), TwoFlushers([], Sending(true, [0]), Sending(false, [1]), [], [], true, [], []));
    r := Extend(r, Send(1), TwoFlushers([], Sending(true, [0]), Idle, [], [], true, [[1]], []));
  }

  /** With two flushers the log can be out of order. */
  lemma TwoFlushersReorder() returns (r: Run)
    ensures Legal(r) && StartsWith(r, 2) && After(r).log == [1, 0]
  {
    hide Legal, After, StartsWith;
    r := SecondFlusherSends();
    r := Extend(r, Send(0), TwoFlushers([], Idle, Idle, [], [], true, [[1], [0]], []));
    r := Extend(r, Write, TwoFlushers([], Idle, Idle, [], [], true, [[0]], [1]));
    r := Extend(r, Write, TwoFlushers([], Idle, Idle, [], [], true, [], [1, 0]));
  }

  // ------------------------------------------------------------ drain batches

  function FirstTickets(n: nat): (ts: seq<nat>)
    ensures |ts| == n && forall i :: 0 <= i < n ==> ts[i] == i
  {
    seq(n, i => i)
  }

  lemma Next(r: Run, step: Step, s': State) returns (r': Run)
    requires Legal(r) && Can(After(r), step) && s' == Do(After(r), step)
    ensures Legal(r') && After(r') == s'
  {
    r' := Then(r, step);
  }

  /** The drainer with the first n entries in hand and nothing queued. */
  function Collected(n: nat): State {
    State(seq(n, i => Other), [], [], [], [], true, [], [], true, FirstTickets(n), [], [], map[])
  }

  lemma CollectOneMore(r: Run, n: nat) returns (r': Run)
    requires Legal(r) && After(r) == Collected(n) && n < 1000
    ensures Legal(r') && After(r') == Collected(n + 1)
  {
    hide Legal, After, FirstTickets;
    var s := Collected(n).(accepted := Collected(n).accepted + [Other], queue := [n]);
    r' := Next(r, Enqueue(Other), s);
    assert [n][1..] == [] && FirstTickets(n) + [n] == FirstTickets(n + 1);
    assert seq(n, i => Other) + [Other] == seq(n + 1, i => Other);
    r' := Next(r', DrainPop, Collected(n + 1));
  }

  /** How many entries the drainer has taken from the queue since it last applied one. */
  function PopsSinceApply(r: Run): nat {
    match r
    case Start(_) => 0
    case Then(before, step) =>
      if step.DrainPop? then PopsSinceApply(before) + 1 else if step.Apply? then 0 else PopsSinceApply(before)
  }

  /**
   * The drainer works in batches: while it collects, it holds exactly what it
   * has taken since it last applied anything, so the batch before is applied
   * whole; and it turns to applying with a thousand entries or an empty queue.
   */
  lemma {:induction false} DrainsInBatches(r: Run)
    requires Legal(r)
    ensures After(r).collecting ==> |After(r).local| == PopsSinceApply(r)
    ensures r.Then? && r.step.DrainTurn? ==> After(r).local != [] && (|After(r).local| == 1000 || After(r).queue == [])
  {
    if r.Then? {
      hide Do, Can;
      DrainsInBatches(r.before);
      BatchStep(After(r.before), r.step);
    } else {
      assert After(r).local == [];
    }
  }

  lemma BatchStep(s: State, step: Step)
    requires Can(s, step)
    ensures var s' := Do(s, step);
      && (s'.collecting ==> |s'.local| == (if step.DrainPop? then |s.local| + 1 else if step.Apply? then 0 else |s.local|))
      && (s'.collecting && !step.Apply? ==> s.collecting)
      && (step.DrainTurn? ==> s'.local != [] && (|s'.local| == 1000 || s'.queue == []))
  {
  }

  /** The drainer collects up to a thousand entries before it applies any, and never more. */
  lemma {:induction false} CollectsAThousand(n: nat) returns (r: Run)
    requires n <= 1000
    ensures Legal(r) && After(r) == Collected(n) && !Can(After(r), Apply) && (Can(Do(After(r), Enqueue(Other)), DrainPop) <==> n < 1000)
  {
    if n == 0 {
      r := Start(0);
      assert seq(0, i => Idle) == [] && seq(0, i => Other) == [];
    } else {
      var before := CollectsAThousand(n - 1);
      r := CollectOneMore(before, n - 1);
    }
  }

  // ---------------------------------------------------------- the full queue

  lemma QueueStep(s: State, step: Step)
    requires Can(s, step)
    ensures |s.queue| <= 1_000_000 ==> |Do(s, step).queue| <= 1_000_000
    ensures |s.local| <= 1000 ==> |Do(s, step).local| <= 1000
  {
  }

  lemma {:induction false} QueuesBounded(r: Run)
    requires Legal(r)
    ensures |After(r).queue| <= 1_000_000 && |After(r).local| <= 1000
  {
    if r.Then? {
      hide Do, Can;
      QueuesBounded(r.before);
      QueueStep(After(r.before), r.step);
    }
  }

  function Queued(n: nat): State {
    State(seq(n, i => Other), FirstTickets(n), [], [], [], true, [], [], true, [], [], [], map[])
  }

  lemma QueueOneMore(r: Run, n: nat) returns (r': Run)
    requires Legal(r) && After(r) == Queued(n) && n < 1_000_000
    ensures Legal(r') && After(r') == Queued(n + 1)
  {
    hide Legal, After, FirstTickets;
    assert FirstTickets(n) + [n] == FirstTickets(n + 1);
    assert seq(n, i => Other) + [Other] == seq(n + 1, i => Other);
    r' := Next(r, Enqueue(Other), Queued(n + 1));
  }

  /** The queue takes a million entries, and then no more. */
  lemma {:induction false} QueueTakesAMillion(n: nat) returns (r: Run)
    requires n <= 1_000_000
    ensures Legal(r) && After(r) == Queued(n) && (Can(After(r), Enqueue(Other)) <==> n < 1_000_000)
  {
    if n == 0 {
      r := Start(0);
      assert seq(0, i => Idle) == [] && seq(0, i => Other) == [];
    } else {
      var before := QueueTakesAMillion(n - 1);
      r := QueueOneMore(before, n - 1);
    }
  }

  // -------------------------------------------------------------- no deadlock

  function Rank(fl: Flusher): nat {
    match fl
    case Idle => 0
    case Ready => 5
    case Chosen(_) => 4
    case Filling(_) => 3
    case Sending(_, _) => 2
  }

  function Ranks(fls: seq<Flusher>): nat {
    if fls == [] then 0 else Rank(fls[0]) + Ranks(fls[1..])
  }

  /** What is left to do when nothing is enqueued any more. */
  function Remaining(s: State): nat {
    3 * |s.queue| + 2 * |s.local| + (if s.collecting then 1 else 0) + |s.channel| + Ranks(s.flushers)
  }

  lemma {:induction false} RanksUpdate(fls: seq<Flusher>, f: nat, x: Flusher)
    requires f < |fls|
    ensures Ranks(fls[f := x]) + Rank(fls[f]) == Ranks(fls) + Rank(x)
  {
    hide Rank;
    var fls' := fls[f := x];
    if f == 0 {
      assert fls'[1..] == fls[1..];
    } else {
      assert fls'[1..] == fls[1..][f - 1 := x];
      RanksUpdate(fls[1..], f - 1, x);
    }
  }

  /** Everything accepted is in the log, applied or discarded, and nobody is at work. */
  ghost predicate Finished(s: State) {
    && s.queue == [] && s.bufA == [] && s.bufB == [] && s.channel == [] && s.local == []
    && forall f :: 0 <= f < |s.flushers| ==> s.flushers[f].Idle?
  }

  /** The next step of a flusher that is at work: whoever holds a lock goes on, and where nobody does the others do. */
  lemma FlusherGoesOn(s: State, f: nat) returns (step: Step)
    requires f < |s.flushers| && !s.flushers[f].Idle?
    ensures Can(s, step) && Remaining(Do(s, step)) < Remaining(s) && !step.Enqueue? && !step.Discard? && !step.Evict?
  {
    hide Ranks;
    if g :| 0 <= g < |s.flushers| && (s.flushers[g].Filling? || s.flushers[g].Sending?) {
      var isA := s.flushers[g].isA;
      if s.flushers[g].Sending? {
        step := Send(g);
        RanksUpdate(s.flushers, g, Idle);
      } else if Buffer(s, isA) == [] {
        step := GiveUp(g);
        RanksUpdate(s.flushers, g, Idle);
      } else {
        step := Swap(g);
        RanksUpdate(s.flushers, g, Sending(isA, Buffer(s, isA)));
      }
    } else if s.flushers[f].Ready? {
      step := Choose(f);
      RanksUpdate(s.flushers, f, Chosen(s.activeIsA));
    } else {
      step := Lock(f);
      RanksUpdate(s.flushers, f, Filling(s.flushers[f].isA));
    }
  }

  /** While it applies, the drainer has something to apply. */
  ghost predicate DrainerBusy(s: State) {
    s.collecting || s.local != []
  }

  lemma {:induction false} DrainerAlwaysBusy(r: Run)
    requires Legal(r)
    ensures DrainerBusy(After(r))
  {
    if r.Then? {
      hide Do, Can;
      DrainerAlwaysBusy(r.before);
      DrainerStep(After(r.before), r.step);
    }
  }

  lemma DrainerStep(s: State, step: Step)
    requires Can(s, step) && DrainerBusy(s)
    ensures DrainerBusy(Do(s, step))
  {
  }

  /** As long as not everything is finished, some step brings the end nearer. */
  lemma Progress(s: State) returns (step: Step)
    requires BuffersOwned(s) && DrainerBusy(s) && !Finished(s) && |s.local| <= 1000
    ensures Can(s, step) && Remaining(Do(s, step)) < Remaining(s) && !step.Enqueue? && !step.Discard? && !step.Evict?
  {
    if f :| 0 <= f < |s.flushers| && !s.flushers[f].Idle? {
      hide Can, Do, Remaining;
      step := FlusherGoesOn(s, f);
    } else if s.channel != [] {
      step := Write;
    } else if !s.collecting {
      step := Apply;
    } else if s.queue != [] && |s.local| < DRAIN_BATCH {
      step := DrainPop;
    } else {
      NoBufferLeft(s, true);
      NoBufferLeft(s, false);
      step := DrainTurn;
    }
  }

  lemma NoBufferLeft(s: State, isA: bool)
    requires BuffersOwned(s) && forall f :: 0 <= f < |s.flushers| ==> s.flushers[f].Idle?
    ensures Buffer(s, isA) == []
  {
    assert Buffer(s, isA) != [] ==> FilledBySomeone(s, isA);
  }

  /** The run goes on from r with the steps of flushers, writer and drainer only. */
  ghost predicate Continues(r: Run, r': Run) {
    r' == r || (r'.Then? && !r'.step.Enqueue? && !r'.step.Discard? && !r'.step.Evict? && Continues(r, r'.before))
  }

  lemma {:induction false} ContinuesThen(a: Run, b: Run, c: Run)
    requires Continues(a, b) && Continues(b, c)
    ensures Continues(a, c)
  {
    if c != b {
      ContinuesThen(a, b, c.before);
    }
  }

  /**
   * No deadlock: from wherever a schedule has got, flushers, writer and drainer
   * can go on until everything accepted is logged, applied or discarded.
   */
  lemma {:induction false} CanAlwaysFinish(r: Run) returns (r': Run)
    requires Legal(r)
    ensures Legal(r') && Continues(r, r') && Finished(After(r')) && After(r').accepted == After(r).accepted
    decreases Remaining(After(r))
  {
    hide Can, Do, Remaining, Finished, Places, BuffersOwned;
    if Finished(After(r)) {
      r' := r;
    } else {
      BuffersAlwaysOwned(r);
      DrainerAlwaysBusy(r);
      QueuesBounded(r);
      var step := Progress(After(r));
      AcceptedStays(After(r), step);
      var next := Then(r, step);
      assert Continues(r, next);
      r' := CanAlwaysFinish(next);
      ContinuesThen(r, next, r');
    }
  }

  lemma AcceptedStays(s: State, step: Step)
    requires Can(s, step) && !step.Enqueue?
    ensures Do(s, step).accepted == s.accepted
  {
  }
}
