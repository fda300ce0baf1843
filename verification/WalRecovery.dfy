/** What recovery finds in a log file: the round trip, torn tails, and the boundary where it fails. */
module WalRecovery {
  import opened Keys
  import opened Codec
  import opened Pagers
  import opened WalLog
  import opened WalShift

  /** Phantom length at the end of a batch in front of the rest of the log; 0 at the end of the log. */
  ghost function PhantomAt(batch: seq<WalEntry>, rest: seq<seq<WalEntry>>): nat {
    if rest == [] || rest[0] == [] then 0 else PhantomLength(|Frames(batch)|, rest[0][0])
  }

  /** No boundary shows the recovery loop a length that is not there. */
  ghost predicate Clean(bs: seq<seq<WalEntry>>) {
    bs != [] ==> PhantomAt(bs[0], bs[1..]) == 0 && Clean(bs[1..])
  }

  /** A batch size that leaves no padding, or at least four bytes of it. */
  predicate WholePadding(size: nat) {
    size % BLOCK !in {4093, 4094, 4095}
  }

  lemma WholePaddingIs(size: nat)
    ensures WholePadding(size) <==> !(1 <= PadSize(size) <= 3)
  {
  }

  /** Avoiding three batch sizes modulo 4096 in all but the last batch is enough. */
  lemma {:induction false} WholePaddingIsClean(bs: seq<seq<WalEntry>>)
    requires forall i :: 0 <= i < |bs| - 1 ==> WholePadding(|Frames(bs[i])|)
    ensures Clean(bs)
  {
    if bs != [] {
      WholePaddingIsClean(bs[1..]);
      if |bs| > 1 {
        WholePaddingIs(|Frames(bs[0])|);
      }
    }
  }

  // ------------------------------------------------------------- survivors

  /** The entries of a batch whose frames lie wholly in its first n bytes. */
  function BatchSurvivors(es: seq<WalEntry>, n: nat): seq<WalEntry> {
    if es == [] || n < |Frame(es[0])| then []
    else [es[0]] + BatchSurvivors(es[1..], n - |Frame(es[0])|)
  }

  /** The entries of a log whose frames lie wholly in the first n bytes of its file. */
  function Survivors(bs: seq<seq<WalEntry>>, n: nat): seq<WalEntry> {
    if bs == [] then []
    else
      var size := |Padded(Frames(bs[0]))|;
      if n < size then BatchSurvivors(bs[0], n) else bs[0] + Survivors(bs[1..], n - size)
  }

  lemma {:induction false} WholeBatchSurvives(es: seq<WalEntry>, n: nat)
    requires n >= |Frames(es)|
    ensures BatchSurvivors(es, n) == es
  {
    if es != [] {
      WholeBatchSurvives(es[1..], n - |Frame(es[0])|);
    }
  }

  lemma {:induction false} WholeLogSurvives(bs: seq<seq<WalEntry>>)
    ensures Survivors(bs, |LogFile(bs)|) == Flatten(bs)
  {
    if bs != [] {
      WholeLogSurvives(bs[1..]);
    }
  }

  lemma {:induction false} BatchSurvivorsGrow(es: seq<WalEntry>, n: nat, m: nat)
    requires n <= m
    ensures BatchSurvivors(es, n) <= BatchSurvivors(es, m) <= es
  {
    if es != [] {
      if m >= |Frame(es[0])| {
        var k := m - |Frame(es[0])|;
        BatchSurvivorsGrow(es[1..], if n >= |Frame(es[0])| then n - |Frame(es[0])| else 0, k);
        BatchSurvivorsGrow(es[1..], k, k);
        assert es == [es[0]] + es[1..];
      }
    }
  }

  /** What survives is a prefix of what was written, and more bytes never lose an entry. */
  lemma {:induction false} SurvivorsGrow(bs: seq<seq<WalEntry>>, n: nat, m: nat)
    requires n <= m
    ensures Survivors(bs, n) <= Survivors(bs, m) <= Flatten(bs)
  {
    hide BatchSurvivors, Padded, Frames;
    if bs != [] {
      var size := |Padded(Frames(bs[0]))|;
      BatchSurvivorsGrow(bs[0], n, if m < size then m else n);
      if m >= size {
        SurvivorsGrow(bs[1..], if n >= size then n - size else 0, m - size);
      }
    }
  }

  // ------------------------------------------------------------- one batch

  lemma FramesOfCons(es: seq<WalEntry>)
    requires es != []
    ensures |Frames(es)| == |Frame(es[0])| + |Frames(es[1..])|
  {
  }

  lemma {:induction false} WholeBatchRecovered(es: seq<WalEntry>, tail: Bytes, pos: nat)
    requires Writable(es)
    ensures Recovered(Frames(es) + tail, pos) == es + Recovered(tail, pos + |Frames(es)|)
  {
    hide Recovered, Frame, EntryFits;
    if es == [] {
      assert Frames(es) + tail == tail;
    } else {
      var rest := Frames(es[1..]) + tail;
      assert Frames(es) + tail == Frame(es[0]) + rest;
      FrameRecovered(es[0], rest, pos);
      WholeBatchRecovered(es[1..], tail, pos + |Frame(es[0])|);
      FramesOfCons(es);
      var last := Recovered(tail, pos + |Frames(es)|);
      assert Recovered(rest, pos + |Frame(es[0])|) == es[1..] + last;
      assert [es[0]] + (es[1..] + last) == es + last;
    }
  }

  lemma {:induction false} CutBatchRecovered(es: seq<WalEntry>, n: nat, pos: nat)
    requires Writable(es) && n < |Frames(es)|
    ensures Recovered(Frames(es)[..n], pos) == BatchSurvivors(es, n)
  {
    hide Recovered, Frame, EntryFits;
    var size := |Frame(es[0])|;
    if n < size {
      assert Frames(es)[..n] == Frame(es[0])[..n];
      CutFrameRecovered(es[0], n, pos);
    } else {
      assert Frames(es)[..n] == Frame(es[0]) + Frames(es[1..])[..n - size];
      FrameRecovered(es[0], Frames(es[1..])[..n - size], pos);
      CutBatchRecovered(es[1..], n - size, pos + size);
    }
  }

  // ----------------------------------------------------------- the boundary

  /** One to three pad bytes are passed when the length read over them is zero. */
  lemma ShortPaddingSkipped(p: nat, t: Bytes, pos: nat)
    requires 1 <= p <= 3 && (pos + p) % BLOCK == 0
    requires |Zeros(p) + t| >= 4 ==> FromLE((Zeros(p) + t)[..4]) == 0
    ensures Recovered(Zeros(p) + t, pos) == Recovered(t, pos + p)
  {
    hide FromLE;
    var s := Zeros(p) + t;
    assert BLOCK - pos % BLOCK == p;
    if |s| >= 4 {
      assert s[p..] == t;
    }
  }

  lemma FrameHasLength(e: WalEntry)
    ensures |Frame(e)| >= 4
  {
  }

  /** The length read at a short padding is the phantom length. */
  lemma PhantomRead(batch: seq<WalEntry>, bs: seq<seq<WalEntry>>)
    requires bs != [] && Batches(bs) && 1 <= PadSize(|Frames(batch)|) <= 3
    ensures var s := Zeros(PadSize(|Frames(batch)|)) + LogFile(bs); |s| >= 4 && FromLE(s[..4]) == PhantomAt(batch, bs)
  {
    hide FromLE, Frame, WriteEntry, Frames, LogFile, LE, Pow256, PadSize;
    var p := PadSize(|Frames(batch)|);
    LogStarts(bs);
    FrameHasLength(bs[0][0]);
    var rest := LogFile(bs)[|Frame(bs[0][0])|..];
    assert LogFile(bs) == Frame(bs[0][0]) + rest;
    StraddlingRead(p, bs[0][0], rest);
  }

  /** A clean boundary is passed, also when the file ends somewhere behind it. */
  lemma BoundaryPassed(batch: seq<WalEntry>, bs: seq<seq<WalEntry>>, m: nat, pos: nat)
    requires Batches(bs) && PhantomAt(batch, bs) == 0 && m <= |LogFile(bs)|
    requires var p := PadSize(|Frames(batch)|); (pos + p) % BLOCK == 0
    ensures var p := PadSize(|Frames(batch)|);
      Recovered(Zeros(p) + LogFile(bs)[..m], pos) == Recovered(LogFile(bs)[..m], pos + p)
  {
    hide Recovered, FromLE, PhantomAt, LogFile, Frames, PadSize;
    var p := PadSize(|Frames(batch)|);
    var t := LogFile(bs)[..m];
    if 1 <= p <= 3 {
      if |Zeros(p) + t| >= 4 {
        if bs == [] {
          EmptyLog();
        } else {
          PhantomRead(batch, bs);
          assert (Zeros(p) + t)[..4] == (Zeros(p) + LogFile(bs))[..4];
        }
      }
      ShortPaddingSkipped(p, t, pos);
    } else {
      PaddingSkipped(p, t, pos);
    }
  }

  lemma EmptyLog()
    ensures LogFile([]) == []
  {
  }

  lemma WholeBlocksMore(q: nat, n: nat)
    ensures (q * BLOCK + n) % BLOCK == n % BLOCK
  {
    if q > 0 {
      WholeBlocksMore(q - 1, n);
      assert q * BLOCK + n == ((q - 1) * BLOCK + n) + BLOCK;
      OneBlockMore((q - 1) * BLOCK + n);
    }
  }

  lemma OneBlockMore(n: nat)
    ensures (n + BLOCK) % BLOCK == n % BLOCK
  {
  }

  lemma PadsUpToBlock(size: nat)
    ensures PadSize(size) <= BLOCK - size % BLOCK
  {
  }

  lemma BatchEnd(batch: Bytes, pos: nat)
    requires pos % BLOCK == 0
    ensures var (size, p) := (|batch|, PadSize(|batch|));
      && (pos + size + p) % BLOCK == 0 && p <= BLOCK - (pos + size) % BLOCK && |Padded(batch)| == size + p
  {
    var (size, p) := (|batch|, PadSize(|batch|));
    PadsUpToBlock(size);
    hide PadSize;
    var q := pos / BLOCK;
    assert pos == q * BLOCK;
    WholeBlocksMore(q, size);
    WholeBlocksMore(q, size + p);
    assert pos + size + p == q * BLOCK + (size + p);
  }

  // ------------------------------------------------------- appending to a torn log

  lemma TornFrameThen(e: WalEntry, n: nat, next: Bytes, pos: nat)
    requires EntryFits(e) && 4 <= n < |Frame(e)|
    ensures |WriteEntry(e)| == |Frame(e)| - 4
    ensures var missing := |Frame(e)| - n;
      Recovered(Frame(e)[..n] + next, pos) ==
        if |next| < missing then []
        else Decoded(WriteEntry(e)[..n - 4] + next[..missing]) + Recovered(next[missing..], pos + |Frame(e)|)
  {
    hide WriteEntry, ReadEntry, LE, FromLE, Pow256, Decoded;
    EntryRoundTrip(e);
    Pow256Values();
    var (head, body, missing) := (LE(|WriteEntry(e)|, 4), WriteEntry(e), |Frame(e)| - n);
    FromLEOfLE(|body|, 4);
    assert Frame(e)[..n] == head + body[..n - 4];
    if |next| >= missing {
      SplitAt(next, missing);
      assert Frame(e)[..n] + next == head + (body[..n - 4] + next[..missing]) + next[missing..];
      FrontRecovered(head, body[..n - 4] + next[..missing], next[missing..], pos);
    } else {
      TooShort(head, body[..n - 4] + next, |body|, pos);
      assert Frame(e)[..n] + next == head + (body[..n - 4] + next);
    }
  }

  lemma SplitAt(s: Bytes, n: nat)
    requires n <= |s|
    ensures s == s[..n] + s[n..]
  {
  }

  lemma TooShort(head: Bytes, tail: Bytes, len: nat, pos: nat)
    requires |head| == 4 && FromLE(head) == len > |tail|
    ensures Recovered(head + tail, pos) == []
  {
    hide FromLE, Decoded;
    assert (head + tail)[..4] == head;
  }

  /**
   * A log torn inside a frame and written to again: the entries before the torn
   * frame are recovered, and the torn frame's length takes the bytes it lacks
   * from what was appended. Recovery goes on behind those bytes, and if there
   * are too few of them nothing that was appended is recovered.
   */
  lemma TornThenAppended(es: seq<WalEntry>, e: WalEntry, n: nat, next: Bytes, pos: nat)
    requires Writable(es) && EntryFits(e) && 4 <= n < |Frame(e)|
    ensures |WriteEntry(e)| == |Frame(e)| - 4
    ensures var missing := |Frame(e)| - n;
      Recovered(Frames(es) + (Frame(e)[..n] + next), pos) ==
        es + if |next| < missing then []
             else Decoded(WriteEntry(e)[..n - 4] + next[..missing]) + Recovered(next[missing..], pos + |Frames(es)| + |Frame(e)|)
  {
    hide WriteEntry, Frame, Frames, Recovered, Decoded;
    WholeBatchRecovered(es, Frame(e)[..n] + next, pos);
    TornFrameThen(e, n, next, pos + |Frames(es)|);
  }

  // ---------------------------------------------------------- main theorems

  /** Torn-tail safety: from any prefix of a clean log, exactly the entries lying wholly in it are recovered. */
  lemma {:induction false} TornTail(bs: seq<seq<WalEntry>>, n: nat, pos: nat)
    requires Batches(bs) && Clean(bs) && n <= |LogFile(bs)| && pos % BLOCK == 0
    ensures Recovered(LogFile(bs)[..n], pos) == Survivors(bs, n)
  {
    hide Recovered, Frames, BatchSurvivors, PhantomAt, PadSize;
    if bs == [] {
      NothingRecovered(pos);
      assert LogFile(bs)[..n] == [];
    } else {
      TornFirstBatch(bs[0], bs[1..], n, pos);
      BatchEnd(Frames(bs[0]), pos);
      var size := |Padded(Frames(bs[0]))|;
      if n >= size {
        TornTail(bs[1..], n - size, pos + size);
      }
    }
  }

  lemma NothingRecovered(pos: nat)
    ensures Recovered([], pos) == []
  {
  }

  lemma TornFirstBatch(es: seq<WalEntry>, bs: seq<seq<WalEntry>>, n: nat, pos: nat)
    requires Writable(es) && Batches(bs) && PhantomAt(es, bs) == 0 && pos % BLOCK == 0
    requires n <= |Padded(Frames(es))| + |LogFile(bs)|
    ensures var (size, s) := (|Padded(Frames(es))|, (Padded(Frames(es)) + LogFile(bs))[..n]);
      Recovered(s, pos) ==
        if n < size then BatchSurvivors(es, n) else es + Recovered(LogFile(bs)[..n - size], pos + size)
  {
    hide Recovered, Frames, BatchSurvivors, PhantomAt, LogFile, PadSize;
    var (size, p) := (|Frames(es)|, PadSize(|Frames(es)|));
    BatchEnd(Frames(es), pos);
    var s := (Padded(Frames(es)) + LogFile(bs))[..n];
    if n < size {
      assert s == Frames(es)[..n];
      CutBatchRecovered(es, n, pos);
    } else if n < size + p {
      assert s == Frames(es) + Zeros(n - size);
      WholeBatchRecovered(es, Zeros(n - size), pos);
      FinalZeros(n - size, pos + size);
      WholeBatchSurvives(es, n);
    } else {
      var m := n - size - p;
      assert s == Frames(es) + (Zeros(p) + LogFile(bs)[..m]);
      WholeBatchRecovered(es, Zeros(p) + LogFile(bs)[..m], pos);
      BoundaryPassed(es, bs, m, pos + size);
    }
  }

  /** Round trip: a clean log is recovered entry for entry. */
  lemma RoundTrip(bs: seq<seq<WalEntry>>)
    requires Batches(bs) && Clean(bs)
    ensures Recovered(LogFile(bs), 0) == Flatten(bs)
  {
    TornTail(bs, |LogFile(bs)|, 0);
    WholeLogSurvives(bs);
    assert LogFile(bs)[..|LogFile(bs)|] == LogFile(bs);
  }

  /** Every prefix of the file yields a prefix of what was written, and a longer one at least as much. */
  lemma TornTailMonotone(bs: seq<seq<WalEntry>>, n: nat, m: nat)
    requires Batches(bs) && Clean(bs) && n <= m <= |LogFile(bs)|
    ensures Recovered(LogFile(bs)[..n], 0) <= Recovered(LogFile(bs)[..m], 0) <= Flatten(bs)
  {
    TornTail(bs, n, 0);
    TornTail(bs, m, 0);
    SurvivorsGrow(bs, n, m);
  }

  /** The first batch is recovered whole; the rest only if the boundary behind it shows no phantom length. */
  lemma FirstBatchRecovered(es: seq<WalEntry>, rest: seq<seq<WalEntry>>, pos: nat)
    requires Writable(es) && Batches(rest) && pos % BLOCK == 0
    ensures var (s, end) := (Padded(Frames(es)) + LogFile(rest), pos + |Padded(Frames(es))|);
      Recovered(s, pos) == es + Flatten(rest) <==> PhantomAt(es, rest) == 0 && Recovered(LogFile(rest), end) == Flatten(rest)
  {
    hide Recovered, Frames, PhantomAt, PadSize, LogFile, Flatten;
    var p := PadSize(|Frames(es)|);
    var s := Zeros(p) + LogFile(rest);
    BatchEnd(Frames(es), pos);
    assert Padded(Frames(es)) + LogFile(rest) == Frames(es) + s;
    WholeBatchRecovered(es, s, pos);
    SameFront(es, Recovered(s, pos + |Frames(es)|), Flatten(rest));
    if PhantomAt(es, rest) == 0 {
      BoundaryPassed(es, rest, |LogFile(rest)|, pos + |Frames(es)|);
      assert LogFile(rest)[..|LogFile(rest)|] == LogFile(rest);
    } else {
      PhantomIsAtShortPadding(es, rest);
      PhantomRead(es, rest);
      LogStarts(rest);
      PhantomLoses(p, rest, pos + |Frames(es)|);
    }
  }

  lemma SameFront(a: seq<WalEntry>, x: seq<WalEntry>, y: seq<WalEntry>)
    ensures a + x == a + y <==> x == y
  {
    assert (a + x)[|a|..] == x && (a + y)[|a|..] == y;
  }

  lemma PhantomIsAtShortPadding(batch: seq<WalEntry>, bs: seq<seq<WalEntry>>)
    requires PhantomAt(batch, bs) > 0
    ensures bs != [] && 1 <= PadSize(|Frames(batch)|) <= 3
  {
  }

  lemma {:induction false} RecoveredIffClean(bs: seq<seq<WalEntry>>, pos: nat)
    requires Batches(bs) && pos % BLOCK == 0
    ensures Recovered(LogFile(bs), pos) == Flatten(bs) <==> Clean(bs)
  {
    hide Recovered, Frames, PhantomAt, PadSize, Padded;
    if bs == [] {
      NothingRecovered(pos);
    } else {
      FirstBatchRecovered(bs[0], bs[1..], pos);
      BatchEnd(Frames(bs[0]), pos);
      RecoveredIffClean(bs[1..], pos + |Padded(Frames(bs[0]))|);
    }
  }

  /** The round trip holds exactly for clean logs: a phantom length always loses, garbles or reorders an entry. */
  lemma RoundTripIffClean(bs: seq<seq<WalEntry>>)
    requires Batches(bs)
    ensures Recovered(LogFile(bs), 0) == Flatten(bs) <==> Clean(bs)
  {
    RecoveredIffClean(bs, 0);
  }

  /** And exactly the clean logs survive being cut off anywhere. */
  lemma TornTailIffClean(bs: seq<seq<WalEntry>>)
    requires Batches(bs)
    ensures (forall n :: 0 <= n <= |LogFile(bs)| ==> Recovered(LogFile(bs)[..n], 0) == Survivors(bs, n)) <==> Clean(bs)
  {
    hide Recovered, Survivors, Clean;
    if Clean(bs) {
      forall n | 0 <= n <= |LogFile(bs)|
        ensures Recovered(LogFile(bs)[..n], 0) == Survivors(bs, n)
      {
        TornTail(bs, n, 0);
      }
    } else {
      WholeLogSurvives(bs);
      RoundTripIffClean(bs);
      assert LogFile(bs)[..|LogFile(bs)|] == LogFile(bs);
    }
  }

  // --------------------------------------------------------- counterexample

  const FIRST := RecordUpdate([], Zeros(4069))
  const SECOND := RecordUpdate([], [])

  /** Two one-entry batches, the first of 4093 bytes: what is recovered is not what was written. */
  lemma ThreePadBytesLoseABatch()
    ensures var bs := [[FIRST], [SECOND]];
      && Batches(bs) && !WholePadding(|Frames(bs[0])|)
      && Recovered(LogFile(bs), 0) != Flatten(bs)
  {
    var bs := [[FIRST], [SECOND]];
    assert |WriteEntry(FIRST)| == 4089 && |WriteEntry(SECOND)| == 20;
    assert Frames([FIRST]) == Frame(FIRST) + Frames([]) && Frames([SECOND]) == Frame(SECOND) + Frames([]) by {
      assert [FIRST][1..] == [] && [SECOND][1..] == [];
    }
    assert |Frames([FIRST])| == 4093 && |Frames([SECOND])| == 24;
    assert bs[1..] == [[SECOND]] && bs[1..][1..] == [];
    assert Pow256(1) == 256 && Pow256(3) == 0x100_0000;
    assert PhantomAt([FIRST], [[SECOND]]) == 20 * 0x100_0000;
    assert !Clean(bs);
    RoundTripIffClean(bs);
  }
}
