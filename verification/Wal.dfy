/** The write-ahead log object: bounded queue, two buffers in turn, channel to the writer, log file. */
module Wals {
  import opened Keys
  import opened Limits
  import opened Codec
  import opened Pagers
  import opened WalLog
  import opened WalShift
  import opened WalRecovery


  /** Bytes after which a batch is sent, unless configured otherwise. */
  const DEFAULT_LIMIT := 32 * 1024 * 1024

  /**
   * How many entries one flush takes: it stops after the entry with which the
   * buffer, holding size bytes so far, reaches the limit.
   */
  function Taken(q: seq<WalEntry>, size: nat, limit: nat): (k: nat)
    ensures k <= |q|
    ensures q != [] ==> k > 0
  {
    if q == [] then 0
    else
      var size' := size + |Frame(q[0])|;
      if size' >= limit then 1 else 1 + Taken(q[1..], size', limit)
  }

  /** The limit is raised for a queue longer than the queue can be. */
  function AdaptiveLimit(qLen: nat, limit: nat): (r: nat)
    ensures qLen <= CAPACITY ==> r == limit
  {
    if qLen > 1_000_000 then limit * 4 else limit
  }

  /** The queue after others took some entries from its front. */
  function Without(q: seq<WalEntry>, taken: nat): (r: seq<WalEntry>)
    ensures |r| <= |q|
  {
    if taken < |q| then q[taken..] else []
  }

  /** The queue as the attempt of the given number finds it. */
  function QueueAt(q: seq<WalEntry>, others: nat -> nat, attempt: nat): seq<WalEntry> {
    if attempt == 0 then q else Without(QueueAt(q, others, attempt - 1), others(attempt - 1))
  }

  class Wal {
    var queue: seq<WalEntry>
    var bufferA: Bytes
    var bufferB: Bytes
    var activeIsA: bool
    var batchLimit: nat
    /** Batches sent to the writer and not yet written, oldest first. */
    var channel: seq<Bytes>
    var recovered: seq<WalEntry>
    var file: Bytes

    /** Between flushes both buffers are empty. */
    ghost predicate Valid()
      reads this
    {
      |queue| <= CAPACITY && bufferA == [] && bufferB == []
    }

    constructor Open(file: Bytes)
      ensures Valid() && this.file == file && queue == [] && channel == [] && batchLimit == DEFAULT_LIMIT == 33554432
      ensures recovered == Recovered(file, 0)
    {
      queue, channel, batchLimit := [], [], DEFAULT_LIMIT;
      bufferA, bufferB, activeIsA := [], [], true;
      this.file := file;
      new;
      recovered := Recover(file);
    }

    /** Recovered entries are handed out once. */
    method ReadAll() returns (entries: seq<WalEntry>)
      modifies this`recovered
      ensures entries == old(recovered) && recovered == []
    {
      entries := recovered;
      recovered := [];
    }

    /**
     * A full queue makes the caller sleep and try again, a thousand times; what
     * other threads take from the queue during each sleep is given by others.
     */
    method Enqueue(entry: WalEntry, others: nat -> nat) returns (ok: bool, ghost tries: nat)
      requires Valid()
      modifies this`queue
      ensures Valid() && tries <= 1001 && (ok <==> |QueueAt(old(queue), others, tries)| < 1_000_000) && (!ok ==> tries == 1001)
      ensures forall i :: 0 <= i < tries ==> |QueueAt(old(queue), others, i)| >= 1_000_000
      ensures queue == QueueAt(old(queue), others, tries) + if ok then [entry] else []
    {
      var retries := 0;
      while true
        invariant Valid() && retries <= 1001 && queue == QueueAt(old(queue), others, retries)
        invariant forall i :: 0 <= i < retries ==> |QueueAt(old(queue), others, i)| >= CAPACITY
        decreases 1001 - retries
      {
        if |queue| < CAPACITY {
          queue := queue + [entry];
          return true, retries;
        }
        if retries > 1000 {
          return false, retries;
        }
        queue := Without(queue, others(retries));
        retries := retries + 1;
      }
    }

    method PopEntry() returns (entry: Option<WalEntry>)
      modifies this`queue
      ensures old(queue) == [] ==> entry == None && queue == []
      ensures old(queue) != [] ==> entry == Some(old(queue)[0]) && queue == old(queue)[1..]
    {
      if queue == [] {
        return None;
      }
      entry := Some(queue[0]);
      queue := queue[1..];
    }

    /** One flush by a sole consumer. */
    method FlushPipeline()
      requires Valid()
      modifies this`queue, this`bufferA, this`bufferB, this`activeIsA, this`channel
      ensures Valid()
      ensures var k := Taken(old(queue), 0, batchLimit);
        && queue == old(queue)[k..]
        && channel == old(channel) + (if k == 0 then [] else [Frames(old(queue)[..k])])
        && (activeIsA <==> if k == 0 then old(activeIsA) else !old(activeIsA))
      ensures old(queue) != [] && |Frames(old(queue))| < batchLimit ==> queue == [] && channel == old(channel) + [Frames(old(queue))]
    {
      TakesAll(queue, batchLimit);
      var qLen := |queue|;
      if qLen == 0 {
        return;
      }
      var isA := activeIsA;
      var active := if isA then bufferA else bufferB;
      var limit := batchLimit;
      active := FillBuffer(active, AdaptiveLimit(qLen, limit));
      if |active| == 0 {
        return;
      }
      var batch := active;
      if isA {
        bufferA := [];
      } else {
        bufferB := [];
      }
      activeIsA := !isA;
      channel := channel + [batch];
    }

    /** Flushes until the queue is empty, then writes until the channel is. */
    method FlushAll()
      requires Valid()
      modifies this`queue, this`bufferA, this`bufferB, this`activeIsA, this`channel, this`file
      ensures Valid() && queue == [] && channel == []
      ensures file == old(file) + (PaddedAll(old(channel)) + LogFile(Flushes(old(queue), batchLimit)))
    {
      hide Frames, Padded, Taken, LogFile;
      ghost var total := PaddedAll(channel) + LogFile(Flushes(queue, batchLimit));
      while queue != []
        invariant Valid() && file == old(file) && PaddedAll(channel) + LogFile(Flushes(queue, batchLimit)) == total
        decreases |queue|
      {
        FlushKeepsTotal(queue, batchLimit, channel);
        FlushPipeline();
      }
      NothingToFlush(batchLimit);
      assert PaddedAll(channel) + [] == PaddedAll(channel);
      while channel != []
        invariant Valid() && queue == [] && file + PaddedAll(channel) == old(file) + total
        decreases |channel|
      {
        WriteNext();
      }
      assert file + [] == file;
    }

    /** The pop loop: frames are appended until the queue is empty or the limit is reached. */
    method FillBuffer(buffer: Bytes, limit: nat) returns (active: Bytes)
      requires buffer == [] && queue != []
      modifies this`queue
      ensures var k := Taken(old(queue), 0, limit);
        queue == old(queue)[k..] && active == Frames(old(queue)[..k]) && active != []
    {
      hide Frame;
      active := buffer;
      ghost var q, n := queue, 0;
      while queue != []
        invariant 0 <= n <= |q| && queue == q[n..]
        invariant active == Frames(q[..n])
        invariant Taken(q, 0, limit) == n + Taken(q[n..], |active|, limit)
        decreases |queue|
      {
        var entry := queue[0];
        queue := queue[1..];
        FramesSnoc(q, n);
        active := active + Frame(entry);
        n := n + 1;
        if |active| >= limit {
          break;
        }
      }
      TakenFramesNonEmpty(q, limit);
    }

    /** The writer appends the oldest batch, padded to whole blocks. */
    method WriteNext()
      requires channel != []
      modifies this`channel, this`file
      ensures channel == old(channel)[1..] && file == old(file) + Padded(old(channel)[0])
    {
      var batch := channel[0];
      channel := channel[1..];
      var size := |batch|;
      var paddedSize := (size + 4095) / 4096 * 4096;
      PaddedSizeIs(size);
      file := file + batch + Zeros(paddedSize - size);
      assert file == old(file) + (batch + Zeros(paddedSize - size));
    }
  }

  /** Several batches as the writer appends them. */
  function PaddedAll(batches: seq<Bytes>): Bytes {
    if batches == [] then [] else Padded(batches[0]) + PaddedAll(batches[1..])
  }

  lemma {:induction false} PaddedAllSnoc(bs: seq<Bytes>, b: Bytes)
    ensures PaddedAll(bs + [b]) == PaddedAll(bs) + Padded(b)
  {
    hide Padded;
    if bs == [] {
      assert [b][1..] == [];
      assert PaddedAll([b]) == Padded(b) + [];
    } else {
      assert (bs + [b])[1..] == bs[1..] + [b];
      PaddedAllSnoc(bs[1..], b);
    }
  }

  /** One flush moves its batch from the queue to the channel: what they amount to in the file stays the same. */
  lemma FlushKeepsTotal(q: seq<WalEntry>, limit: nat, channel: seq<Bytes>)
    requires q != []
    ensures var k := Taken(q, 0, limit);
      PaddedAll(channel + [Frames(q[..k])]) + LogFile(Flushes(q[k..], limit)) == PaddedAll(channel) + LogFile(Flushes(q, limit))
  {
    hide Padded, Frames, Taken;
    var k := Taken(q, 0, limit);
    PaddedAllSnoc(channel, Frames(q[..k]));
    var bs := Flushes(q, limit);
    assert bs[0] == q[..k] && bs[1..] == Flushes(q[k..], limit);
    assert LogFile(bs) == Padded(Frames(q[..k])) + LogFile(Flushes(q[k..], limit));
  }

  lemma PaddedSizeIs(size: nat)
    ensures (size + 4095) / 4096 * 4096 - size == PadSize(size)
  {
  }

  lemma FramesSnoc(q: seq<WalEntry>, n: nat)
    requires n < |q|
    ensures Frames(q[..n + 1]) == Frames(q[..n]) + Frame(q[n]) && q[n..][0] == q[n] && q[n..][1..] == q[n + 1..]
  {
    FramesConcat(q[..n], [q[n]]);
    assert q[..n + 1] == q[..n] + [q[n]];
    assert [q[n]][1..] == [];
    assert Frames([q[n]]) == Frame(q[n]) + [];
  }

  lemma {:induction false} FramesConcat(a: seq<WalEntry>, b: seq<WalEntry>)
    ensures Frames(a + b) == Frames(a) + Frames(b)
  {
    hide Frame;
    if a == [] {
      assert a + b == b;
    } else {
      assert (a + b)[1..] == a[1..] + b;
      FramesConcat(a[1..], b);
    }
  }

  lemma TakenFramesNonEmpty(q: seq<WalEntry>, limit: nat)
    requires q != []
    ensures Frames(q[..Taken(q, 0, limit)]) != []
  {
    var k := Taken(q, 0, limit);
    assert q[..k][0] == q[0];
  }

  // --------------------------------------------------------------- batching

  /** A batch stays below the limit plus its last frame, and short of the limit only when the queue ran out. */
  lemma {:induction false} TakenReachesLimit(q: seq<WalEntry>, size: nat, limit: nat)
    requires q != []
    ensures var k := Taken(q, size, limit);
      && (k > 1 ==> size + |Frames(q[..k - 1])| < limit)
      && (k < |q| ==> size + |Frames(q[..k])| >= limit)
  {
    hide Frame;
    var size' := size + |Frame(q[0])|;
    var k := Taken(q, size, limit);
    assert Frames(q[..1]) == Frame(q[0]) by {
      assert q[..1][1..] == [];
    }
    if size' < limit {
      if q[1..] == [] {
        assert k == 1;
      } else {
        TakenReachesLimit(q[1..], size', limit);
        assert q[..k][1..] == q[1..][..k - 1] && q[..k - 1][1..] == q[1..][..k - 2];
      }
    }
  }

  /** A queue whose frames stay below the limit is taken whole. */
  lemma TakesAll(q: seq<WalEntry>, limit: nat)
    ensures |Frames(q)| < limit ==> Taken(q, 0, limit) == |q|
    ensures q[..|q|] == q && q[|q|..] == []
  {
    hide Frames, Taken;
    if q != [] {
      TakenReachesLimit(q, 0, limit);
      var k := Taken(q, 0, limit);
      assert q == q[..k] + q[k..];
      FramesConcat(q[..k], q[k..]);
    } else {
      NothingTaken(limit);
    }
  }

  lemma NothingTaken(limit: nat)
    ensures Taken([], 0, limit) == 0
  {
  }

  lemma BatchBelowLimitPlusFrame(q: seq<WalEntry>, limit: nat)
    requires q != [] && limit > 0
    ensures var k := Taken(q, 0, limit); k > 0 && |Frames(q[..k])| < limit + |Frame(q[k - 1])|
  {
    hide Frame, Frames, Taken;
    TakenReachesLimit(q, 0, limit);
    LastFrameSize(q, Taken(q, 0, limit) - 1);
  }

  lemma LastFrameSize(q: seq<WalEntry>, n: nat)
    requires n < |q|
    ensures |Frames(q[..n + 1])| == |Frames(q[..n])| + |Frame(q[n])| && (n == 0 ==> |Frames(q[..n])| == 0)
  {
    hide Frame;
    FramesSnoc(q, n);
    assert n == 0 ==> q[..n] == [];
  }

  /** The batches that repeated flushes make of a queue. */
  function Flushes(q: seq<WalEntry>, limit: nat): seq<seq<WalEntry>>
    decreases |q|
  {
    if q == [] then []
    else
      var k := Taken(q, 0, limit);
      [q[..k]] + Flushes(q[k..], limit)
  }

  /** Repeated flushes drain the queue in order into non-empty batches. */
  lemma {:induction false} FlushesDrain(q: seq<WalEntry>, limit: nat)
    requires Writable(q)
    ensures Flatten(Flushes(q, limit)) == q && Batches(Flushes(q, limit))
    decreases |q|
  {
    hide EntryFits, Frame;
    if q != [] {
      var k := Taken(q, 0, limit);
      FlushesDrain(q[k..], limit);
      assert q == q[..k] + q[k..];
      var bs := Flushes(q, limit);
      assert bs[0] == q[..k] && bs[1..] == Flushes(q[k..], limit);
    }
  }

  lemma NothingToFlush(limit: nat)
    ensures LogFile(Flushes([], limit)) == []
  {
  }

  /** What is flushed and written is what recovery finds, exactly when the log is clean. */
  lemma FlushWriteRecover(q: seq<WalEntry>, limit: nat)
    requires Writable(q)
    ensures Recovered(LogFile(Flushes(q, limit)), 0) == q <==> Clean(Flushes(q, limit))
  {
    FlushesDrain(q, limit);
    RoundTripIffClean(Flushes(q, limit));
  }

  /** One flush of a new log sends every queue of less than 32 MiB of frames in one batch. */
  method OneFlush(entries: seq<WalEntry>) returns (left: seq<WalEntry>, sent: seq<Bytes>)
    requires 0 < |entries| <= CAPACITY && |Frames(entries)| < 33554432
    ensures left == [] && sent == [Frames(entries)]
  {
    hide Frames, EntryFits, Recovered, Taken;
    var wal := Queued(entries);
    wal.FlushPipeline();
    left, sent := wal.queue, wal.channel;
  }

  /** A new log with the entries in its queue. */
  method Queued(entries: seq<WalEntry>) returns (wal: Wal)
    requires |entries| <= CAPACITY
    ensures fresh(wal) && wal.Valid() && wal.queue == entries && wal.channel == [] && wal.file == [] && wal.batchLimit == 33554432
  {
    hide Frames, Recovered;
    wal := new Wal.Open([]);
    for i := 0 to |entries|
      invariant wal.Valid() && wal.queue == entries[..i] && wal.channel == [] && wal.file == []
      invariant wal.batchLimit == 33554432 && fresh(wal)
    {
      ghost var tries;
      var ok;
      assert QueueAt(wal.queue, _ => 0, 0) == wal.queue;
      ok, tries := wal.Enqueue(entries[i], _ => 0);
    }
    assert entries[..|entries|] == entries;
  }

  /** End to end: entries queued in a new log, flushed and written, are what the next start reads, exactly when the log is clean. */
  method Reopened(entries: seq<WalEntry>) returns (recovered: seq<WalEntry>)
    requires Writable(entries) && |entries| <= CAPACITY
    ensures recovered == entries <==> Clean(Flushes(entries, DEFAULT_LIMIT))
  {
    hide Clean, Recovered, LogFile, Flushes, Frames, EntryFits;
    var wal := Queued(entries);
    wal.FlushAll();
    ghost var log := LogFile(Flushes(entries, DEFAULT_LIMIT));
    assert wal.file == log;
    var reopened := new Wal.Open(wal.file);
    recovered := reopened.ReadAll();
    FlushWriteRecover(entries, DEFAULT_LIMIT);
  }
}
