/**
 * The log file: length-prefixed frames in batches zero-padded to 4096 bytes,
 * and the recovery loop over it.
 */
module WalLog {
  import opened Keys
  import opened Limits
  import opened Codec
  import opened Pagers

  /** The writer pads, and recovery skips, to whole pages. */
  const BLOCK := PAGE_SIZE

  // ---------------------------------------------------------------- writing

  function Frame(e: WalEntry): Bytes {
    LE(|WriteEntry(e)|, 4) + WriteEntry(e)
  }

  function Frames(es: seq<WalEntry>): Bytes {
    if es == [] then [] else Frame(es[0]) + Frames(es[1..])
  }

  /** The number of zero bytes that complete a batch to whole blocks. */
  function PadSize(size: nat): (p: nat)
    ensures p < BLOCK && (size + p) % BLOCK == 0
  {
    (BLOCK - size % BLOCK) % BLOCK
  }

  function Padded(batch: Bytes): (b: Bytes)
    ensures |b| % BLOCK == 0
  {
    batch + Zeros(PadSize(|batch|))
  }

  /** The log file after the writer has written the batches in order. */
  function LogFile(batches: seq<seq<WalEntry>>): Bytes {
    if batches == [] then [] else Padded(Frames(batches[0])) + LogFile(batches[1..])
  }

  function Flatten(batches: seq<seq<WalEntry>>): seq<WalEntry> {
    if batches == [] then [] else batches[0] + Flatten(batches[1..])
  }

  // --------------------------------------------------------------- recovery

  /**
   * The entries recovered from the bytes s that start at file position pos:
   * a zero length skips to the next block, a frame that does not decode is
   * dropped, a frame that is cut off ends recovery.
   */
  function Recovered(s: Bytes, pos: nat): seq<WalEntry>
    decreases |s|
  {
    if |s| < 4 then []
    else
      var len := FromLE(s[..4]);
      if len == 0 then
        var skip := BLOCK - pos % BLOCK;
        if skip >= |s| then [] else Recovered(s[skip..], pos + skip)
      else if 4 + len <= |s| then
        Decoded(s[4..4 + len]) + Recovered(s[4 + len..], pos + 4 + len)
      else []
  }

  function Decoded(payload: Bytes): seq<WalEntry> {
    match ReadEntry(payload)
    case Some(e) => [e]
    case None => []
  }

  ghost function RecoveredAt(buffer: Bytes, cursor: nat): seq<WalEntry> {
    if cursor <= |buffer| then Recovered(buffer[cursor..], cursor) else []
  }

  lemma CursorAtSkip(buffer: Bytes, cursor: nat)
    requires cursor + 4 <= |buffer| && FromLE(buffer[cursor..cursor + 4]) == 0
    ensures (cursor / BLOCK + 1) * BLOCK > cursor
    ensures RecoveredAt(buffer, cursor) == RecoveredAt(buffer, (cursor / BLOCK + 1) * BLOCK)
  {
    hide FromLE, ReadEntry, Decoded;
    var s := buffer[cursor..];
    var skip := BLOCK - cursor % BLOCK;
    assert s[..4] == buffer[cursor..cursor + 4];
    assert (cursor / BLOCK + 1) * BLOCK == cursor + skip;
    if skip < |s| {
      assert s[skip..] == buffer[cursor + skip..];
    } else if skip == |s| {
      assert buffer[cursor + skip..] == [];
    }
  }

  lemma CursorAtFrame(buffer: Bytes, cursor: nat, len: nat)
    requires cursor + 4 <= |buffer| && len == FromLE(buffer[cursor..cursor + 4]) && len > 0
    ensures RecoveredAt(buffer, cursor) ==
      if cursor + 4 + len <= |buffer| then
        Decoded(buffer[cursor + 4..cursor + 4 + len]) + RecoveredAt(buffer, cursor + 4 + len)
      else []
  {
    hide FromLE, ReadEntry, Decoded;
    var s := buffer[cursor..];
    assert s[..4] == buffer[cursor..cursor + 4];
    if cursor + 4 + len <= |buffer| {
      assert s[4..4 + len] == buffer[cursor + 4..cursor + 4 + len] && s[4 + len..] == buffer[cursor + 4 + len..];
    }
  }

  lemma CursorAtEnds(buffer: Bytes, cursor: nat)
    ensures RecoveredAt(buffer, 0) == Recovered(buffer, 0)
    ensures cursor + 4 > |buffer| ==> RecoveredAt(buffer, cursor) == []
  {
    assert buffer[0..] == buffer;
  }

  /** The recovery cursor loop over a whole file. */
  method Recover(buffer: Bytes) returns (recovered: seq<WalEntry>)
    ensures recovered == Recovered(buffer, 0)
  {
    hide Recovered, RecoveredAt, FromLE, ReadEntry, Decoded;
    recovered := [];
    var cursor := 0;
    CursorAtEnds(buffer, 0);
    while cursor + 4 <= |buffer|
      invariant recovered + RecoveredAt(buffer, cursor) == Recovered(buffer, 0)
      decreases |buffer| - cursor
    {
      var len := FromLE(buffer[cursor..cursor + 4]);
      if len == 0 {
        CursorAtSkip(buffer, cursor);
        cursor := (cursor / BLOCK + 1) * BLOCK;
        continue;
      }
      CursorAtFrame(buffer, cursor, len);
      cursor := cursor + 4;
      if cursor + len <= |buffer| {
        var decoded := DecodeFrame(buffer[cursor..cursor + len]);
        recovered := recovered + decoded;
        cursor := cursor + len;
      } else {
        return;
      }
    }
    CursorAtEnds(buffer, cursor);
  }

  /** At most one entry: a payload that does not deserialise is dropped. */
  method DecodeFrame(payload: Bytes) returns (entries: seq<WalEntry>)
    ensures entries == Decoded(payload)
  {
    var entry := ReadEntry(payload);
    entries := [];
    if entry.Some? {
      entries := [entry.value];
    }
  }

  // ----------------------------------------------------------- single frames

  /** An entry recovery can read back: it fits its frame. */
  ghost predicate Writable(es: seq<WalEntry>) {
    forall i :: 0 <= i < |es| ==> EntryFits(es[i])
  }

  lemma FrontRecovered(head: Bytes, payload: Bytes, rest: Bytes, pos: nat)
    requires |head| == 4 && FromLE(head) == |payload| > 0
    ensures Recovered(head + payload + rest, pos) == Decoded(payload) + Recovered(rest, pos + 4 + |payload|)
  {
    hide FromLE, Decoded;
    var s := head + payload + rest;
    assert s[..4] == head;
    assert s[4..4 + |payload|] == payload && s[4 + |payload|..] == rest;
  }

  /** A whole frame at the front yields its entry. */
  lemma FrameRecovered(e: WalEntry, rest: Bytes, pos: nat)
    requires EntryFits(e)
    ensures Recovered(Frame(e) + rest, pos) == [e] + Recovered(rest, pos + |Frame(e)|)
  {
    hide WriteEntry, ReadEntry, LE, FromLE, Recovered, Pow256;
    EntryRoundTrip(e);
    Pow256Values();
    FromLEOfLE(|WriteEntry(e)|, 4);
    FrontRecovered(LE(|WriteEntry(e)|, 4), WriteEntry(e), rest, pos);
  }

  /** A frame cut short at the end of the file yields nothing. */
  lemma CutFrameRecovered(e: WalEntry, n: nat, pos: nat)
    requires EntryFits(e) && n < |Frame(e)|
    ensures Recovered(Frame(e)[..n], pos) == []
  {
    EntryRoundTrip(e);
    if n >= 4 {
      Pow256Values();
      FromLEOfLE(|WriteEntry(e)|, 4);
      assert Frame(e)[..n][..4] == LE(|WriteEntry(e)|, 4);
    }
  }

  // ----------------------------------------------------------------- padding

  lemma FourZeros()
    ensures FromLE([0, 0, 0, 0]) == 0
  {
    assert [0, 0, 0, 0][1..] == [0, 0, 0] && [0, 0, 0][1..] == [0, 0] && [0, 0][1..] == [0] && [0][1..] == [];
    assert FromLE([0, 0]) == 0;
  }

  /** Padding of no or at least four bytes is skipped. */
  lemma PaddingSkipped(p: nat, rest: Bytes, pos: nat)
    requires p < BLOCK && (pos + p) % BLOCK == 0 && !(1 <= p <= 3)
    ensures Recovered(Zeros(p) + rest, pos) == Recovered(rest, pos + p)
  {
    hide FromLE, ReadEntry, Decoded;
    var s := Zeros(p) + rest;
    if p == 0 {
      assert s == rest;
    } else {
      FourZeros();
      assert s[..4] == [0, 0, 0, 0];
      assert BLOCK - pos % BLOCK == p;
      assert s[p..] == rest;
    }
  }

  /** Zeros at the very end of the file, up to a block, yield nothing. */
  lemma FinalZeros(p: nat, pos: nat)
    requires p <= BLOCK - pos % BLOCK
    ensures Recovered(Zeros(p), pos) == []
  {
    hide FromLE, ReadEntry, Decoded;
    if p >= 4 {
      FourZeros();
      assert Zeros(p)[..4] == [0, 0, 0, 0];
    }
  }

  // ----------------------------------------------------------- the boundary

  /**
   * What the length read finds at the end of a batch of the given size: with
   * one to three pad bytes it straddles into the next batch and sees only the
   * low bytes of the next length. The loop gets past the boundary exactly when
   * those are zero.
   */
  function PhantomLength(size: nat, next: WalEntry): nat {
    var p := PadSize(size);
    if 1 <= p <= 3 then (|WriteEntry(next)| % Pow256(4 - p)) * Pow256(p) else 0
  }

  lemma {:induction false} LEPrefix(n: nat, w: nat, k: nat)
    requires k <= w
    ensures LE(n, w)[..k] == LE(n % Pow256(k), k)
  {
    if k > 0 {
      LEPrefix(n / 256, w - 1, k - 1);
      LowByte(n, Pow256(k - 1));
      assert LE(n, w)[..k] == [n % 256] + LE(n / 256, w - 1)[..k - 1];
    }
  }

  lemma LowByte(n: nat, m: nat)
    requires m > 0
    ensures 256 * m > 0 && (n % (256 * m)) % 256 == n % 256 && (n % (256 * m)) / 256 == (n / 256) % m
  {
    var (q, r) := (n / 256, n % 256);
    var (a, b) := (q / m, q % m);
    assert n == 256 * (a * m + b) + r;
    assert n == (256 * m) * a + (256 * b + r);
    assert 0 <= 256 * b + r < 256 * m;
    DivModUnique(n, 256 * m, a, 256 * b + r);
  }

  lemma AtLeastOnce(d: nat, x: int)
    requires d > 0 && x >= 1
    ensures d * x >= d
  {
  }

  lemma DivModUnique(n: nat, d: nat, q: nat, r: nat)
    requires d > 0 && n == d * q + r && r < d
    ensures n / d == q && n % d == r
  {
    var x := q - n / d;
    assert d * x == n % d - r;
    if x >= 1 {
      AtLeastOnce(d, x);
    } else if -x >= 1 {
      AtLeastOnce(d, -x);
    }
  }

  lemma {:induction false} FromLEShifted(p: nat, b: Bytes)
    ensures FromLE(Zeros(p) + b) == Pow256(p) * FromLE(b)
  {
    if p == 0 {
      assert Zeros(0) + b == b;
    } else {
      FromLEShifted(p - 1, b);
      assert (Zeros(p) + b)[1..] == Zeros(p - 1) + b;
    }
  }

  /** The length read at a short padding in front of a frame. */
  lemma StraddlingRead(p: nat, e: WalEntry, rest: Bytes)
    requires 1 <= p <= 3 && EntryFits(e)
    ensures FromLE((Zeros(p) + (Frame(e) + rest))[..4]) == (|WriteEntry(e)| % Pow256(4 - p)) * Pow256(p)
  {
    hide WriteEntry, LE, FromLE, Pow256;
    var s := Zeros(p) + (Frame(e) + rest);
    var len := |WriteEntry(e)|;
    var low := len % Pow256(4 - p);
    LEPrefix(len, 4, 4 - p);
    assert s[..4] == Zeros(p) + LE(low, 4 - p);
    FromLEShifted(p, LE(low, 4 - p));
    FromLEOfLE(low, 4 - p);
    assert FromLE(s[..4]) == Pow256(p) * low;
  }
}
