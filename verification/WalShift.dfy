/**
 * A recovery cursor that runs ahead of the frames never gets everything back:
 * whatever the entries hold, it cannot return all of them in order.
 */
module WalShift {
  import opened Keys
  import opened Codec
  import opened Pagers
  import opened WalLog

  /** What is left of a log: entries of the current batch, its padding, later batches. */
  function Left(es: seq<WalEntry>, p: nat, bs: seq<seq<WalEntry>>): Bytes {
    Frames(es) + (Zeros(p) + LogFile(bs))
  }

  /** Batches as the flusher makes them: none empty, every entry fits its frame. */
  ghost predicate Batches(bs: seq<seq<WalEntry>>) {
    forall i :: 0 <= i < |bs| ==> bs[i] != [] && Writable(bs[i])
  }

  predicate AllZero(b: Bytes) {
    forall i :: 0 <= i < |b| ==> b[i] == 0
  }

  lemma {:induction false} ZeroNumber(b: Bytes)
    requires AllZero(b)
    ensures FromLE(b) == 0
  {
    if b != [] {
      ZeroNumber(b[1..]);
    }
  }

  lemma {:induction false} ZeroNumberOnly(n: nat, w: nat)
    requires AllZero(LE(n, w)) && n < Pow256(w)
    ensures n == 0
  {
    FromLEOfLE(n, w);
    ZeroNumber(LE(n, w));
  }

  /** Only the update of page 0 by an empty image is written as zeros alone. */
  lemma ZeroEntry(e: WalEntry)
    requires EntryFits(e) && AllZero(WriteEntry(e))
    ensures e == PageUpdate(0, []) && |WriteEntry(e)| == 16
  {
    hide LE, Pow256;
    Pow256Values();
    var w := WriteEntry(e);
    assert LE(EntryTag(e), 4) == w[..4] && EntryBody(e) == w[4..];
    ZeroNumberOnly(EntryTag(e), 4);
    assert LE(e.pageId, 4) == w[4..8] && LE(|e.page|, 8) == w[8..16];
    ZeroNumberOnly(e.pageId, 4);
    ZeroNumberOnly(|e.page|, 8);
  }

  /** A string found again inside itself followed by zeros is zero. */
  lemma {:induction false} ZeroBackwards(w: Bytes, z: nat, d: nat, i: nat)
    requires 0 < d <= z && (w + Zeros(z))[d..d + |w|] == w && i < |w|
    ensures w[i] == 0
    decreases |w| - i
  {
    assert w[i] == (w + Zeros(z))[d..d + |w|][i] == (w + Zeros(z))[d + i];
    if d + i < |w| {
      ZeroBackwards(w, z, d, d + i);
    }
  }

  /** Between the start of a frame and the end of the zeros behind it there is no second frame with the same entry. */
  lemma FrameNotInItself(e: WalEntry, z: nat, d: nat, len: nat)
    requires EntryFits(e) && d > 0 && d + 4 + len <= |Frame(e)| + z
    requires len > 0 && len == FromLE((Frame(e) + Zeros(z))[d..d + 4])
    ensures ReadEntry((Frame(e) + Zeros(z))[d + 4..d + 4 + len]) != Some(e)
  {
    hide WriteEntry, ReadEntry, FromLE, LE;
    var (u, w) := (Frame(e) + Zeros(z), WriteEntry(e));
    var payload := u[d + 4..d + 4 + len];
    if ReadEntry(payload) == Some(e) {
      DecodedIsPrefix(payload);
      assert (w + Zeros(z))[d..d + |w|] == payload[..|w|];
      forall i | 0 <= i < |w|
        ensures w[i] == 0
      {
        ZeroBackwards(w, z, d, i);
      }
      ZeroEntry(e);
      SmallNumber(16);
      assert u == [16, 0, 0, 0] + w + Zeros(z);
      ZeroNumber(u[d..d + 4]);
    }
  }

  /** Where the frame of the first entry ends, with the padding if it is the last of its batch. */
  function FirstEnd(es: seq<WalEntry>, p: nat): nat
    requires es != []
  {
    |Frame(es[0])| + if |es| == 1 then p else 0
  }

  lemma LeftFirst(es: seq<WalEntry>, p: nat, bs: seq<seq<WalEntry>>)
    requires es != []
    ensures Frame(es[0]) + (if |es| == 1 then Zeros(p) else []) <= Left(es, p, bs)
    ensures Left(es, p, bs)[FirstEnd(es, p)..] == if |es| == 1 then LogFile(bs) else Left(es[1..], p, bs)
  {
    hide Frame, LogFile;
    var t := Left(es, p, bs);
    if |es| == 1 {
      assert Frames(es) == Frame(es[0]) + [] by {
        assert es[1..] == [];
      }
      assert t == Frame(es[0]) + Zeros(p) + LogFile(bs);
    } else {
      assert t == Frame(es[0]) + Left(es[1..], p, bs);
    }
  }

  lemma LeftOfLog(bs: seq<seq<WalEntry>>)
    requires bs != []
    ensures LogFile(bs) == Left(bs[0], PadSize(|Frames(bs[0])|), bs[1..])
  {
    hide Frames;
  }

  lemma FirstAndRest(e: WalEntry, xs: seq<WalEntry>, es: seq<WalEntry>, ys: seq<WalEntry>)
    requires es != []
    ensures [e] + xs == es + ys <==> e == es[0] && xs == es[1..] + ys
  {
    assert es == [es[0]] + es[1..];
    assert ([e] + xs)[0] == e && ([e] + xs)[1..] == xs;
    assert (es + ys)[0] == es[0] && (es + ys)[1..] == es[1..] + ys;
  }

  /** A cursor past the start of the entries does not return them. */
  lemma {:induction false} AheadLoses(es: seq<WalEntry>, p: nat, bs: seq<seq<WalEntry>>, d: nat, pos: nat)
    requires es != [] && Writable(es) && Batches(bs) && 0 < d <= |Left(es, p, bs)|
    ensures Recovered(Left(es, p, bs)[d..], pos) != es + Flatten(bs)
    decreases |Left(es, p, bs)| - d, 0
  {
    hide Frame, Frames, LogFile, ReadEntry, FromLE, EntryFits, Left;
    var s := Left(es, p, bs)[d..];
    if |s| >= 4 {
      var len := FromLE(s[..4]);
      var skip := BLOCK - pos % BLOCK;
      if len == 0 && skip < |s| {
        assert s[skip..] == Left(es, p, bs)[d + skip..];
        AheadLoses(es, p, bs, d + skip, pos + skip);
      } else if 0 < len <= |s| - 4 {
        FrameAheadLoses(es, p, bs, d, pos, len);
      }
    }
  }

  lemma FrameIsRead(s: Bytes, pos: nat, len: nat)
    requires |s| >= 4 && len == FromLE(s[..4]) && 0 < len <= |s| - 4
    ensures Recovered(s, pos) == Decoded(s[4..4 + len]) + Recovered(s[4 + len..], pos + 4 + len)
  {
    hide FromLE, Decoded;
  }

  lemma {:induction false} FrameAheadLoses(es: seq<WalEntry>, p: nat, bs: seq<seq<WalEntry>>, d: nat, pos: nat, len: nat)
    requires es != [] && Writable(es) && Batches(bs) && 0 < d && d + 4 + len <= |Left(es, p, bs)|
    requires len > 0 && len == FromLE(Left(es, p, bs)[d..][..4])
    ensures Recovered(Left(es, p, bs)[d..], pos) != es + Flatten(bs)
    decreases |Left(es, p, bs)| - d - 4, 2
  {
    hide Frame, Frames, LogFile, ReadEntry, FromLE, EntryFits, Left, Recovered, Flatten;
    var t := Left(es, p, bs);
    var s := t[d..];
    FrameIsRead(s, pos, len);
    assert s[4 + len..] == t[d + 4 + len..];
    match ReadEntry(s[4..4 + len])
    case None => AheadLoses(es, p, bs, d + 4 + len, pos + 4 + len);
    case Some(e) =>
      FirstAndRest(e, Recovered(s[4 + len..], pos + 4 + len), es, Flatten(bs));
      if e == es[0] {
        NotFound(es, p, bs, d, len);
        BehindFirstLoses(es, p, bs, d + 4 + len, pos + 4 + len);
      }
  }

  /** A frame ahead of the first entry with the same value ends behind it. */
  lemma NotFound(es: seq<WalEntry>, p: nat, bs: seq<seq<WalEntry>>, d: nat, len: nat)
    requires es != [] && Writable(es) && 0 < d && d + 4 + len <= |Left(es, p, bs)|
    requires len > 0 && len == FromLE(Left(es, p, bs)[d..][..4])
    requires ReadEntry(Left(es, p, bs)[d..][4..4 + len]) == Some(es[0])
    ensures d + 4 + len > FirstEnd(es, p)
  {
    hide Frame, Frames, LogFile, ReadEntry, FromLE, EntryFits, Left;
    var (t, z) := (Left(es, p, bs), if |es| == 1 then p else 0);
    var u := Frame(es[0]) + Zeros(z);
    LeftFirst(es, p, bs);
    if d + 4 + len <= FirstEnd(es, p) {
      assert u <= t;
      assert t[d..][..4] == u[d..d + 4] && t[d..][4..4 + len] == u[d + 4..d + 4 + len];
      FrameNotInItself(es[0], z, d, len);
    }
  }

  /** A cursor past the end of the first entry does not return the others. */
  lemma {:induction false} BehindFirstLoses(es: seq<WalEntry>, p: nat, bs: seq<seq<WalEntry>>, d: nat, pos: nat)
    requires es != [] && Writable(es) && Batches(bs) && FirstEnd(es, p) < d <= |Left(es, p, bs)|
    ensures Recovered(Left(es, p, bs)[d..], pos) != es[1..] + Flatten(bs)
    decreases |Left(es, p, bs)| - d, 1
  {
    hide Frame, Frames, ReadEntry, FromLE, EntryFits, Left, FirstEnd, Recovered;
    var (t, end) := (Left(es, p, bs), FirstEnd(es, p));
    LeftFirst(es, p, bs);
    assert t[end..][d - end..] == t[d..];
    if |es| > 1 {
      AheadLoses(es[1..], p, bs, d - end, pos);
    } else {
      assert bs != [] by {
        assert |LogFile(bs)| >= d - end;
      }
      LeftOfLog(bs);
      AheadLoses(bs[0], PadSize(|Frames(bs[0])|), bs[1..], d - end, pos);
      assert es[1..] + Flatten(bs) == bs[0] + Flatten(bs[1..]);
    }
  }

  // ---------------------------------------------------- behind short padding

  /** A phantom payload holds the entry it straddles only if that is written as zeros. */
  lemma PhantomPayload(p: nat, e: WalEntry, rest: Bytes, len: nat)
    requires 1 <= p <= 3 && EntryFits(e) && 4 + len <= p + |Frame(e) + rest|
    requires ReadEntry((Zeros(p) + (Frame(e) + rest))[4..4 + len]) == Some(e)
    ensures AllZero(WriteEntry(e))
  {
    hide WriteEntry, ReadEntry, LE;
    var (s, w) := (Zeros(p) + (Frame(e) + rest), WriteEntry(e));
    DecodedIsPrefix(s[4..4 + len]);
    assert w == s[4..4 + |w|];
    TagIsSmall(e);
    forall i | p <= i < |w|
      ensures w[i] == w[i - p]
    {
      assert w[i] == s[4..4 + |w|][i] == (Frame(e) + rest)[4 + i - p];
    }
    FirstThreeZero(w, p);
    forall i | 0 <= i < |w|
      ensures w[i] == 0
    {
      ZeroForwards(w, p, i);
    }
  }

  lemma TagIsSmall(e: WalEntry)
    requires EntryFits(e)
    ensures |WriteEntry(e)| >= 12 && WriteEntry(e)[1] == WriteEntry(e)[2] == WriteEntry(e)[3] == 0
  {
    hide EntryFits, LE, EntryBody;
    EntryRoundTrip(e);
    SmallNumber(EntryTag(e));
    assert LE(EntryTag(e), 4) <= WriteEntry(e);
  }

  lemma SmallNumber(t: nat)
    requires t < 256
    ensures LE(t, 4) == [t, 0, 0, 0]
  {
    assert LE(t, 4) == [t] + LE(0, 3) && LE(0, 3) == [0] + LE(0, 2) && LE(0, 2) == [0] + LE(0, 1) && LE(0, 1) == [0] + LE(0, 0);
  }

  lemma FirstThreeZero(w: Bytes, p: nat)
    requires 1 <= p <= 3 && |w| >= 12 && w[1] == w[2] == w[3] == 0
    requires forall i :: p <= i < |w| ==> w[i] == w[i - p]
    ensures w[0] == 0
  {
    assert w[p] == w[0];
  }

  lemma {:induction false} ZeroForwards(w: Bytes, p: nat, i: nat)
    requires 1 <= p <= 3 && |w| >= 12 && w[0] == w[1] == w[2] == 0 && i < |w|
    requires forall i :: p <= i < |w| ==> w[i] == w[i - p]
    ensures w[i] == 0
  {
    if i >= 3 {
      ZeroForwards(w, p, i - p);
    }
  }

  /** If it does, the phantom length takes the cursor past the entry and the block it is in. */
  lemma PhantomReach(p: nat, e: WalEntry, rest: Bytes)
    requires 1 <= p <= 3 && EntryFits(e) && AllZero(WriteEntry(e))
    ensures |Frame(e)| == 20 && FromLE((Zeros(p) + (Frame(e) + rest))[..4]) >= 4096
  {
    hide WriteEntry, FromLE;
    ZeroEntry(e);
    StraddlingRead(p, e, rest);
    assert Pow256(1) == 256 && Pow256(2) == 65536 && Pow256(3) == 0x100_0000;
  }

  lemma LogStarts(bs: seq<seq<WalEntry>>)
    requires bs != [] && bs[0] != []
    ensures Frame(bs[0][0]) <= LogFile(bs)
  {
    LeftOfLog(bs);
    LeftFirst(bs[0], PadSize(|Frames(bs[0])|), bs[1..]);
  }

  /** Behind a phantom length the rest of the log is never recovered. */
  lemma PhantomLoses(p: nat, bs: seq<seq<WalEntry>>, pos: nat)
    requires 1 <= p <= 3 && bs != [] && Batches(bs)
    requires |LogFile(bs)| >= 4 && FromLE((Zeros(p) + LogFile(bs))[..4]) > 0
    ensures Recovered(Zeros(p) + LogFile(bs), pos) != Flatten(bs)
  {
    hide Frame, Frames, LogFile, ReadEntry, FromLE, EntryFits, Left;
    var (s, es, q) := (Zeros(p) + LogFile(bs), bs[0], PadSize(|Frames(bs[0])|));
    var len := FromLE(s[..4]);
    LeftOfLog(bs);
    assert Flatten(bs) == es + Flatten(bs[1..]);
    if 4 + len <= |s| {
      hide Recovered, Flatten;
      FrameIsRead(s, pos, len);
      assert s[4 + len..] == Left(es, q, bs[1..])[4 + len - p..];
      match ReadEntry(s[4..4 + len])
      case None => AheadLoses(es, q, bs[1..], 4 + len - p, pos + 4 + len);
      case Some(e) =>
        FirstAndRest(e, Recovered(s[4 + len..], pos + 4 + len), es, Flatten(bs[1..]));
        if e == es[0] {
          PhantomPassesFirst(p, bs, len);
          BehindFirstLoses(es, q, bs[1..], 4 + len - p, pos + 4 + len);
        }
    }
  }

  /** A batch of one 20-byte frame ends with its block; the first of several frames ends long before. */
  lemma SmallFirstEnd(es: seq<WalEntry>)
    requires es != [] && |Frame(es[0])| == 20
    ensures FirstEnd(es, PadSize(|Frames(es)|)) <= BLOCK
  {
    hide Frame;
    if |es| == 1 {
      assert es[1..] == [];
      assert |Frames(es)| == 20;
    }
  }

  lemma PhantomPassesFirst(p: nat, bs: seq<seq<WalEntry>>, len: nat)
    requires 1 <= p <= 3 && bs != [] && Batches(bs) && 4 + len <= p + |LogFile(bs)|
    requires len == FromLE((Zeros(p) + LogFile(bs))[..4])
    requires ReadEntry((Zeros(p) + LogFile(bs))[4..4 + len]) == Some(bs[0][0])
    ensures 4 + len - p > FirstEnd(bs[0], PadSize(|Frames(bs[0])|))
  {
    hide Frame, Frames, LogFile, ReadEntry, FromLE, EntryFits, PadSize, FirstEnd;
    var e := bs[0][0];
    LogStarts(bs);
    var rest := LogFile(bs)[|Frame(e)|..];
    assert LogFile(bs) == Frame(e) + rest;
    PhantomPayload(p, e, rest, len);
    PhantomReach(p, e, rest);
    SmallFirstEnd(bs[0]);
  }
}
