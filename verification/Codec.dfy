/**
 * The byte formats: fixed-width little-endian integers, length-prefixed byte
 * strings, and on top of them B+tree nodes and log entries.
 */
module Codec {
  import opened Keys
  import opened Limits

  // ------------------------------------------------------------ primitives

  /** The w low-order bytes of n, least significant first. */
  function LE(n: nat, w: nat): (b: Bytes)
    ensures |b| == w
  {
    if w == 0 then [] else [n % 256] + LE(n / 256, w - 1)
  }

  function FromLE(b: Bytes): nat {
    if b == [] then 0 else b[0] + 256 * FromLE(b[1..])
  }

  function Pow256(w: nat): (p: nat)
    ensures p > 0
  {
    if w == 0 then 1 else 256 * Pow256(w - 1)
  }


  lemma {:induction false} FromLEOfLE(n: nat, w: nat)
    requires n < Pow256(w)
    ensures FromLE(LE(n, w)) == n
  {
    if w > 0 {
      FromLEOfLE(n / 256, w - 1);
      assert LE(n, w)[1..] == LE(n / 256, w - 1);
    }
  }

  lemma Pow256Values()
    ensures Pow256(4) == U32_BOUND && Pow256(8) == U64_BOUND
  {
    assert Pow256(2) == 0x1_0000;
    assert Pow256(4) == U32_BOUND;
    assert Pow256(6) == 0x1_0000_0000_0000;
  }

  /** What a reader returns: a value and the bytes not consumed. */
  datatype Parsed<+T> = Got(value: T, rest: Bytes) | Bad

  function ReadInt(b: Bytes, w: nat): Parsed<nat> {
    if |b| < w then Bad else Got(FromLE(b[..w]), b[w..])
  }

  function WriteBytes(x: Bytes): Bytes {
    LE(|x|, 8) + x
  }

  function ReadBytes(b: Bytes): Parsed<Bytes> {
    match ReadInt(b, 8)
    case Bad => Bad
    case Got(n, rest) => if |rest| < n then Bad else Got(rest[..n], rest[n..])
  }

  lemma ReadIntOfLE(n: nat, w: nat, rest: Bytes)
    requires n < Pow256(w)
    ensures ReadInt(LE(n, w) + rest, w) == Got(n, rest)
  {
    FromLEOfLE(n, w);
    assert (LE(n, w) + rest)[..w] == LE(n, w) && (LE(n, w) + rest)[w..] == rest;
  }

  lemma ReadU32(n: nat, rest: Bytes)
    requires n < U32_BOUND
    ensures ReadInt(LE(n, 4) + rest, 4) == Got(n, rest)
  {
    Pow256Values();
    ReadIntOfLE(n, 4, rest);
  }

  lemma ReadU64(n: nat, rest: Bytes)
    requires n < U64_BOUND
    ensures ReadInt(LE(n, 8) + rest, 8) == Got(n, rest)
  {
    Pow256Values();
    ReadIntOfLE(n, 8, rest);
  }

  lemma ReadBytesOfWrite(x: Bytes, rest: Bytes)
    requires |x| < U64_BOUND
    ensures ReadBytes(WriteBytes(x) + rest) == Got(x, rest)
  {
    assert WriteBytes(x) + rest == LE(|x|, 8) + (x + rest);
    ReadU64(|x|, x + rest);
    assert (x + rest)[..|x|] == x && (x + rest)[|x|..] == rest;
  }

  // ------------------------------------------------------------------ lists

  function WriteAll(xs: seq<Bytes>): Bytes {
    if xs == [] then [] else WriteBytes(xs[0]) + WriteAll(xs[1..])
  }

  function ReadAll(b: Bytes, n: nat): Parsed<seq<Bytes>>
    decreases n
  {
    if n == 0 then Got([], b)
    else match ReadBytes(b)
      case Bad => Bad
      case Got(x, rest) =>
        match ReadAll(rest, n - 1)
        case Bad => Bad
        case Got(xs, rest') => Got([x] + xs, rest')
  }

  function WriteIds(ids: seq<nat>): Bytes {
    if ids == [] then [] else LE(ids[0], 4) + WriteIds(ids[1..])
  }

  function ReadIds(b: Bytes, n: nat): Parsed<seq<nat>>
    decreases n
  {
    if n == 0 then Got([], b)
    else match ReadInt(b, 4)
      case Bad => Bad
      case Got(x, rest) =>
        match ReadIds(rest, n - 1)
        case Bad => Bad
        case Got(xs, rest') => Got([x] + xs, rest')
  }

  lemma {:induction false} ReadAllOfWrite(xs: seq<Bytes>, rest: Bytes)
    requires forall i :: 0 <= i < |xs| ==> |xs[i]| < U64_BOUND
    ensures ReadAll(WriteAll(xs) + rest, |xs|) == Got(xs, rest)
  {
    if xs != [] {
      var tail := WriteAll(xs[1..]) + rest;
      assert WriteAll(xs) + rest == WriteBytes(xs[0]) + tail;
      ReadBytesOfWrite(xs[0], tail);
      ReadAllOfWrite(xs[1..], rest);
      assert [xs[0]] + xs[1..] == xs;
    } else {
      assert WriteAll(xs) + rest == rest;
    }
  }

  lemma {:induction false} ReadIdsOfWrite(ids: seq<nat>, rest: Bytes)
    requires forall i :: 0 <= i < |ids| ==> ids[i] < U32_BOUND
    ensures ReadIds(WriteIds(ids) + rest, |ids|) == Got(ids, rest)
  {
    if ids != [] {
      var tail := WriteIds(ids[1..]) + rest;
      assert WriteIds(ids) + rest == LE(ids[0], 4) + tail;
      ReadU32(ids[0], tail);
      ReadIdsOfWrite(ids[1..], rest);
      assert [ids[0]] + ids[1..] == ids;
    } else {
      assert WriteIds(ids) + rest == rest;
    }
  }

  // ------------------------------------------------------------------ nodes

  datatype NodeType = Internal | LeafNode

  /** A node as stored in one page. */
  datatype Node = Node(nodeType: NodeType, keys: seq<Key>, children: seq<nat>, values: seq<Val>, nextLeaf: Option<nat>)

  function WriteNode(n: Node): Bytes {
    LE(if n.nodeType.Internal? then 0 else 1, 4) + WriteKeysOn(n)
  }

  function WriteKeysOn(n: Node): Bytes {
    LE(|n.keys|, 8) + (WriteAll(n.keys) + WriteChildrenOn(n))
  }

  function WriteChildrenOn(n: Node): Bytes {
    LE(|n.children|, 8) + (WriteIds(n.children) + WriteValuesOn(n))
  }

  function WriteValuesOn(n: Node): Bytes {
    LE(|n.values|, 8) + (WriteAll(n.values) + WriteLink(n.nextLeaf))
  }

  function WriteLink(next: Option<nat>): Bytes {
    match next
    case None => [0]
    case Some(id) => [1] + LE(id, 4)
  }

  function ReadLink(b: Bytes): Parsed<Option<nat>> {
    if b == [] then Bad
    else if b[0] == 0 then Got(None, b[1..])
    else if b[0] == 1 then
      match ReadInt(b[1..], 4)
      case Bad => Bad
      case Got(id, rest) => Got(Some(id), rest)
    else Bad
  }

  function ReadNodeType(b: Bytes): Parsed<NodeType> {
    match ReadInt(b, 4)
    case Bad => Bad
    case Got(tag, rest) => if tag == 0 then Got(Internal, rest) else if tag == 1 then Got(LeafNode, rest) else Bad
  }

  function ReadByteStrings(b: Bytes): Parsed<seq<Bytes>> {
    match ReadInt(b, 8)
    case Bad => Bad
    case Got(n, rest) => ReadAll(rest, n)
  }

  function ReadIdList(b: Bytes): Parsed<seq<nat>> {
    match ReadInt(b, 8)
    case Bad => Bad
    case Got(n, rest) => ReadIds(rest, n)
  }

  /** Deserialisation reads a node off the front and ignores what follows. */
  function ReadNode(b: Bytes): Result<Node> {
    match ReadNodeType(b)
    case Bad => Err("bad node type")
    case Got(nodeType, b1) =>
      match ReadByteStrings(b1)
      case Bad => Err("bad keys")
      case Got(keys, b2) =>
        match ReadIdList(b2)
        case Bad => Err("bad children")
        case Got(children, b3) =>
          match ReadByteStrings(b3)
          case Bad => Err("bad values")
          case Got(values, b4) =>
            match ReadLink(b4)
            case Bad => Err("bad next leaf")
            case Got(next, _) => Ok(Node(nodeType, keys, children, values, next))
  }

  /** The node's numbers fit the widths they are stored in. */
  ghost predicate Encodable(n: Node) {
    && |n.keys| < U64_BOUND && |n.children| < U64_BOUND && |n.values| < U64_BOUND
    && (forall i :: 0 <= i < |n.keys| ==> |n.keys[i]| < U64_BOUND)
    && (forall i :: 0 <= i < |n.values| ==> |n.values[i]| < U64_BOUND)
    && (forall i :: 0 <= i < |n.children| ==> n.children[i] < U32_BOUND)
    && (n.nextLeaf.Some? ==> n.nextLeaf.value < U32_BOUND)
  }

  lemma ReadLinkOfWrite(next: Option<nat>, rest: Bytes)
    requires next.Some? ==> next.value < U32_BOUND
    ensures ReadLink(WriteLink(next) + rest) == Got(next, rest)
  {
    match next
    case None =>
      assert ([0] + rest)[1..] == rest;
    case Some(id) =>
      var b := WriteLink(next) + rest;
      assert b[1..] == LE(id, 4) + rest;
      ReadU32(id, rest);
  }

  lemma ReadByteStringsOfWrite(xs: seq<Bytes>, rest: Bytes)
    requires |xs| < U64_BOUND && forall i :: 0 <= i < |xs| ==> |xs[i]| < U64_BOUND
    ensures ReadByteStrings(LE(|xs|, 8) + (WriteAll(xs) + rest)) == Got(xs, rest)
  {
    ReadU64(|xs|, WriteAll(xs) + rest);
    ReadAllOfWrite(xs, rest);
  }

  lemma ReadIdListOfWrite(ids: seq<nat>, rest: Bytes)
    requires |ids| < U64_BOUND && forall i :: 0 <= i < |ids| ==> ids[i] < U32_BOUND
    ensures ReadIdList(LE(|ids|, 8) + (WriteIds(ids) + rest)) == Got(ids, rest)
  {
    ReadU64(|ids|, WriteIds(ids) + rest);
    ReadIdsOfWrite(ids, rest);
  }

  lemma Regroup(a: Bytes, b: Bytes, c: Bytes, rest: Bytes)
    ensures (a + (b + c)) + rest == a + (b + (c + rest))
  {
  }

  /** Node round trip, whatever follows the encoding. */
  lemma NodeRoundTrip(n: Node, rest: Bytes)
    requires Encodable(n)
    ensures ReadNode(WriteNode(n) + rest) == Ok(n)
  {
    hide LE, FromLE, WriteAll, WriteIds, WriteLink, ReadInt, ReadLink, ReadByteStrings, ReadIdList;
    var tag := if n.nodeType.Internal? then 0 else 1;
    assert WriteNode(n) + rest == LE(tag, 4) + (WriteKeysOn(n) + rest);
    ReadU32(tag, WriteKeysOn(n) + rest);
    Regroup(LE(|n.keys|, 8), WriteAll(n.keys), WriteChildrenOn(n), rest);
    ReadByteStringsOfWrite(n.keys, WriteChildrenOn(n) + rest);
    Regroup(LE(|n.children|, 8), WriteIds(n.children), WriteValuesOn(n), rest);
    ReadIdListOfWrite(n.children, WriteValuesOn(n) + rest);
    Regroup(LE(|n.values|, 8), WriteAll(n.values), WriteLink(n.nextLeaf), rest);
    ReadByteStringsOfWrite(n.values, WriteLink(n.nextLeaf) + rest);
    ReadLinkOfWrite(n.nextLeaf, rest);
  }

  // ------------------------------------------------------------ log entries

  datatype WalEntry =
    | PageUpdate(pageId: nat, page: Bytes)
    | RecordUpdate(key: Key, data: Val)
    | TransactionStart(startId: nat)
    | TransactionCommit(commitId: nat, version: nat, timestamp: nat)
    | TransactionRollback(rollbackId: nat)

  /** A 64-bit timestamp is stored by its two's complement, here the number below 2^64 it stands for. */
  function WriteEntry(e: WalEntry): Bytes {
    LE(EntryTag(e), 4) + EntryBody(e)
  }

  /** The bytes of an entry behind its tag. */
  function EntryBody(e: WalEntry): Bytes {
    match e
    case PageUpdate(id, page) => LE(id, 4) + WriteBytes(page)
    case RecordUpdate(key, data) => WriteBytes(key) + WriteBytes(data)
    case TransactionStart(tx) => LE(tx, 8)
    case TransactionCommit(tx, version, timestamp) => LE(tx, 8) + (LE(version, 8) + LE(timestamp, 8))
    case TransactionRollback(tx) => LE(tx, 8)
  }

  function EntryTag(e: WalEntry): nat {
    match e
    case PageUpdate(_, _) => 0
    case RecordUpdate(_, _) => 1
    case TransactionStart(_) => 2
    case TransactionCommit(_, _, _) => 3
    case TransactionRollback(_) => 4
  }

  function ReadEntry(b: Bytes): Option<WalEntry> {
    match ReadInt(b, 4)
    case Bad => None
    case Got(tag, rest) =>
      if tag == 0 then ReadPageUpdate(rest)
      else if tag == 1 then ReadRecordUpdate(rest)
      else if tag == 2 then
        match ReadInt(rest, 8)
        case Bad => None
        case Got(tx, _) => Some(TransactionStart(tx))
      else if tag == 3 then ReadCommit(rest)
      else if tag == 4 then
        match ReadInt(rest, 8)
        case Bad => None
        case Got(tx, _) => Some(TransactionRollback(tx))
      else None
  }

  function ReadPageUpdate(b: Bytes): Option<WalEntry> {
    match ReadInt(b, 4)
    case Bad => None
    case Got(id, rest) =>
      match ReadBytes(rest)
      case Bad => None
      case Got(page, _) => Some(PageUpdate(id, page))
  }

  function ReadRecordUpdate(b: Bytes): Option<WalEntry> {
    match ReadBytes(b)
    case Bad => None
    case Got(key, rest) =>
      match ReadBytes(rest)
      case Bad => None
      case Got(data, _) => Some(RecordUpdate(key, data))
  }

  function ReadCommit(b: Bytes): Option<WalEntry> {
    match ReadInt(b, 8)
    case Bad => None
    case Got(tx, b1) =>
      match ReadInt(b1, 8)
      case Bad => None
      case Got(version, b2) =>
        match ReadInt(b2, 8)
        case Bad => None
        case Got(timestamp, _) => Some(TransactionCommit(tx, version, timestamp))
  }

  /** The entry's numbers fit their widths, and its encoding the 32-bit frame length. */
  ghost predicate EntryFits(e: WalEntry) {
    && |WriteEntry(e)| < U32_BOUND
    && match e
       case PageUpdate(id, page) => id < U32_BOUND
       case RecordUpdate(key, data) => true
       case TransactionStart(tx) => tx < U64_BOUND
       case TransactionCommit(tx, version, timestamp) => tx < U64_BOUND && version < U64_BOUND && timestamp < U64_BOUND
       case TransactionRollback(tx) => tx < U64_BOUND
  }

  lemma ReadBytesAtEnd(x: Bytes)
    requires |x| < U64_BOUND
    ensures ReadBytes(WriteBytes(x)) == Got(x, [])
  {
    ReadBytesOfWrite(x, []);
    assert WriteBytes(x) + [] == WriteBytes(x);
  }

  lemma ReadU64AtEnd(n: nat)
    requires n < U64_BOUND
    ensures ReadInt(LE(n, 8), 8) == Got(n, [])
  {
    ReadU64(n, []);
    assert LE(n, 8) + [] == LE(n, 8);
  }

  lemma PageUpdateRoundTrip(id: nat, page: Bytes)
    requires id < U32_BOUND && |page| < U64_BOUND
    ensures ReadPageUpdate(LE(id, 4) + WriteBytes(page)) == Some(PageUpdate(id, page))
  {
    ReadU32(id, WriteBytes(page));
    ReadBytesAtEnd(page);
  }

  lemma RecordUpdateRoundTrip(key: Key, data: Val)
    requires |key| < U64_BOUND && |data| < U64_BOUND
    ensures ReadRecordUpdate(WriteBytes(key) + WriteBytes(data)) == Some(RecordUpdate(key, data))
  {
    ReadBytesOfWrite(key, WriteBytes(data));
    ReadBytesAtEnd(data);
  }

  lemma CommitRoundTrip(tx: nat, version: nat, timestamp: nat)
    requires tx < U64_BOUND && version < U64_BOUND && timestamp < U64_BOUND
    ensures ReadCommit(LE(tx, 8) + (LE(version, 8) + LE(timestamp, 8))) == Some(TransactionCommit(tx, version, timestamp))
  {
    ReadU64(tx, LE(version, 8) + LE(timestamp, 8));
    ReadU64(version, LE(timestamp, 8));
    ReadU64AtEnd(timestamp);
  }

  /** Log entry round trip. */
  lemma EntryRoundTrip(e: WalEntry)
    requires EntryFits(e)
    ensures ReadEntry(WriteEntry(e)) == Some(e) && |WriteEntry(e)| >= 12
  {
    ReadU32(EntryTag(e), EntryBody(e));
    match e
    case PageUpdate(id, page) => PageUpdateRoundTrip(id, page);
    case RecordUpdate(key, data) => RecordUpdateRoundTrip(key, data);
    case TransactionStart(tx) => ReadU64AtEnd(tx);
    case TransactionCommit(tx, version, timestamp) => CommitRoundTrip(tx, version, timestamp);
    case TransactionRollback(tx) => ReadU64AtEnd(tx);
  }

  // ------------------------------------------------- what was read is written

  lemma LowestByte(x: nat, n: nat)
    requires x < 256
    ensures (x + 256 * n) % 256 == x && (x + 256 * n) / 256 == n
  {
  }

  lemma {:induction false} LEOfFromLE(b: Bytes)
    ensures LE(FromLE(b), |b|) == b
  {
    if b != [] {
      LEOfFromLE(b[1..]);
      LowestByte(b[0] as nat, FromLE(b[1..]));
      hide FromLE;
    }
  }

  lemma ReadIntIs(b: Bytes, w: nat)
    requires ReadInt(b, w).Got?
    ensures b == LE(ReadInt(b, w).value, w) + ReadInt(b, w).rest
  {
    LEOfFromLE(b[..w]);
  }

  lemma ReadBytesIs(b: Bytes)
    requires ReadBytes(b).Got?
    ensures b == WriteBytes(ReadBytes(b).value) + ReadBytes(b).rest
  {
    ReadIntIs(b, 8);
  }

  lemma ReadBodyIs(tag: nat, b: Bytes, e: WalEntry)
    requires tag == 0 ==> ReadPageUpdate(b) == Some(e)
    requires tag == 1 ==> ReadRecordUpdate(b) == Some(e)
    requires tag == 3 ==> ReadCommit(b) == Some(e)
    requires tag in {0, 1, 3}
    ensures EntryTag(e) == tag && EntryBody(e) <= b
  {
    hide LE, FromLE;
    if tag == 0 {
      ReadIntIs(b, 4);
      ReadBytesIs(ReadInt(b, 4).rest);
    } else if tag == 1 {
      ReadBytesIs(b);
      ReadBytesIs(ReadBytes(b).rest);
    } else {
      var b1 := ReadInt(b, 8).rest;
      ReadIntIs(b, 8);
      ReadIntIs(b1, 8);
      ReadIntIs(ReadInt(b1, 8).rest, 8);
    }
  }

  /** A payload that decodes starts with the encoding of what it decodes to. */
  lemma DecodedIsPrefix(b: Bytes)
    requires ReadEntry(b).Some?
    ensures WriteEntry(ReadEntry(b).value) <= b
  {
    hide LE, FromLE, ReadPageUpdate, ReadRecordUpdate, ReadCommit;
    ReadIntIs(b, 4);
    var (tag, rest, e) := (ReadInt(b, 4).value, ReadInt(b, 4).rest, ReadEntry(b).value);
    if tag == 2 || tag == 4 {
      ReadIntIs(rest, 8);
    } else {
      ReadBodyIs(tag, rest, e);
    }
    assert WriteEntry(e) == LE(tag, 4) + EntryBody(e) && b == LE(tag, 4) + rest;
  }
}
