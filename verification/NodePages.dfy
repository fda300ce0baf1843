/** Nodes in pages, and trees in files. */
module NodePages {
  import opened Keys
  import opened Limits
  import opened Codec
  import opened Pagers
  import opened Trees
  import opened TreePages
  import opened TreeFit

  /** A node's page image: four bytes for the checksum, the encoding, zeros. */
  function ToBytes(n: Node): (r: Result<Bytes>)
    ensures r.Ok? ==> |r.value| == PAGE_SIZE
  {
    var encoded := WriteNode(n);
    if |encoded| > NODE_LIMIT then Err("Node too large for page size")
    else Ok(Zeros(4) + encoded + Zeros(NODE_LIMIT - |encoded|))
  }

  function FromBytes(page: Bytes): Result<Node>
    requires |page| == PAGE_SIZE
  {
    ReadNode(page[4..])
  }

  predicate IsFull(n: Node) {
    |WriteNode(n)| > PAGE_SIZE * 3 / 4
  }

  /** Every node that fits reads back from its page, also behind a checksum. */
  lemma PageRoundTrip(n: Node, crc: Checksum)
    requires Encodable(n) && |WriteNode(n)| <= NODE_LIMIT
    ensures ToBytes(n).Ok? && FromBytes(ToBytes(n).value) == Ok(n) && FromBytes(Seal(ToBytes(n).value, crc)) == Ok(n)
  {
    var encoded := WriteNode(n);
    var page := ToBytes(n).value;
    assert page[4..] == encoded + Zeros(NODE_LIMIT - |encoded|);
    NodeRoundTrip(n, Zeros(NODE_LIMIT - |encoded|));
  }

  // ---------------------------------------------------------- tree to node

  function KidIds(kids: seq<Tree>): (ids: seq<nat>)
    ensures |ids| == |kids| && forall i :: 0 <= i < |ids| ==> ids[i] == kids[i].id
  {
    seq(|kids|, i requires 0 <= i < |kids| => kids[i].id)
  }

  function NodeOf(t: Tree): Node {
    match t
    case Leaf(_, keys, vals, next) => Node(LeafNode, keys, [], vals, next)
    case Branch(_, keys, kids) => Node(Internal, keys, KidIds(kids), [], None)
  }

  lemma {:induction false} WriteAllLength(xs: seq<Bytes>)
    ensures |WriteAll(xs)| == SumLen(xs)
  {
    if xs != [] {
      WriteAllLength(xs[1..]);
    }
  }

  lemma {:induction false} WriteIdsLength(ids: seq<nat>)
    ensures |WriteIds(ids)| == 4 * |ids|
  {
    if ids != [] {
      WriteIdsLength(ids[1..]);
    }
  }

  /** The size the fullness test thresholds is the length of the encoding. */
  lemma EncodedSize(t: Tree)
    ensures |WriteNode(NodeOf(t))| == Size(t)
  {
    var n := NodeOf(t);
    WriteAllLength(n.keys);
    WriteAllLength(n.values);
    WriteIdsLength(n.children);
    assert |WriteLink(n.nextLeaf)| == if n.nextLeaf.Some? then 5 else 1;
  }

  lemma {:induction false} SumLenBoundsEach(xs: seq<Bytes>)
    ensures 8 * |xs| <= SumLen(xs) && forall i :: 0 <= i < |xs| ==> |xs[i]| <= SumLen(xs)
  {
    if xs != [] {
      SumLenBoundsEach(xs[1..]);
      forall i | 0 <= i < |xs|
        ensures |xs[i]| <= SumLen(xs)
      {
        assert i > 0 ==> xs[i] == xs[1..][i - 1];
      }
    }
  }

  lemma FittingNodeIsEncodable(t: Tree)
    requires Size(t) <= NODE_LIMIT
    requires t.Leaf? && t.next.Some? ==> t.next.value < U32_BOUND
    requires t.Branch? ==> forall i :: 0 <= i < |t.kids| ==> t.kids[i].id < U32_BOUND
    ensures Encodable(NodeOf(t))
  {
    SumLenBoundsEach(t.keys);
    if t.Leaf? {
      SumLenBoundsEach(t.vals);
    }
  }

  // ------------------------------------------------------------ tree in file

  /** Page id of the file reads back as node n. */
  ghost predicate Holds(file: seq<Bytes>, crc: Checksum, id: nat, n: Node) {
    id < |file| && |file[id]| == PAGE_SIZE && Intact(file[id], crc) && FromBytes(file[id]) == Ok(n)
  }

  /** Every node of t is stored in its own page. */
  ghost predicate Stored(file: seq<Bytes>, crc: Checksum, t: Tree)
    decreases t, 1
  {
    Holds(file, crc, t.id, NodeOf(t)) && StoredBelow(file, crc, t)
  }

  ghost predicate StoredBelow(file: seq<Bytes>, crc: Checksum, t: Tree)
    decreases t, 0
  {
    t.Branch? ==> forall i :: 0 <= i < |t.kids| ==> Stored(file, crc, t.kids[i])
  }

  /** The two files agree on a set of pages. */
  ghost predicate SamePages(f: seq<Bytes>, f': seq<Bytes>, ids: set<nat>) {
    |f| <= |f'| && forall x :: x in ids && x < |f| ==> f'[x] == f[x]
  }

  /** A tree stays stored when its pages are left alone. */
  lemma {:induction false} StoredFrame(f: seq<Bytes>, f': seq<Bytes>, crc: Checksum, t: Tree)
    requires Stored(f, crc, t) && SamePages(f, f', Ids(t))
    ensures Stored(f', crc, t)
  {
    if t.Branch? {
      forall i | 0 <= i < |t.kids|
        ensures Stored(f', crc, t.kids[i])
      {
        forall x | x in Ids(t.kids[i])
          ensures x in Ids(t)
        {
          InIds(t, i, x);
        }
        StoredFrame(f, f', crc, t.kids[i]);
      }
    }
  }

  lemma {:induction false} FirstLeafIsId(t: Tree, h: nat)
    requires Shape(t, h)
    ensures FirstLeaf(t) in Ids(t)
  {
    if t.Branch? {
      FirstLeafIsId(t.kids[0], h - 1);
      InIds(t, 0, FirstLeaf(t.kids[0]));
    }
  }

  // ------------------------------------------------------------ page replay

  /** A logged page image as it is replayed: cut or zero-padded to a page. */
  function PageImage(data: Bytes): (b: Bytes)
    ensures |b| == PAGE_SIZE
    ensures forall i :: 0 <= i < PAGE_SIZE ==> b[i] == if i < |data| then data[i] else 0
  {
    if |data| >= PAGE_SIZE then data[..PAGE_SIZE] else data + Zeros(PAGE_SIZE - |data|)
  }

  /** The file after replaying the page images of a log in order. */
  ghost function Replay(file: seq<Bytes>, log: seq<WalEntry>, crc: Checksum): seq<Bytes> {
    if log == [] then file
    else
      ReplayOne(Replay(file, log[..|log| - 1], crc), log[|log| - 1], crc)
  }

  ghost function ReplayOne(file: seq<Bytes>, e: WalEntry, crc: Checksum): seq<Bytes> {
    if e.PageUpdate? then PutPage(file, e.pageId, Seal(PageImage(e.page), crc)) else file
  }

  /** The page holds the image behind a checksum of its own. */
  ghost predicate HoldsImage(page: Bytes, data: Bytes, crc: Checksum) {
    && |page| == PAGE_SIZE && FromLE(page[..4]) == crc(page[4..])
    && forall i :: 4 <= i < PAGE_SIZE ==> page[i] == if i < |data| then data[i] else 0
  }

  lemma SealHoldsImage(data: Bytes, crc: Checksum)
    ensures HoldsImage(Seal(PageImage(data), crc), data, crc)
  {
    hide FromLE, Seal, PageImage;
    var (image, page) := (PageImage(data), Seal(PageImage(data), crc));
    SealHasChecksum(image, crc);
    forall i | 4 <= i < PAGE_SIZE
      ensures page[i] == image[i]
    {
      assert page[4..][i - 4] == image[4..][i - 4];
    }
  }

  /** After replay every logged page holds its last logged image, and every other page is as before. */
  lemma {:induction false} LastPageKept(file: seq<Bytes>, log: seq<WalEntry>, crc: Checksum, i: nat)
    requires i < |log| && log[i].PageUpdate?
    requires forall j :: i < j < |log| ==> !(log[j].PageUpdate? && log[j].pageId == log[i].pageId)
    ensures var f := Replay(file, log, crc); log[i].pageId < |f| && HoldsImage(f[log[i].pageId], log[i].page, crc)
  {
    hide HoldsImage, Seal, PageImage;
    var n := |log| - 1;
    if i < n {
      LastPageKept(file, log[..n], crc, i);
    } else {
      SealHoldsImage(log[i].page, crc);
    }
  }

  lemma {:induction false} UnloggedPageKept(file: seq<Bytes>, log: seq<WalEntry>, crc: Checksum, id: nat)
    requires forall j :: 0 <= j < |log| ==> !(log[j].PageUpdate? && log[j].pageId == id)
    ensures var f := Replay(file, log, crc);
      |file| <= |f| && (id < |file| ==> f[id] == file[id]) && (|file| <= id < |f| ==> f[id] == Zeros(PAGE_SIZE))
  {
    hide Seal, PageImage;
    if log != [] {
      UnloggedPageKept(file, log[..|log| - 1], crc, id);
    }
  }

  lemma {:induction false} ReplayConcat(file: seq<Bytes>, a: seq<WalEntry>, b: seq<WalEntry>, crc: Checksum)
    ensures Replay(file, a + b, crc) == Replay(Replay(file, a, crc), b, crc)
  {
    if b == [] {
      assert a + b == a;
    } else {
      var n := |b| - 1;
      assert (a + b)[..|a + b| - 1] == a + b[..n];
      ReplayConcat(file, a, b[..n], crc);
    }
  }

  /** Everything logged between two moments, replayed on the earlier file, gives the later one. */
  ghost predicate Redoes(f: seq<Bytes>, log: seq<WalEntry>, f': seq<Bytes>, log': seq<WalEntry>, crc: Checksum) {
    log <= log' && Replay(f, log'[|log|..], crc) == f'
  }

  lemma RedoesThen(f: seq<Bytes>, l: seq<WalEntry>, f1: seq<Bytes>, l1: seq<WalEntry>, f2: seq<Bytes>, l2: seq<WalEntry>, crc: Checksum)
    requires Redoes(f, l, f1, l1, crc) && Redoes(f1, l1, f2, l2, crc)
    ensures Redoes(f, l, f2, l2, crc)
  {
    assert l2[|l|..] == l1[|l|..] + l2[|l1|..];
    ReplayConcat(f, l1[|l|..], l2[|l1|..], crc);
  }
}
