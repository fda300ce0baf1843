/** The paged B+tree over a pager and a memory tier, proved against the tree as a value. */
module BPlusTrees {
  import opened Keys
  import opened Limits
  import opened Codec
  import opened Pagers
  import opened MemoryTiers
  import opened Trees
  import opened TreeOrder
  import opened TreeRange
  import opened TreePages
  import opened TreeFit
  import opened TreeRuns
  import opened TreeFailure
  import opened NodePages
  import opened TreeStores
  import opened TreeLeaves
  import opened TreeChain
  import opened ChainStores

  /** A child index past the last child is brought back to it. */
  function Clamp(i: nat, n: nat): (r: nat)
    requires n > 0
    ensures r < n && (i < n ==> r == i)
  {
    if i >= n then n - 1 else i
  }

  // ------------------------------------------------------------------ opening

  const EMPTY_ROOT := Node(LeafNode, [], [], [], None)

  /** The last logged value of each record. */
  ghost function Records(entries: seq<WalEntry>): map<Key, Val> {
    if entries == [] then map[]
    else
      Recorded(Records(entries[..|entries| - 1]), entries[|entries| - 1])
  }

  ghost function Recorded(cache: map<Key, Val>, e: WalEntry): map<Key, Val> {
    if e.RecordUpdate? then cache[e.key := e.data] else cache
  }

  lemma RecordedLater(cache: map<Key, Val>, entries: seq<WalEntry>, i: nat)
    requires i < |entries|
    ensures cache + Records(entries[..i + 1]) == Recorded(cache + Records(entries[..i]), entries[i])
  {
    assert entries[..i + 1][..i] == entries[..i];
  }

  /** The last entry that records the key, or -1. */
  ghost function LastAt(entries: seq<WalEntry>, k: Key): int {
    if entries == [] then -1
    else
      var n := |entries| - 1;
      if entries[n].RecordUpdate? && entries[n].key == k then n else LastAt(entries[..n], k)
  }

  lemma {:induction false} LastAtIs(entries: seq<WalEntry>, k: Key)
    ensures -1 <= LastAt(entries, k) < |entries| && (k in Records(entries) <==> LastAt(entries, k) >= 0)
    ensures var i := LastAt(entries, k);
      && (i >= 0 ==> entries[i].RecordUpdate? && entries[i].key == k && Records(entries)[k] == entries[i].data)
      && forall j :: i < j < |entries| ==> !(entries[j].RecordUpdate? && entries[j].key == k)
  {
    if entries != [] {
      LastAtIs(entries[..|entries| - 1], k);
    }
  }

  /** Whatever replay evicted: a cached key that was logged holds its last logged value, any other what it held before. */
  ghost predicate KeepsLast(before: map<Key, Val>, entries: seq<WalEntry>, cache: map<Key, Val>) {
    forall k :: k in cache ==>
      if k in Records(entries) then cache[k] == Records(entries)[k] else k in before && cache[k] == before[k]
  }

  /** The record logged last is cached. */
  ghost predicate LastCached(entries: seq<WalEntry>, cache: map<Key, Val>) {
    forall i :: 0 <= i < |entries| && IsLastRecord(entries, i) ==> entries[i].key in cache && cache[entries[i].key] == entries[i].data
  }

  ghost predicate IsLastRecord(entries: seq<WalEntry>, i: nat)
    requires i < |entries|
  {
    entries[i].RecordUpdate? && forall j :: i < j < |entries| ==> !entries[j].RecordUpdate?
  }

  /** Of two logged keys the one logged later stays cached at least as long. */
  ghost predicate LatestStay(entries: seq<WalEntry>, cache: map<Key, Val>) {
    forall k, q :: k in cache && k in Records(entries) && q in Records(entries) && LastAt(entries, k) <= LastAt(entries, q) ==> q in cache
  }

  /** The cached keys that were logged carry the times of their last entries. */
  ghost predicate Timed(entries: seq<WalEntry>, lru: map<Key, int>, clock: nat -> int) {
    forall k :: k in lru && k in Records(entries) ==> LastAt(entries, k) >= 0 && lru[k] == clock(LastAt(entries, k))
  }

  ghost predicate Ticks(clock: nat -> int, n: nat) {
    forall i, j :: 0 <= i < j < n ==> clock(i) < clock(j)
  }

  /** What one replayed entry does to the tier: a record is always stored, others may be evicted before. */
  ghost predicate Replayed(s: Tier, s': Tier, e: WalEntry, now: int, gone: set<Key>) {
    if e.RecordUpdate? then
      && s'.cache == (s.cache - gone)[e.key := e.data] && s'.lru == (s.lru - gone)[e.key := now]
      && forall g, k :: g in gone && k in s.lru && k !in gone ==> g in s.lru && s.lru[g] <= s.lru[k]
    else s' == s
  }

  lemma NothingHappens(s: Tier, e: WalEntry, now: int)
    ensures !e.RecordUpdate? ==> Replayed(s, s, e, now, {})
  {
  }

  lemma InsertReplays(s: Tier, s': Tier, key: Key, data: Val, now: int, maxRamMb: nat, gone: set<Key>)
    requires s.cache.Keys == s.lru.Keys && Inserts(s, s', key, data, now, maxRamMb, gone)
    ensures Replayed(s, s', RecordUpdate(key, data), now, gone)
    ensures !OverLimit(|s.cache|, maxRamMb) ==> s'.cache == Recorded(s.cache, RecordUpdate(key, data))
  {
    hide OverLimit;
    assert s.cache - {} == s.cache;
  }

  lemma OneMoreRecord(entries: seq<WalEntry>, i: nat, k: Key)
    requires i < |entries|
    ensures entries[..i + 1][..i] == entries[..i]
    ensures Records(entries[..i + 1]) == Recorded(Records(entries[..i]), entries[i])
    ensures LastAt(entries[..i + 1], k) == if entries[i].RecordUpdate? && entries[i].key == k then i else LastAt(entries[..i], k)
  {
    assert entries[..i + 1][..i] == entries[..i];
  }

  lemma ReplayedKeepsLast(before: map<Key, Val>, entries: seq<WalEntry>, i: nat, s: Tier, s': Tier, now: int, gone: set<Key>)
    requires i < |entries| && Replayed(s, s', entries[i], now, gone)
    requires KeepsLast(before, entries[..i], s.cache)
    ensures KeepsLast(before, entries[..i + 1], s'.cache)
  {
    hide Records;
    OneMoreRecord(entries, i, []);
  }

  lemma ReplayedLastCached(entries: seq<WalEntry>, i: nat, s: Tier, s': Tier, now: int, gone: set<Key>)
    requires i < |entries| && Replayed(s, s', entries[i], now, gone) && LastCached(entries[..i], s.cache)
    ensures LastCached(entries[..i + 1], s'.cache)
  {
    var es := entries[..i + 1];
    forall j | 0 <= j < |es| && IsLastRecord(es, j)
      ensures es[j].key in s'.cache && s'.cache[es[j].key] == es[j].data
    {
      LastRecordBefore(entries, i, j);
    }
  }

  /** The last record of one entry more is that entry, or the last one before if it is no record. */
  lemma LastRecordBefore(entries: seq<WalEntry>, i: nat, j: nat)
    requires i < |entries| && j <= i && IsLastRecord(entries[..i + 1], j)
    ensures entries[..i + 1][j] == entries[j] && entries[j].RecordUpdate?
    ensures j < i ==> !entries[i].RecordUpdate? && entries[..i][j] == entries[j] && IsLastRecord(entries[..i], j)
  {
    if j < i {
      assert entries[..i + 1][i] == entries[i];
      assert forall x :: j < x < i ==> entries[..i][x] == entries[..i + 1][x];
    }
  }

  lemma ReplayedTimed(entries: seq<WalEntry>, i: nat, s: Tier, s': Tier, clock: nat -> int, gone: set<Key>)
    requires i < |entries| && Replayed(s, s', entries[i], clock(i), gone) && Timed(entries[..i], s.lru, clock)
    ensures Timed(entries[..i + 1], s'.lru, clock)
  {
    hide Records, LastAt;
    forall k | k in s'.lru && k in Records(entries[..i + 1])
      ensures LastAt(entries[..i + 1], k) >= 0 && s'.lru[k] == clock(LastAt(entries[..i + 1], k))
    {
      OneMoreRecord(entries, i, k);
    }
  }

  lemma ReplayedLatestStay(entries: seq<WalEntry>, i: nat, s: Tier, s': Tier, clock: nat -> int, gone: set<Key>)
    requires i < |entries| && Replayed(s, s', entries[i], clock(i), gone) && s.cache.Keys == s.lru.Keys
    requires Timed(entries[..i], s.lru, clock) && LatestStay(entries[..i], s.cache) && Ticks(clock, |entries|)
    ensures LatestStay(entries[..i + 1], s'.cache)
  {
    hide Records, LastAt;
    forall k, q | k in s'.cache && k in Records(entries[..i + 1]) && q in Records(entries[..i + 1])
      && LastAt(entries[..i + 1], k) <= LastAt(entries[..i + 1], q)
      ensures q in s'.cache
    {
      OneMoreRecord(entries, i, k);
      OneMoreRecord(entries, i, q);
      LastAtIs(entries[..i], k);
      LastAtIs(entries[..i], q);
    }
  }

  /** All keys together stay within the tier's limit, so that replay evicts nothing. */
  ghost predicate Unevicted(cache: map<Key, Val>, entries: seq<WalEntry>, maxRamMb: nat) {
    4096 * maxRamMb < MAX_ENTRIES && |cache + Records(entries)| <= 4096 * maxRamMb
  }

  lemma {:induction false} RecordsGrow(entries: seq<WalEntry>, i: nat)
    requires i <= |entries|
    ensures Records(entries[..i]).Keys <= Records(entries).Keys
    decreases |entries|
  {
    if i == |entries| {
      assert entries[..i] == entries;
    } else {
      var shorter := entries[..|entries| - 1];
      assert shorter[..i] == entries[..i];
      RecordsGrow(shorter, i);
    }
  }

  lemma StaysUnderLimit(cache: map<Key, Val>, entries: seq<WalEntry>, i: nat, maxRamMb: nat)
    requires i <= |entries| && Unevicted(cache, entries, maxRamMb)
    ensures !OverLimit(|cache + Records(entries[..i])|, maxRamMb)
  {
    RecordsGrow(entries, i);
    var (a, b) := (cache + Records(entries[..i]), cache + Records(entries));
    assert a.Keys <= b.Keys;
    SubsetCount(a.Keys, b.Keys);
    assert |a| == |a.Keys| && |b| == |b.Keys|;
    NoWrap(|a|, maxRamMb);
  }

  lemma SubsetCount(a: set<Key>, b: set<Key>)
    requires a <= b
    ensures |a| <= |b|
  {
    assert b == a + (b - a);
  }

  lemma NothingReplayed(entries: seq<WalEntry>, s: Tier, clock: nat -> int, f: seq<Bytes>, crc: Checksum)
    ensures entries[..0] == [] && Replay(f, entries[..0], crc) == f && s.cache + Records(entries[..0]) == s.cache
    ensures KeepsLast(s.cache, entries[..0], s.cache) && LastCached(entries[..0], s.cache)
    ensures Timed(entries[..0], s.lru, clock) && LatestStay(entries[..0], s.cache)
  {
    assert Records([]) == map[];
  }

  lemma ReplayOneMore(f: seq<Bytes>, f0: seq<Bytes>, entries: seq<WalEntry>, i: nat, crc: Checksum)
    requires i < |entries| && f == Replay(f0, entries[..i], crc)
    ensures Replay(f0, entries[..i + 1], crc) == ReplayOne(f, entries[i], crc)
  {
    assert entries[..i + 1][..i] == entries[..i];
  }

  function UpdatedIf(m: map<Key, Val>, key: Key, val: Val, updates: bool): map<Key, Val> {
    if updates then m[key := val] else m
  }

  // -------------------------------------------------------------------- class

  class BPlusTree {
    const pager: Pager
    const memory: MemoryTier
    const tie: Tie
    /** Entries handed to the write-ahead log, oldest first. */
    var log: seq<WalEntry>
    ghost var tree: Tree
    ghost var height: nat
    /** The leaves that the leaf links lead past. */
    ghost var chain: seq<Tree>

    /**
     * The pages reachable from page 0 hold the tree, each node within its page
     * and sorted, each page reached once; the links from the leftmost leaf lead
     * along the chain, past every leaf of the tree and perhaps past others.
     */
    ghost predicate Valid()
      reads this, pager
    {
      && pager.Valid() && tree.id == 0 && Entered(pager.file, pager.checksum, tree, height)
      && ChainStored(pager.file, pager.checksum, chain, tree)
    }

    /** As long as no insertion failed: there are no other pages, and the leaf chain is that of the tree. */
    ghost predicate Whole()
      reads this, pager
    {
      Ids(tree) == Range(0, |pager.file|) && Chained(tree, None)
    }

    /**
     * Opening: replay the recovered log, page images into the file and records
     * into the memory tier, then make sure there is a root page.
     */
    constructor Open(pager: Pager, memory: MemoryTier, tie: Tie, entries: seq<WalEntry>, clock: nat -> int)
      requires pager.Valid() && memory.Valid()
      modifies pager`file, memory`cache, memory`lru
      ensures this.pager == pager && this.memory == memory && this.tie == tie && log == []
      ensures pager.Valid() && memory.Valid()
      ensures var f := Replay(old(pager.file), entries, pager.checksum);
        pager.file == if |f| % U32_BOUND == 0 then PutPage(f, 0, Seal(ToBytes(EMPTY_ROOT).value, pager.checksum)) else f
      ensures Replay(old(pager.file), entries, pager.checksum) == [] ==> Valid() && Whole() && Contents(tree) == map[]
      ensures Unevicted(old(memory.cache), entries, memory.maxRamMb) ==> memory.cache == old(memory.cache) + Records(entries)
      ensures KeepsLast(old(memory.cache), entries, memory.cache) && LastCached(entries, memory.cache)
      ensures Ticks(clock, |entries|) ==> LatestStay(entries, memory.cache)
    {
      this.pager, this.memory, this.tie, log := pager, memory, tie, [];
      tree, height, chain := Leaf(0, [], [], None), 0, [Leaf(0, [], [], None)];
      new;
      ReplayLog(entries, clock);
      EnsureRoot();
    }

    method ReplayLog(entries: seq<WalEntry>, clock: nat -> int)
      requires pager.Valid() && memory.Valid()
      modifies pager`file, memory`cache, memory`lru
      ensures pager.Valid() && memory.Valid()
      ensures pager.file == Replay(old(pager.file), entries, pager.checksum)
      ensures Unevicted(old(memory.cache), entries, memory.maxRamMb) ==> memory.cache == old(memory.cache) + Records(entries)
      ensures KeepsLast(old(memory.cache), entries, memory.cache) && LastCached(entries, memory.cache)
      ensures Ticks(clock, |entries|) ==> LatestStay(entries, memory.cache)
    {
      hide Records, KeepsLast, LastCached, LatestStay, Timed, Replay, Ticks, Unevicted, ReplayOne;
      ghost var cache0, unevicted := memory.cache, Unevicted(memory.cache, entries, memory.maxRamMb);
      NothingReplayed(entries, memory.State(), clock, pager.file, pager.checksum);
      for i := 0 to |entries|
        invariant pager.Valid() && memory.Valid()
        invariant pager.file == Replay(old(pager.file), entries[..i], pager.checksum)
        invariant unevicted ==> memory.cache == cache0 + Records(entries[..i])
        invariant KeepsLast(cache0, entries[..i], memory.cache) && LastCached(entries[..i], memory.cache)
        invariant Timed(entries[..i], memory.lru, clock) && (Ticks(clock, |entries|) ==> LatestStay(entries[..i], memory.cache))
      {
        ReplayOneMore(pager.file, old(pager.file), entries, i, pager.checksum);
        if unevicted {
          StaysUnderLimit(cache0, entries, i, memory.maxRamMb);
          RecordedLater(cache0, entries, i);
        }
        ghost var s := memory.State();
        ghost var gone := ReplayEntry(entries[i], clock(i));
        ReplayedKeepsLast(cache0, entries, i, s, memory.State(), clock(i), gone);
        ReplayedLastCached(entries, i, s, memory.State(), clock(i), gone);
        ReplayedTimed(entries, i, s, memory.State(), clock, gone);
        if Ticks(clock, |entries|) {
          ReplayedLatestStay(entries, i, s, memory.State(), clock, gone);
        }
      }
      assert entries[..|entries|] == entries;
    }

    /** One entry: a page image is written to its page, a record is inserted into the tier. */
    method ReplayEntry(e: WalEntry, now: int) returns (ghost gone: set<Key>)
      requires pager.Valid() && memory.Valid()
      modifies pager`file, memory`cache, memory`lru
      ensures pager.Valid() && memory.Valid()
      ensures pager.file == ReplayOne(old(pager.file), e, pager.checksum)
      ensures !OverLimit(|old(memory.cache)|, memory.maxRamMb) ==> memory.cache == Recorded(old(memory.cache), e)
      ensures Replayed(old(memory.State()), memory.State(), e, now, gone)
    {
      hide FromLE, Seal, Intact, PageImage, PutPage, Inserts, OverLimit, Replayed;
      gone := {};
      NothingHappens(memory.State(), e, now);
      match e
      case PageUpdate(id, data) =>
        pager.WritePage(id, PageImage(data));
      case RecordUpdate(key, data) =>
        ghost var before := memory.State();
        gone := memory.Insert(key, data, now);
        InsertReplays(before, memory.State(), key, data, now, memory.maxRamMb, gone);
      case _ =>
    }

    method EnsureRoot()
      requires pager.Valid() && tree == Leaf(0, [], [], None) && height == 0 && chain == [tree]
      modifies pager`file
      ensures pager.Valid()
      ensures pager.file ==
        if |old(pager.file)| % U32_BOUND == 0 then PutPage(old(pager.file), 0, Seal(ToBytes(EMPTY_ROOT).value, pager.checksum))
        else old(pager.file)
      ensures old(pager.file) == [] ==> Valid() && Whole() && Contents(tree) == map[]
    {
      hide ToBytes, FromBytes, WriteNode, Seal, Intact, FromLE, Entered, ChainStored, Chained, Contents, Ids;
      EmptyRootFits(pager.checksum);
      EmptyRootChained(pager.checksum);
      if pager.NumPages() == 0 {
        pager.WritePage(0, ToBytes(EMPTY_ROOT).value);
        if old(pager.file) == [] {
          assert pager.file == [Seal(ToBytes(EMPTY_ROOT).value, pager.checksum)];
        }
      }
    }

    method ReadTreeNode(id: nat) returns (r: Result<Node>)
      requires pager.Valid()
      ensures forall n :: Holds(pager.file, pager.checksum, id, n) ==> r == Ok(n)
    {
      var page := pager.ReadPage(id);
      if page.Err? {
        return Err(page.error);
      }
      r := FromBytes(page.value);
    }

    /** Search: the memory tier first, then the descent from the root page. */
    method Get(key: Key) returns (r: Result<Option<Val>>)
      requires key !in memory.cache ==> Valid()
      ensures r == Ok(if key in memory.cache then Some(memory.cache[key]) else Lookup(tree, key))
    {
      var cached := memory.Get(key);
      if cached.Some? {
        return Ok(cached);
      }
      var found := Descent(key);
      r := Ok(found);
    }

    method Descent(key: Key) returns (r: Option<Val>)
      requires Valid()
      ensures r == Lookup(tree, key)
    {
      var pageId := 0;
      ghost var t, h := tree, height;
      var node := NodeAt(pageId, t);
      while node.nodeType.Internal?
        invariant Shape(t, h) && Tidy(t) && Stored(pager.file, pager.checksum, t)
        invariant node == NodeOf(t) && Lookup(t, key) == Lookup(tree, key)
        decreases h
      {
        var s := BinarySearch(node.keys, key);
        var i := Clamp(if s.Found? then s.idx + 1 else s.idx, |node.children|);
        pageId := node.children[i];
        SearchStep(pager.file, pager.checksum, t, h, key);
        t, h := t.kids[i], h - 1;
        node := NodeAt(pageId, t);
      }
      var s := BinarySearch(node.keys, key);
      r := if s.Found? then Some(node.values[s.idx]) else None;
    }

    /** Reading the page of a stored node yields that node. */
    method NodeAt(id: nat, ghost t: Tree) returns (node: Node)
      requires pager.Valid() && t.id == id && Stored(pager.file, pager.checksum, t)
      ensures node == NodeOf(t)
    {
      var read := ReadTreeNode(id);
      assert Holds(pager.file, pager.checksum, id, NodeOf(t));
      node := read.value;
    }

    method AllocatePage() returns (id: nat)
      requires pager.Valid() && |pager.file| < U32_BOUND
      modifies pager`file
      ensures pager.Valid() && id == |old(pager.file)|
      ensures pager.file == PutPage(old(pager.file), id, Seal(Zeros(PAGE_SIZE), pager.checksum))
    {
      id := pager.NumPages();
      pager.WritePage(id, Zeros(PAGE_SIZE));
    }

    /** A node that fits is logged and written; one that does not is refused with nothing done. */
    method SaveNode(id: nat, node: Node) returns (ok: bool)
      requires pager.Valid()
      modifies this`log, pager`file
      ensures pager.Valid() && (ok <==> |WriteNode(node)| <= NODE_LIMIT)
      ensures !ok ==> pager.file == old(pager.file) && log == old(log)
      ensures ok ==> log == old(log) + [PageUpdate(id, ToBytes(node).value)]
      ensures ok ==> pager.file == PutPage(old(pager.file), id, Seal(ToBytes(node).value, pager.checksum))
      ensures ok && Encodable(node) ==> Holds(pager.file, pager.checksum, id, node)
    {
      var bytes := ToBytes(node);
      if bytes.Err? {
        return false;
      }
      log := log + [PageUpdate(id, bytes.value)];
      pager.WritePage(id, bytes.value);
      if Encodable(node) {
        PageRoundTrip(node, pager.checksum);
      }
      ok := true;
    }

    /** Saves the new right half, then the shrunken left half; f0 is the file before the page was allocated. */
    method SaveHalves(newId: nat, newNode: Node, childId: nat, child: Node, ghost f0: seq<Bytes>) returns (ok: bool)
      requires pager.Valid() && newId == |f0| && childId < newId
      requires pager.file == PutPage(f0, |f0|, Seal(Zeros(PAGE_SIZE), pager.checksum))
      requires |WriteNode(newNode)| <= NODE_LIMIT && Encodable(newNode)
      requires |WriteNode(child)| <= NODE_LIMIT && Encodable(child)
      modifies this`log, pager`file
      ensures pager.Valid() && ok
      ensures |pager.file| == |f0| + 1 && OnlyTouches(f0, pager.file, {childId})
      ensures Holds(pager.file, pager.checksum, newId, newNode) && Holds(pager.file, pager.checksum, childId, child)
      ensures Redoes(f0, old(log), pager.file, log, pager.checksum)
    {
      hide FromLE, Seal, Intact, FromBytes, WriteNode, Redoes;
      ghost var log0 := log;
      ok := SaveNode(newId, newNode);
      BlankThenSave(f0, Seal(Zeros(PAGE_SIZE), pager.checksum), pager.file[newId]);
      ghost var f1, log1 := pager.file, log;
      LogOne(f0, log0, newId, ToBytes(newNode).value, pager.checksum);
      ok := SaveNode(childId, child);
      LogOne(f1, log1, childId, ToBytes(child).value, pager.checksum);
      RedoesThen(f0, log0, f1, log1, pager.file, log, pager.checksum);
    }

    /** Splits the full child i of a node held in memory; the parent itself is saved later by its owner. */
    method SplitChild(parent: Node, i: nat, childId: nat, ghost t: Tree) returns (ok: bool, parent': Node)
      requires pager.Valid() && |pager.file| < U32_BOUND
      requires t.Branch? && |t.kids| == |t.keys| + 1 && i < |t.kids| && Splittable(t.kids[i]) && childId == t.kids[i].id
      requires parent == NodeOf(t) && Proper(t) && LinksBelow(t, |pager.file|) && FitsBelow(t)
      requires StoredBelow(pager.file, pager.checksum, t)
      requires forall x :: x in Ids(t) ==> x < |pager.file|
      modifies this`log, pager`file
      ensures pager.Valid() && ok
      ensures |pager.file| == |old(pager.file)| + 1 && OnlyTouches(old(pager.file), pager.file, {childId})
      ensures var t1 := SplitKid(t, i, |old(pager.file)|);
        parent' == NodeOf(t1) && StoredBelow(pager.file, pager.checksum, t1)
      ensures Redoes(old(pager.file), old(log), pager.file, log, pager.checksum)
    {
      hide Redoes, Holds;
      ghost var f0, n, c := pager.file, |pager.file|, t.kids[i];
      var child := NodeAt(childId, c);
      HalvesCanBeSaved(t, i, n);
      var newId := AllocatePage();
      var newNode, midKey;
      child, midKey, newNode := CutNode(child, newId, c);
      SplitNodeIs(t, i, n);
      parent' := parent.(keys := InsertAt(parent.keys, i, midKey), children := InsertAt(parent.children, i + 1, newId));
      ok := SaveHalves(newId, newNode, childId, child, f0);
      SplitStored(f0, pager.file, pager.checksum, t, i, n);
    }

    /** The node cut in the middle: a leaf keeps its middle key in the right half, an internal node gives it up. */
    method CutNode(node: Node, newId: nat, ghost c: Tree) returns (left: Node, midKey: Key, right: Node)
      requires Splittable(c) && node == NodeOf(c)
      ensures var (l, m, r) := Split(c, newId); left == NodeOf(l) && midKey == m && right == NodeOf(r)
    {
      var mid := |node.keys| / 2;
      midKey := node.keys[mid];
      if c.Branch? {
        HalfNodes(c, newId);
      }
      if node.nodeType.LeafNode? {
        right := Node(LeafNode, node.keys[mid..], [], node.values[mid..], node.nextLeaf);
        left := node.(keys := node.keys[..mid], values := node.values[..mid], nextLeaf := Some(newId));
      } else {
        right := Node(Internal, node.keys[mid + 1..], node.children[mid + 1..], [], None);
        left := node.(keys := node.keys[..mid], children := node.children[..mid + 1]);
      }
    }

    /** The child an internal node sends the key to. */
    method PickChild(node: Node, key: Key, ghost t: Tree) returns (i: nat)
      requires node == NodeOf(t) && t.Branch? && Sorted(t.keys) && |t.kids| == |t.keys| + 1
      ensures i == Route(t.keys, key)
    {
      var s := BinarySearch(node.keys, key);
      i := Clamp(if s.Found? then s.idx + 1 else s.idx, |node.children|);
    }

    /** Chooses the child for the key and, when it is full, splits it and chooses again. */
    method MakeRoom(node: Node, key: Key, ghost t: Tree, ghost h: nat) returns (ok: bool, node': Node, i: nat)
      requires pager.Valid() && |pager.file| < U32_BOUND
      requires node == NodeOf(t) && t.Branch? && Entered(pager.file, pager.checksum, t, h)
      modifies this`log, pager`file
      ensures pager.Valid() && ok
      ensures (NodeOf(Descend(t, h, key, |old(pager.file)|, tie).0), i, |pager.file|)
           == (node', Descend(t, h, key, |old(pager.file)|, tie).1, Descend(t, h, key, |old(pager.file)|, tie).2)
      ensures StoredBelow(pager.file, pager.checksum, Descend(t, h, key, |old(pager.file)|, tie).0)
      ensures OnlyTouches(old(pager.file), pager.file, {t.kids[Route(t.keys, key)].id})
      ensures Redoes(old(pager.file), old(log), pager.file, log, pager.checksum)
    {
      i := PickChild(node, key, t);
      ghost var kid := t.kids[i];
      KidEntered(pager.file, pager.checksum, t, h, i);
      var childId := node.children[i];
      var child := NodeAt(childId, kid);
      EncodedSize(kid);
      if IsFull(child) {
        ok, node', i := SplitAndChoose(node, i, key, t, h);
      } else {
        DescendIntoRoomy(t, h, key, |pager.file|, tie);
        NothingToRedo(pager.file, log, pager.checksum);
        ok, node' := true, node;
      }
    }

    /** The full child at i is split; a key above the promoted one goes to the new right half. */
    method SplitAndChoose(node: Node, i: nat, key: Key, ghost t: Tree, ghost h: nat) returns (ok: bool, node': Node, j: nat)
      requires pager.Valid() && |pager.file| < U32_BOUND
      requires node == NodeOf(t) && t.Branch? && Entered(pager.file, pager.checksum, t, h)
      requires i == Route(t.keys, key) && Full(t.kids[i])
      modifies this`log, pager`file
      ensures pager.Valid() && ok
      ensures (NodeOf(Descend(t, h, key, |old(pager.file)|, tie).0), j, |pager.file|)
           == (node', Descend(t, h, key, |old(pager.file)|, tie).1, Descend(t, h, key, |old(pager.file)|, tie).2)
      ensures StoredBelow(pager.file, pager.checksum, Descend(t, h, key, |old(pager.file)|, tie).0)
      ensures OnlyTouches(old(pager.file), pager.file, {t.kids[i].id})
      ensures Redoes(old(pager.file), old(log), pager.file, log, pager.checksum)
    {
      hide Redoes, Holds;
      DescendIntoFull(t, h, key, |pager.file|, tie);
      ok, node' := SplitChild(node, i, node.children[i], t);
      j := if GoesRight(node'.keys[i], key, tie) then i + 1 else i;
    }

    /** A leaf's node with the entry in it. */
    method PutEntry(node: Node, key: Key, val: Val, ghost t: Tree) returns (node': Node)
      requires node == NodeOf(t) && t.Leaf? && Sorted(t.keys) && |t.keys| == |t.vals|
      ensures node' == NodeOf(LeafInsert(t, key, val))
    {
      var s := BinarySearch(node.keys, key);
      if s.Found? {
        node' := node.(values := node.values[s.idx := val]);
      } else {
        node' := node.(keys := InsertAt(node.keys, s.idx, key), values := InsertAt(node.values, s.idx, val));
      }
    }

    /** Insertion into a leaf held in memory, which is then saved. */
    method InsertIntoLeaf(pageId: nat, node: Node, key: Key, val: Val, ghost t: Tree) returns (ok: bool)
      requires pager.Valid() && |pager.file| < U32_BOUND
      requires node == NodeOf(t) && t.Leaf? && t.id == pageId && Entered(pager.file, pager.checksum, t, 0)
      modifies this`log, pager`file
      ensures var r := Attempt(t, 0, key, val, |old(pager.file)|, tie);
        pager.Valid() && ok == r.ok && |pager.file| == r.pages && Stored(pager.file, pager.checksum, r.tree)
      ensures OnlyTouches(old(pager.file), pager.file, Ids(t))
      ensures Redoes(old(pager.file), old(log), pager.file, log, pager.checksum)
    {
      hide LeafInsert, Size, WriteNode, Ids;
      ghost var t' := LeafInsert(t, key, val);
      var node' := PutEntry(node, key, val, t);
      LeafInsertedAgain(t, key, val);
      EncodedSize(t');
      OwnId(t);
      NothingToRedo(pager.file, log, pager.checksum);
      if Size(t') <= NODE_LIMIT {
        FittingNodeIsEncodable(t');
        LogOne(pager.file, log, pageId, ToBytes(node').value, pager.checksum);
      }
      ok := SaveNode(pageId, node');
    }

    /** Insertion below a page whose node has been read and is not to be split any more. */
    method InsertNonFull(pageId: nat, node: Node, key: Key, val: Val, ghost t: Tree, ghost h: nat) returns (ok: bool)
      requires pager.Valid() && |pager.file| + h < U32_BOUND
      requires node == NodeOf(t) && t.id == pageId && Entered(pager.file, pager.checksum, t, h)
      modifies this`log, pager`file
      ensures var r := Attempt(t, h, key, val, |old(pager.file)|, tie);
        pager.Valid() && ok == r.ok && |pager.file| == r.pages && Stored(pager.file, pager.checksum, r.tree)
      ensures LeavesHeld(pager.file, pager.checksum, Made(t, h, key, val, |old(pager.file)|, tie))
      ensures OnlyTouches(old(pager.file), pager.file, Ids(t))
      ensures Redoes(old(pager.file), old(log), pager.file, log, pager.checksum)
      decreases h, 0
    {
      hide Redoes, Holds, Descend, Size, Tidy, Proper, LinksBelow, Stored, StoredBelow, Unsaved, Ids, Fits, FitsBelow, LeavesHeld, Made;
      if node.nodeType.LeafNode? {
        LeafMade(t, key, val, |pager.file|, tie);
        ok := InsertIntoLeaf(pageId, node, key, val, t);
        StoredLeavesHeld(pager.file, pager.checksum, Made(t, 0, key, val, |old(pager.file)|, tie));
        return;
      }
      MadeUnfolds(t, h, key, val, |pager.file|, tie);
      ghost var f0, log0, i0 := pager.file, log, Route(t.keys, key);
      var node', i;
      ok, node', i := MakeRoom(node, key, t, h);
      ghost var f1, log1 := pager.file, log;
      ghost var t1 := Descend(t, h, key, |f0|, tie).0;
      RoomMade(f0, f1, pager.checksum, t, h, key, tie);
      ok := InsertBelow(pageId, node', i, key, val, t1, t1.kids[i], h - 1);
      RedoesThen(f0, log0, f1, log1, pager.file, log, pager.checksum);
      ghost var c := Attempt(t1.kids[i], h - 1, key, val, |f1|, tie);
      EnteredHas(f1, pager.checksum, t1.kids[i], h - 1);
      AttemptPages(t1.kids[i], h - 1, key, val, |f1|, tie);
      KidIdsInside(t, i0);
      OwnId(t.kids[i0]);
      if ok {
        TouchesThen(f0, f1, pager.file, Ids(t), Ids(t1));
      } else {
        UnsavedStored(f0, f1, pager.file, pager.checksum, t, h, key, tie, c.tree);
      }
    }

    /** Reads the node of a page and inserts below it. */
    method InsertAtPage(pageId: nat, key: Key, val: Val, ghost t: Tree, ghost h: nat) returns (ok: bool)
      requires pager.Valid() && |pager.file| + h < U32_BOUND
      requires t.id == pageId && Entered(pager.file, pager.checksum, t, h)
      modifies this`log, pager`file
      ensures var r := Attempt(t, h, key, val, |old(pager.file)|, tie);
        pager.Valid() && ok == r.ok && |pager.file| == r.pages && Stored(pager.file, pager.checksum, r.tree)
      ensures LeavesHeld(pager.file, pager.checksum, Made(t, h, key, val, |old(pager.file)|, tie))
      ensures OnlyTouches(old(pager.file), pager.file, Ids(t))
      ensures Redoes(old(pager.file), old(log), pager.file, log, pager.checksum)
      decreases h, 1
    {
      var node := NodeAt(pageId, t);
      ok := InsertNonFull(pageId, node, key, val, t, h);
    }

    /** Insertion into child i of a node held in memory, which is saved last, and only if the insertion went well. */
    method InsertBelow(pageId: nat, node: Node, i: nat, key: Key, val: Val, ghost t: Tree, ghost kid: Tree, ghost h: nat)
      returns (ok: bool)
      requires pager.Valid() && |pager.file| + h < U32_BOUND
      requires node == NodeOf(t) && t.Branch? && t.id == pageId && i < |t.kids| && kid == t.kids[i]
      requires Proper(t) && FitsBelow(t) && StoredBelow(pager.file, pager.checksum, t)
      requires forall x :: x in Ids(t) ==> x < |pager.file|
      requires Entered(pager.file, pager.checksum, kid, h)
      modifies this`log, pager`file
      ensures var c := Attempt(kid, h, key, val, |old(pager.file)|, tie);
        && pager.Valid() && |pager.file| == c.pages && (ok <==> c.ok && Size(t) <= NODE_LIMIT)
        && (ok ==> Stored(pager.file, pager.checksum, t.(kids := t.kids[i := c.tree])))
        && (!ok ==> Stored(pager.file, pager.checksum, c.tree) && OnlyTouches(old(pager.file), pager.file, Ids(kid)))
      ensures LeavesHeld(pager.file, pager.checksum, t.(kids := t.kids[i := Made(kid, h, key, val, |old(pager.file)|, tie)]))
      ensures OnlyTouches(old(pager.file), pager.file, Ids(t))
      ensures Redoes(old(pager.file), old(log), pager.file, log, pager.checksum)
      decreases h, 2
    {
      hide Redoes, Holds, Size, Tidy, Stored, StoredBelow, Proper, LinksBelow, LeavesHeld, Made;
      ghost var f0, log0 := pager.file, log;
      ok := InsertAtPage(node.children[i], key, val, kid, h);
      KidIdsInside(t, i);
      ghost var made := t.(kids := t.kids[i := Made(kid, h, key, val, |f0|, tie)]);
      ReplaceHeld(f0, pager.file, pager.checksum, t, i, Made(kid, h, key, val, |f0|, tie));
      if !ok {
        return;
      }
      ghost var f1, log1, c := pager.file, log, Attempt(kid, h, key, val, |f0|, tie);
      ghost var t' := t.(kids := t.kids[i := c.tree]);
      EnteredHas(f0, pager.checksum, kid, h);
      AttemptPages(kid, h, key, val, |f0|, tie);
      ReplaceStored(f0, f1, pager.checksum, t, i, c.tree);
      ChildReplaced(t, i, c.tree, |f0|, c.pages);
      OwnId(t);
      ok := SaveOwn(pageId, node, t');
      MadeBelow(t, i, kid, h, key, val, |f0|, tie);
      OwnSaveKeepsLeaves(f1, pager.file, pager.checksum, made);
      RedoesThen(f0, log0, f1, log1, pager.file, log, pager.checksum);
    }

    /**
     * Insertion of an entry: a full root is first moved to a new page and split
     * under a fresh root. The file holds the attempted tree in any case; it is
     * the one the insertion should give if and only if all nodes of that fit.
     */
    method Insert(key: Key, val: Val) returns (ok: bool)
      requires Valid() && |pager.file| + height + 3 < U32_BOUND
      modifies this`log, this`tree, this`height, this`chain, pager`file
      ensures var (t0, h0, n0) := (old(tree), old(height), |old(pager.file)|);
        var (r, (t', n')) := (AttemptInsert(t0, h0, key, val, n0, tie), Trees.Insert(t0, h0, key, val, n0, tie));
        && pager.Valid() && tree == r.tree && height == NewHeight(t0, h0) && |pager.file| == r.pages == n'
        && ok == r.ok && (ok <==> Fits(t')) && (ok <==> !MeetsOverfullAtInsert(t0, h0, key, val, n0, tie)) && (ok ==> tree == t')
        && Stored(pager.file, pager.checksum, tree) && (Tidy(tree) <==> Valid())
        && Chainable(old(chain), t0, h0, n0) && chain == InsertChain(old(chain), t0, h0, key, val, n0, tie)
        && ChainStored(pager.file, pager.checksum, chain, tree)
        && Listed(Listing(old(chain)), Listing(chain), key, val, LeafSavedAtInsert(t0, h0, key, val, n0, tie))
      ensures Redoes(old(pager.file), old(log), pager.file, log, pager.checksum)
      ensures ok && old(Whole()) ==> Whole()
      ensures Ranged(old(tree), Weak) && !MeetsClashAtInsert(old(tree), old(height), key, |old(pager.file)|, tie) ==>
        Valid() && Ranged(tree, Weak)
      ensures forall o :: Ordered(old(tree), o) && !MeetsClashAtInsert(old(tree), old(height), key, |old(pager.file)|, tie) ==>
        && (ok ==>
              && Ordered(tree, Weak)
              && Contents(tree) == UpdatedIf(old(Contents(tree)), key, val,
                   tie.EqualGoesRight? || !MeetsPromotedAtInsert(old(tree), old(height), key, |old(pager.file)|)))
      ensures Small(old(tree), ENTRY_FIT, KEY_FIT) && 16 + |key| + |val| <= ENTRY_FIT && 12 + |key| <= KEY_FIT ==> ok
    {
      hide Redoes, Holds, NodeOf, Ordered, Ranged, Small, Stored, Contents, MeetsPromotedAtInsert, MeetsClashAtInsert, Tidy;
      hide Trees.Insert, AttemptInsert, LinksBelow, Proper, Size, Chained, LeavesHeld, ChainStored, InsertChain, MadeAtInsert, Listed, LeafSavedAtInsert;
      ghost var n, t, h, f0 := |pager.file|, tree, height, pager.file;
      ok := InsertAtRoot(key, val);
      InsertStoresChain(f0, pager.file, pager.checksum, chain, t, h, key, val, tie);
      InsertListing(chain, t, h, key, val, n, tie);
      ghost var r := AttemptInsert(t, h, key, val, n, tie);
      AttemptInsertKeeps(t, h, key, val, n, tie);
      AttemptInsertIsInsertion(t, h, key, val, n, tie);
      InsertFitsIff(t, h, key, val, n, tie);
      tree, height, chain := r.tree, NewHeight(t, h), InsertChain(chain, t, h, key, val, n, tie);
      if Small(t, ENTRY_FIT, KEY_FIT) && 16 + |key| + |val| <= ENTRY_FIT && 12 + |key| <= KEY_FIT {
        InsertFits(t, h, key, val, n, tie);
      }
      if ok && old(Whole()) {
        InsertPages(t, h, key, val, n, tie);
        RangeGrows(t, tree, n, |pager.file|);
      }
      if Ranged(t, Weak) && !MeetsClashAtInsert(t, h, key, n, tie) {
        AttemptInsertRanged(t, h, key, val, n, tie, Weak);
      }
      forall o | Ordered(t, o) && !MeetsClashAtInsert(t, h, key, n, tie)
        ensures ok ==> Ordered(tree, Weak)
        ensures ok ==> Contents(tree) == UpdatedIf(Contents(t), key, val, tie.EqualGoesRight? || !MeetsPromotedAtInsert(t, h, key, n))
      {
        InsertMeans(t, h, key, val, n, tie, o);
      }
    }

    method InsertAtRoot(key: Key, val: Val) returns (ok: bool)
      requires Valid() && Shape(tree, height) && |pager.file| + height + 3 < U32_BOUND
      modifies this`log, pager`file
      ensures var r := AttemptInsert(tree, height, key, val, |old(pager.file)|, tie);
        pager.Valid() && ok == r.ok && |pager.file| == r.pages && Stored(pager.file, pager.checksum, r.tree)
      ensures LeavesHeld(pager.file, pager.checksum, MadeAtInsert(tree, height, key, val, |old(pager.file)|, tie))
      ensures OnlyTouches(old(pager.file), pager.file, Ids(tree))
      ensures Redoes(old(pager.file), old(log), pager.file, log, pager.checksum)
    {
      hide Redoes, Holds, Trees.GrowRoot, Attempt, Made, LeavesHeld, Entered, NodeOf, Shape, Stored;
      EnteredHas(pager.file, pager.checksum, tree, height);
      var root := NodeAt(0, tree);
      EncodedSize(tree);
      if IsFull(root) {
        ok := InsertUnderNewRoot(root, key, val);
      } else {
        ok := InsertNonFull(0, root, key, val, tree, height);
      }
    }

    method InsertUnderNewRoot(root: Node, key: Key, val: Val) returns (ok: bool)
      requires Valid() && Shape(tree, height) && Full(tree)
      requires root == NodeOf(tree) && |pager.file| + height + 3 < U32_BOUND
      modifies this`log, pager`file
      ensures var r := AttemptInsert(tree, height, key, val, |old(pager.file)|, tie);
        pager.Valid() && ok == r.ok && |pager.file| == r.pages && Stored(pager.file, pager.checksum, r.tree)
      ensures LeavesHeld(pager.file, pager.checksum, MadeAtInsert(tree, height, key, val, |old(pager.file)|, tie))
      ensures OnlyTouches(old(pager.file), pager.file, Ids(tree))
      ensures Redoes(old(pager.file), old(log), pager.file, log, pager.checksum)
    {
      hide Redoes, Holds, Trees.GrowRoot, Attempt, Made, LeavesHeld, Entered, Full, NodeOf, Shape, Stored;
      ghost var f0, log0 := pager.file, log;
      GrowRoot(root);
      ghost var f1, log1 := pager.file, log;
      ghost var g := Trees.GrowRoot(tree, height, |f0|);
      ok := InsertAtPage(0, key, val, g, height + 1);
      EnteredHas(f0, pager.checksum, tree, height);
      GrowRootPages(tree, height, |f0|);
      TouchesThen(f0, f1, pager.file, Ids(tree), Ids(g));
      RedoesThen(f0, log0, f1, log1, pager.file, log, pager.checksum);
    }

    /** The old root moves to a new page and is split under a fresh root. */
    method GrowRoot(root: Node)
      requires Valid() && Shape(tree, height) && Full(tree)
      requires root == NodeOf(tree) && |pager.file| + 2 < U32_BOUND
      modifies this`log, pager`file
      ensures var g := Trees.GrowRoot(tree, height, |old(pager.file)|);
        && pager.Valid() && g.id == 0
        && Entered(pager.file, pager.checksum, g, height + 1) && |pager.file| == |old(pager.file)| + 2
      ensures OnlyTouches(old(pager.file), pager.file, Ids(tree))
      ensures Redoes(old(pager.file), old(log), pager.file, log, pager.checksum)
    {
      hide Redoes, Holds, Entered, Tidy, NodeOf, WriteNode, Size, Split, SplitKid, Trees.GrowRoot;
      hide Stored, StoredBelow, LinksBelow, Proper, Shape, FitsBelow, UsesPages;
      ghost var f0, log0, n, t, h := pager.file, log, |pager.file|, tree, height;
      EnteredHas(f0, pager.checksum, t, h);
      var oldRootId := MoveRoot(root);
      ghost var f1, log1 := pager.file, log;
      MovedReady(f1, pager.checksum, t, h, n);
      GrowRootSplits(t, h, n);
      var newRoot := SplitOnlyChild(oldRootId, Branch(t.id, [], [t.(id := n)]));
      ghost var f2, log2 := pager.file, log;
      ghost var g := Trees.GrowRoot(t, h, n);
      GrownReady(t, h, n);
      var ok := SaveOwn(0, newRoot, g);
      EnteredFrom(pager.file, pager.checksum, g, h + 1);
      OwnId(t);
      TouchesThen(f0, f1, f2, Ids(t), {oldRootId});
      TouchesThen(f0, f2, pager.file, Ids(t), {0});
      RedoesThen(f0, log0, f1, log1, f2, log2, pager.checksum);
      RedoesThen(f0, log0, f2, log2, pager.file, log, pager.checksum);
    }

    /** A fresh root over one full child, which is split at once. */
    method SplitOnlyChild(childId: nat, ghost t: Tree) returns (newRoot: Node)
      requires pager.Valid() && |pager.file| < U32_BOUND
      requires t.Branch? && t.keys == [] && |t.kids| == 1 && Splittable(t.kids[0]) && KidIds(t.kids) == [childId]
      requires Proper(t) && LinksBelow(t, |pager.file|) && FitsBelow(t) && StoredBelow(pager.file, pager.checksum, t)
      requires forall x :: x in Ids(t) ==> x < |pager.file|
      modifies this`log, pager`file
      ensures pager.Valid() && |pager.file| == |old(pager.file)| + 1 && OnlyTouches(old(pager.file), pager.file, {childId})
      ensures var g := SplitKid(t, 0, |old(pager.file)|);
        newRoot == NodeOf(g) && StoredBelow(pager.file, pager.checksum, g)
      ensures Redoes(old(pager.file), old(log), pager.file, log, pager.checksum)
    {
      newRoot := Node(Internal, [], [childId], [], None);
      var ok;
      ok, newRoot := SplitChild(newRoot, 0, childId, t);
    }

    /** The old root's node in a page of its own. */
    method MoveRoot(root: Node) returns (oldRootId: nat)
      requires Valid() && root == NodeOf(tree) && |pager.file| < U32_BOUND
      modifies this`log, pager`file
      ensures pager.Valid() && oldRootId == |old(pager.file)| && |pager.file| == |old(pager.file)| + 1
      ensures OnlyTouches(old(pager.file), pager.file, {})
      ensures Stored(pager.file, pager.checksum, tree.(id := oldRootId))
      ensures Redoes(old(pager.file), old(log), pager.file, log, pager.checksum)
    {
      ghost var f0, log0 := pager.file, log;
      oldRootId := AllocatePage();
      EncodedSize(tree);
      NodeNumbersFit(tree, oldRootId);
      var ok := SaveNode(oldRootId, root);
      BlankThenSave(f0, Seal(Zeros(PAGE_SIZE), pager.checksum), pager.file[oldRootId]);
      LogOne(f0, log0, oldRootId, ToBytes(root).value, pager.checksum);
      MovedStored(f0, pager.file, pager.checksum, tree, oldRootId);
    }

    /** Saving a node whose subtrees are stored stores the whole tree, or fails for its size. */
    method SaveOwn(pageId: nat, node: Node, ghost t: Tree) returns (ok: bool)
      requires pager.Valid() && node == NodeOf(t) && pageId == t.id && pageId < |pager.file|
      requires Proper(t) && |WriteNode(node)| == Size(t) && StoredBelow(pager.file, pager.checksum, t)
      requires Size(t) <= NODE_LIMIT ==> Encodable(node)
      modifies this`log, pager`file
      ensures pager.Valid() && (ok <==> Size(t) <= NODE_LIMIT)
      ensures |pager.file| == |old(pager.file)| && OnlyTouches(old(pager.file), pager.file, {pageId})
      ensures ok ==> Stored(pager.file, pager.checksum, t)
      ensures !ok ==> pager.file == old(pager.file)
      ensures Redoes(old(pager.file), old(log), pager.file, log, pager.checksum)
    {
      ghost var f, l := pager.file, log;
      NothingToRedo(f, l, pager.checksum);
      ok := SaveNode(pageId, node);
      if ok {
        SelfStored(f, pager.file, pager.checksum, t);
        LogOne(f, l, pageId, ToBytes(node).value, pager.checksum);
      }
    }
  }

  /** The empty root leaf in a file of one page. */
  lemma EmptyRootFits(crc: Checksum)
    ensures ToBytes(EMPTY_ROOT).Ok?
    ensures var (page, t) := (Seal(ToBytes(EMPTY_ROOT).value, crc), Leaf(0, [], [], None));
      Entered([page], crc, t, 0) && Ids(t) == Range(0, 1) && Contents(t) == map[]
  {
    hide Encodable, FromBytes, Seal;
    var t := Leaf(0, [], [], None);
    EncodedSize(t);
    FittingNodeIsEncodable(t);
    PageRoundTrip(EMPTY_ROOT, crc);
    SealIsIntact(ToBytes(EMPTY_ROOT).value, crc);
    assert Range(0, 1) == {0};
    assert KeySet(t) == {};
  }

  lemma EmptyRootChained(crc: Checksum)
    ensures ToBytes(EMPTY_ROOT).Ok?
    ensures var (page, t) := (Seal(ToBytes(EMPTY_ROOT).value, crc), Leaf(0, [], [], None));
      ChainStored([page], crc, [t], t) && Chained(t, None)
  {
    hide ToBytes, Seal, Holds, NodeOf;
    EmptyRootFits(crc);
    var t := Leaf(0, [], [], None);
    EmptyIsChainable();
    assert Entered([Seal(ToBytes(EMPTY_ROOT).value, crc)], crc, t, 0);
  }

  /** A leaf after an insertion is in the same page and links to the same one. */
  lemma LeafInsertedAgain(t: Tree, key: Key, val: Val)
    requires Shape(t, 0)
    ensures t.Leaf? && |t.keys| == |t.vals|
    ensures var t' := LeafInsert(t, key, val); t'.Leaf? && t'.id == t.id && t'.next == t.next && Shape(t', 0)
  {
  }

  lemma RangeGrows(t: Tree, t': Tree, n: nat, n': nat)
    requires Ids(t) == Range(0, n) && UsesPages(t, t', n, n')
    ensures Ids(t') == Range(0, n')
  {
  }
}
