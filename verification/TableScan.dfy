/** The scan as the engine runs it, over the cache of a memory tier and the pages of a tree. */
module TableScans {
  import opened Keys
  import opened Codec
  import opened Pagers
  import opened Trees
  import opened TreeOrder
  import opened TreePages
  import opened TreeRange
  import opened TreeRuns
  import opened TreeFit
  import opened TreeFailure
  import opened TreeScan
  import opened TreeLeaves
  import opened TreeChain
  import opened NodePages
  import opened TreeStores
  import opened ChainStores
  import opened BPlusTrees
  import opened OverlayScans

  // ------------------------------------------------------ scan and search

  /** A copy that a scan shows is not what the last copy of its key shows, which is the one search finds. */
  ghost predicate Overtaken(cache: map<Key, Val>, ps: seq<(Key, Val)>, prefix: Bytes, v: nat, marks: Marks, q: Key) {
    && prefix <= q && !(q in cache && Marked(cache[q], v, marks))
    && FirstShown(ps, q, v) != FoundShows(LastOf(ps, q), v)
  }

  /**
   * With dead copies and no failed insertion: a scan answers what search does
   * if and only if under no key that memory leaves to the tree the first copy
   * shown differs from the last one listed.
   */
  lemma WeakScanIff(cache: map<Key, Val>, t: Tree, h: nat, prefix: Bytes, v: nat, marks: Marks, rows: seq<ScanRow>)
    requires Shape(t, h) && Ordered(t, Weak) && ListScanIs(cache, Listing(Leaves(t)), prefix, v, marks, rows)
    ensures ScanIs(cache, t, prefix, v, marks, rows) <==> forall q :: !Overtaken(cache, Listing(Leaves(t)), prefix, v, marks, q)
  {
    hide Shown, Shape, Ordered, ListScanIs, ScanIs, Lookup, FirstShown, LastOf, Marked, FoundShows, Leaves;
    var ps := Listing(Leaves(t));
    forall q
      ensures Overtaken(cache, ps, prefix, v, marks, q) <==> Disagree(cache, ps, t, prefix, v, marks, q)
    {
      LastIsFound(t, h, q);
    }
    ScanIsIff(cache, ps, t, prefix, v, marks, rows);
  }

  lemma {:induction false} FirstShownConcat(a: seq<(Key, Val)>, b: seq<(Key, Val)>, q: Key, v: nat)
    ensures FirstShown(a + b, q, v) == if FirstShown(a, q, v).Some? then FirstShown(a, q, v) else FirstShown(b, q, v)
  {
    hide Shown;
    if a == [] {
      assert a + b == b;
    } else {
      assert (a + b)[1..] == a[1..] + b;
      FirstShownConcat(a[1..], b, q, v);
    }
  }

  lemma OneShown(p: (Key, Val), q: Key, v: nat)
    ensures FirstShown([p], q, v) == if p.0 == q then Shown(p.1, v) else None
  {
    hide Shown;
    assert [p][1..] == [];
  }

  /** An insertion, successful or not, changes what a scan shows for its own key only. */
  lemma ListedShowsElsewhere(ps: seq<(Key, Val)>, ps': seq<(Key, Val)>, k: Key, u: Val, saved: bool, q: Key, v: nat)
    requires Listed(ps, ps', k, u, saved) && q != k
    ensures FirstShown(ps', q, v) == FirstShown(ps, q, v)
  {
    hide Shown, FirstShown;
    if saved {
      var i :| 0 <= i <= |ps| && PutsAt(ps, ps', k, u, i);
      OneShown((k, u), q, v);
      FirstShownConcat(ps[..i] + [(k, u)], ps[i..], q, v);
      FirstShownConcat(ps[..i], [(k, u)], q, v);
      FirstShownConcat(ps[..i], ps[i..], q, v);
      assert ps == ps[..i] + ps[i..];
      if i < |ps| && ps[i].0 == k {
        var rest := ps[i + 1..];
        OneShown(ps[i], q, v);
        FirstShownConcat([ps[i]], rest, q, v);
        FirstShownConcat(ps[..i] + [(k, u)], rest, q, v);
        assert ps[i..] == [ps[i]] + rest && ps[i := (k, u)] == ps[..i] + [(k, u)] + rest;
      }
    }
  }

  /**
   * From a tree on which scan and search agree, after an attempt on another
   * key: they disagree about a key exactly when the attempt cut it off and its
   * entry shows something.
   */
  lemma ScanAfterFailureIff(ls: seq<Tree>, t: Tree, h: nat, k: Key, u: Val, n: nat, tie: Tie, q: Key, v: nat)
    requires Chainable(ls, t, h, n) && Ranged(t, Strict) && !MeetsClashAtInsert(t, h, k, n, tie) && q != k
    requires FirstShown(Listing(ls), q, v) == FoundShows(Lookup(t, q), v)
    ensures var (t', ps') := (AttemptInsert(t, h, k, u, n, tie).tree, Listing(InsertChain(ls, t, h, k, u, n, tie)));
      FirstShown(ps', q, v) == FoundShows(Lookup(t', q), v) <==>
        !(CutAtInsert(t, h, k, u, n, tie, q) && FoundShows(Lookup(t, q), v).Some?)
  {
    hide Shown, Listing, Lookup, Shape, Ranged, Listed, FirstShown, ChainOf, Proper, Ids, AttemptInsert, InsertChain, CutAtInsert;
    FailureLosesRightHalves(t, h, k, u, n, tie, q);
    InsertListing(ls, t, h, k, u, n, tie);
    ListedShowsElsewhere(Listing(ls), Listing(InsertChain(ls, t, h, k, u, n, tie)), k, u, LeafSavedAtInsert(t, h, k, u, n, tie), q, v);
  }

  // ------------------------------------------------------------- the chain

  lemma ScanFrom(ls: seq<Tree>, i: nat)
    requires LeafRun(ls) && i < |ls|
    ensures LeafRun(ls[i..]) && LeafRun(ls[i + 1..])
    ensures Scan(ls[i..]) == Pairs(ls[i].keys, ls[i].vals) + Scan(ls[i + 1..])
  {
    assert ls[i..][1..] == ls[i + 1..];
  }

  // ---------------------------------------------------------------- the scan

  /** The memory part of the scan, over the entries in arbitrary order. */
  method ScanMemory(cache: map<Key, Val>, prefix: Bytes, v: nat, marks: Marks)
    returns (r: Result<seq<ScanRow>>, processed: set<Key>)
    ensures r.Ok? ==> MemoryRows(cache, prefix, v, marks, r.value, processed)
    ensures Readable(cache, [], prefix) ==> r.Ok?
  {
    hide ReadStored;
    var rows := [];
    processed := {};
    var rest := cache.Keys;
    while rest != {}
      invariant rest <= cache.Keys
      invariant MemoryRows(cache - rest, prefix, v, marks, rows, processed)
      decreases rest
    {
      var k :| k in rest;
      ghost var before := cache - rest;
      rest := rest - {k};
      assert cache - rest == before[k := cache[k]];
      if prefix <= k {
        var record := ReadStored(cache[k]);
        if record.None? {
          return Err("record does not deserialise"), {};
        }
        if record.value.version <= v && !record.value.isDeleted {
          assert forall i :: 0 <= i < |rows| ==> rows[i] in rows && rows[i].key in processed;
          rows := rows + [ScanRow(k, record.value)];
          processed := processed + {k};
        } else if marks.AlsoTombstones? && record.value.version <= v {
          processed := processed + {k};
        }
      }
    }
    assert cache - {} == cache;
    r := Ok(rows);
  }

  /** One leaf: its entries in order, skipping processed keys. */
  method ScanLeaf(node: Node, prefix: Bytes, v: nat, rows: seq<ScanRow>, processed: set<Key>, ghost later: seq<(Key, Val)>)
    returns (ok: bool, rows': seq<ScanRow>, processed': set<Key>)
    requires |node.keys| == |node.values|
    ensures ok ==>
      rows' + TreeRows(later, prefix, v, processed') == rows + TreeRows(Pairs(node.keys, node.values) + later, prefix, v, processed)
    ensures Readable(map[], Pairs(node.keys, node.values), prefix) ==> ok
  {
    hide ReadStored, Pairs;
    ghost var ps := Pairs(node.keys, node.values);
    rows', processed' := rows, processed;
    var i := 0;
    assert ps[0..] == ps;
    while i < |node.keys|
      invariant 0 <= i <= |node.keys|
      invariant rows' + TreeRows(ps[i..] + later, prefix, v, processed') == rows + TreeRows(ps + later, prefix, v, processed)
    {
      var key := node.keys[i];
      assert (ps[i..] + later)[0] == ps[i] == (key, node.values[i]);
      assert (ps[i..] + later)[1..] == ps[i + 1..] + later;
      i := i + 1;
      if key in processed' {
        continue;
      }
      if prefix <= key {
        var record := ReadStored(node.values[i - 1]);
        if record.None? {
          return false, rows', processed';
        }
        if record.value.version <= v && !record.value.isDeleted {
          rows' := rows' + [ScanRow(key, record.value)];
          processed' := processed' + {key};
        }
      }
    }
    assert ps[i..] + later == later;
    ok := true;
  }

  /** The descent to the leftmost leaf. */
  method LeftmostLeaf(tree: BPlusTree) returns (pageId: nat)
    requires tree.Valid()
    ensures pageId == FirstLeaf(tree.tree)
  {
    hide Shape, Stored, NodeOf, FirstLeaf, Entered;
    pageId := 0;
    ghost var t, h := tree.tree, tree.height;
    EnteredHas(tree.pager.file, tree.pager.checksum, t, h);
    var node := tree.NodeAt(pageId, t);
    LeftStep(tree.pager.file, tree.pager.checksum, t, h);
    while node.nodeType.Internal? && node.children != []
      invariant Shape(t, h) && Stored(tree.pager.file, tree.pager.checksum, t)
      invariant node == NodeOf(t) && t.id == pageId && FirstLeaf(t) == FirstLeaf(tree.tree)
      decreases h
    {
      LeftStep(tree.pager.file, tree.pager.checksum, t, h);
      pageId := node.children[0];
      t, h := t.kids[0], h - 1;
      node := tree.NodeAt(pageId, t);
    }
    LeftStep(tree.pager.file, tree.pager.checksum, t, h);
  }

  lemma LeftStep(f: seq<Bytes>, crc: Checksum, t: Tree, h: nat)
    requires Shape(t, h) && Stored(f, crc, t)
    ensures var node := NodeOf(t);
      if node.nodeType.Internal? && node.children != [] then
        && t.Branch? && h > 0 && t.kids != [] && node.children[0] == t.kids[0].id
        && Shape(t.kids[0], h - 1) && Stored(f, crc, t.kids[0]) && FirstLeaf(t) == FirstLeaf(t.kids[0])
      else FirstLeaf(t) == t.id
  {
    assert StoredBelow(f, crc, t);
  }

  /** Where the chain goes on: nowhere after its end, or from a page that links to itself. */
  function NextPage(next: Option<nat>, current: nat): Option<nat> {
    if next == Some(current) then None else next
  }

  /**
   * The whole scan of a table at a version, without an index: for every key the
   * memory copy if that is marked, and else the first copy in the chain that
   * shows something. That is what search finds where the chain lists what
   * search answers, in key order.
   */
  method ScanTable(tree: BPlusTree, prefix: Bytes, v: nat, marks: Marks) returns (r: Result<seq<ScanRow>>)
    requires tree.Valid()
    ensures r.Ok? ==> ListScanIs(tree.memory.cache, Listing(tree.chain), prefix, v, marks, r.value)
    ensures r.Ok? && ScansTo(tree.tree, Listing(tree.chain)) ==> ScanIs(tree.memory.cache, tree.tree, prefix, v, marks, r.value)
    ensures Readable(tree.memory.cache, Listing(tree.chain), prefix) ==> r.Ok?
  {
    var processed;
    r, processed := ScanMemory(tree.memory.cache, prefix, v, marks);
    if r.Err? {
      return;
    }
    WholeScan(tree.memory.cache, Listing(tree.chain), prefix, v, marks, r.value, processed);
    r := ScanChain(tree, prefix, v, r.value, processed);
    if r.Ok? && ScansTo(tree.tree, Listing(tree.chain)) {
      OrderedScanIs(tree.memory.cache, Listing(tree.chain), tree.tree, prefix, v, marks, r.value);
    }
  }

  /** As long as no insertion failed, the chain lists what search answers, in key order, if and only if there are no dead copies. */
  lemma WholeListing(tree: BPlusTree)
    requires tree.Valid() && tree.Whole() && Ordered(tree.tree, Weak)
    ensures tree.chain == Leaves(tree.tree)
    ensures ScansTo(tree.tree, Listing(tree.chain)) <==> Ordered(tree.tree, Strict)
  {
    hide Ordered, ScansTo, Chained, Ids, ChainOf, Proper, Stored, ChainHeld, Shape, Fits;
    var t := tree.tree;
    EnteredHas(tree.pager.file, tree.pager.checksum, t, tree.height);
    EnteredChainable(tree.pager.file, tree.pager.checksum, tree.chain, t, tree.height);
    WholeChainIsLeaves(tree.chain, t, tree.height, |tree.pager.file|);
    ScanIsContentsIff(t, tree.height);
  }

  /** The tree part: the leaf chain from its left end. */
  method ScanChain(tree: BPlusTree, prefix: Bytes, v: nat, rows0: seq<ScanRow>, processed0: set<Key>)
    returns (r: Result<seq<ScanRow>>)
    requires tree.Valid()
    ensures r.Ok? ==> r.value == rows0 + TreeRows(Listing(tree.chain), prefix, v, processed0)
    ensures Readable(map[], Listing(tree.chain), prefix) ==> r.Ok?
  {
    hide Stored, Proper, Shape, Chained, Tidy, NodeOf, Holds, TreeRows, Pairs, Readable, LeafIn, Entered;
    ghost var ls, f, crc := tree.chain, tree.pager.file, tree.pager.checksum;
    ChainLinks(ls, tree.tree, |f|);
    var pageId := LeftmostLeaf(tree);
    var rows, processed := rows0, processed0;
    ghost var i := 0;
    assert ls[0..] == ls;
    while true
      invariant 0 <= i < |ls| && pageId == ls[i].id && LeafRun(ls[i..])
      invariant rows + TreeRows(Scan(ls[i..]), prefix, v, processed) == rows0 + TreeRows(Scan(ls), prefix, v, processed0)
      decreases |ls| - i
    {
      ScanFrom(ls, i);
      var read := tree.ReadTreeNode(pageId);
      assert Holds(f, crc, pageId, NodeOf(ls[i])) by {
        assert ls[i] in ls;
      }
      var node := read.value;
      LeafNodeOf(ls[i]);
      ReadablePart(ls, i, prefix);
      var ok;
      ok, rows, processed := ScanLeaf(node, prefix, v, rows, processed, Scan(ls[i + 1..]));
      if !ok {
        return Err("record does not deserialise");
      }
      assert LinksOn(ls, i, None);
      assert node.nextLeaf != Some(pageId) by {
        assert i + 1 < |ls| ==> ls[i].id != ls[i + 1].id;
      }
      match NextPage(node.nextLeaf, pageId)
      case Some(next) =>
        pageId := next;
        i := i + 1;
      case None =>
        EndOfChain(ls, prefix, v, processed);
        assert rows + [] == rows;
        return Ok(rows);
    }
  }

  lemma ChainLinks(ls: seq<Tree>, t: Tree, n: nat)
    requires ChainOf(ls, t, n)
    ensures ls != [] && LeafRun(ls) && IsChain(ls, None) && DistinctIds(ls) && ls[0].id == FirstLeaf(t)
  {
  }

  lemma LeafNodeOf(l: Tree)
    requires l.Leaf?
    ensures NodeOf(l) == Node(LeafNode, l.keys, [], l.vals, l.next)
  {
  }

  lemma EndOfChain(ls: seq<Tree>, prefix: Bytes, v: nat, processed: set<Key>)
    ensures LeafRun(ls[|ls|..]) && TreeRows(Scan(ls[|ls|..]), prefix, v, processed) == []
  {
    assert ls[|ls|..] == [];
  }

  lemma {:induction false} ReadablePart(ls: seq<Tree>, i: nat, prefix: Bytes)
    requires LeafRun(ls) && i < |ls|
    ensures Readable(map[], Scan(ls), prefix) ==> Readable(map[], Pairs(ls[i].keys, ls[i].vals), prefix)
  {
    hide ReadStored, Pairs;
    var first := Pairs(ls[0].keys, ls[0].vals);
    if i == 0 {
      assert forall j :: 0 <= j < |first| ==> Scan(ls)[j] == first[j];
    } else {
      var rest := Scan(ls[1..]);
      assert forall j :: 0 <= j < |rest| ==> Scan(ls)[|first| + j] == rest[j];
      ReadablePart(ls[1..], i - 1, prefix);
    }
  }
}
