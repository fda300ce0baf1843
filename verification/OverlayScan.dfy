/** The hybrid table scan: live records of the memory tier first, then the tree's leaf chain. */
module OverlayScans {
  import opened Keys
  import opened Limits
  import opened Codec
  import opened Trees
  import opened TreeScan

  // ---------------------------------------------------------------- records

  /** A stored record: its row bytes, version, tombstone mark, and timestamp as an unsigned 64-bit pattern. */
  datatype StoredRecord = StoredRecord(value: Bytes, version: nat, isDeleted: bool, timestamp: nat)

  function WriteStored(r: StoredRecord): Bytes {
    WriteBytes(r.value) + (LE(r.version, 8) + ([if r.isDeleted then 1 else 0] + LE(r.timestamp, 8)))
  }

  function ReadStored(b: Bytes): Option<StoredRecord> {
    match ReadBytes(b)
    case Bad => None
    case Got(value, b1) =>
      match ReadInt(b1, 8)
      case Bad => None
      case Got(version, b2) =>
        if b2 == [] || b2[0] > 1 then None
        else
          match ReadInt(b2[1..], 8)
          case Bad => None
          case Got(timestamp, _) => Some(StoredRecord(value, version, b2[0] == 1, timestamp))
  }

  lemma StoredRoundTrip(r: StoredRecord)
    requires |r.value| < U64_BOUND && r.version < U64_BOUND && r.timestamp < U64_BOUND
    ensures ReadStored(WriteStored(r)) == Some(r)
  {
    var flag: byte := if r.isDeleted then 1 else 0;
    var b2 := [flag] + LE(r.timestamp, 8);
    ReadBytesOfWrite(r.value, LE(r.version, 8) + b2);
    ReadU64(r.version, b2);
    ReadU64AtEnd(r.timestamp);
    assert b2[1..] == LE(r.timestamp, 8);
  }

  lemma StoredSize(r: StoredRecord)
    ensures |WriteStored(r)| == 25 + |r.value|
  {
  }

  // ------------------------------------------------------------ scan meaning

  datatype ScanRow = ScanRow(key: Key, record: StoredRecord)

  /** The record a copy shows to a scan at version v: none if it is newer or deleted. */
  function Shown(data: Val, v: nat): Option<StoredRecord> {
    match ReadStored(data)
    case None => None
    case Some(r) => if r.version <= v && !r.isDeleted then Some(r) else None
  }

  /** Which memory copies keep the scan from looking at the tree: the code marks live ones only. */
  datatype Marks = LiveOnly | AlsoTombstones

  /** The copy is visible at version v, and of a kind that is marked. */
  predicate Marked(data: Val, v: nat, marks: Marks) {
    VersionAtMost(data, v) && (marks.AlsoTombstones? || !ReadStored(data).value.isDeleted)
  }

  /** What the scan answers for a key: the memory copy if it is marked, else the tree copy. */
  function Answer(memory: Option<Val>, inTree: Option<Val>, v: nat, marks: Marks): Option<StoredRecord> {
    if memory.Some? && Marked(memory.value, v, marks) then Shown(memory.value, v)
    else if inTree.Some? then Shown(inTree.value, v)
    else None
  }

  predicate VersionAtMost(data: Val, v: nat) {
    var r := ReadStored(data);
    r.Some? && r.value.version <= v
  }

  /** What a scan at version v should answer: the newest copy not newer than v, unless it is deleted. */
  function Meaning(memory: Option<Val>, inTree: Option<Val>, v: nat): Option<StoredRecord> {
    var m := if memory.Some? && VersionAtMost(memory.value, v) then ReadStored(memory.value) else None;
    var t := if inTree.Some? && VersionAtMost(inTree.value, v) then ReadStored(inTree.value) else None;
    var newest := if m.None? then t else if t.None? then m else if t.value.version > m.value.version then t else m;
    if newest.Some? && newest.value.isDeleted then None else newest
  }

  /** The tree copy is never newer than the memory copy. */
  predicate TreeNotNewer(memory: Option<Val>, inTree: Option<Val>) {
    memory.Some? && inTree.Some? && ReadStored(memory.value).Some? && ReadStored(inTree.value).Some? ==>
      ReadStored(inTree.value).value.version <= ReadStored(memory.value).value.version
  }

  /** A tombstone in memory, visible at v but not marked, over a live visible tree copy. */
  predicate Resurrects(memory: Option<Val>, inTree: Option<Val>, v: nat, marks: Marks) {
    && marks.LiveOnly?
    && memory.Some? && VersionAtMost(memory.value, v) && ReadStored(memory.value).value.isDeleted
    && inTree.Some? && Shown(inTree.value, v).Some?
  }

  /** The scan answers as it should, for a key, exactly when no tombstone is overlooked. */
  lemma AnswerIsMeaningIff(memory: Option<Val>, inTree: Option<Val>, v: nat, marks: Marks)
    requires TreeNotNewer(memory, inTree)
    ensures Answer(memory, inTree, v, marks) == Meaning(memory, inTree, v) <==> !Resurrects(memory, inTree, v, marks)
  {
    hide ReadStored;
  }

  function Find(m: map<Key, Val>, k: Key): Option<Val> {
    if k in m then Some(m[k]) else None
  }

  // ----------------------------------------------------------- rows of a scan

  /** The rows the tree part adds for entries met in order, given the keys processed so far. */
  function TreeRows(ps: seq<(Key, Val)>, prefix: Bytes, v: nat, processed: set<Key>): seq<ScanRow>
    decreases |ps|
  {
    if ps == [] then []
    else
      var (k, data) := ps[0];
      if k !in processed && prefix <= k && Shown(data, v).Some? then
        [ScanRow(k, Shown(data, v).value)] + TreeRows(ps[1..], prefix, v, processed + {k})
      else TreeRows(ps[1..], prefix, v, processed)
  }

  /** Every copy under the prefix deserialises. */
  ghost predicate Readable(cache: map<Key, Val>, ps: seq<(Key, Val)>, prefix: Bytes) {
    && (forall k :: k in cache && prefix <= k ==> ReadStored(cache[k]).Some?)
    && (forall i :: 0 <= i < |ps| && prefix <= ps[i].0 ==> ReadStored(ps[i].1).Some?)
  }

  ghost predicate OneRowPerKey(rows: seq<ScanRow>) {
    forall i, j :: 0 <= i < j < |rows| ==> rows[i].key != rows[j].key
  }

  /** The rows of the memory part, in any order, with the keys they process. */
  ghost predicate MemoryRows(cache: map<Key, Val>, prefix: Bytes, v: nat, marks: Marks, rows: seq<ScanRow>, processed: set<Key>) {
    && OneRowPerKey(rows)
    && (forall k :: k in processed <==> k in cache && prefix <= k && Marked(cache[k], v, marks))
    && (forall row :: row in rows <==> row.key in processed && Shown(cache[row.key], v) == Some(row.record))
  }

  /** What a scan at version v takes from a list of entries for a key: its first copy that shows something. */
  function FirstShown(ps: seq<(Key, Val)>, q: Key, v: nat): Option<StoredRecord>
    decreases |ps|
  {
    if ps == [] then None
    else if ps[0].0 == q && Shown(ps[0].1, v).Some? then Shown(ps[0].1, v)
    else FirstShown(ps[1..], q, v)
  }

  /** The tree part adds, for every key not processed before, the first copy that shows something. */
  lemma {:induction false} TreeRowsMember(ps: seq<(Key, Val)>, prefix: Bytes, v: nat, processed: set<Key>, row: ScanRow)
    ensures row in TreeRows(ps, prefix, v, processed) <==>
      row.key !in processed && prefix <= row.key && FirstShown(ps, row.key, v) == Some(row.record)
    decreases |ps|
  {
    hide Shown;
    if ps != [] {
      var (k, data) := ps[0];
      var taken := k !in processed && prefix <= k && Shown(data, v).Some?;
      TreeRowsMember(ps[1..], prefix, v, if taken then processed + {k} else processed, row);
    }
  }

  lemma {:induction false} TreeRowsOncePerKey(ps: seq<(Key, Val)>, prefix: Bytes, v: nat, processed: set<Key>)
    ensures OneRowPerKey(TreeRows(ps, prefix, v, processed))
    decreases |ps|
  {
    hide Shown;
    if ps != [] {
      var (k, data) := ps[0];
      if k !in processed && prefix <= k && Shown(data, v).Some? {
        TreeRowsOncePerKey(ps[1..], prefix, v, processed + {k});
        var later := TreeRows(ps[1..], prefix, v, processed + {k});
        forall j | 0 <= j < |later|
          ensures later[j].key != k
        {
          TreeRowsMember(ps[1..], prefix, v, processed + {k}, later[j]);
        }
      } else {
        TreeRowsOncePerKey(ps[1..], prefix, v, processed);
      }
    }
  }

  /** What a scan that lists the entries ps answers for a key. */
  function ListAnswer(memory: Option<Val>, ps: seq<(Key, Val)>, q: Key, v: nat, marks: Marks): Option<StoredRecord> {
    if memory.Some? && Marked(memory.value, v, marks) then Shown(memory.value, v) else FirstShown(ps, q, v)
  }

  /** A complete scan over listed entries, in whatever order and however often they are listed: one row per key that has an answer. */
  ghost predicate ListScanIs(cache: map<Key, Val>, ps: seq<(Key, Val)>, prefix: Bytes, v: nat, marks: Marks, rows: seq<ScanRow>) {
    && OneRowPerKey(rows)
    && forall row :: row in rows <==>
         prefix <= row.key && ListAnswer(Find(cache, row.key), ps, row.key, v, marks) == Some(row.record)
  }

  lemma WholeScan(cache: map<Key, Val>, ps: seq<(Key, Val)>, prefix: Bytes, v: nat, marks: Marks, rows: seq<ScanRow>, processed: set<Key>)
    requires MemoryRows(cache, prefix, v, marks, rows, processed)
    ensures ListScanIs(cache, ps, prefix, v, marks, rows + TreeRows(ps, prefix, v, processed))
  {
    hide TreeRows, Shown, Marked, FirstShown;
    var more := TreeRows(ps, prefix, v, processed);
    forall row
      ensures row in rows + more <==>
        prefix <= row.key && ListAnswer(Find(cache, row.key), ps, row.key, v, marks) == Some(row.record)
    {
      TreeRowsMember(ps, prefix, v, processed, row);
    }
    TreeRowsOncePerKey(ps, prefix, v, processed);
    forall j | 0 <= j < |more|
      ensures more[j].key !in processed
    {
      TreeRowsMember(ps, prefix, v, processed, more[j]);
    }
    assert forall i :: 0 <= i < |rows| ==> rows[i] in rows && rows[i].key in processed;
  }

  // ------------------------------------------------- the scan against search

  /** A complete scan: one row per key, under the prefix, exactly where the overlay of the two tiers answers. */
  ghost predicate ScanIs(cache: map<Key, Val>, t: Tree, prefix: Bytes, v: nat, marks: Marks, rows: seq<ScanRow>) {
    && OneRowPerKey(rows)
    && forall row :: row in rows <==>
         prefix <= row.key && Answer(Find(cache, row.key), Lookup(t, row.key), v, marks) == Some(row.record)
  }

  /** What a copy found by search shows. */
  function FoundShows(found: Option<Val>, v: nat): Option<StoredRecord> {
    if found.Some? then Shown(found.value, v) else None
  }

  /** Under the prefix, the listed entries show something else for the key than the copy that search finds. */
  ghost predicate Disagree(cache: map<Key, Val>, ps: seq<(Key, Val)>, t: Tree, prefix: Bytes, v: nat, marks: Marks, q: Key) {
    && prefix <= q && !(q in cache && Marked(cache[q], v, marks))
    && FirstShown(ps, q, v) != FoundShows(Lookup(t, q), v)
  }

  /** A scan answers what search would if and only if, wherever memory does not answer, the first copy listed shows what the found one does. */
  lemma ScanIsIff(cache: map<Key, Val>, ps: seq<(Key, Val)>, t: Tree, prefix: Bytes, v: nat, marks: Marks, rows: seq<ScanRow>)
    requires ListScanIs(cache, ps, prefix, v, marks, rows)
    ensures ScanIs(cache, t, prefix, v, marks, rows) <==> forall q :: !Disagree(cache, ps, t, prefix, v, marks, q)
  {
    hide Shown, Marked, FirstShown, Lookup, OneRowPerKey;
    if q :| Disagree(cache, ps, t, prefix, v, marks, q) {
      var listed := ListAnswer(Find(cache, q), ps, q, v, marks);
      var found := Answer(Find(cache, q), Lookup(t, q), v, marks);
      assert listed.Some? ==> ScanRow(q, listed.value) in rows;
      assert found.Some? && (listed.None? || listed != found) ==> ScanRow(q, found.value) !in rows;
    } else {
      forall q: Key | prefix <= q
        ensures ListAnswer(Find(cache, q), ps, q, v, marks) == Answer(Find(cache, q), Lookup(t, q), v, marks)
      {
        assert !Disagree(cache, ps, t, prefix, v, marks, q);
      }
    }
  }

  lemma {:induction false} NothingListedShows(ps: seq<(Key, Val)>, q: Key, v: nat)
    requires forall i :: 0 <= i < |ps| ==> ps[i].0 != q
    ensures FirstShown(ps, q, v) == None
  {
    if ps != [] {
      NothingListedShows(ps[1..], q, v);
    }
  }

  lemma {:induction false} OnlyCopyShows(ps: seq<(Key, Val)>, i: nat, v: nat)
    requires InKeyOrder(ps) && i < |ps|
    ensures FirstShown(ps, ps[i].0, v) == Shown(ps[i].1, v)
  {
    hide Shown, Less;
    if i > 0 {
      Trichotomy(ps[0].0, ps[i].0);
      OnlyCopyShows(ps[1..], i - 1, v);
    } else {
      forall j | 0 <= j < |ps[1..]|
        ensures ps[1..][j].0 != ps[0].0
      {
        Trichotomy(ps[0].0, ps[j + 1].0);
      }
      NothingListedShows(ps[1..], ps[0].0, v);
    }
  }

  /** Where the list is what search answers, in key order, the first copy listed is the one found. */
  lemma FirstShownIsFound(t: Tree, ps: seq<(Key, Val)>, q: Key, v: nat)
    requires ScansTo(t, ps)
    ensures FirstShown(ps, q, v) == FoundShows(Lookup(t, q), v)
  {
    hide Shown, Lookup, InKeyOrder, FirstShown;
    if i :| 0 <= i < |ps| && ps[i].0 == q {
      assert (ps[i].0, ps[i].1) in ps;
      OnlyCopyShows(ps, i, v);
    } else {
      NothingListedShows(ps, q, v);
      if Lookup(t, q).Some? {
        assert (q, Lookup(t, q).value) in ps;
      }
    }
  }

  lemma OrderedScanIs(cache: map<Key, Val>, ps: seq<(Key, Val)>, t: Tree, prefix: Bytes, v: nat, marks: Marks, rows: seq<ScanRow>)
    requires ListScanIs(cache, ps, prefix, v, marks, rows) && ScansTo(t, ps)
    ensures ScanIs(cache, t, prefix, v, marks, rows)
  {
    hide Shown, Marked, FirstShown, Lookup, ListScanIs, ScanIs, ScansTo;
    forall q
      ensures !Disagree(cache, ps, t, prefix, v, marks, q)
    {
      FirstShownIsFound(t, ps, q, v);
    }
    ScanIsIff(cache, ps, t, prefix, v, marks, rows);
  }

  /** The rows are the newest visible copies, deleted ones left out. */
  ghost predicate RowsMean(cache: map<Key, Val>, t: Tree, prefix: Bytes, v: nat, rows: seq<ScanRow>) {
    forall row :: row in rows <==> prefix <= row.key && Meaning(Find(cache, row.key), Lookup(t, row.key), v) == Some(row.record)
  }

  /** Meaning of a whole scan: right for every key if and only if no unmarked tombstone shadows a live tree copy. */
  lemma ScanMeaning(cache: map<Key, Val>, t: Tree, prefix: Bytes, v: nat, marks: Marks, rows: seq<ScanRow>)
    requires ScanIs(cache, t, prefix, v, marks, rows)
    requires forall k :: TreeNotNewer(Find(cache, k), Lookup(t, k))
    ensures RowsMean(cache, t, prefix, v, rows) <==>
      forall k :: prefix <= k ==> !Resurrects(Find(cache, k), Lookup(t, k), v, marks)
  {
    hide Answer, Meaning, Lookup, TreeNotNewer, OneRowPerKey, Find;
    forall k
      ensures Answer(Find(cache, k), Lookup(t, k), v, marks) == Meaning(Find(cache, k), Lookup(t, k), v)
         <==> !Resurrects(Find(cache, k), Lookup(t, k), v, marks)
    {
      AnswerIsMeaningIff(Find(cache, k), Lookup(t, k), v, marks);
    }
    if k :| prefix <= k && Resurrects(Find(cache, k), Lookup(t, k), v, marks) {
      ResurrectedRow(Find(cache, k), Lookup(t, k), v, marks);
      var wrong := ScanRow(k, Answer(Find(cache, k), Lookup(t, k), v, marks).value);
      assert wrong in rows;
    }
  }

  lemma ResurrectedRow(memory: Option<Val>, inTree: Option<Val>, v: nat, marks: Marks)
    requires Resurrects(memory, inTree, v, marks)
    ensures Answer(memory, inTree, v, marks).Some?
  {
    hide ReadStored;
  }

  /** With tombstones marked as processed, a scan always returns exactly the newest visible live copies. */
  lemma RepairedScanIsMeaning(cache: map<Key, Val>, t: Tree, prefix: Bytes, v: nat, rows: seq<ScanRow>)
    requires ScanIs(cache, t, prefix, v, AlsoTombstones, rows)
    requires forall k :: TreeNotNewer(Find(cache, k), Lookup(t, k))
    ensures RowsMean(cache, t, prefix, v, rows)
  {
    ScanMeaning(cache, t, prefix, v, AlsoTombstones, rows);
  }
}
