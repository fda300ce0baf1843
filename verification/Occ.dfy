/** Optimistic transactions over versioned records: the state, its steps, and every run of them. */
module Occ {
  import opened Keys

  type Column = string
  type Row = map<Column, string>
  type Conn = nat

  datatype Record = Record(row: Row, version: nat, isDeleted: bool, timestamp: int)

  datatype Assignment = Assignment(column: Column, value: string)

  /** What a statement does to one key. */
  datatype Write = Update(assignments: seq<Assignment>) | Delete | Insert(record: Record)

  /** A transaction: pending images, and for each key the last statement that made its image. */
  datatype Tx = Tx(snapshot: nat, updates: map<Key, Record>, intents: map<Key, Write>)

  /** Writes that reached the store together: at which version, and for a transaction from which snapshot. */
  datatype Commit = Commit(version: nat, snapshot: Option<nat>, writes: map<Key, Write>)

  datatype Db = Db(store: map<Key, Record>, version: nat, active: map<Conn, Tx>, history: seq<Commit>)

  // ----------------------------------------------------------------- images

  function Assign(row: Row, assignments: seq<Assignment>): Row
    decreases |assignments|
  {
    if assignments == [] then row
    else Assign(row[assignments[0].column := assignments[0].value], assignments[1..])
  }

  /** The image a statement makes of the record it reads. */
  function Image(w: Write, r: Record, version: nat): Record {
    match w
    case Update(assignments) => r.(row := Assign(r.row, assignments), version := version)
    case Delete => r.(isDeleted := true, version := version)
    case Insert(rec) => rec.(version := version)
  }

  // ------------------------------------------------------------------ steps

  function Begin(d: Db, c: Conn): Db {
    d.(active := d.active[c := Tx(d.version, map[], map[])])
  }

  function Rollback(d: Db, c: Conn): Db {
    d.(active := d.active - {c})
  }

  /** One key of an UPDATE or DELETE: pending inside a transaction, committed at once outside. */
  function Modify(d: Db, c: Conn, k: Key, w: Write): Db
    requires k in d.store
  {
    if c in d.active then
      var tx := d.active[c];
      var image := Image(w, d.store[k], tx.snapshot + 1);
      d.(active := d.active[c := tx.(updates := tx.updates[k := image], intents := tx.intents[k := w])])
    else
      var v := d.version + 1;
      d.(version := v, store := d.store[k := Image(w, d.store[k], v)], history := d.history + [Commit(v, None, map[k := w])])
  }

  /** One row of an INSERT, under a new key; outside a transaction it takes the current version without raising it. */
  function AddRow(d: Db, c: Conn, k: Key, row: Row, timestamp: int): Db {
    var rec := Record(row, d.version, false, timestamp);
    if c in d.active then
      var tx := d.active[c];
      d.(active := d.active[c := tx.(updates := tx.updates[k := rec], intents := tx.intents[k := Insert(rec)])])
    else
      d.(store := d.store[k := rec], history := d.history + [Commit(d.version, None, map[k := Insert(rec)])])
  }

  /** Some key of the transaction was written after its snapshot. */
  ghost predicate Conflicts(d: Db, tx: Tx) {
    exists k :: k in tx.updates && k in d.store && d.store[k].version > tx.snapshot
  }

  function Stamped(updates: map<Key, Record>, version: nat): map<Key, Record> {
    map k | k in updates :: updates[k].(version := version)
  }

  /** COMMIT ends the transaction in either case; without conflict its images are stored at a new version. */
  ghost function CommitTx(d: Db, c: Conn): Db
    requires c in d.active
  {
    var tx := d.active[c];
    var ended := d.(active := d.active - {c});
    if Conflicts(d, tx) then ended
    else
      var v := d.version + 1;
      ended.(version := v, store := d.store + Stamped(tx.updates, v),
             history := d.history + [Commit(v, Some(tx.snapshot), tx.intents)])
  }

  // ------------------------------------------------------------------- runs

  datatype Step =
    | DoBegin(c: Conn)
    | DoRollback(c: Conn)
    | DoModify(c: Conn, k: Key, w: Write)
    | DoAddRow(c: Conn, k: Key, row: Row, timestamp: int)
    | DoCommit(c: Conn)

  /** Nobody has the key: neither the store nor a pending transaction. */
  ghost predicate Fresh(d: Db, k: Key) {
    k !in d.store && forall c :: c in d.active ==> k !in d.active[c].updates
  }

  /**
   * A statement modifies any stored record whose key its scan returns: the scan
   * may return it for a stale copy, so the record may be newer than the
   * snapshot, or a tombstone.
   */
  ghost predicate Can(d: Db, step: Step) {
    match step
    case DoBegin(c) => true
    case DoRollback(c) => true
    case DoModify(c, k, w) => !w.Insert? && k in d.store
    case DoAddRow(c, k, row, timestamp) => Fresh(d, k)
    case DoCommit(c) => c in d.active
  }

  ghost function Do(d: Db, step: Step): Db
    requires Can(d, step)
  {
    match step
    case DoBegin(c) => Begin(d, c)
    case DoRollback(c) => Rollback(d, c)
    case DoModify(c, k, w) => Modify(d, c, k, w)
    case DoAddRow(c, k, row, timestamp) => AddRow(d, c, k, row, timestamp)
    case DoCommit(c) => CommitTx(d, c)
  }

  datatype Run = Start | Then(before: Run, step: Step)

  ghost predicate Legal(r: Run)
    decreases r, 0
  {
    r.Then? ==> Legal(r.before) && Can(After(r.before), r.step)
  }

  ghost function After(r: Run): Db
    requires Legal(r)
    decreases r, 1
  {
    match r
    case Start => Db(map[], 0, map[], [])
    case Then(before, step) => Do(After(before), step)
  }

  // ------------------------------------------------------------ serial replay

  /** A write re-executed on what is there at its turn; a modification of nothing leaves nothing. */
  function Redo(w: Write, cur: Option<Record>, version: nat): Option<Record> {
    match cur
    case Some(r) => Some(Image(w, r, version))
    case None => if w.Insert? then Some(w.record.(version := version)) else None
  }

  function At(store: map<Key, Record>, k: Key): Option<Record> {
    if k in store then Some(store[k]) else None
  }

  /** One commit re-executed. */
  function RedoCommit(store: map<Key, Record>, h: Commit): map<Key, Record> {
    map k | k in store.Keys + h.writes.Keys && (k in h.writes ==> Redo(h.writes[k], At(store, k), h.version).Some?) ::
      if k in h.writes then Redo(h.writes[k], At(store, k), h.version).value else store[k]
  }

  /** The commits re-executed one by one from nothing. */
  function Replay(history: seq<Commit>): map<Key, Record> {
    if history == [] then map[]
    else RedoCommit(Replay(history[..|history| - 1]), history[|history| - 1])
  }

  lemma ReplaySnoc(history: seq<Commit>, h: Commit)
    ensures Replay(history + [h]) == RedoCommit(Replay(history), h)
  {
    assert (history + [h])[..|history|] == history;
  }

  // ------------------------------------------------------------- invariants

  ghost predicate VersionsBounded(d: Db) {
    && (forall k :: k in d.store ==> d.store[k].version <= d.version)
    && (forall c :: c in d.active ==> d.active[c].snapshot <= d.version && d.active[c].updates.Keys == d.active[c].intents.Keys)
  }

  /** What a pending image is worth: if its key was not written since the snapshot, it is the statement applied to the record as it is now. */
  ghost predicate Current(d: Db, tx: Tx, k: Key)
    requires k in tx.updates && k in tx.intents
  {
    match tx.intents[k]
    case Insert(rec) => k !in d.store && tx.updates[k] == rec
    case _ =>
      k in d.store &&
      (d.store[k].version <= tx.snapshot ==> tx.updates[k] == Image(tx.intents[k], d.store[k], tx.updates[k].version))
  }

  ghost predicate PendingCurrent(d: Db) {
    forall c, k :: c in d.active && k in d.active[c].updates ==> k in d.active[c].intents && Current(d, d.active[c], k)
  }

  /** A key pending for insertion is pending in one transaction only. */
  ghost predicate InsertsApart(d: Db) {
    forall c, e, k :: c in d.active && e in d.active && c != e ==> !(InsertPending(d, c, k) && k in d.active[e].updates)
  }

  ghost predicate InsertPending(d: Db, c: Conn, k: Key)
    requires c in d.active
  {
    k in d.active[c].intents && d.active[c].intents[k].Insert?
  }

  ghost predicate Inv(d: Db) {
    VersionsBounded(d) && PendingCurrent(d) && InsertsApart(d) && d.store == Replay(d.history)
  }

  lemma RedoOne(store: map<Key, Record>, k: Key, w: Write, v: nat)
    requires k in store || w.Insert?
    ensures RedoCommit(store, Commit(v, None, map[k := w])) ==
      store[k := if k in store then Image(w, store[k], v) else w.record.(version := v)]
  {
  }

  lemma ImageVersion(w: Write, r: Record, v: nat)
    ensures Image(w, r, v).version == v
  {
  }

  lemma BeginInv(d: Db, c: Conn)
    requires Inv(d)
    ensures Inv(Begin(d, c))
  {
  }

  lemma RollbackInv(d: Db, c: Conn)
    requires Inv(d)
    ensures Inv(Rollback(d, c))
  {
  }

  lemma ModifyInTxInv(d: Db, c: Conn, k: Key, w: Write)
    requires Inv(d) && Can(d, DoModify(c, k, w)) && c in d.active
    ensures Inv(Modify(d, c, k, w))
  {
    var d' := Modify(d, c, k, w);
    assert Current(d', d'.active[c], k);
    forall e, q | e in d'.active && q in d'.active[e].updates
      ensures q in d'.active[e].intents && Current(d', d'.active[e], q)
    {
      if e != c || q != k {
        assert Current(d, d.active[e], q);
      }
    }
    forall a, b, q | a in d'.active && b in d'.active && a != b && InsertPending(d', a, q)
      ensures q !in d'.active[b].updates
    {
      assert InsertPending(d, a, q) && Current(d, d.active[a], q);
    }
  }

  lemma ModifyAloneInv(d: Db, c: Conn, k: Key, w: Write)
    requires Inv(d) && Can(d, DoModify(c, k, w)) && c !in d.active
    ensures Inv(Modify(d, c, k, w))
  {
    hide RedoCommit, Replay, Image;
    var d' := Modify(d, c, k, w);
    ImageVersion(w, d.store[k], d.version + 1);
    RedoOne(d.store, k, w, d.version + 1);
    ReplaySnoc(d.history, Commit(d.version + 1, None, map[k := w]));
    forall e, q | e in d'.active && q in d'.active[e].updates
      ensures q in d'.active[e].intents && Current(d', d'.active[e], q)
    {
      assert Current(d, d.active[e], q);
    }
  }

  lemma AddRowInv(d: Db, c: Conn, k: Key, row: Row, timestamp: int)
    requires Inv(d) && Fresh(d, k)
    ensures Inv(AddRow(d, c, k, row, timestamp))
  {
    var d' := AddRow(d, c, k, row, timestamp);
    var rec := Record(row, d.version, false, timestamp);
    if c !in d.active {
      RedoOne(d.store, k, Insert(rec), d.version);
      ReplaySnoc(d.history, Commit(d.version, None, map[k := Insert(rec)]));
    }
    forall e, q | e in d'.active && q in d'.active[e].updates
      ensures q in d'.active[e].intents && Current(d', d'.active[e], q)
    {
      if e in d.active && q in d.active[e].updates {
        assert Current(d, d.active[e], q);
      }
    }
    forall a, b, q | a in d'.active && b in d'.active && a != b && InsertPending(d', a, q)
      ensures q !in d'.active[b].updates
    {
      assert InsertPending(d, a, q) || q == k;
    }
  }

  /** Without conflict, storing the pending images is re-executing their statements on the current records. */
  lemma CommitIsRedo(d: Db, c: Conn, v: nat)
    requires Inv(d) && c in d.active && !Conflicts(d, d.active[c])
    ensures var tx := d.active[c];
      d.store + Stamped(tx.updates, v) == RedoCommit(d.store, Commit(v, Some(tx.snapshot), tx.intents))
  {
    var tx := d.active[c];
    var (a, b) := (d.store + Stamped(tx.updates, v), RedoCommit(d.store, Commit(v, Some(tx.snapshot), tx.intents)));
    forall k
      ensures k in a <==> k in b
      ensures k in a ==> a[k] == b[k]
    {
      if k in tx.updates {
        assert Current(d, tx, k);
        assert tx.updates[k].(version := v) == Redo(tx.intents[k], At(d.store, k), v).value;
      }
    }
  }

  lemma CommitReplays(d: Db, c: Conn)
    requires Inv(d) && c in d.active
    ensures CommitTx(d, c).store == Replay(CommitTx(d, c).history)
  {
    hide Replay, RedoCommit, Image, PendingCurrent, InsertsApart;
    var tx := d.active[c];
    if !Conflicts(d, tx) {
      CommitIsRedo(d, c, d.version + 1);
      ReplaySnoc(d.history, Commit(d.version + 1, Some(tx.snapshot), tx.intents));
    }
  }

  /** An image still pending after a commit is worth what it was: its key either kept its record or got a version past every snapshot. */
  lemma StillCurrent(d: Db, c: Conn, e: Conn, k: Key)
    requires Inv(d) && c in d.active && e in d.active && e != c && k in d.active[e].updates
    ensures k in d.active[e].intents && Current(CommitTx(d, c), d.active[e], k)
  {
    hide Replay, RedoCommit, Image;
    assert Current(d, d.active[e], k);
    if k in d.active[c].updates {
      assert Current(d, d.active[c], k);
    }
  }

  lemma CommitInv(d: Db, c: Conn)
    requires Inv(d) && c in d.active
    ensures Inv(CommitTx(d, c))
  {
    hide Replay, RedoCommit, Image, Current;
    CommitReplays(d, c);
    var d' := CommitTx(d, c);
    forall e, q | e in d'.active && q in d'.active[e].updates
      ensures q in d'.active[e].intents && Current(d', d'.active[e], q)
    {
      StillCurrent(d, c, e, q);
    }
  }

  lemma StepInv(d: Db, step: Step)
    requires Inv(d) && Can(d, step)
    ensures Inv(Do(d, step))
  {
    match step
    case DoBegin(c) => BeginInv(d, c);
    case DoRollback(c) => RollbackInv(d, c);
    case DoModify(c, k, w) =>
      if c in d.active {
        ModifyInTxInv(d, c, k, w);
      } else {
        ModifyAloneInv(d, c, k, w);
      }
    case DoAddRow(c, k, row, timestamp) => AddRowInv(d, c, k, row, timestamp);
    case DoCommit(c) => CommitInv(d, c);
  }

  lemma {:induction false} RunInv(r: Run)
    requires Legal(r)
    ensures Inv(After(r))
  {
    if r.Then? {
      RunInv(r.before);
      StepInv(After(r.before), r.step);
    }
  }

  // ------------------------------------------------------------ main results

  /** Serial equivalence: after any run the store is what re-executing the commits one by one leaves. */
  lemma SerialEquivalence(r: Run)
    requires Legal(r)
    ensures After(r).store == Replay(After(r).history)
  {
    RunInv(r);
  }

  /** The commits are in version order, none newer than the database, and every written key remembers its newest writer. */
  ghost predicate HistoryInv(d: Db) {
    && (forall i, j :: 0 <= i < j < |d.history| ==> d.history[i].version <= d.history[j].version)
    && (forall i :: 0 <= i < |d.history| ==> d.history[i].version <= d.version)
    && (forall i, k :: 0 <= i < |d.history| && k in d.history[i].writes ==> Remembered(d, i, k))
    && FirstWins(d.history)
  }

  ghost predicate Remembered(d: Db, i: nat, k: Key)
    requires i < |d.history|
  {
    k in d.store && d.history[i].version <= d.store[k].version
  }

  /** Whoever wrote a key before a transaction committed a write of it did so no later than that transaction's snapshot. */
  ghost predicate FirstWins(history: seq<Commit>) {
    forall i, j, k :: 0 <= i < j < |history| && k in history[i].writes && k in history[j].writes && history[j].snapshot.Some? ==>
      history[i].version <= history[j].snapshot.value
  }

  lemma OneMoreCommit(d: Db, d': Db, h: Commit)
    requires Inv(d) && HistoryInv(d) && d'.history == d.history + [h] && d.version <= h.version <= d'.version
    requires forall k :: k in d.store ==> k in d'.store && d.store[k].version <= d'.store[k].version
    requires forall k :: k in h.writes ==> k in d'.store && h.version <= d'.store[k].version
    requires h.snapshot.Some? ==> forall k :: k in h.writes && k in d.store ==> d.store[k].version <= h.snapshot.value
    ensures HistoryInv(d')
  {
    forall i, k | 0 <= i < |d'.history| && k in d'.history[i].writes
      ensures Remembered(d', i, k)
    {
      if i < |d.history| {
        assert Remembered(d, i, k);
      }
    }
    forall i, j, k | 0 <= i < j < |d'.history| && k in d'.history[i].writes && k in d'.history[j].writes && d'.history[j].snapshot.Some?
      ensures d'.history[i].version <= d'.history[j].snapshot.value
    {
      assert Remembered(d, i, k);
    }
  }

  lemma CommitHistory(d: Db, c: Conn)
    requires Inv(d) && HistoryInv(d) && c in d.active && !Conflicts(d, d.active[c])
    ensures HistoryInv(CommitTx(d, c))
  {
    var tx := d.active[c];
    var v := d.version + 1;
    OneMoreCommit(d, CommitTx(d, c), Commit(v, Some(tx.snapshot), tx.intents));
  }

  lemma StepHistory(d: Db, step: Step)
    requires Inv(d) && HistoryInv(d) && Can(d, step)
    ensures HistoryInv(Do(d, step))
  {
    hide Replay;
    var d' := Do(d, step);
    if d'.history == d.history {
      assert forall i, k :: 0 <= i < |d.history| && k in d.history[i].writes ==> Remembered(d, i, k) && Remembered(d', i, k);
    } else if step.DoCommit? {
      CommitHistory(d, step.c);
    } else {
      OneMoreCommit(d, d', d'.history[|d.history|]);
    }
  }

  lemma {:induction false} RunHistory(r: Run)
    requires Legal(r)
    ensures HistoryInv(After(r))
  {
    if r.Then? {
      RunInv(r.before);
      RunHistory(r.before);
      StepHistory(After(r.before), r.step);
    }
  }

  /**
   * First committer wins: of two commits that wrote a common key, if the later
   * is a transaction, the earlier is no newer than its snapshot.
   */
  lemma FirstCommitterWins(r: Run, i: nat, j: nat, k: Key)
    requires Legal(r) && i < j < |After(r).history|
    requires k in After(r).history[i].writes && k in After(r).history[j].writes && After(r).history[j].snapshot.Some?
    ensures After(r).history[i].version <= After(r).history[j].snapshot.value < After(r).history[j].version
  {
    RunHistory(r);
    SnapshotsOld(r);
  }

  predicate SnapshotOld(h: Commit) {
    h.snapshot.Some? ==> h.snapshot.value < h.version
  }

  /** A step adds at most one commit, whose version is past its snapshot. */
  lemma HistoryStep(d: Db, step: Step)
    requires Can(d, step) && Inv(d)
    ensures var (hs, hs') := (d.history, Do(d, step).history);
      hs' == hs || (|hs'| == |hs| + 1 && hs' == hs + [hs'[|hs|]] && SnapshotOld(hs'[|hs|]))
  {
    hide Replay, PendingCurrent, InsertsApart, Image, Fresh, Conflicts, Assign;
  }

  lemma {:induction false} SnapshotsOld(r: Run)
    requires Legal(r)
    ensures forall j :: 0 <= j < |After(r).history| ==> SnapshotOld(After(r).history[j])
  {
    if r.Then? {
      hide Inv, Do, SnapshotOld, Can;
      SnapshotsOld(r.before);
      RunInv(r.before);
      HistoryStep(After(r.before), r.step);
    }
  }

  // ---------------------------------------------------------- what statements do

  /** The columns a statement assigns. */
  function Columns(assignments: seq<Assignment>): set<Column> {
    set a | a in assignments :: a.column
  }

  /** No later assignment names the same column. */
  predicate LastNaming(assignments: seq<Assignment>, j: nat)
    requires j < |assignments|
  {
    forall i :: j < i < |assignments| ==> assignments[i].column != assignments[j].column
  }

  /** A column holds what the last assignment that names it says; columns that none names are as before. */
  ghost predicate Assigned(row: Row, assignments: seq<Assignment>, row': Row) {
    && (forall j :: 0 <= j < |assignments| && LastNaming(assignments, j) ==>
          assignments[j].column in row' && row'[assignments[j].column] == assignments[j].value)
    && (forall c :: c !in Columns(assignments) ==> (c in row' <==> c in row) && (c in row ==> row'[c] == row[c]))
  }

  lemma ColumnsFirst(assignments: seq<Assignment>, c: Column)
    requires assignments != []
    ensures c in Columns(assignments) <==> c == assignments[0].column || c in Columns(assignments[1..])
  {
    assert assignments == [assignments[0]] + assignments[1..];
  }

  lemma LaterNaming(assignments: seq<Assignment>, j: nat)
    requires 0 < j < |assignments|
    ensures LastNaming(assignments[1..], j - 1) <==> LastNaming(assignments, j)
  {
    if LastNaming(assignments[1..], j - 1) {
      forall i | j < i < |assignments|
        ensures assignments[i].column != assignments[j].column
      {
        assert assignments[1..][i - 1] == assignments[i];
      }
    }
  }

  lemma AssignFirst(row: Row, assignments: seq<Assignment>)
    requires assignments != []
    ensures Assign(row, assignments) == Assign(row[assignments[0].column := assignments[0].value], assignments[1..])
  {
  }

  /** A column that no assignment names keeps what it had. */
  lemma {:induction false} UnnamedKept(row: Row, assignments: seq<Assignment>, c: Column)
    requires c !in Columns(assignments)
    ensures (c in Assign(row, assignments) <==> c in row) && (c in row ==> Assign(row, assignments)[c] == row[c])
    decreases |assignments|
  {
    if assignments != [] {
      hide Columns, Assign;
      var (a, rest) := (assignments[0], assignments[1..]);
      AssignFirst(row, assignments);
      ColumnsFirst(assignments, c);
      UnnamedKept(row[a.column := a.value], rest, c);
    }
  }

  lemma {:induction false} LastNamingHolds(row: Row, assignments: seq<Assignment>, j: nat)
    requires j < |assignments| && LastNaming(assignments, j)
    ensures assignments[j].column in Assign(row, assignments) && Assign(row, assignments)[assignments[j].column] == assignments[j].value
    decreases |assignments|
  {
    hide Columns, Assign, LastNaming;
    var (a, rest) := (assignments[0], assignments[1..]);
    AssignFirst(row, assignments);
    if j > 0 {
      LaterNaming(assignments, j);
      LastNamingHolds(row[a.column := a.value], rest, j - 1);
    } else {
      NamedOnce(assignments);
      UnnamedKept(row[a.column := a.value], rest, a.column);
    }
  }

  /** The assignments of an UPDATE, applied from left to right, leave exactly that. */
  lemma AssignIsAssigned(row: Row, assignments: seq<Assignment>)
    ensures Assigned(row, assignments, Assign(row, assignments))
  {
    hide Columns, Assign, LastNaming;
    var row' := Assign(row, assignments);
    forall j | 0 <= j < |assignments| && LastNaming(assignments, j)
      ensures assignments[j].column in row' && row'[assignments[j].column] == assignments[j].value
    {
      LastNamingHolds(row, assignments, j);
    }
    forall c | c !in Columns(assignments)
      ensures (c in row' <==> c in row) && (c in row ==> row'[c] == row[c])
    {
      UnnamedKept(row, assignments, c);
    }
  }

  lemma NamedOnce(assignments: seq<Assignment>)
    requires assignments != [] && LastNaming(assignments, 0)
    ensures assignments[0].column !in Columns(assignments[1..])
  {
  }

  /** Every named column has a last assignment. */
  lemma {:induction false} HasLastNaming(assignments: seq<Assignment>, c: Column) returns (j: nat)
    requires c in Columns(assignments)
    ensures j < |assignments| && assignments[j].column == c && LastNaming(assignments, j)
    decreases |assignments|
  {
    ColumnsFirst(assignments, c);
    if c in Columns(assignments[1..]) {
      var i := HasLastNaming(assignments[1..], c);
      LaterNaming(assignments, i + 1);
      j := i + 1;
    } else {
      j := 0;
      forall i | 0 < i < |assignments|
        ensures assignments[i].column != c
      {
        assert assignments[1..][i - 1] == assignments[i];
      }
    }
  }

  /** And that determines the row. */
  lemma AssignedIsOne(row: Row, assignments: seq<Assignment>, a: Row, b: Row)
    requires Assigned(row, assignments, a) && Assigned(row, assignments, b)
    ensures a == b
  {
    hide Columns;
    forall c
      ensures c in a <==> c in b
      ensures c in a ==> a[c] == b[c]
    {
      if c in Columns(assignments) {
        var j := HasLastNaming(assignments, c);
      }
    }
  }

  /** What a statement makes of the record it reads, field by field. */
  ghost predicate Makes(w: Write, base: Record, rec: Record) {
    match w
    case Update(assignments) =>
      Assigned(base.row, assignments, rec.row) && rec.isDeleted == base.isDeleted && rec.timestamp == base.timestamp
    case Delete => rec.row == base.row && rec.isDeleted && rec.timestamp == base.timestamp
    case Insert(r) => rec.row == r.row && rec.isDeleted == r.isDeleted && rec.timestamp == r.timestamp
  }

  lemma ImageIsMade(w: Write, base: Record, version: nat)
    ensures Makes(w, base, Image(w, base, version)) && Image(w, base, version).version == version
  {
    if w.Update? {
      AssignIsAssigned(base.row, w.assignments);
    }
  }

  /** A statement run again on what it made makes nothing else. */
  lemma MadeAgain(w: Write, base: Record, once: Record, twice: Record)
    requires Makes(w, base, once) && Makes(w, once, twice) && !w.Insert?
    ensures Makes(w, base, twice)
  {
    hide Columns, LastNaming;
  }

  /** An assigned column ends up with the same value whatever the row was; others keep theirs. */
  lemma AssignedColumn(row: Row, other: Row, assignments: seq<Assignment>, c: Column)
    ensures c in Columns(assignments) ==>
      c in Assign(row, assignments) && c in Assign(other, assignments) && Assign(row, assignments)[c] == Assign(other, assignments)[c]
    ensures c !in Columns(assignments) ==>
      (c in Assign(row, assignments) <==> c in row) && (c in row ==> Assign(row, assignments)[c] == row[c])
  {
    hide Columns, Assign, LastNaming;
    if c in Columns(assignments) {
      var j := HasLastNaming(assignments, c);
      LastNamingHolds(row, assignments, j);
      LastNamingHolds(other, assignments, j);
    } else {
      UnnamedKept(row, assignments, c);
    }
  }

  // ------------------------------------------- statements in one transaction

  /** Two statements on a key in one transaction: the second rereads the stored record, so the first one's image is replaced. */
  lemma SecondWriteReplaces(d: Db, c: Conn, k: Key, w1: Write, w2: Write)
    requires Can(d, DoModify(c, k, w1)) && Can(d, DoModify(c, k, w2)) && c in d.active
    ensures var (d1, d2) := (Modify(d, c, k, w2), Modify(Modify(d, c, k, w1), c, k, w2));
      && d2.active[c].updates == d1.active[c].updates
      && d2.active[c].updates[k] == Image(w2, d.store[k], d.active[c].snapshot + 1)
  {
    var d1 := Modify(d, c, k, w1);
    assert d1.store == d.store;
  }

  /** The first update survives the second exactly when every column only it assigns already had that value. */
  lemma LastStatementWinsIff(row: Row, a1: seq<Assignment>, a2: seq<Assignment>)
    ensures Assign(row, a2) == Assign(Assign(row, a1), a2)
       <==> forall c :: c in Columns(a1) - Columns(a2) ==> c in row && c in Assign(row, a1) && row[c] == Assign(row, a1)[c]
  {
    var (once, twice) := (Assign(row, a2), Assign(Assign(row, a1), a2));
    forall c
      ensures c in Columns(a2) ==> c in once && c in twice && once[c] == twice[c]
      ensures c !in Columns(a2) ==> (c in once <==> c in row) && (c in row ==> once[c] == row[c])
      ensures c !in Columns(a2) ==> (c in twice <==> c in Assign(row, a1)) && (c in twice ==> twice[c] == Assign(row, a1)[c])
      ensures c !in Columns(a1) ==> (c in Assign(row, a1) <==> c in row) && (c in row ==> Assign(row, a1)[c] == row[c])
      ensures c in Columns(a1) ==> c in Assign(row, a1)
    {
      AssignedColumn(row, Assign(row, a1), a2, c);
      AssignedColumn(Assign(row, a1), row, a2, c);
      AssignedColumn(row, row, a1, c);
    }
    if once == twice {
      forall c | c in Columns(a1) - Columns(a2)
        ensures c in row && c in Assign(row, a1) && row[c] == Assign(row, a1)[c]
      {
        assert c in twice;
      }
    }
  }

  /** The first statement leaves nothing that the second needs: nothing the second does not overwrite is changed by it. */
  ghost predicate Redundant(w1: Write, w2: Write, r: Record) {
    match w1
    case Update(a1) =>
      forall c :: c in Columns(a1) - (if w2.Update? then Columns(w2.assignments) else {}) ==>
        c in r.row && c in Assign(r.row, a1) && r.row[c] == Assign(r.row, a1)[c]
    case Delete => r.isDeleted || w2.Delete?
    case Insert(_) => true
  }

  /** Replacing the first image is the same as building on it if and only if the first statement was redundant. */
  lemma SecondWriteSufficesIff(w1: Write, w2: Write, r: Record, version: nat)
    requires !w1.Insert? && !w2.Insert?
    ensures Image(w2, r, version) == Image(w2, Image(w1, r, version), version) <==> Redundant(w1, w2, r)
  {
    if w1.Update? {
      var a2 := if w2.Update? then w2.assignments else [];
      LastStatementWinsIff(r.row, w1.assignments, a2);
    }
  }

  const COUNT: Column := "count"
  const NOTE: Column := "note"

  const OLD_ROW := Record(map[COUNT := "0"], 0, false, 0)

  /** One row, then a transaction with some statements on it. */
  function Begun(k: Key): Run {
    Then(Then(Start, DoAddRow(0, k, OLD_ROW.row, 0)), DoBegin(1))
  }

  function Pending(k: Key, updates: map<Key, Record>, intents: map<Key, Write>): Db {
    Db(map[k := OLD_ROW], 0, map[1 := Tx(0, updates, intents)], [Commit(0, None, map[k := Insert(OLD_ROW)])])
  }

  function TwoStatements(k: Key, w1: Write, w2: Write): Run {
    Then(Then(Then(Begun(k), DoModify(1, k, w1)), DoModify(1, k, w2)), DoCommit(1))
  }

  lemma RowThenBegin(k: Key)
    ensures Legal(Begun(k)) && After(Begun(k)) == Pending(k, map[], map[])
  {
    assert Legal(Start) && After(Start) == Db(map[], 0, map[], []) && Fresh(After(Start), k);
    var r := Then(Start, DoAddRow(0, k, OLD_ROW.row, 0));
    assert Legal(r) && After(r) == Db(map[k := OLD_ROW], 0, map[], [Commit(0, None, map[k := Insert(OLD_ROW)])]);
  }

  lemma OneStatement(k: Key, updates: map<Key, Record>, intents: map<Key, Write>, w: Write)
    requires !w.Insert? && updates.Keys <= {k} && intents.Keys <= {k}
    ensures Can(Pending(k, updates, intents), DoModify(1, k, w))
    ensures Do(Pending(k, updates, intents), DoModify(1, k, w)) == Pending(k, map[k := Image(w, OLD_ROW, 1)], map[k := w])
  {
    hide Image;
    assert updates[k := Image(w, OLD_ROW, 1)] == map[k := Image(w, OLD_ROW, 1)] && intents[k := w] == map[k := w];
    var (d, d') := (Pending(k, updates, intents), Pending(k, map[k := Image(w, OLD_ROW, 1)], map[k := w]));
    assert d.active[1 := d'.active[1]] == d'.active;
  }

  lemma CommitPending(k: Key, image: Record, w: Write)
    requires image.version == 1
    ensures CommitTx(Pending(k, map[k := image], map[k := w]), 1).store == map[k := image]
  {
    var d := Pending(k, map[k := image], map[k := w]);
    assert !Conflicts(d, d.active[1]);
    assert Stamped(map[k := image], 1) == map[k := image];
  }

  lemma TwoStatementsCommit(k: Key, w1: Write, w2: Write)
    requires !w1.Insert? && !w2.Insert?
    ensures Legal(TwoStatements(k, w1, w2))
    ensures After(TwoStatements(k, w1, w2)).store == map[k := Image(w2, OLD_ROW, 1)]
  {
    hide Image, Modify, Pending;
    RowThenBegin(k);
    OneStatement(k, map[], map[], w1);
    var r1 := Then(Begun(k), DoModify(1, k, w1));
    assert Legal(r1) && After(r1) == Pending(k, map[k := Image(w1, OLD_ROW, 1)], map[k := w1]);
    OneStatement(k, map[k := Image(w1, OLD_ROW, 1)], map[k := w1], w2);
    var r2 := Then(r1, DoModify(1, k, w2));
    assert Legal(r2) && After(r2) == Pending(k, map[k := Image(w2, OLD_ROW, 1)], map[k := w2]);
    ImageVersion(w2, OLD_ROW, 1);
    CommitPending(k, Image(w2, OLD_ROW, 1), w2);
    PendingIsActive(k, map[k := Image(w2, OLD_ROW, 1)], map[k := w2]);
  }

  lemma PendingIsActive(k: Key, updates: map<Key, Record>, intents: map<Key, Write>)
    ensures 1 in Pending(k, updates, intents).active
  {
  }

  lemma AssignOne(row: Row, c: Column, v: string)
    ensures Assign(row, [Assignment(c, v)]) == row[c := v]
  {
    assert [Assignment(c, v)][1..] == [];
  }

  /** Two UPDATEs of one row in a transaction that commits: the column only the first assigned keeps its old value. */
  lemma FirstUpdateLost(k: Key) returns (r: Run)
    ensures Legal(r) && k in After(r).store && After(r).store[k].row == map[COUNT := "0", NOTE := "x"]
    ensures r == TwoStatements(k, Update([Assignment(COUNT, "1")]), Update([Assignment(NOTE, "x")]))
  {
    r := TwoStatements(k, Update([Assignment(COUNT, "1")]), Update([Assignment(NOTE, "x")]));
    TwoStatementsCommit(k, Update([Assignment(COUNT, "1")]), Update([Assignment(NOTE, "x")]));
    AssignOne(map[COUNT := "0"], NOTE, "x");
  }

  /** DELETE and then UPDATE of one row in a transaction that commits: the row is still there. */
  lemma DeleteLost(k: Key) returns (r: Run)
    ensures Legal(r) && k in After(r).store && !After(r).store[k].isDeleted
    ensures r == TwoStatements(k, Delete, Update([Assignment(COUNT, "1")]))
  {
    r := TwoStatements(k, Delete, Update([Assignment(COUNT, "1")]));
    TwoStatementsCommit(k, Delete, Update([Assignment(COUNT, "1")]));
  }
}
