/** The transaction part of the engine, statement by statement, proved against the steps of the Occ module. */
module Engines {
  import opened Keys
  import opened Occ

  datatype Transaction = Transaction(snapshotVersion: nat, updates: map<Key, Record>)

  datatype Outcome = Committed | Conflict | NoTransaction

  /** A statement over several keys, one after the other. */
  ghost function ModifyAll(d: Db, c: Conn, keys: seq<Key>, w: Write): (d': Db)
    requires forall k :: k in keys ==> k in d.store
    ensures d'.store.Keys == d.store.Keys
  {
    if keys == [] then d
    else
      var n := |keys| - 1;
      Modify(ModifyAll(d, c, keys[..n], w), c, keys[n], w)
  }

  /** A statement over the rows its scan returned is a run of legal single-key steps, and keeps every invariant. */
  lemma {:induction false} StatementIsLegalSteps(d: Db, c: Conn, keys: seq<Key>, w: Write)
    requires Inv(d) && HistoryInv(d)
    requires !w.Insert? && forall k :: k in keys ==> k in d.store
    ensures Inv(ModifyAll(d, c, keys, w)) && HistoryInv(ModifyAll(d, c, keys, w))
    ensures forall k :: k in d.store && k !in keys ==> ModifyAll(d, c, keys, w).store[k] == d.store[k]
    ensures c in ModifyAll(d, c, keys, w).active <==> c in d.active
    ensures c in d.active ==> ModifyAll(d, c, keys, w).store == d.store && ModifyAll(d, c, keys, w).active[c].snapshot == d.active[c].snapshot
  {
    hide Replay, Inv, HistoryInv;
    if keys != [] {
      var n := |keys| - 1;
      StatementIsLegalSteps(d, c, keys[..n], w);
      var before := ModifyAll(d, c, keys[..n], w);
      assert Can(before, DoModify(c, keys[n], w));
      StepInv(before, DoModify(c, keys[n], w));
      StepHistory(before, DoModify(c, keys[n], w));
    }
  }

  lemma ModifyOneMore(d: Db, c: Conn, keys: seq<Key>, n: nat, w: Write)
    requires n < |keys| && forall i :: 0 <= i <= n ==> keys[i] in d.store
    ensures (forall k :: k in keys[..n] ==> k in d.store) && (forall k :: k in keys[..n + 1] ==> k in d.store)
    ensures ModifyAll(d, c, keys[..n + 1], w) == Modify(ModifyAll(d, c, keys[..n], w), c, keys[n], w)
  {
    assert keys[..n + 1][..n] == keys[..n];
  }

  lemma NothingModified(d: Db, c: Conn, keys: seq<Key>, w: Write)
    ensures keys[..0] == [] && ModifyAll(d, c, keys[..0], w) == d
  {
  }

  /**
   * What a statement over some keys does, inside a transaction and outside: each
   * of the keys gets what the statement makes of its stored record, pending or
   * at once and at versions of their own in order, and no other key is touched.
   */
  ghost predicate StatementDone(d: Db, d': Db, c: Conn, keys: seq<Key>, w: Write) {
    if c in d.active then
      && c in d'.active && d'.(active := d.active) == d && d'.active - {c} == d.active - {c}
      && d'.active[c].snapshot == d.active[c].snapshot
      && forall k :: if k in keys then k in d.store && PendingMade(d, d', c, k, w) else At(d'.active[c].updates, k) == At(d.active[c].updates, k)
    else
      && d'.active == d.active && d'.version == d.version + |keys|
      && (forall k :: StoredMade(d, d', keys, w, k))
      && VersionsInOrder(d, d', keys)
  }

  ghost predicate StoredMade(d: Db, d': Db, keys: seq<Key>, w: Write, k: Key) {
    if k in keys then k in d.store && k in d'.store && Makes(w, d.store[k], d'.store[k]) else At(d'.store, k) == At(d.store, k)
  }

  ghost predicate VersionsInOrder(d: Db, d': Db, keys: seq<Key>) {
    forall i :: 0 <= i < |keys| && keys[i] !in keys[i + 1..] ==> keys[i] in d'.store && d'.store[keys[i]].version == d.version + i + 1
  }

  ghost predicate PendingMade(d: Db, d': Db, c: Conn, k: Key, w: Write)
    requires c in d'.active && k in d.store
  {
    k in d'.active[c].updates && Makes(w, d.store[k], d'.active[c].updates[k])
  }

  lemma SnocMember(keys: seq<Key>, k: Key)
    requires keys != []
    ensures k in keys <==> k in keys[..|keys| - 1] || k == keys[|keys| - 1]
  {
    var n := |keys| - 1;
    assert keys == keys[..n] + [keys[n]];
  }

  lemma LaterOccurrence(keys: seq<Key>, i: nat)
    requires i < |keys| - 1
    ensures keys[i] in keys[i + 1..] <==> keys[i] in keys[..|keys| - 1][i + 1..] || keys[i] == keys[|keys| - 1]
  {
    var n := |keys| - 1;
    assert keys[i + 1..] == keys[..n][i + 1..] + [keys[n]];
  }

  lemma {:induction false} StatementInTx(d: Db, c: Conn, keys: seq<Key>, w: Write)
    requires c in d.active && forall k :: k in keys ==> k in d.store
    ensures StatementDone(d, ModifyAll(d, c, keys, w), c, keys, w)
  {
    if keys != [] {
      var n := |keys| - 1;
      StatementInTx(d, c, keys[..n], w);
      hide ModifyAll, Makes, Image;
      var (d1, d') := (ModifyAll(d, c, keys[..n], w), Modify(ModifyAll(d, c, keys[..n], w), c, keys[n], w));
      StatementUnfolds(d, c, keys, w);
      ImageIsMade(w, d.store[keys[n]], d.active[c].snapshot + 1);
      assert d'.active - {c} == d1.active - {c};
      forall k
        ensures if k in keys then k in d.store && PendingMade(d, d', c, k, w) else At(d'.active[c].updates, k) == At(d.active[c].updates, k)
      {
        SnocMember(keys, k);
        assert k in keys[..n] ==> PendingMade(d, d1, c, k, w);
      }
    }
  }

  lemma StatementUnfolds(d: Db, c: Conn, keys: seq<Key>, w: Write)
    requires keys != [] && forall k :: k in keys ==> k in d.store
    ensures (forall k :: k in keys[..|keys| - 1] ==> k in d.store) && keys[|keys| - 1] in ModifyAll(d, c, keys[..|keys| - 1], w).store
    ensures ModifyAll(d, c, keys, w) == Modify(ModifyAll(d, c, keys[..|keys| - 1], w), c, keys[|keys| - 1], w)
  {
  }

  lemma OneMoreStored(d: Db, d1: Db, c: Conn, keys: seq<Key>, w: Write, k: Key)
    requires keys != [] && !w.Insert? && c !in d1.active && keys[|keys| - 1] in d1.store
    requires StoredMade(d, d1, keys[..|keys| - 1], w, k)
    ensures StoredMade(d, Modify(d1, c, keys[|keys| - 1], w), keys, w, k)
  {
    hide Makes, Image;
    var n := |keys| - 1;
    SnocMember(keys, k);
    ImageIsMade(w, d1.store[keys[n]], d1.version + 1);
    if k == keys[n] && k in keys[..n] {
      MadeAgain(w, d.store[k], d1.store[k], Image(w, d1.store[k], d1.version + 1));
    }
  }

  lemma OneMoreVersion(d: Db, d1: Db, c: Conn, keys: seq<Key>, w: Write)
    requires keys != [] && c !in d1.active && keys[|keys| - 1] in d1.store && d1.version == d.version + |keys| - 1
    requires VersionsInOrder(d, d1, keys[..|keys| - 1])
    ensures VersionsInOrder(d, Modify(d1, c, keys[|keys| - 1], w), keys)
  {
    hide Image;
    var n := |keys| - 1;
    var d' := Modify(d1, c, keys[n], w);
    ImageVersion(w, d1.store[keys[n]], d1.version + 1);
    forall i | 0 <= i < |keys| && keys[i] !in keys[i + 1..]
      ensures keys[i] in d'.store && d'.store[keys[i]].version == d.version + i + 1
    {
      if i < n {
        LaterOccurrence(keys, i);
        assert keys[..n][i] == keys[i];
      }
    }
  }

  lemma {:induction false} StatementAlone(d: Db, c: Conn, keys: seq<Key>, w: Write)
    requires c !in d.active && !w.Insert? && forall k :: k in keys ==> k in d.store
    ensures StatementDone(d, ModifyAll(d, c, keys, w), c, keys, w)
  {
    if keys != [] {
      var n := |keys| - 1;
      StatementAlone(d, c, keys[..n], w);
      hide ModifyAll, StoredMade, VersionsInOrder, Image;
      var d1 := ModifyAll(d, c, keys[..n], w);
      StatementUnfolds(d, c, keys, w);
      forall k
        ensures StoredMade(d, ModifyAll(d, c, keys, w), keys, w, k)
      {
        OneMoreStored(d, d1, c, keys, w, k);
      }
      OneMoreVersion(d, d1, c, keys, w);
    }
  }

  /** A statement over the rows a scan returned does what it says to each of them, and nothing else. */
  lemma StatementDoes(d: Db, c: Conn, keys: seq<Key>, w: Write)
    requires !w.Insert? && forall k :: k in keys ==> k in d.store
    ensures StatementDone(d, ModifyAll(d, c, keys, w), c, keys, w)
  {
    if c in d.active {
      StatementInTx(d, c, keys, w);
    } else {
      StatementAlone(d, c, keys, w);
    }
  }

  lemma UpdateImage(r: Record, assignments: seq<Assignment>, version: nat)
    ensures Image(Update(assignments), r, version) == r.(row := Assign(r.row, assignments), version := version)
  {
  }

  lemma DeleteImage(r: Record, version: nat)
    ensures Image(Delete, r, version) == r.(isDeleted := true, version := version)
  {
  }

  lemma ImageRestamped(w: Write, r: Record, v: nat, v': nat)
    ensures Image(w, r, v).(version := v') == Image(w, r, v')
  {
  }

  class Engine {
    /** The records as reads see them: memory tier over tree. */
    var store: map<Key, Record>
    var currentVersion: nat
    var active: map<Conn, Transaction>
    ghost var intents: map<Conn, map<Key, Write>>
    ghost var history: seq<Occ.Commit>

    ghost predicate Valid()
      reads this
    {
      active.Keys == intents.Keys && forall c :: c in active ==> active[c].updates.Keys == intents[c].Keys
    }

    ghost function View(): Db
      reads this
      requires Valid()
    {
      Db(store, currentVersion, map c | c in active :: Tx(active[c].snapshotVersion, active[c].updates, intents[c]), history)
    }

    constructor ()
      ensures Valid() && View() == After(Occ.Start)
    {
      store, currentVersion, active := map[], 0, map[];
      intents, history := map[], [];
    }

    method Begin(conn: Conn)
      requires Valid()
      modifies this
      ensures Valid() && View() == Occ.Begin(old(View()), conn)
    {
      active := active[conn := Transaction(currentVersion, map[])];
      intents := intents[conn := map[]];
    }

    method Rollback(conn: Conn)
      requires Valid()
      modifies this
      ensures Valid() && View() == Occ.Rollback(old(View()), conn)
    {
      active := active - {conn};
      intents := intents - {conn};
    }

    /** How many of the keys come before the first that is not stored. */
    ghost predicate FoundUpTo(keys: seq<Key>, count: nat)
      reads this
    {
      && count <= |keys| && (forall i :: 0 <= i < count ==> keys[i] in store)
      && (count < |keys| ==> keys[count] !in store)
    }

    /** UPDATE of the rows a scan returned, up to the first that is gone. */
    method Update(conn: Conn, keys: seq<Key>, assignments: seq<Assignment>) returns (r: Result<nat>, ghost done: nat)
      requires Valid()
      modifies this
      ensures Valid() && old(FoundUpTo(keys, done)) && View() == ModifyAll(old(View()), conn, keys[..done], Occ.Update(assignments))
      ensures StatementDone(old(View()), View(), conn, keys[..done], Occ.Update(assignments))
      ensures r == if done == |keys| then Ok(|keys|) else Err("Record not found during update")
    {
      hide Image, Modify, StatementDone, ModifyAll, Assign, Assigned;
      var version := if conn in active then active[conn].snapshotVersion else currentVersion;
      ghost var d := View();
      NothingModified(d, conn, keys, Occ.Update(assignments));
      var count := 0;
      while count < |keys|
        invariant Valid() && 0 <= count <= |keys| && store.Keys == old(store).Keys
        invariant forall i :: 0 <= i < count ==> keys[i] in old(store)
        invariant View() == ModifyAll(d, conn, keys[..count], Occ.Update(assignments))
        invariant conn in active ==> active[conn].snapshotVersion == version
      {
        var key := keys[count];
        if key !in store {
          StatementDoes(d, conn, keys[..count], Occ.Update(assignments));
          return Err("Record not found during update"), count;
        }
        ModifyOneMore(d, conn, keys, count, Occ.Update(assignments));
        var row := AssignAll(store[key].row, assignments);
        UpdateImage(store[key], assignments, version + 1);
        Put(conn, key, store[key].(row := row, version := version + 1), Occ.Update(assignments));
        count := count + 1;
      }
      StatementDoes(d, conn, keys[..count], Occ.Update(assignments));
      return Ok(count), count;
    }

    /** DELETE of the rows a scan returned, up to the first that is gone: tombstones. */
    method Delete(conn: Conn, keys: seq<Key>) returns (r: Result<nat>, ghost done: nat)
      requires Valid()
      modifies this
      ensures Valid() && old(FoundUpTo(keys, done)) && View() == ModifyAll(old(View()), conn, keys[..done], Occ.Delete)
      ensures StatementDone(old(View()), View(), conn, keys[..done], Occ.Delete)
      ensures r == if done == |keys| then Ok(|keys|) else Err("Record not found during delete")
    {
      hide Image, Modify, StatementDone, ModifyAll, Assign, Assigned;
      var version := if conn in active then active[conn].snapshotVersion else currentVersion;
      ghost var d := View();
      NothingModified(d, conn, keys, Occ.Delete);
      var count := 0;
      while count < |keys|
        invariant Valid() && 0 <= count <= |keys| && store.Keys == old(store).Keys
        invariant forall i :: 0 <= i < count ==> keys[i] in old(store)
        invariant View() == ModifyAll(d, conn, keys[..count], Occ.Delete)
        invariant conn in active ==> active[conn].snapshotVersion == version
      {
        var key := keys[count];
        if key !in store {
          StatementDoes(d, conn, keys[..count], Occ.Delete);
          return Err("Record not found during delete"), count;
        }
        ModifyOneMore(d, conn, keys, count, Occ.Delete);
        DeleteImage(store[key], version + 1);
        Put(conn, key, store[key].(isDeleted := true, version := version + 1), Occ.Delete);
        count := count + 1;
      }
      StatementDoes(d, conn, keys[..count], Occ.Delete);
      return Ok(count), count;
    }

    /** The assignments of an UPDATE, left to right. */
    method AssignAll(row: Row, assignments: seq<Assignment>) returns (result: Row)
      ensures result == Assign(row, assignments) && Assigned(row, assignments, result)
    {
      result := row;
      for i := 0 to |assignments|
        invariant Assign(result, assignments[i..]) == Assign(row, assignments)
      {
        assert assignments[i..][1..] == assignments[i + 1..];
        result := result[assignments[i].column := assignments[i].value];
      }
      assert assignments[|assignments|..] == [];
      AssignIsAssigned(row, assignments);
    }

    /** The image goes into the connection's transaction, or into the store under a version of its own. */
    method Put(conn: Conn, key: Key, image: Record, ghost w: Write)
      requires Valid() && key in store && !w.Insert?
      requires image == Image(w, store[key], image.version)
      requires conn in active ==> image.version == active[conn].snapshotVersion + 1
      modifies this
      ensures Valid() && View() == Modify(old(View()), conn, key, w)
      ensures conn in active <==> conn in old(active)
      ensures conn in active ==> active[conn].snapshotVersion == old(active)[conn].snapshotVersion
    {
      if conn in active {
        PutPending(conn, key, image, w);
      } else {
        PutNow(conn, key, image, w);
      }
    }

    method PutPending(conn: Conn, key: Key, image: Record, ghost w: Write)
      requires Valid() && conn in active && key in store
      requires image == Image(w, store[key], active[conn].snapshotVersion + 1)
      modifies this
      ensures Valid() && View() == Modify(old(View()), conn, key, w)
      ensures conn in active && active[conn].snapshotVersion == old(active)[conn].snapshotVersion
    {
      hide Image, Assigned, StatementDone;
      var tx := active[conn];
      active := active[conn := tx.(updates := tx.updates[key := image])];
      intents := intents[conn := intents[conn][key := w]];
      ghost var pending := Tx(tx.snapshotVersion, active[conn].updates, intents[conn]);
      assert View().active == old(View()).active[conn := pending];
    }

    method PutNow(conn: Conn, key: Key, image: Record, ghost w: Write)
      requires Valid() && conn !in active && key in store && image == Image(w, store[key], image.version)
      modifies this
      ensures Valid() && View() == Modify(old(View()), conn, key, w) && active == old(active)
    {
      hide Image;
      ImageRestamped(w, store[key], image.version, currentVersion + 1);
      currentVersion := currentVersion + 1;
      store := store[key := image.(version := currentVersion)];
      history := history + [Occ.Commit(currentVersion, None, map[key := w])];
    }

    /** One row of an INSERT under a new key. */
    method InsertRow(conn: Conn, key: Key, row: Row, timestamp: int)
      requires Valid()
      modifies this
      ensures Valid() && View() == AddRow(old(View()), conn, key, row, timestamp)
    {
      var record := Record(row, currentVersion, false, timestamp);
      if conn in active {
        var tx := active[conn];
        active := active[conn := tx.(updates := tx.updates[key := record])];
        intents := intents[conn := intents[conn][key := Occ.Insert(record)]];
      } else {
        store := store[key := record];
        history := history + [Occ.Commit(currentVersion, None, map[key := Occ.Insert(record)])];
      }
    }

    /** COMMIT: the transaction ends; its images are stored only if none of its keys was written since its snapshot. */
    method Commit(conn: Conn) returns (outcome: Outcome)
      requires Valid()
      modifies this
      ensures Valid()
      ensures conn !in old(active) ==> outcome == NoTransaction && View() == old(View())
      ensures conn in old(active) ==>
        && View() == CommitTx(old(View()), conn)
        && outcome == if Conflicts(old(View()), old(View()).active[conn]) then Conflict else Committed
    {
      hide Stamped;
      if conn !in active {
        return NoTransaction;
      }
      ghost var made := intents[conn];
      var tx := Take(conn);
      var conflict := HasConflict(tx);
      if conflict {
        return Conflict;
      }
      currentVersion := currentVersion + 1;
      StoreAll(tx.updates, currentVersion);
      history := history + [Occ.Commit(currentVersion, Some(tx.snapshotVersion), made)];
      outcome := Committed;
    }

    /** The connection's transaction, which it no longer has. */
    method Take(conn: Conn) returns (tx: Transaction)
      requires Valid() && conn in active
      modifies this`active, this`intents
      ensures Valid() && tx == old(active)[conn] && View() == Occ.Rollback(old(View()), conn)
    {
      tx := active[conn];
      active := active - {conn};
      intents := intents - {conn};
    }

    /** The validation loop over the written keys. */
    method HasConflict(tx: Transaction) returns (conflict: bool)
      ensures conflict <==> exists k :: k in tx.updates && k in store && store[k].version > tx.snapshotVersion
    {
      var rest := tx.updates.Keys;
      while rest != {}
        invariant rest <= tx.updates.Keys
        invariant forall k :: k in tx.updates && k !in rest && k in store ==> store[k].version <= tx.snapshotVersion
        decreases rest
      {
        var k :| k in rest;
        if k in store && store[k].version > tx.snapshotVersion {
          return true;
        }
        rest := rest - {k};
      }
      conflict := false;
    }

    /** The write loop of a commit. */
    method StoreAll(updates: map<Key, Record>, version: nat)
      modifies this`store
      ensures store == old(store) + Stamped(updates, version)
    {
      var rest := updates.Keys;
      ghost var all := Stamped(updates, version);
      assert all - rest == map[];
      while rest != {}
        invariant rest <= updates.Keys
        invariant store == old(store) + (all - rest)
        decreases rest
      {
        var k :| k in rest;
        ghost var before := all - rest;
        store := store[k := updates[k].(version := version)];
        rest := rest - {k};
        assert all - rest == before[k := all[k]];
      }
      assert all - {} == all;
    }
  }
}
