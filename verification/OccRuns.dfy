/**
 * What transactions do over whole runs, told by the steps taken: which commits
 * are refused, what the others store, and that an ended one leaves no trace.
 */
module OccRuns {
  import opened Keys
  import opened Occ

  // ---------------------------------------------------- the open transaction

  /** The connection has begun a transaction that it has not ended. */
  predicate Open(r: Run, c: Conn) {
    r.Then? && (r.step == DoBegin(c) || (r.step != DoRollback(c) && r.step != DoCommit(c) && Open(r.before, c)))
  }

  /** The run up to the connection's last BEGIN. */
  function BeginOf(r: Run, c: Conn): Run
    requires Open(r, c)
  {
    if r.step == DoBegin(c) then r.before else BeginOf(r.before, c)
  }

  /** The step is a statement of the connection on the key. */
  predicate StatementOn(step: Step, c: Conn, k: Key) {
    (step.DoModify? || step.DoAddRow?) && step.c == c && step.k == k
  }

  /** The keys of the statements since then. */
  function Written(r: Run, c: Conn): set<Key>
    requires Open(r, c)
  {
    if r.step == DoBegin(c) then {}
    else if (r.step.DoModify? || r.step.DoAddRow?) && r.step.c == c then Written(r.before, c) + {r.step.k}
    else Written(r.before, c)
  }

  // ---------------------------------------------------- which commits are refused

  /** The step gives out a new version: a modification outside a transaction, or a commit that is not refused. */
  ghost predicate GivesVersion(r: Run, step: Step)
    decreases r, 2
  {
    || (step.DoModify? && !Open(r, step.c))
    || (step.DoCommit? && Open(r, step.c) && !Refused(r, step.c))
  }

  /** The step stores the key. */
  ghost predicate Stores(r: Run, step: Step, k: Key)
    decreases r, 2
  {
    || ((step.DoModify? || step.DoAddRow?) && step.k == k && !Open(r, step.c))
    || (step.DoCommit? && Open(r, step.c) && k in Written(r, step.c) && !Refused(r, step.c))
  }

  /** A new version was given out since the connection's BEGIN. */
  ghost predicate VersionGivenSince(r: Run, c: Conn)
    requires Open(r, c)
    decreases r, 0
  {
    r.step != DoBegin(c) && (VersionGivenSince(r.before, c) || GivesVersion(r.before, r.step))
  }

  /** Since the connection's BEGIN a step stored the key, and a version was given out since by then or by that step. */
  ghost predicate Overwritten(r: Run, c: Conn, k: Key)
    requires Open(r, c)
    decreases r, 0
  {
    && r.step != DoBegin(c)
    && (Overwritten(r.before, c, k) || (Stores(r.before, r.step, k) && (GivesVersion(r.before, r.step) || VersionGivenSince(r.before, c))))
  }

  /** A key of the transaction was overwritten since its BEGIN. */
  ghost predicate Refused(r: Run, c: Conn)
    requires Open(r, c)
    decreases r, 1
  {
    exists k :: k in Written(r, c) && Overwritten(r, c, k)
  }

  lemma {:induction false} OpenIsActive(r: Run, c: Conn)
    requires Legal(r)
    ensures Open(r, c) <==> c in After(r).active
    ensures Open(r, c) ==>
      && Legal(BeginOf(r, c)) && After(r).active[c].snapshot == After(BeginOf(r, c)).version
      && After(r).active[c].updates.Keys == Written(r, c)
  {
    if r.Then? {
      OpenIsActive(r.before, c);
      hide Fresh, Image, Conflicts;
      if r.step.DoModify? || r.step.DoAddRow? || r.step.DoCommit? {
        OpenIsActive(r.before, r.step.c);
      }
    }
  }

  /** Versions are given out one by one. */
  lemma VersionStep(r: Run)
    requires Legal(r) && r.Then?
    requires r.step.DoCommit? ==>
      Open(r.before, r.step.c) && (Refused(r.before, r.step.c) <==> Conflicts(After(r.before), After(r.before).active[r.step.c]))
    ensures After(r).version == After(r.before).version + if GivesVersion(r.before, r.step) then 1 else 0
  {
    hide Fresh, Image, Conflicts, Refused;
    if !r.step.DoBegin? {
      OpenIsActive(r.before, r.step.c);
    }
  }

  /** What a step stores under a key: at a new version, or for a new row at the current one. */
  lemma StoreStep(r: Run, k: Key)
    requires Legal(r) && r.Then?
    requires r.step.DoCommit? ==>
      Open(r.before, r.step.c) && (Refused(r.before, r.step.c) <==> Conflicts(After(r.before), After(r.before).active[r.step.c]))
    ensures Stores(r.before, r.step, k) ==> k in After(r).store && After(r).store[k].version == After(r).version
    ensures !Stores(r.before, r.step, k) ==> At(After(r).store, k) == At(After(r.before).store, k)
  {
    hide Fresh, Conflicts, Refused;
    if !r.step.DoBegin? {
      OpenIsActive(r.before, r.step.c);
    }
    if r.step.DoModify? {
      ImageVersion(r.step.w, After(r.before).store[r.step.k], After(r.before).version + 1);
    }
  }

  lemma {:induction false} VersionSince(r: Run, c: Conn)
    requires Legal(r) && Open(r, c)
    ensures Legal(BeginOf(r, c)) && After(BeginOf(r, c)).version <= After(r).version
    ensures VersionGivenSince(r, c) <==> After(r).version > After(BeginOf(r, c)).version
    decreases r, 0
  {
    OpenIsActive(r, c);
    if r.step != DoBegin(c) {
      hide Refused, Conflicts, GivesVersion, Do;
      VersionSince(r.before, c);
      RefusalKnown(r);
      VersionStep(r);
    }
  }

  /** For the commit that a run ends with, if any. */
  lemma RefusalKnown(r: Run)
    requires Legal(r) && r.Then?
    ensures r.step.DoCommit? ==>
      Open(r.before, r.step.c) && (Refused(r.before, r.step.c) <==> Conflicts(After(r.before), After(r.before).active[r.step.c]))
    decreases r.before, 3
  {
    if r.step.DoCommit? {
      OpenIsActive(r.before, r.step.c);
      CommitRefusedIff(r.before, r.step.c);
    }
  }

  /** A key is overwritten exactly if its stored version is above the one at BEGIN. */
  lemma {:induction false} OverwrittenIs(r: Run, c: Conn, k: Key)
    requires Legal(r) && Open(r, c)
    ensures Legal(BeginOf(r, c))
    ensures Overwritten(r, c, k) <==> k in After(r).store && After(r).store[k].version > After(BeginOf(r, c)).version
    decreases r, 1
  {
    OpenIsActive(r, c);
    if r.step == DoBegin(c) {
      RunInv(r.before);
    } else {
      hide Refused, Conflicts, Stores, GivesVersion, VersionGivenSince, Do;
      OverwrittenIs(r.before, c, k);
      VersionSince(r.before, c);
      VersionSince(r, c);
      RefusalKnown(r);
      StoreStep(r, k);
      VersionStep(r);
    }
  }

  /**
   * COMMIT is refused if and only if some key that the transaction wrote was
   * overwritten since its BEGIN: if nobody stored any of them, it goes through.
   */
  lemma CommitRefusedIff(r: Run, c: Conn)
    requires Legal(r) && c in After(r).active
    ensures Open(r, c) && (Conflicts(After(r), After(r).active[c]) <==> Refused(r, c))
    decreases r, 2
  {
    OpenIsActive(r, c);
    hide Overwritten;
    forall k
      ensures Overwritten(r, c, k) <==> k in After(r).store && After(r).store[k].version > After(BeginOf(r, c)).version
    {
      OverwrittenIs(r, c, k);
    }
  }

  /** How many versions the run gave out. */
  ghost function VersionsGiven(r: Run): nat {
    if r.Start? then 0 else VersionsGiven(r.before) + if GivesVersion(r.before, r.step) then 1 else 0
  }

  /** The database version counts the modifications outside transactions and the commits that went through. */
  lemma {:induction false} VersionCounts(r: Run)
    requires Legal(r)
    ensures After(r).version == VersionsGiven(r)
  {
    if r.Then? {
      hide GivesVersion, Conflicts, Refused, Do;
      VersionCounts(r.before);
      RefusalKnown(r);
      VersionStep(r);
    }
  }

  // ------------------------------------------------------- what commits store

  /** What the connection's last statement on the key since BEGIN makes: of a modification, from the record stored when it ran. */
  ghost predicate LastMade(r: Run, c: Conn, k: Key, rec: Record)
    requires Legal(r) && Open(r, c)
  {
    r.step != DoBegin(c) &&
    if StatementOn(r.step, c, k) then
      match r.step
      case DoModify(_, _, w) => Makes(w, After(r.before).store[k], rec)
      case DoAddRow(_, _, row, timestamp) => rec.row == row && !rec.isDeleted && rec.timestamp == timestamp
    else LastMade(r.before, c, k, rec)
  }

  lemma {:induction false} PendingIsLastMade(r: Run, c: Conn, k: Key, version: nat)
    requires Legal(r) && Open(r, c) && k in Written(r, c)
    ensures c in After(r).active && k in After(r).active[c].updates
    ensures LastMade(r, c, k, After(r).active[c].updates[k].(version := version))
  {
    OpenIsActive(r, c);
    OpenIsActive(r.before, c);
    hide Fresh, Conflicts, Makes, Image;
    if StatementOn(r.step, c, k) {
      if r.step.DoModify? {
        MadeAtAnyVersion(r.step.w, After(r.before).store[k], After(r.before).active[c].snapshot + 1, version);
      }
    } else {
      PendingIsLastMade(r.before, c, k, version);
    }
  }

  lemma MadeAtAnyVersion(w: Write, base: Record, v: nat, version: nat)
    ensures Makes(w, base, Image(w, base, v).(version := version))
  {
    ImageIsMade(w, base, v);
  }

  /**
   * What COMMIT does: refused, it stores nothing. Otherwise it gives out one
   * version, and exactly the keys written since BEGIN are stored at it, each as
   * the last statement on it made it.
   */
  lemma CommitStores(r: Run, c: Conn, k: Key)
    requires Legal(r) && Open(r, c)
    ensures Can(After(r), DoCommit(c)) && Legal(Then(r, DoCommit(c)))
    ensures var (d, d') := (After(r), After(Then(r, DoCommit(c))));
      && c !in d'.active
      && (Refused(r, c) ==> d'.store == d.store && d'.version == d.version && d'.history == d.history)
      && (!Refused(r, c) ==> d'.version == d.version + 1)
      && (!Refused(r, c) && k in Written(r, c) ==>
            k in d'.store && d'.store[k].version == d'.version && LastMade(r, c, k, d'.store[k]))
      && (!Refused(r, c) && k !in Written(r, c) ==> At(d'.store, k) == At(d.store, k))
  {
    hide Conflicts, Refused, LastMade, Written;
    OpenIsActive(r, c);
    CommitRefusedIff(r, c);
    if k in Written(r, c) {
      PendingIsLastMade(r, c, k, After(r).version + 1);
    }
  }

  /** What a statement outside a transaction does: one key is stored at once, a modification at a new version, a new row at the current one. */
  lemma AloneStores(r: Run, step: Step, k: Key)
    requires Legal(r) && Can(After(r), step) && (step.DoModify? || step.DoAddRow?) && !Open(r, step.c)
    ensures var (d, d') := (After(r), After(Then(r, step)));
      && d'.active == d.active
      && (k != step.k ==> At(d'.store, k) == At(d.store, k))
      && step.k in d'.store && d'.store[step.k].version == d'.version
      && (step.DoModify? ==> d'.version == d.version + 1 && Makes(step.w, d.store[step.k], d'.store[step.k]))
      && (step.DoAddRow? ==>
            && d'.version == d.version
            && d'.store[step.k].row == step.row && !d'.store[step.k].isDeleted && d'.store[step.k].timestamp == step.timestamp)
  {
    hide Makes, Image, Fresh;
    OpenIsActive(r, step.c);
    if step.DoModify? {
      ImageIsMade(step.w, After(r).store[step.k], After(r).version + 1);
    }
  }

  /** Until COMMIT a transaction stores nothing. */
  lemma PendingStoresNothing(r: Run, step: Step)
    requires Legal(r) && Can(After(r), step) && !step.DoCommit?
    requires step.DoModify? || step.DoAddRow? ==> Open(r, step.c)
    ensures var (d, d') := (After(r), After(Then(r, step)));
      d'.store == d.store && d'.version == d.version && d'.history == d.history
  {
    hide Image, Fresh;
    if !step.DoBegin? {
      OpenIsActive(r, step.c);
    }
  }

  // --------------------------------------------------------- ended without trace

  /** The run without the connection's transaction: its BEGIN becomes a ROLLBACK, its statements are left out. */
  function Erased(r: Run, c: Conn): Run
    requires Open(r, c)
  {
    if r.step == DoBegin(c) then Then(r.before, DoRollback(c))
    else if (r.step.DoModify? || r.step.DoAddRow?) && r.step.c == c then Erased(r.before, c)
    else Then(Erased(r.before, c), r.step)
  }

  /** What others do is the same with or without the connection's transaction. */
  lemma OthersCommute(d: Db, c: Conn, step: Step)
    requires Can(d, step) && step.c != c
    ensures Can(Rollback(d, c), step) && Do(Rollback(d, c), step) == Rollback(Do(d, step), c)
  {
    hide Image;
    var (a, b) := (Do(Rollback(d, c), step), Rollback(Do(d, step), c));
    if step.DoCommit? {
      assert Rollback(d, c).active[step.c] == d.active[step.c];
    }
    assert a.active == b.active;
  }

  lemma {:induction false} ErasedIsRolledBack(r: Run, c: Conn)
    requires Legal(r) && Open(r, c)
    ensures Legal(Erased(r, c)) && After(Erased(r, c)) == Rollback(After(r), c)
  {
    if r.step == DoBegin(c) {
      assert Legal(Then(r.before, DoRollback(c)));
      assert Rollback(After(r), c).active == After(r.before).active - {c};
    } else {
      ErasedIsRolledBack(r.before, c);
      OpenIsActive(r.before, c);
      if r.step.c == c {
        hide Image, Fresh;
        assert Rollback(After(r), c).active == Rollback(After(r.before), c).active;
      } else {
        hide Do, Can;
        OthersCommute(After(r.before), c, r.step);
      }
    }
  }

  /** A transaction rolled back, or refused at its commit, leaves the database as if it had never begun. */
  lemma EndedWithoutTrace(r: Run, c: Conn)
    requires Legal(r) && Open(r, c)
    ensures Legal(Erased(r, c)) && Legal(Then(r, DoRollback(c))) && Legal(Then(r, DoCommit(c)))
    ensures After(Then(r, DoRollback(c))) == After(Erased(r, c))
    ensures Refused(r, c) ==> After(Then(r, DoCommit(c))) == After(Erased(r, c))
  {
    hide Refused, Conflicts;
    ErasedIsRolledBack(r, c);
    OpenIsActive(r, c);
    CommitRefusedIff(r, c);
  }

  // -------------------------------------------------------------- restarting

  /** How many versions the run had given out when it last stored the key. */
  ghost function StoredAt(r: Run, k: Key): nat {
    if r.Start? then 0
    else if Stores(r.before, r.step, k) then VersionsGiven(r)
    else StoredAt(r.before, k)
  }

  /** A stored record carries the number of versions given out when it was stored. */
  lemma {:induction false} VersionIsStoredAt(r: Run, k: Key)
    requires Legal(r) && k in After(r).store
    ensures After(r).store[k].version == StoredAt(r, k)
  {
    if r.Then? {
      hide Stores, Conflicts, Refused, Do;
      RefusalKnown(r);
      StoreStep(r, k);
      VersionCounts(r);
      if !Stores(r.before, r.step, k) {
        VersionIsStoredAt(r.before, k);
      }
    }
  }

  /** A scan at a version returns records no newer than it that are not deleted. */
  predicate Visible(d: Db, k: Key, version: nat) {
    k in d.store && d.store[k].version <= version && !d.store[k].isDeleted
  }

  /**
   * Starting up again: no transaction is open, and the version counter is read
   * from a record that nothing writes, so it starts at 0 again.
   */
  function Restarted(d: Db): Db {
    Db(d.store, 0, map[], [])
  }

  /** The database after starting up again and giving out n more versions without touching the key. */
  lemma VisibleAfterRestartIff(r: Run, k: Key, n: nat)
    requires Legal(r) && k in After(r).store && !After(r).store[k].isDeleted
    ensures Visible(After(r), k, After(r).version)
    ensures Visible(Restarted(After(r)), k, n) <==> StoredAt(r, k) <= n
  {
    hide Stores, Do;
    VersionIsStoredAt(r, k);
    RunInv(r);
  }

  /** A row inserted and then updated: after a restart no scan returns it until the counter has caught up. */
  lemma UpdatedRowHidden(k: Key, row: Row, w: Write) returns (r: Run)
    requires w.Update?
    ensures Legal(r) && Visible(After(r), k, After(r).version) && !Visible(Restarted(After(r)), k, 0)
  {
    var r0 := Then(Start, DoAddRow(0, k, row, 0));
    assert Legal(Start) && Fresh(After(Start), k);
    assert Legal(r0) && k in After(r0).store;
    r := Then(r0, DoModify(0, k, w));
    assert Legal(r);
  }
}
