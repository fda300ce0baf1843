/** Starting up on an existing log: recovery, replay, and what reads find afterwards. */
module Restarts {
  import opened Keys
  import opened Codec
  import opened Pagers
  import opened MemoryTiers
  import opened Trees
  import opened WalLog
  import opened WalShift
  import opened WalRecovery
  import opened Wals
  import opened BPlusTrees

  /** The value replay keeps for a key is the one logged last. */
  lemma {:induction false} LastRecordKept(entries: seq<WalEntry>, k: Key, i: nat)
    requires i < |entries| && entries[i].RecordUpdate? && entries[i].key == k
    requires forall j :: i < j < |entries| ==> !(entries[j].RecordUpdate? && entries[j].key == k)
    ensures k in Records(entries) && Records(entries)[k] == entries[i].data
  {
    var n := |entries| - 1;
    if i < n {
      LastRecordKept(entries[..n], k, i);
    }
  }

  /**
   * Restart on any prefix of a clean log, whatever page images are in it: the
   * memory tier holds the last surviving record of every key. Where the records
   * are too many for its limit some keys are evicted: the others hold theirs, the
   * record that survives last is among them, and with a clock that goes on they
   * are those logged latest.
   */
  method Restart(pager: Pager, memory: MemoryTier, tie: Tie, logFile: Bytes, clock: nat -> int,
      ghost batches: seq<seq<WalEntry>>) returns (tree: BPlusTree)
    requires pager.Valid() && memory.Valid() && memory.cache == map[]
    requires Batches(batches) && Clean(batches)
    requires |logFile| <= |LogFile(batches)| && logFile == LogFile(batches)[..|logFile|]
    modifies pager`file, memory`cache, memory`lru
    ensures tree.memory == memory
    ensures var es := Survivors(batches, |logFile|);
      && (Unevicted(map[], es, memory.maxRamMb) ==> memory.cache == Records(es))
      && KeepsLast(map[], es, memory.cache) && LastCached(es, memory.cache)
      && (Ticks(clock, |es|) ==> LatestStay(es, memory.cache))
  {
    hide Recovered, Records, Survivors, LogFile, Clean, Batches, Seal, Unevicted, KeepsLast, LastCached, LatestStay, Ticks;
    var wal := new Wal.Open(logFile);
    var entries := wal.ReadAll();
    TornTail(batches, |logFile|, 0);
    tree := new BPlusTree.Open(pager, memory, tie, entries, clock);
    assert map[] + Records(entries) == Records(entries);
  }

  /** Reads after a restart on the whole log return the last logged value of every logged key, or, over the limit, of the key logged last. */
  method ReadAfterRestart(pager: Pager, memory: MemoryTier, tie: Tie, logFile: Bytes, clock: nat -> int,
      ghost batches: seq<seq<WalEntry>>, key: Key, ghost i: nat) returns (r: Result<Option<Val>>)
    requires pager.Valid() && memory.Valid() && memory.cache == map[]
    requires Batches(batches) && Clean(batches) && logFile == LogFile(batches)
    requires i < |Flatten(batches)| && Flatten(batches)[i].RecordUpdate? && Flatten(batches)[i].key == key
    requires Unevicted(map[], Flatten(batches), memory.maxRamMb) || IsLastRecord(Flatten(batches), i)
    requires forall j :: i < j < |Flatten(batches)| ==> !(Flatten(batches)[j].RecordUpdate? && Flatten(batches)[j].key == key)
    modifies pager`file, memory`cache, memory`lru
    ensures r == Ok(Some(Flatten(batches)[i].data))
  {
    WholeLogSurvives(batches);
    assert logFile[..|logFile|] == logFile;
    var tree := Restart(pager, memory, tie, logFile, clock, batches);
    LastRecordKept(Flatten(batches), key, i);
    r := tree.Get(key);
  }
}
