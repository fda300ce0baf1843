/** The in-memory tier over the tree: two parallel maps with batch eviction. */
module MemoryTiers {
  import opened Keys
  import opened Limits


  /** A tier as a value. */
  datatype Tier = Tier(cache: map<Key, Val>, lru: map<Key, int>)

  /** Entries are estimated at 256 bytes each; the byte limit wraps at 64 bits. */
  predicate OverLimit(entries: nat, maxRamMb: nat) {
    (entries * 256) % U64_BOUND > (maxRamMb * 1024 * 1024) % U64_BOUND && entries > 0
  }

  /** Evicting a batch removes the given number of keys, none inserted later than a survivor. */
  ghost predicate Evicts(s: Tier, s': Tier, count: nat, gone: set<Key>) {
    && gone <= s.lru.Keys
    && |gone| == (if count < |s.lru| then count else |s.lru|)
    && s' == Tier(s.cache - gone, s.lru - gone)
    && forall g, k :: g in gone && k in s'.lru ==> s.lru[g] <= s.lru[k]
  }

  /** One insertion: evict a tenth first when over the limit, then store the entry with its time. */
  ghost predicate Inserts(s: Tier, s': Tier, key: Key, val: Val, now: int, maxRamMb: nat, gone: set<Key>) {
    var room := Tier(s.cache - gone, s.lru - gone);
    && (if OverLimit(|s.cache|, maxRamMb) then Evicts(s, room, |s.cache| / 10, gone) else gone == {})
    && s' == Tier(room.cache[key := val], room.lru[key := now])
  }

  /** In numbers: beyond 256 bytes for each entry exactly a tenth of the entries go, none of them younger than one that stays. */
  lemma InsertEvictsTenth(s: Tier, s': Tier, key: Key, val: Val, now: int, maxRamMb: nat, gone: set<Key>)
    requires s.cache.Keys == s.lru.Keys && Inserts(s, s', key, val, now, maxRamMb, gone)
    ensures s'.cache == (s.cache - gone)[key := val] && s'.lru == (s.lru - gone)[key := now]
    ensures |gone| ==
      if |s.cache| > 0 && (256 * |s.cache|) % 0x1_0000_0000_0000_0000 > (1048576 * maxRamMb) % 0x1_0000_0000_0000_0000
      then |s.cache| / 10 else 0
    ensures forall g, k :: g in gone && k in s.lru && k !in gone ==> g in s.lru && s.lru[g] <= s.lru[k]
  {
    SameSize(s.cache, s.lru);
  }

  datatype Stamp = Stamp(key: Key, time: int)

  ghost predicate ByTime(items: seq<Stamp>) {
    forall i, j :: 0 <= i < j < |items| ==> items[i].time <= items[j].time
  }

  ghost predicate Distinct(items: seq<Stamp>) {
    forall i, j :: 0 <= i < j < |items| ==> items[i].key != items[j].key
  }

  ghost function KeysOf(items: seq<Stamp>): set<Key> {
    set i | 0 <= i < |items| :: items[i].key
  }

  /** The items are the stamps of some keys of the map, each key once. */
  ghost predicate StampsOf(items: seq<Stamp>, lru: map<Key, int>) {
    Distinct(items) && forall i :: 0 <= i < |items| ==> items[i].key in lru && lru[items[i].key] == items[i].time
  }

  lemma {:induction false} KeysOfCount(items: seq<Stamp>)
    requires Distinct(items)
    ensures |KeysOf(items)| == |items|
  {
    if items != [] {
      var n := |items| - 1;
      KeysOfCount(items[..n]);
      assert KeysOf(items) == KeysOf(items[..n]) + {items[n].key};
    }
  }

  lemma KeysOfInsertAt(items: seq<Stamp>, i: nat, x: Stamp)
    requires i <= |items|
    ensures KeysOf(InsertAt(items, i, x)) == KeysOf(items) + {x.key}
  {
    var r := InsertAt(items, i, x);
    forall j | 0 <= j < |items|
      ensures items[j].key in KeysOf(r)
    {
      assert r[if j < i then j else j + 1] == items[j];
    }
    assert r[i] == x;
  }

  lemma PlaceByTime(r: seq<Stamp>, i: nat, x: Stamp)
    requires i <= |r| && ByTime(r)
    requires i > 0 ==> r[i - 1].time <= x.time
    requires forall j :: i <= j < |r| ==> r[j].time > x.time
    ensures ByTime(InsertAt(r, i, x))
  {
    assert forall j :: 0 <= j < i ==> r[j].time <= x.time;
  }

  lemma PlaceDistinct(r: seq<Stamp>, i: nat, x: Stamp)
    requires i <= |r| && Distinct(r) && x.key !in KeysOf(r)
    ensures Distinct(InsertAt(r, i, x))
  {
    var r' := InsertAt(r, i, x);
    assert forall j :: 0 <= j < |r| ==> r[j].key in KeysOf(r);
    forall a, b | 0 <= a < b < |r'|
      ensures r'[a].key != r'[b].key
    {
    }
  }

  /** Insertion of one stamp into a sorted list, after the stamps of equal time. */
  method InsertByTime(r: seq<Stamp>, x: Stamp, ghost lru: map<Key, int>) returns (r': seq<Stamp>)
    requires ByTime(r) && StampsOf(r, lru)
    requires x.key !in KeysOf(r) && x.key in lru && lru[x.key] == x.time
    ensures ByTime(r') && StampsOf(r', lru) && KeysOf(r') == KeysOf(r) + {x.key} && |r'| == |r| + 1
  {
    var i := |r|;
    while i > 0 && r[i - 1].time > x.time
      invariant 0 <= i <= |r|
      invariant forall j :: i <= j < |r| ==> r[j].time > x.time
    {
      i := i - 1;
    }
    PlaceByTime(r, i, x);
    PlaceDistinct(r, i, x);
    KeysOfInsertAt(r, i, x);
    r' := InsertAt(r, i, x);
  }

  /** Sorting the stamps by time. */
  method SortByTime(items: seq<Stamp>, ghost lru: map<Key, int>) returns (r: seq<Stamp>)
    requires StampsOf(items, lru)
    ensures ByTime(r) && StampsOf(r, lru) && KeysOf(r) == KeysOf(items) && |r| == |items|
  {
    r := [];
    for n := 0 to |items|
      invariant ByTime(r) && StampsOf(r, lru) && KeysOf(r) == KeysOf(items[..n]) && |r| == n
    {
      NextStamp(items, n);
      r := InsertByTime(r, items[n], lru);
    }
    assert items[..|items|] == items;
  }

  lemma NextStamp(items: seq<Stamp>, n: nat)
    requires Distinct(items) && n < |items|
    ensures KeysOf(items[..n + 1]) == KeysOf(items[..n]) + {items[n].key} && items[n].key !in KeysOf(items[..n])
  {
    assert items[..n + 1] == InsertAt(items[..n], n, items[n]);
    KeysOfInsertAt(items[..n], n, items[n]);
  }

  /** The first n stamps in time order are the oldest. */
  lemma OldestGone(s: Tier, items: seq<Stamp>, n: nat)
    requires StampsOf(items, s.lru) && KeysOf(items) == s.lru.Keys && ByTime(items) && n <= |items|
    ensures KeysOf(items[..n]) <= s.lru.Keys
    ensures forall g, k :: g in KeysOf(items[..n]) && k in (s.lru - KeysOf(items[..n])) ==> s.lru[g] <= s.lru[k]
  {
    var gone := KeysOf(items[..n]);
    forall j | 0 <= j < n
      ensures items[j].key in gone
    {
      assert items[..n][j] == items[j];
    }
    forall g, k | g in gone && k in (s.lru - gone)
      ensures g in s.lru && s.lru[g] <= s.lru[k]
    {
      var i :| 0 <= i < n && items[..n][i].key == g;
      var j :| 0 <= j < |items| && items[j].key == k;
    }
    forall g | g in gone
      ensures g in s.lru
    {
      var i :| 0 <= i < n && items[..n][i].key == g;
    }
  }

  class MemoryTier {
    var cache: map<Key, Val>
    var lru: map<Key, int>
    var maxRamMb: nat

    /** Both maps always have the same keys. */
    ghost predicate Valid()
      reads this
    {
      cache.Keys == lru.Keys
    }

    ghost function State(): Tier
      reads this
    {
      Tier(cache, lru)
    }

    constructor (maxRamMb: nat)
      ensures Valid() && State() == Tier(map[], map[]) && this.maxRamMb == maxRamMb
    {
      cache, lru, this.maxRamMb := map[], map[], maxRamMb;
    }

    /** Reading does not refresh the time of an entry. */
    method Get(key: Key) returns (r: Option<Val>)
      ensures r == if key in cache then Some(cache[key]) else None
    {
      if key in cache {
        r := Some(cache[key]);
      } else {
        r := None;
      }
    }

    method Insert(key: Key, val: Val, now: int) returns (ghost gone: set<Key>)
      requires Valid()
      modifies this`cache, this`lru
      ensures Valid() && Inserts(old(State()), State(), key, val, now, maxRamMb, gone)
    {
      gone := {};
      if OverLimit(|cache|, maxRamMb) {
        SameSize(cache, lru);
        gone := EvictLru(|cache| / 10);
      }
      assert cache == old(cache) - gone && lru == old(lru) - gone;
      lru := lru[key := now];
      cache := cache[key := val];
    }

    method EvictLru(count: nat) returns (ghost gone: set<Key>)
      requires Valid()
      modifies this`cache, this`lru
      ensures Valid() && Evicts(old(State()), State(), count, gone)
    {
      var items := Snapshot();
      items := SortByTime(items, lru);
      KeysOfCount(items);
      var n := if count < |items| then count else |items|;
      OldestGone(State(), items, n);
      gone := KeysOf(items[..n]);
      KeysOfCount(items[..n]);
      RemoveFirst(items, n);
    }

    /** The removal loop over the n oldest entries. */
    method RemoveFirst(items: seq<Stamp>, n: nat)
      requires n <= |items| && Distinct(items)
      modifies this`cache, this`lru
      ensures cache == old(cache) - KeysOf(items[..n]) && lru == old(lru) - KeysOf(items[..n])
    {
      for i := 0 to n
        invariant cache == old(cache) - KeysOf(items[..i]) && lru == old(lru) - KeysOf(items[..i])
      {
        NextStamp(items, i);
        cache := cache - {items[i].key};
        lru := lru - {items[i].key};
      }
    }

    /** The stamps in arbitrary order, as iterating over the map yields them. */
    method Snapshot() returns (items: seq<Stamp>)
      ensures StampsOf(items, lru) && KeysOf(items) == lru.Keys
    {
      items := [];
      var rest := lru.Keys;
      while rest != {}
        invariant rest <= lru.Keys
        invariant StampsOf(items, lru) && KeysOf(items) == lru.Keys - rest
        decreases rest
      {
        var k :| k in rest;
        assert forall i :: 0 <= i < |items| ==> items[i].key in KeysOf(items);
        KeysOfInsertAt(items, |items|, Stamp(k, lru[k]));
        items := InsertAt(items, |items|, Stamp(k, lru[k]));
        rest := rest - {k};
      }
    }

    method Remove(key: Key)
      requires Valid()
      modifies this`cache, this`lru
      ensures Valid() && cache == old(cache) - {key} && lru == old(lru) - {key}
    {
      cache := cache - {key};
      lru := lru - {key};
    }

    method Clear()
      modifies this`cache, this`lru
      ensures Valid() && State() == Tier(map[], map[])
    {
      cache := map[];
      lru := map[];
    }
  }

  lemma SameSize(a: map<Key, Val>, b: map<Key, int>)
    requires a.Keys == b.Keys
    ensures |a| == |b|
  {
    assert |a| == |a.Keys| && |b| == |b.Keys|;
  }

  // -------------------------------------------------------------- occupancy

  /** As many entries of 256 bytes as 64 bits can count. */
  const MAX_ENTRIES: nat := 0x100_0000_0000_0000

  ghost function Bound(maxRamMb: nat, floor: nat): nat {
    if 4096 * maxRamMb + 1 > floor then 4096 * maxRamMb + 1 else floor
  }

  /** A sequential run of insertions at a fixed limit; the tier after each one. */
  ghost predicate InsertRun(run: seq<Tier>, maxRamMb: nat) {
    forall i :: 0 < i < |run| ==> InsertsSomething(run[i - 1], run[i], maxRamMb)
  }

  ghost predicate InsertsSomething(s: Tier, s': Tier, maxRamMb: nat) {
    exists key: Key, val: Val, now: int, gone: set<Key> :: Inserts(s, s', key, val, now, maxRamMb, gone)
  }

  /** The two maps agree on their keys after an insertion if they did before. */
  lemma InsertKeepsAgreement(s: Tier, s': Tier, maxRamMb: nat)
    requires s.cache.Keys == s.lru.Keys && InsertsSomething(s, s', maxRamMb)
    ensures s'.cache.Keys == s'.lru.Keys
  {
  }

  lemma MinusCount(m: map<Key, Val>, gone: set<Key>)
    requires gone <= m.Keys
    ensures |m - gone| == |m| - |gone|
  {
    assert (m - gone).Keys == m.Keys - gone;
    assert |m.Keys| == |m.Keys - gone| + |gone| by {
      assert m.Keys == (m.Keys - gone) + gone;
    }
    assert |m| == |m.Keys| && |m - gone| == |(m - gone).Keys|;
  }

  lemma PlusCount(m: map<Key, Val>, k: Key, v: Val)
    ensures |m| <= |m[k := v]| <= |m| + 1
  {
    assert m[k := v].Keys == m.Keys + {k};
    assert |m| == |m.Keys| && |m[k := v]| == |m[k := v].Keys|;
    if k in m.Keys {
      assert m.Keys + {k} == m.Keys;
    }
  }

  lemma NoWrap(entries: nat, maxRamMb: nat)
    requires 4096 * maxRamMb < MAX_ENTRIES && entries < MAX_ENTRIES
    ensures OverLimit(entries, maxRamMb) <==> entries > 4096 * maxRamMb
  {
    assert entries * 256 < U64_BOUND && maxRamMb * 1024 * 1024 < U64_BOUND;
  }

  /** One insertion in numbers: at most one more entry, after losing a tenth when over the limit. */
  lemma InsertCount(s: Tier, s': Tier, maxRamMb: nat)
    requires s.cache.Keys == s.lru.Keys && InsertsSomething(s, s', maxRamMb)
    requires 4096 * maxRamMb < MAX_ENTRIES && |s.cache| < MAX_ENTRIES
    ensures |s.cache| <= 4096 * maxRamMb || |s.cache| == 0 ==> |s'.cache| <= |s.cache| + 1
    ensures |s.cache| > 4096 * maxRamMb ==> |s'.cache| <= |s.cache| - |s.cache| / 10 + 1
  {
    var key: Key, val: Val, now: int, gone: set<Key> :| Inserts(s, s', key, val, now, maxRamMb, gone);
    SameSize(s.cache, s.lru);
    NoWrap(|s.cache|, maxRamMb);
    MinusCount(s.cache, gone);
    PlusCount(s.cache - gone, key, val);
  }

  /** Occupancy over every run from an empty tier at a fixed limit. */
  lemma {:induction false} OccupancyBound(run: seq<Tier>, maxRamMb: nat)
    requires run != [] && run[0] == Tier(map[], map[]) && InsertRun(run, maxRamMb)
    requires 4096 * maxRamMb + 10 < MAX_ENTRIES
    ensures var s := run[|run| - 1]; s.cache.Keys == s.lru.Keys && |s.cache| <= Bound(maxRamMb, 10)
  {
    if |run| > 1 {
      var n := |run| - 1;
      assert InsertRun(run[..n], maxRamMb);
      OccupancyBound(run[..n], maxRamMb);
      assert InsertsSomething(run[n - 1], run[n], maxRamMb);
      InsertKeepsAgreement(run[n - 1], run[n], maxRamMb);
      InsertCount(run[n - 1], run[n], maxRamMb);
    }
  }

  /** After the limit was lowered: every insertion above the new bound shrinks the tier, until it is met for good. */
  lemma {:induction false} OccupancyAfterLowering(run: seq<Tier>, maxRamMb: nat)
    requires run != [] && run[0].cache.Keys == run[0].lru.Keys && InsertRun(run, maxRamMb)
    requires 4096 * maxRamMb + 19 < MAX_ENTRIES && |run[0].cache| < MAX_ENTRIES
    ensures var s := run[|run| - 1];
      && s.cache.Keys == s.lru.Keys
      && (|s.cache| <= Bound(maxRamMb, 19) || |s.cache| + |run| - 1 <= |run[0].cache|)
  {
    if |run| > 1 {
      var n := |run| - 1;
      assert InsertRun(run[..n], maxRamMb);
      OccupancyAfterLowering(run[..n], maxRamMb);
      assert InsertsSomething(run[n - 1], run[n], maxRamMb);
      InsertKeepsAgreement(run[n - 1], run[n], maxRamMb);
      InsertCount(run[n - 1], run[n], maxRamMb);
    }
  }

  /** Hence as many insertions as there were entries always suffice. */
  lemma EnoughInsertsReachBound(run: seq<Tier>, maxRamMb: nat)
    requires run != [] && run[0].cache.Keys == run[0].lru.Keys && InsertRun(run, maxRamMb)
    requires 4096 * maxRamMb + 19 < MAX_ENTRIES && |run[0].cache| < MAX_ENTRIES
    requires |run| > |run[0].cache|
    ensures |run[|run| - 1].cache| <= Bound(maxRamMb, 19)
  {
    OccupancyAfterLowering(run, maxRamMb);
  }
}
