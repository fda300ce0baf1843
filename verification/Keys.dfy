/** Byte strings, the key order of the store, and the search functions every node uses. */
module Keys {

  type byte = b: int | 0 <= b < 256
  type Bytes = seq<byte>
  type Key = Bytes
  type Val = Bytes

  datatype Option<+T> = None | Some(value: T)

  datatype Result<+T> = Ok(value: T) | Err(error: string)

  /** Byte strings compare lexicographically, a proper prefix being smaller. */
  predicate LessFrom(a: Bytes, b: Bytes, i: nat)
    requires i <= |a| && i <= |b|
    decreases |b| - i
  {
    i < |b| && (i == |a| || a[i] < b[i] || (a[i] == b[i] && LessFrom(a, b, i + 1)))
  }

  predicate Less(a: Bytes, b: Bytes) {
    LessFrom(a, b, 0)
  }

  lemma {:induction false} LessFromTransitive(a: Bytes, b: Bytes, c: Bytes, i: nat)
    requires i <= |a| && i <= |b| && i <= |c|
    requires LessFrom(a, b, i) && LessFrom(b, c, i)
    ensures LessFrom(a, c, i)
    decreases |b| - i
  {
    if i < |a| && a[i] == b[i] && b[i] == c[i] {
      LessFromTransitive(a, b, c, i + 1);
    }
  }

  lemma {:induction false} LessFromTotal(a: Bytes, b: Bytes, i: nat)
    requires i <= |a| && i <= |b|
    ensures !(LessFrom(a, b, i) && LessFrom(b, a, i))
    ensures LessFrom(a, b, i) || LessFrom(b, a, i) || a[i..] == b[i..]
    ensures a[i..] == b[i..] ==> !LessFrom(a, b, i)
    decreases |b| - i
  {
    if i < |a| && i < |b| {
      LessFromTotal(a, b, i + 1);
      assert a[i..] == [a[i]] + a[i + 1..] && b[i..] == [b[i]] + b[i + 1..];
    } else {
      assert a[i..] == b[i..] ==> |a| == |b|;
    }
  }

  /** The key order is a strict total order, for two keys and for three. */
  lemma Trichotomy(a: Bytes, b: Bytes)
    ensures Less(a, b) ==> !Less(b, a) && a != b
    ensures Less(a, b) || Less(b, a) || a == b
  {
    LessFromTotal(a, b, 0);
    assert a[0..] == a && b[0..] == b;
  }

  lemma Transitive(a: Bytes, b: Bytes, c: Bytes)
    ensures Less(a, b) && Less(b, c) ==> Less(a, c)
    ensures !Less(b, a) && Less(b, c) ==> Less(a, c)
    ensures Less(a, b) && !Less(c, b) ==> Less(a, c)
    ensures !Less(b, a) && !Less(c, b) ==> !Less(c, a)
  {
    hide Less;
    Trichotomy(a, b);
    Trichotomy(b, c);
    LessTransitive(a, b, c);
    LessTransitive(c, b, a);
  }

  lemma LessTransitive(a: Bytes, b: Bytes, c: Bytes)
    ensures Less(a, b) && Less(b, c) ==> Less(a, c)
    ensures Less(a, c) ==> !Less(c, a)
  {
    Trichotomy(a, c);
    if Less(a, b) && Less(b, c) {
      LessFromTransitive(a, b, c, 0);
    }
  }

  ghost predicate Sorted(keys: seq<Key>) {
    forall i, j :: 0 <= i < j < |keys| ==> Less(keys[i], keys[j])
  }

  /** The first position whose key is not below k: where k is, or where it belongs. */
  function LowerBound(keys: seq<Key>, k: Key): (i: nat)
    ensures i <= |keys|
    ensures forall j :: 0 <= j < i ==> Less(keys[j], k)
    ensures i < |keys| ==> !Less(keys[i], k)
  {
    if |keys| > 0 && Less(keys[0], k) then
      var i := LowerBound(keys[1..], k);
      assert forall j :: 0 < j < i + 1 ==> keys[j] == keys[1..][j - 1];
      i + 1
    else 0
  }

  /** The child an internal node sends k to: an equal separator sends it right. */
  function Route(keys: seq<Key>, k: Key): (i: nat)
    ensures i <= |keys|
    ensures forall j :: 0 <= j < i ==> !Less(k, keys[j])
    ensures i < |keys| ==> Less(k, keys[i])
  {
    if |keys| > 0 && !Less(k, keys[0]) then
      var i := Route(keys[1..], k);
      assert forall j :: 0 < j < i + 1 ==> keys[j] == keys[1..][j - 1];
      i + 1
    else 0
  }

  /** Around position r of a sorted sequence: everything before it is like its left neighbour, everything from it on like its right one. */
  lemma SortedAround(keys: seq<Key>, k: Key, r: nat)
    requires Sorted(keys) && r <= |keys|
    ensures r > 0 && Less(keys[r - 1], k) ==> forall j :: 0 <= j < r ==> Less(keys[j], k)
    ensures r > 0 && !Less(k, keys[r - 1]) ==> forall j :: 0 <= j < r ==> !Less(k, keys[j])
    ensures r < |keys| && Less(k, keys[r]) ==> forall j :: r <= j < |keys| ==> Less(k, keys[j])
    ensures r < |keys| && !Less(keys[r], k) ==> forall j :: r <= j < |keys| ==> !Less(keys[j], k)
  {
    hide Less;
    forall j | 0 <= j < r
      ensures Less(keys[r - 1], k) ==> Less(keys[j], k)
      ensures !Less(k, keys[r - 1]) ==> !Less(k, keys[j])
    {
      Transitive(keys[j], keys[r - 1], k);
      Trichotomy(keys[j], k);
    }
    forall j | r <= j < |keys|
      ensures Less(k, keys[r]) ==> Less(k, keys[j])
      ensures !Less(keys[r], k) ==> !Less(keys[j], k)
    {
      Transitive(k, keys[r], keys[j]);
      Trichotomy(k, keys[j]);
    }
  }

  /** In a sorted node the two bounds of Route determine it. */
  lemma RouteIs(keys: seq<Key>, k: Key, r: nat)
    requires Sorted(keys) && r <= |keys|
    requires r > 0 ==> !Less(k, keys[r - 1])
    requires r < |keys| ==> Less(k, keys[r])
    ensures Route(keys, k) == r
  {
    hide Less;
    SortedAround(keys, k, r);
  }

  lemma LowerBoundIs(keys: seq<Key>, k: Key, r: nat)
    requires Sorted(keys) && r <= |keys|
    requires r > 0 ==> Less(keys[r - 1], k)
    requires r < |keys| ==> !Less(keys[r], k)
    ensures LowerBound(keys, k) == r
  {
    hide Less;
    SortedAround(keys, k, r);
  }

  /** Outcome of a slice binary search: the position of the key, or where it would go. */
  datatype Search = Found(idx: nat) | Missing(idx: nat)

  /** Binary search in the sorted keys of a node. */
  method BinarySearch(keys: seq<Key>, k: Key) returns (s: Search)
    requires Sorted(keys)
    ensures s.idx == LowerBound(keys, k)
    ensures s.Found? <==> k in keys
    ensures s.Found? ==> s.idx < |keys| && keys[s.idx] == k
    ensures Route(keys, k) == if s.Found? then s.idx + 1 else s.idx
  {
    hide Less;
    var lo, hi := 0, |keys|;
    while lo < hi
      invariant 0 <= lo <= hi <= |keys|
      invariant lo > 0 ==> Less(keys[lo - 1], k)
      invariant hi < |keys| ==> Less(k, keys[hi])
    {
      var mid := lo + (hi - lo) / 2;
      Trichotomy(keys[mid], k);
      if keys[mid] == k {
        FoundAt(keys, k, mid);
        return Found(mid);
      } else if Less(keys[mid], k) {
        lo := mid + 1;
      } else {
        hi := mid;
      }
    }
    MissingAt(keys, k, lo);
    s := Missing(lo);
  }

  lemma FoundAt(keys: seq<Key>, k: Key, i: nat)
    requires Sorted(keys) && i < |keys| && keys[i] == k
    ensures LowerBound(keys, k) == i && Route(keys, k) == i + 1
  {
    hide Less;
    Trichotomy(k, k);
    LowerBoundIs(keys, k, i);
    RouteIs(keys, k, i + 1);
  }

  lemma MissingAt(keys: seq<Key>, k: Key, i: nat)
    requires Sorted(keys) && i <= |keys|
    requires (i > 0 ==> Less(keys[i - 1], k)) && (i < |keys| ==> Less(k, keys[i]))
    ensures LowerBound(keys, k) == i && Route(keys, k) == i && k !in keys
  {
    hide Less;
    if i > 0 {
      Trichotomy(keys[i - 1], k);
    }
    if i < |keys| {
      Trichotomy(k, keys[i]);
    }
    LowerBoundIs(keys, k, i);
    RouteIs(keys, k, i);
    SortedAround(keys, k, i);
    forall j | 0 <= j < |keys|
      ensures keys[j] != k
    {
      Trichotomy(keys[j], k);
      Trichotomy(k, keys[j]);
    }
  }

  function InsertAt<T>(s: seq<T>, i: nat, x: T): (r: seq<T>)
    requires i <= |s|
    ensures |r| == |s| + 1
    ensures forall j :: 0 <= j < |r| ==> r[j] == if j < i then s[j] else if j == i then x else s[j - 1]
  {
    s[..i] + [x] + s[i..]
  }

  /** A key between its neighbours keeps the order. */
  lemma SortedInsert(keys: seq<Key>, i: nat, k: Key)
    requires Sorted(keys) && i <= |keys|
    requires (i > 0 ==> Less(keys[i - 1], k)) && (i < |keys| ==> Less(k, keys[i]))
    ensures Sorted(InsertAt(keys, i, k))
  {
    hide Less;
    SortedAround(keys, k, i);
    var r := InsertAt(keys, i, k);
    forall a, b | 0 <= a < b < |r|
      ensures Less(r[a], r[b])
    {
      if a < i && b > i {
        assert Less(keys[a], keys[b - 1]);
      }
    }
  }
}
