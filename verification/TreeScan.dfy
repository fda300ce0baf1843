/** Reading the leaf chain from end to end yields the contents of the tree in key order. */
module TreeScan {
  import opened Keys
  import opened Trees
  import opened TreeOrder
  import opened TreePages

  /** The entries of one leaf, in order. */
  function Pairs(keys: seq<Key>, vals: seq<Val>): (ps: seq<(Key, Val)>)
    requires |keys| == |vals|
    ensures |ps| == |keys|
    ensures forall i :: 0 <= i < |ps| ==> ps[i] == (keys[i], vals[i])
  {
    if keys == [] then [] else [(keys[0], vals[0])] + Pairs(keys[1..], vals[1..])
  }

  ghost predicate LeafRun(ls: seq<Tree>) {
    forall i :: 0 <= i < |ls| ==> ls[i].Leaf? && |ls[i].keys| == |ls[i].vals|
  }

  /** The entries met while walking a run of leaves. */
  ghost function Scan(ls: seq<Tree>): seq<(Key, Val)>
    requires LeafRun(ls)
  {
    if ls == [] then [] else Pairs(ls[0].keys, ls[0].vals) + Scan(ls[1..])
  }

  ghost predicate InKeyOrder(ps: seq<(Key, Val)>) {
    forall i, j :: 0 <= i < j < |ps| ==> Less(ps[i].0, ps[j].0)
  }

  lemma ScanFirst(ls: seq<Tree>)
    requires LeafRun(ls)
    ensures ls == [] ==> Scan(ls) == []
    ensures ls != [] ==> LeafRun(ls[1..]) && Scan(ls) == Pairs(ls[0].keys, ls[0].vals) + Scan(ls[1..])
  {
  }

  lemma RunConcat(a: seq<Tree>, b: seq<Tree>)
    requires LeafRun(a) && LeafRun(b)
    ensures LeafRun(a + b)
  {
  }

  lemma {:induction false} ScanConcat(a: seq<Tree>, b: seq<Tree>)
    requires LeafRun(a) && LeafRun(b)
    ensures LeafRun(a + b) && Scan(a + b) == Scan(a) + Scan(b)
  {
    hide Scan, Pairs, LeafRun;
    RunConcat(a, b);
    ScanFirst(a);
    if a == [] {
      assert a + b == b;
    } else {
      ScanFirst(a + b);
      assert (a + b)[0] == a[0] && (a + b)[1..] == a[1..] + b;
      ScanConcat(a[1..], b);
      var first := Pairs(a[0].keys, a[0].vals);
      assert first + (Scan(a[1..]) + Scan(b)) == (first + Scan(a[1..])) + Scan(b);
    }
  }

  lemma {:induction false} LeavesAreLeaves(t: Tree, h: nat)
    requires Shape(t, h)
    ensures LeafRun(Leaves(t))
    decreases t, 1
  {
    if t.Branch? {
      ForestLeavesAreLeaves(t.kids, h - 1);
    }
  }

  lemma {:induction false} ForestLeavesAreLeaves(kids: seq<Tree>, h: nat)
    requires forall i :: 0 <= i < |kids| ==> Shape(kids[i], h)
    ensures LeafRun(LeavesOf(kids))
    decreases kids, 0
  {
    if kids != [] {
      LeavesAreLeaves(kids[0], h);
      ForestLeavesAreLeaves(kids[1..], h);
      ScanConcat(Leaves(kids[0]), LeavesOf(kids[1..]));
    }
  }

  /** The scan of a tree is in key order and holds (q, v) exactly when the search for q answers v. */
  ghost predicate ScansTo(t: Tree, ps: seq<(Key, Val)>) {
    && InKeyOrder(ps)
    && forall q, v :: (q, v) in ps <==> Lookup(t, q) == Some(v)
  }

  lemma LeafEntry(t: Tree, q: Key, v: Val)
    requires t.Leaf? && Sorted(t.keys) && |t.keys| == |t.vals|
    ensures (q, v) in Pairs(t.keys, t.vals) <==> Lookup(t, q) == Some(v)
  {
    var ps := Pairs(t.keys, t.vals);
    hide Less;
    if i :| 0 <= i < |ps| && ps[i] == (q, v) {
      FoundAt(t.keys, q, i);
    }
    if Lookup(t, q) == Some(v) {
      assert ps[LowerBound(t.keys, q)] == (q, v);
    }
  }

  lemma LeafScans(t: Tree)
    requires t.Leaf? && Sorted(t.keys) && |t.keys| == |t.vals|
    ensures ScansTo(t, Pairs(t.keys, t.vals))
  {
    forall q, v
      ensures (q, v) in Pairs(t.keys, t.vals) <==> Lookup(t, q) == Some(v)
    {
      LeafEntry(t, q, v);
    }
  }

  /** Forest version: the scans of the subtrees concatenate in order. */
  ghost predicate ForestScansTo(kids: seq<Tree>, ps: seq<(Key, Val)>) {
    && InKeyOrder(ps)
    && forall q, v :: (q, v) in ps <==> exists i :: 0 <= i < |kids| && Lookup(kids[i], q) == Some(v)
  }

  ghost predicate Apart(kids: seq<Tree>) {
    forall i, j, x, y :: 0 <= i < j < |kids| && x in KeySet(kids[i]) && y in KeySet(kids[j]) ==> Less(x, y)
  }

  lemma KidsApart(t: Tree)
    requires Ordered(t, Strict) && t.Branch?
    ensures Apart(t.kids)
  {
    forall i, j, x, y | 0 <= i < j < |t.kids| && x in KeySet(t.kids[i]) && y in KeySet(t.kids[j])
      ensures Less(x, y)
    {
      hide Less, KeySet;
      KidRange(t, i, x, Strict);
      KidRange(t, j, y, Strict);
      Transitive(x, t.keys[i], y);
    }
  }

  lemma ForestStep(kids: seq<Tree>, h: nat, a: seq<(Key, Val)>, b: seq<(Key, Val)>)
    requires kids != [] && Apart(kids)
    requires forall i :: 0 <= i < |kids| ==> Shape(kids[i], h) && Ordered(kids[i], Strict)
    requires ScansTo(kids[0], a) && ForestScansTo(kids[1..], b)
    ensures ForestScansTo(kids, a + b)
  {
    forall p, p' | p in a && p' in b
      ensures Less(p.0, p'.0)
    {
      assert (p.0, p.1) in a && (p'.0, p'.1) in b;
      LookupFindsKeys(kids[0], h, p.0, Strict);
      var i :| 0 <= i < |kids[1..]| && Lookup(kids[1..][i], p'.0) == Some(p'.1);
      LookupFindsKeys(kids[i + 1], h, p'.0, Strict);
    }
    forall q, v
      ensures (q, v) in a + b <==> exists i :: 0 <= i < |kids| && Lookup(kids[i], q) == Some(v)
    {
      if i :| 0 <= i < |kids| && Lookup(kids[i], q) == Some(v) {
        assert i > 0 ==> kids[1..][i - 1] == kids[i];
      }
      if (q, v) in b {
        var i :| 0 <= i < |kids[1..]| && Lookup(kids[1..][i], q) == Some(v);
        assert kids[i + 1] == kids[1..][i];
      }
    }
  }

  /** A search enters the one subtree that can hold its key. */
  lemma SubtreesAnswer(t: Tree, h: nat, ps: seq<(Key, Val)>)
    requires Shape(t, h) && Ordered(t, Strict) && t.Branch? && ForestScansTo(t.kids, ps)
    ensures ScansTo(t, ps)
  {
    hide KeySet, Less, InKeyOrder;
    forall q, v
      ensures (q, v) in ps <==> Lookup(t, q) == Some(v)
    {
      assert Lookup(t, q) == Lookup(t.kids[Route(t.keys, q)], q);
      if i :| 0 <= i < |t.kids| && Lookup(t.kids[i], q) == Some(v) {
        LookupFindsKeys(t.kids[i], h - 1, q, Strict);
        StoredKeyRoute(t, i, q, Strict);
      }
    }
  }

  lemma OneLeafScans(t: Tree)
    requires t.Leaf? && |t.keys| == |t.vals|
    ensures Leaves(t) == [t] && Scan(Leaves(t)) == Pairs(t.keys, t.vals)
  {
    assert Leaves(t)[1..] == [];
  }

  /** Walking all leaves in order enumerates exactly what a search can find, in key order. */
  lemma {:induction false} ScanIsContents(t: Tree, h: nat)
    requires Shape(t, h) && Ordered(t, Strict)
    ensures LeafRun(Leaves(t)) && ScansTo(t, Scan(Leaves(t)))
    decreases t, 1
  {
    hide KeySet, Less, Scan, ScansTo, ForestScansTo;
    LeavesAreLeaves(t, h);
    if t.Leaf? {
      LeafScans(t);
      OneLeafScans(t);
    } else {
      KidsApart(t);
      ForestScanIsContents(t.kids, h - 1);
      SubtreesAnswer(t, h, Scan(LeavesOf(t.kids)));
    }
  }

  lemma {:induction false} ForestScanIsContents(kids: seq<Tree>, h: nat)
    requires Apart(kids)
    requires forall i :: 0 <= i < |kids| ==> Shape(kids[i], h) && Ordered(kids[i], Strict)
    ensures LeafRun(LeavesOf(kids)) && ForestScansTo(kids, Scan(LeavesOf(kids)))
    decreases kids, 0
  {
    if kids != [] {
      ScanIsContents(kids[0], h);
      forall i, j, x, y | 0 <= i < j < |kids[1..]| && x in KeySet(kids[1..][i]) && y in KeySet(kids[1..][j])
        ensures Less(x, y)
      {
        assert kids[1..][i] == kids[i + 1] && kids[1..][j] == kids[j + 1];
      }
      ForestScanIsContents(kids[1..], h);
      ScanConcat(Leaves(kids[0]), LeavesOf(kids[1..]));
      ForestStep(kids, h, Scan(Leaves(kids[0])), Scan(LeavesOf(kids[1..])));
    }
  }

  // -------------------------------------------------------- with dead copies

  /** The list has an entry under the key. */
  ghost predicate Lists(ps: seq<(Key, Val)>, q: Key) {
    exists i :: 0 <= i < |ps| && ps[i].0 == q
  }

  lemma ListsConcat(a: seq<(Key, Val)>, b: seq<(Key, Val)>, q: Key)
    ensures Lists(a + b, q) <==> Lists(a, q) || Lists(b, q)
  {
    if i :| 0 <= i < |a| && a[i].0 == q {
      assert (a + b)[i].0 == q;
    }
    if i :| 0 <= i < |b| && b[i].0 == q {
      assert (a + b)[|a| + i].0 == q;
    }
  }

  lemma LeafLists(keys: seq<Key>, vals: seq<Val>, q: Key)
    requires |keys| == |vals|
    ensures Lists(Pairs(keys, vals), q) <==> q in keys
  {
    var ps := Pairs(keys, vals);
    if q in keys {
      var i :| 0 <= i < |keys| && keys[i] == q;
      assert ps[i].0 == q;
    }
  }

  /** The leaves list exactly the stored keys, dead copies and all. */
  lemma {:induction false} ScanLists(t: Tree, h: nat, q: Key)
    requires Shape(t, h)
    ensures LeafRun(Leaves(t)) && (Lists(Scan(Leaves(t)), q) <==> q in KeySet(t))
    decreases t, 1
  {
    hide Lists, Pairs;
    LeavesAreLeaves(t, h);
    if t.Leaf? {
      OneLeafScans(t);
      LeafLists(t.keys, t.vals, q);
    } else {
      hide KeySet;
      ForestScanLists(t.kids, h - 1, q);
      if q in KeySet(t) {
        var i := KeyHasKid(t, q);
      }
      if i :| 0 <= i < |t.kids| && q in KeySet(t.kids[i]) {
        InKeySet(t, i, q);
      }
    }
  }

  lemma {:induction false} ForestScanLists(kids: seq<Tree>, h: nat, q: Key)
    requires forall i :: 0 <= i < |kids| ==> Shape(kids[i], h)
    ensures LeafRun(LeavesOf(kids))
    ensures Lists(Scan(LeavesOf(kids)), q) <==> exists i :: 0 <= i < |kids| && q in KeySet(kids[i])
    decreases kids, 0
  {
    hide Lists, Pairs, KeySet, Scan;
    if kids != [] {
      ScanLists(kids[0], h, q);
      ForestScanLists(kids[1..], h, q);
      ScanConcat(Leaves(kids[0]), LeavesOf(kids[1..]));
      ListsConcat(Scan(Leaves(kids[0])), Scan(LeavesOf(kids[1..])), q);
      if i :| 0 <= i < |kids| && q in KeySet(kids[i]) {
        assert i > 0 ==> kids[1..][i - 1] == kids[i];
      }
    } else {
      NothingListed(q);
    }
  }

  lemma NothingListed(q: Key)
    ensures !Lists(Scan([]), q)
  {
  }

  /** Two lists in a row are in order only if each is, and every key of the first is below every key of the second. */
  lemma OrderOfConcat(a: seq<(Key, Val)>, b: seq<(Key, Val)>)
    requires InKeyOrder(a + b)
    ensures InKeyOrder(a) && InKeyOrder(b)
    ensures forall x, y :: Lists(a, x) && Lists(b, y) ==> Less(x, y)
  {
    hide Less;
    var c := a + b;
    assert forall i :: 0 <= i < |a| ==> c[i] == a[i];
    assert forall i :: 0 <= i < |b| ==> c[|a| + i] == b[i];
    forall x, y | Lists(a, x) && Lists(b, y)
      ensures Less(x, y)
    {
      var i :| 0 <= i < |a| && a[i].0 == x;
      var j :| 0 <= j < |b| && b[j].0 == y;
      assert Less(c[i].0, c[|a| + j].0);
    }
  }

  lemma {:induction false} ForestOrder(kids: seq<Tree>, h: nat, i: nat, j: nat, x: Key, y: Key)
    requires forall i :: 0 <= i < |kids| ==> Shape(kids[i], h)
    requires i < |kids| && LeafRun(LeavesOf(kids)) && InKeyOrder(Scan(LeavesOf(kids)))
    ensures LeafRun(Leaves(kids[i])) && InKeyOrder(Scan(Leaves(kids[i])))
    ensures i < j < |kids| && x in KeySet(kids[i]) && y in KeySet(kids[j]) ==> Less(x, y)
  {
    hide Lists, Pairs, KeySet, Scan, InKeyOrder, Less;
    LeavesAreLeaves(kids[0], h);
    ForestLeavesAreLeaves(kids[1..], h);
    ScanConcat(Leaves(kids[0]), LeavesOf(kids[1..]));
    OrderOfConcat(Scan(Leaves(kids[0])), Scan(LeavesOf(kids[1..])));
    if i > 0 {
      ForestOrder(kids[1..], h, i - 1, if j > 0 then j - 1 else 0, x, y);
    } else {
      ScanLists(kids[0], h, x);
      ForestScanLists(kids[1..], h, y);
      assert 0 < j < |kids| ==> kids[1..][j - 1] == kids[j];
    }
  }

  /** If the leaves list their entries in strict order, no separator has a dead copy. */
  lemma {:induction false} OrderedListIsStrict(t: Tree, h: nat)
    requires Shape(t, h) && Ordered(t, Weak) && LeafRun(Leaves(t)) && InKeyOrder(Scan(Leaves(t)))
    ensures Ordered(t, Strict)
  {
    hide KeySet, Less, Scan, InKeyOrder;
    if t.Branch? {
      forall i | 0 <= i < |t.kids|
        ensures Ordered(t.kids[i], Strict)
      {
        ForestOrder(t.kids, h - 1, i, i, [], []);
        OrderedListIsStrict(t.kids[i], h - 1);
      }
      forall i | 0 <= i < |t.keys|
        ensures Separates(t, i, Strict)
      {
        NoDeadCopy(t, h, i);
      }
    }
  }

  lemma NoDeadCopy(t: Tree, h: nat, i: nat)
    requires Shape(t, h) && Ordered(t, Weak) && t.Branch? && i < |t.keys|
    requires LeafRun(LeavesOf(t.kids)) && InKeyOrder(Scan(LeavesOf(t.kids)))
    ensures Separates(t, i, Strict)
  {
    hide KeySet, Less, Scan, InKeyOrder;
    assert Separates(t, i, Weak);
    forall x | x in KeySet(t.kids[i])
      ensures LeftOf(x, t.keys[i], Strict)
    {
      ForestOrder(t.kids, h - 1, i, i + 1, x, t.keys[i]);
    }
  }

  /** Walking the leaves lists exactly what search answers, in key order, if and only if there are no dead copies. */
  lemma ScanIsContentsIff(t: Tree, h: nat)
    requires Shape(t, h) && Ordered(t, Weak)
    ensures LeafRun(Leaves(t)) && (ScansTo(t, Scan(Leaves(t))) <==> Ordered(t, Strict))
  {
    hide Scan, InKeyOrder, Ordered;
    LeavesAreLeaves(t, h);
    if Ordered(t, Strict) {
      ScanIsContents(t, h);
    }
    if ScansTo(t, Scan(Leaves(t))) {
      OrderedListIsStrict(t, h);
    }
  }

  // ------------------------------------------------------ the last copy counts

  /** The last entry listed under the key. */
  function LastOf(ps: seq<(Key, Val)>, q: Key): Option<Val> {
    if ps == [] then None
    else
      var n := |ps| - 1;
      if ps[n].0 == q then Some(ps[n].1) else LastOf(ps[..n], q)
  }

  lemma {:induction false} LastOfConcat(a: seq<(Key, Val)>, b: seq<(Key, Val)>, q: Key)
    ensures LastOf(a + b, q) == if LastOf(b, q).Some? then LastOf(b, q) else LastOf(a, q)
  {
    if b == [] {
      assert a + b == a;
    } else {
      var n := |b| - 1;
      assert (a + b)[..|a + b| - 1] == a + b[..n];
      LastOfConcat(a, b[..n], q);
    }
  }

  lemma {:induction false} LastIsOnly(ps: seq<(Key, Val)>, i: nat, q: Key)
    requires InKeyOrder(ps) && i < |ps| && ps[i].0 == q
    ensures LastOf(ps, q) == Some(ps[i].1)
  {
    hide Less;
    var n := |ps| - 1;
    if i < n {
      Trichotomy(ps[i].0, ps[n].0);
      LastIsOnly(ps[..n], i, q);
    }
  }

  lemma {:induction false} UnlistedHasNoLast(ps: seq<(Key, Val)>, q: Key)
    ensures LastOf(ps, q).Some? <==> Lists(ps, q)
  {
    if ps != [] {
      var n := |ps| - 1;
      UnlistedHasNoLast(ps[..n], q);
      if i :| 0 <= i < |ps| && ps[i].0 == q {
        assert i < n ==> ps[..n][i] == ps[i];
      }
      if i :| 0 <= i < n && ps[..n][i].0 == q {
        assert ps[i].0 == q;
      }
    }
  }

  /** The answer of the last subtree that has one. */
  ghost function LastAmong(kids: seq<Tree>, q: Key): Option<Val> {
    if kids == [] then None
    else if LastAmong(kids[1..], q).Some? then LastAmong(kids[1..], q)
    else Lookup(kids[0], q)
  }

  lemma {:induction false} LastAmongIs(kids: seq<Tree>, q: Key, i: nat)
    requires i < |kids| && forall j :: i < j < |kids| ==> Lookup(kids[j], q) == None
    requires Lookup(kids[i], q) == None ==> forall j :: 0 <= j < i ==> Lookup(kids[j], q) == None
    ensures LastAmong(kids, q) == Lookup(kids[i], q)
  {
    hide Lookup;
    if i > 0 {
      assert forall j :: 0 <= j < |kids| - 1 ==> kids[1..][j] == kids[j + 1];
      LastAmongIs(kids[1..], q, i - 1);
    } else {
      NoneAmong(kids[1..], q);
    }
  }

  lemma {:induction false} NoneAmong(kids: seq<Tree>, q: Key)
    requires forall j :: 0 <= j < |kids| ==> Lookup(kids[j], q) == None
    ensures LastAmong(kids, q) == None
  {
    hide Lookup;
    if kids != [] {
      NoneAmong(kids[1..], q);
    }
  }

  /** In the node above, only the routed subtree can have the last copy. */
  lemma RoutedIsLast(t: Tree, h: nat, q: Key)
    requires Shape(t, h) && Ordered(t, Weak) && t.Branch?
    ensures LastAmong(t.kids, q) == Lookup(t, q)
  {
    hide KeySet, Less, LastAmong, Lookup;
    var i := Route(t.keys, q);
    assert Lookup(t, q) == Lookup(t.kids[i], q) by {
      LookupEnters(t, q);
    }
    forall j | 0 <= j < |t.kids| && Lookup(t.kids[j], q) != None && j != i
      ensures j < i && Lookup(t.kids[i], q) != None
    {
      LookupFindsKeys(t.kids[j], h - 1, q, Weak);
      StoredKeyRoute(t, j, q, Weak);
      LookupFindsKeys(t.kids[i], h - 1, q, Weak);
    }
    LastAmongIs(t.kids, q, i);
  }

  lemma LookupEnters(t: Tree, q: Key)
    requires t.Branch? && |t.kids| == |t.keys| + 1
    ensures Lookup(t, q) == Lookup(t.kids[Route(t.keys, q)], q)
  {
  }

  /** Search answers the last copy that the leaves list. */
  lemma {:induction false} LastIsFound(t: Tree, h: nat, q: Key)
    requires Shape(t, h) && Ordered(t, Weak)
    ensures LeafRun(Leaves(t)) && LastOf(Scan(Leaves(t)), q) == Lookup(t, q)
    decreases t, 1
  {
    hide KeySet, Less, Lookup, LastOf, Pairs;
    LeavesAreLeaves(t, h);
    if t.Leaf? {
      OneLeafScans(t);
      LeafLast(t, q);
    } else {
      ForestLast(t.kids, h - 1, q);
      RoutedIsLast(t, h, q);
    }
  }

  lemma LeafLast(t: Tree, q: Key)
    requires t.Leaf? && Sorted(t.keys) && |t.keys| == |t.vals|
    ensures LastOf(Pairs(t.keys, t.vals), q) == Lookup(t, q)
  {
    hide Less, LastOf, Pairs, Lookup;
    var ps := Pairs(t.keys, t.vals);
    LeafScans(t);
    UnlistedHasNoLast(ps, q);
    if i :| 0 <= i < |ps| && ps[i].0 == q {
      LastIsOnly(ps, i, q);
      assert (ps[i].0, ps[i].1) in ps;
    } else if Lookup(t, q).Some? {
      assert (q, Lookup(t, q).value) in ps;
    }
  }

  lemma {:induction false} ForestLast(kids: seq<Tree>, h: nat, q: Key)
    requires forall i :: 0 <= i < |kids| ==> Shape(kids[i], h) && Ordered(kids[i], Weak)
    ensures LeafRun(LeavesOf(kids)) && LastOf(Scan(LeavesOf(kids)), q) == LastAmong(kids, q)
    decreases kids, 0
  {
    hide KeySet, Less, Lookup, LastOf, Pairs, Scan;
    if kids != [] {
      LastIsFound(kids[0], h, q);
      ForestLast(kids[1..], h, q);
      ScanConcat(Leaves(kids[0]), LeavesOf(kids[1..]));
      LastOfConcat(Scan(Leaves(kids[0])), Scan(LeavesOf(kids[1..])), q);
    } else {
      NoLast(q);
    }
  }

  lemma NoLast(q: Key)
    ensures LastOf(Scan([]), q) == None
  {
  }
}
