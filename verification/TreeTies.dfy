/**
 * Searches where a node has two equal separators, as it can after a clash. A
 * binary search may then stop at either of them, so a search is a relation;
 * only for the doubled keys does it depend on the choice.
 */
module TreeTies {
  import opened Keys
  import opened Trees

  /** Keys in order, perhaps with repetitions. */
  ghost predicate Climbing(keys: seq<Key>) {
    forall i, j :: 0 <= i < j < |keys| ==> !Less(keys[j], keys[i])
  }

  /** The child indices to which a binary search may send the key: right of any equal separator, or where the key belongs. */
  ghost predicate MayRoute(keys: seq<Key>, q: Key, i: nat) {
    if q in keys then 0 < i <= |keys| && keys[i - 1] == q
    else i <= |keys| && (i > 0 ==> Less(keys[i - 1], q)) && (i < |keys| ==> Less(q, keys[i]))
  }

  ghost predicate Once(keys: seq<Key>, q: Key) {
    forall i, j :: 0 <= i < j < |keys| ==> !(keys[i] == q && keys[j] == q)
  }

  lemma EqualSendsRight(keys: seq<Key>, q: Key, j: nat)
    requires Climbing(keys) && Once(keys, q) && j < |keys| && keys[j] == q
    ensures Route(keys, q) == j + 1
  {
    hide Less;
    var r := Route(keys, q);
    Trichotomy(q, q);
    if r > 0 {
      Trichotomy(keys[r - 1], q);
    }
  }

  /** A key that is not doubled has one place only. */
  lemma MayRouteIff(keys: seq<Key>, q: Key, i: nat)
    requires Climbing(keys) && Once(keys, q)
    ensures MayRoute(keys, q, i) <==> i == Route(keys, q)
  {
    hide Less;
    var r := Route(keys, q);
    if q in keys {
      var j :| 0 <= j < |keys| && keys[j] == q;
      EqualSendsRight(keys, q, j);
    } else {
      if r > 0 {
        Trichotomy(keys[r - 1], q);
      }
      if MayRoute(keys, q, i) && r < i {
        Transitive(q, keys[r], keys[i - 1]);
        Trichotomy(q, keys[i - 1]);
      }
    }
  }

  /** What a search of a leaf may find. */
  ghost predicate MayFind(keys: seq<Key>, vals: seq<Val>, q: Key, a: Option<Val>) {
    if q in keys then exists i :: 0 <= i < |keys| && i < |vals| && keys[i] == q && a == Some(vals[i]) else a == None
  }

  /** What a search from a node may answer, whichever equal key each binary search on the way stops at. */
  ghost predicate MayAnswer(t: Tree, q: Key, a: Option<Val>) {
    match t
    case Leaf(_, keys, vals, _) => MayFind(keys, vals, q, a)
    case Branch(_, keys, kids) => exists i :: 0 <= i < |kids| && MayRoute(keys, q, i) && MayAnswer(kids[i], q, a)
  }

  ghost predicate Climbs(t: Tree) {
    Climbing(t.keys) && (t.Branch? ==> forall i :: 0 <= i < |t.kids| ==> Climbs(t.kids[i]))
  }

  /** No node has the key twice. */
  ghost predicate NowhereDoubled(t: Tree, q: Key) {
    Once(t.keys, q) && (t.Branch? ==> forall i :: 0 <= i < |t.kids| ==> NowhereDoubled(t.kids[i], q))
  }

  lemma LeafMayFind(keys: seq<Key>, vals: seq<Val>, q: Key, i: nat)
    requires |keys| == |vals| && Climbing(keys) && Once(keys, q) && i < |keys| && keys[i] == q
    ensures LowerBound(keys, q) == i
  {
    hide Less;
    var b := LowerBound(keys, q);
    Trichotomy(q, q);
    if b < |keys| {
      Trichotomy(keys[b], q);
    }
  }

  lemma LeafAnswersIff(t: Tree, q: Key, a: Option<Val>)
    requires t.Leaf? && |t.keys| == |t.vals| && Climbing(t.keys) && Once(t.keys, q)
    ensures MayFind(t.keys, t.vals, q, a) <==> a == Lookup(t, q)
  {
    hide Less, LowerBound, Climbing, Once;
    if q in t.keys {
      var i :| 0 <= i < |t.keys| && t.keys[i] == q;
      LeafMayFind(t.keys, t.vals, q, i);
      forall j | 0 <= j < |t.keys| && t.keys[j] == q
        ensures j == i
      {
        LeafMayFind(t.keys, t.vals, q, j);
      }
    }
  }

  /** Also after a clash: the answer for a key that is not doubled does not depend on where binary searches stop. */
  lemma {:induction false} UndoubledAnswer(t: Tree, h: nat, q: Key, a: Option<Val>)
    requires Shape(t, h) && Climbs(t) && NowhereDoubled(t, q)
    ensures MayAnswer(t, q, a) <==> a == Lookup(t, q)
    decreases h
  {
    if t.Leaf? {
      hide LowerBound;
      LeafAnswersIff(t, q, a);
    } else {
      hide Less, Lookup;
      var r := Route(t.keys, q);
      assert Lookup(t, q) == Lookup(t.kids[r], q) by {
        RoutedAnswer(t, q);
      }
      UndoubledAnswer(t.kids[r], h - 1, q, a);
      MayRouteIff(t.keys, q, r);
      forall i: nat | MayRoute(t.keys, q, i)
        ensures i == r
      {
        MayRouteIff(t.keys, q, i);
      }
    }
  }

  lemma RoutedAnswer(t: Tree, q: Key)
    requires t.Branch? && |t.kids| == |t.keys| + 1
    ensures Lookup(t, q) == Lookup(t.kids[Route(t.keys, q)], q)
  {
  }

  /** Sorted nodes have no key twice, so that the search is the function it was taken for. */
  lemma {:induction false} TidyIsUndoubled(t: Tree, q: Key)
    requires Tidy(t)
    ensures Climbs(t) && NowhereDoubled(t, q)
  {
    hide Less;
    forall i, j | 0 <= i < j < |t.keys|
      ensures !Less(t.keys[j], t.keys[i]) && t.keys[i] != t.keys[j]
    {
      Trichotomy(t.keys[i], t.keys[j]);
    }
    if t.Branch? {
      forall i | 0 <= i < |t.kids|
        ensures Climbs(t.kids[i]) && NowhereDoubled(t.kids[i], q)
      {
        TidyIsUndoubled(t.kids[i], q);
      }
    }
  }
}
