/** Whole insertions and whole runs of them: what the tree means, and when it is right. */
module TreeRuns {
  import opened Keys
  import opened Trees
  import opened TreeOrder
  import opened TreeRange
  import opened TreePages
  import opened TreeFit

  /** The map a tree stands for. */
  ghost function Contents(t: Tree): map<Key, Val> {
    Answers(KeySet(t), q => Lookup(t, q))
  }

  ghost function Answers(keys: set<Key>, f: Key -> Option<Val>): map<Key, Val> {
    map x | x in keys && f(x).Some? :: f(x).value
  }

  /** The root's split promotes no key past the descent; below it the descent may meet k. */
  ghost predicate MeetsPromotedAtInsert(t: Tree, h: nat, k: Key, n: nat)
    requires Shape(t, h)
  {
    if Full(t) then MeetsPromoted(GrowRoot(t, h, n), h + 1, k, n + 2) else MeetsPromoted(t, h, k, n)
  }

  /** The insertion meets a split that promotes a separator its parent already has. */
  ghost predicate MeetsClashAtInsert(t: Tree, h: nat, k: Key, n: nat, tie: Tie)
    requires Shape(t, h)
  {
    if Full(t) then MeetsClash(GrowRoot(t, h, n), h + 1, k, n + 2, tie) else MeetsClash(t, h, k, n, tie)
  }

  // ------------------------------------------------------------ root growth

  lemma MovedKeySet(t: Tree, n: nat)
    ensures KeySet(Branch(t.id, [], [t.(id := n)])) == KeySet(t)
  {
    var moved := t.(id := n);
    var below := Branch(t.id, [], [moved]);
    assert KeySet(moved) == KeySet(t);
    forall x
      ensures x in KeySet(below) <==> x in KeySet(t)
    {
      if x in KeySet(t) {
        InKeySet(below, 0, x);
      }
    }
  }

  lemma MovedOrdered(t: Tree, n: nat, o: Order)
    requires Ordered(t, o)
    ensures Ordered(t.(id := n), o)
  {
    hide KeySet;
    var moved := t.(id := n);
    if t.Branch? {
      forall i | 0 <= i < |t.keys|
        ensures Separates(moved, i, o)
      {
        assert Separates(t, i, o);
      }
    }
  }

  lemma MovedKeeps(t: Tree, n: nat, o: Order)
    requires Ordered(t, o)
    ensures var below := Branch(t.id, [], [t.(id := n)]); Ordered(below, o) && SameContent(t, below)
  {
    hide KeySet;
    MovedKeySet(t, n);
    MovedOrdered(t, n, o);
    assert forall q :: Route([], q) == 0 && Lookup(t.(id := n), q) == Lookup(t, q);
  }

  lemma MovedSmall(t: Tree, h: nat, n: nat)
    requires Shape(t, h) && Small(t, ENTRY_LIMIT, ENTRY_LIMIT) && Full(t)
    ensures Small(GrowRoot(t, h, n), ENTRY_LIMIT, ENTRY_LIMIT)
  {
    hide Small;
    FullIsSplittable(t, h);
    var moved := t.(id := n);
    MovedIsSmall(t, n);
    SplitSmall(moved, n + 1, ENTRY_LIMIT, ENTRY_LIMIT);
    var (l, m, r) := Split(moved, n + 1);
    PairIsSmall(t.id, l, m, r);
    assert GrowRoot(t, h, n) == Branch(t.id, [m], [l, r]);
  }

  lemma MovedIsSmall(t: Tree, n: nat)
    requires Small(t, ENTRY_LIMIT, ENTRY_LIMIT)
    ensures Small(t.(id := n), ENTRY_LIMIT, ENTRY_LIMIT)
  {
  }

  lemma PairIsSmall(id: nat, l: Tree, m: Key, r: Tree)
    requires Small(l, ENTRY_LIMIT, ENTRY_LIMIT) && Small(r, ENTRY_LIMIT, ENTRY_LIMIT) && 12 + |m| <= ENTRY_LIMIT
    ensures Small(Branch(id, [m], [l, r]), ENTRY_LIMIT, ENTRY_LIMIT)
  {
  }

  /** Under a fresh root no separator can be there already. */
  lemma GrowRootKeeps(t: Tree, h: nat, n: nat, o: Order)
    requires Shape(t, h) && Ordered(t, o) && Full(t)
    ensures Ordered(GrowRoot(t, h, n), o) && SameContent(t, GrowRoot(t, h, n))
  {
    hide Split, SplitKid, KeySet, Lookup;
    FullIsSplittable(t, h);
    MovedKeeps(t, n, o);
    SplitKidKeeps(Branch(t.id, [], [t.(id := n)]), 0, n + 1, o);
  }

  lemma MovedAllKeys(t: Tree, n: nat)
    ensures AllKeys(t.(id := n)) == AllKeys(t) && AllKeys(Branch(t.id, [], [t.(id := n)])) == AllKeys(t)
  {
    var moved := t.(id := n);
    assert AllKeys(moved) == AllKeys(t);
    forall x
      ensures x in AllKeys(Branch(t.id, [], [moved])) <==> x in AllKeys(t)
    {
      if x in AllKeys(t) {
        KidKey(Branch(t.id, [], [moved]), 0, x);
      }
    }
  }

  lemma MovedRanged(t: Tree, n: nat, o: Order)
    requires Ranged(t, o)
    ensures Ranged(t.(id := n), o)
  {
    hide AllKeys;
    var moved := t.(id := n);
    if t.Branch? {
      forall i | 0 <= i < |t.keys|
        ensures Divides(moved, i, o)
      {
        assert Divides(t, i, o);
      }
    }
  }

  /** The same for trees whose separators need not be stored. */
  lemma GrowRootRanged(t: Tree, h: nat, n: nat, o: Order)
    requires Shape(t, h) && Ranged(t, o) && Full(t)
    ensures Ranged(GrowRoot(t, h, n), o) && AllKeys(GrowRoot(t, h, n)) <= AllKeys(t)
    ensures forall q :: Lookup(GrowRoot(t, h, n), q) == Lookup(t, q)
  {
    hide Split, SplitKid, AllKeys;
    FullIsSplittable(t, h);
    MovedAllKeys(t, n);
    MovedRanged(t, n, o);
    var below := Branch(t.id, [], [t.(id := n)]);
    assert forall q :: Route([], q) == 0 && Lookup(t.(id := n), q) == Lookup(t, q);
    assert forall q :: Lookup(below, q) == Lookup(t, q);
    hide Lookup;
    SplitKidRanged(below, 0, n + 1, o);
  }

  lemma MovedPages(t: Tree, n: nat)
    requires Proper(t)
    requires forall x :: x in Ids(t) ==> x < n
    ensures UsesPages(t, Branch(t.id, [], [t.(id := n)]), n, n + 1)
  {
    var moved := t.(id := n);
    var below := Branch(t.id, [], [moved]);
    assert Ids(moved) == Ids(t) - {t.id} + {n} by {
      if t.Branch? {
        forall i, x | 0 <= i < |t.kids| && x in Ids(t.kids[i])
          ensures x in Ids(t) && x in Ids(moved) && x != t.id
        {
          InIds(t, i, x);
          InIds(moved, i, x);
        }
      }
    }
    assert Proper(moved) by {
      if t.Branch? {
        forall i | 0 <= i < |t.kids|
          ensures n !in Ids(t.kids[i])
        {
          KidIdsBelow(t, i, n);
        }
      }
    }
    forall x
      ensures x in Ids(below) <==> x in Ids(t) || x == n
    {
      if x in Ids(moved) {
        InIds(below, 0, x);
      }
    }
  }

  lemma GrowRootPages(t: Tree, h: nat, n: nat)
    requires Shape(t, h) && Full(t) && Proper(t)
    requires forall x :: x in Ids(t) ==> x < n
    ensures UsesPages(t, GrowRoot(t, h, n), n, n + 2)
  {
    hide Ids, Proper, Split, SplitKid, GrowRoot, UsesPages;
    FullIsSplittable(t, h);
    var below := Branch(t.id, [], [t.(id := n)]);
    MovedPages(t, n);
    BelowIds(t, below, n);
    SplitKidPages(below, h + 1, 0, n + 1);
    UsesPagesThen(t, below, SplitKid(below, 0, n + 1), n, n + 1, n + 2);
    GrowRootSplits(t, h, n);
  }

  lemma BelowIds(t: Tree, below: Tree, n: nat)
    requires UsesPages(t, below, n, n + 1)
    requires forall x :: x in Ids(t) ==> x < n
    ensures Proper(below) && forall x :: x in Ids(below) ==> x < n + 1
  {
  }

  lemma GrowRootSplits(t: Tree, h: nat, n: nat)
    requires Shape(t, h) && Full(t)
    ensures var below := Branch(t.id, [], [t.(id := n)]);
      Splittable(below.kids[0]) && GrowRoot(t, h, n) == SplitKid(below, 0, n + 1)
  {
    FullIsSplittable(t, h);
  }

  lemma GrowRootChained(t: Tree, h: nat, n: nat)
    requires Shape(t, h) && Full(t) && Chained(t, None)
    ensures Chained(GrowRoot(t, h, n), None)
  {
    hide Split;
    FullIsSplittable(t, h);
    SplitKidChained(Branch(t.id, [], [t.(id := n)]), h + 1, 0, n + 1, None);
  }

  // ------------------------------------------------------- whole insertions

  lemma GrownUsesPages(t: Tree, g: Tree, h: nat, k: Key, v: Val, n: nat, tie: Tie)
    requires Shape(g, h) && UsesPages(t, g, n, n + 2)
    requires forall x :: x in Ids(t) ==> x < n
    ensures var (t', n') := InsertNonFull(g, h, k, v, n + 2, tie); UsesPages(t, t', n, n') && n' <= n + 2 + h
  {
    InsertNonFullPages(g, h, k, v, n + 2, tie);
    var (t', n') := InsertNonFull(g, h, k, v, n + 2, tie);
    UsesPagesThen(t, g, t', n, n + 2, n');
  }

  /** Pages of a whole insertion: still a proper tree, on exactly the old pages and the fresh ones. */
  lemma InsertUsesPages(t: Tree, h: nat, k: Key, v: Val, n: nat, tie: Tie)
    requires Shape(t, h) && Proper(t)
    requires forall x :: x in Ids(t) ==> x < n
    ensures var (t', n') := Insert(t, h, k, v, n, tie); UsesPages(t, t', n, n') && n' <= n + h + 3
  {
    hide GrowRoot, InsertNonFull, UsesPages, Proper;
    if Full(t) {
      GrowRootPages(t, h, n);
      GrownUsesPages(t, GrowRoot(t, h, n), h + 1, k, v, n, tie);
    } else {
      InsertNonFullPages(t, h, k, v, n, tie);
    }
  }

  lemma GrownChained(g: Tree, h: nat, k: Key, v: Val, n: nat, tie: Tie)
    requires Shape(g, h) && Chained(g, None)
    ensures Chained(InsertNonFull(g, h, k, v, n, tie).0, None)
  {
    InsertNonFullChained(g, h, k, v, n, tie, None);
  }

  /** The leaf chain of a whole insertion stays in tree order. */
  lemma InsertChained(t: Tree, h: nat, k: Key, v: Val, n: nat, tie: Tie)
    requires Shape(t, h) && Chained(t, None)
    ensures Chained(Insert(t, h, k, v, n, tie).0, None)
  {
    hide GrowRoot, InsertNonFull, Chained;
    if Full(t) {
      GrowRootChained(t, h, n);
      GrownChained(GrowRoot(t, h, n), h + 1, k, v, n + 2, tie);
    } else {
      GrownChained(t, h, k, v, n, tie);
    }
  }

  lemma InsertShape(t: Tree, h: nat, k: Key, v: Val, n: nat, tie: Tie)
    requires Shape(t, h)
    ensures Shape(Insert(t, h, k, v, n, tie).0, NewHeight(t, h))
  {
    hide GrowRoot, InsertNonFull;
    if Full(t) {
      InsertNonFullShape(GrowRoot(t, h, n), h + 1, k, v, n + 2, tie);
    } else {
      InsertNonFullShape(t, h, k, v, n, tie);
    }
  }

  /** Pages of a whole insertion: still a proper tree on exactly the old pages and the fresh ones, chained in order. */
  lemma InsertPages(t: Tree, h: nat, k: Key, v: Val, n: nat, tie: Tie)
    requires Shape(t, h) && Proper(t) && Chained(t, None)
    requires forall x :: x in Ids(t) ==> x < n
    ensures var (t', n') := Insert(t, h, k, v, n, tie);
      && Shape(t', NewHeight(t, h)) && UsesPages(t, t', n, n') && Chained(t', None) && n' <= n + h + 3
  {
    InsertShape(t, h, k, v, n, tie);
    InsertUsesPages(t, h, k, v, n, tie);
    InsertChained(t, h, k, v, n, tie);
  }

  /** Every answer after an insertion: the new value, or the old answer. */
  lemma InsertLookup(t: Tree, h: nat, k: Key, v: Val, n: nat, tie: Tie, o: Order, q: Key)
    requires Shape(t, h) && Ordered(t, o) && !MeetsClashAtInsert(t, h, k, n, tie)
    ensures Lookup(Insert(t, h, k, v, n, tie).0, q) ==
      if q == k && (tie.EqualGoesRight? || !MeetsPromotedAtInsert(t, h, k, n)) then Some(v) else Lookup(t, q)
  {
    hide GrowRoot, InsertNonFull, KeySet, Ordered, Size, Shape, Lookup;
    if Full(t) {
      GrowRootKeeps(t, h, n, o);
      InsertNonFullLookup(GrowRoot(t, h, n), h + 1, k, v, n + 2, tie, o, q);
    } else {
      InsertNonFullLookup(t, h, k, v, n, tie, o, q);
    }
  }

  lemma InsertOrdered(t: Tree, h: nat, k: Key, v: Val, n: nat, tie: Tie, o: Order)
    requires Shape(t, h) && Ordered(t, o) && !MeetsClashAtInsert(t, h, k, n, tie)
    requires o.Weak? || tie.EqualGoesRight? || !MeetsPromotedAtInsert(t, h, k, n)
    ensures Inserted(t, Insert(t, h, k, v, n, tie).0, k, o)
  {
    hide GrowRoot, InsertNonFull, KeySet, Ordered, Size, Shape, Lookup;
    if Full(t) {
      GrowRootKeeps(t, h, n, o);
      InsertNonFullOrdered(GrowRoot(t, h, n), h + 1, k, v, n + 2, tie, o);
    } else {
      InsertNonFullOrdered(t, h, k, v, n, tie, o);
    }
  }

  /** Entries of cost at most 3039 stay so. */
  lemma InsertSmall(t: Tree, h: nat, k: Key, v: Val, n: nat, tie: Tie)
    requires Shape(t, h) && Small(t, ENTRY_LIMIT, ENTRY_LIMIT) && 16 + |k| + |v| <= ENTRY_LIMIT
    ensures Small(Insert(t, h, k, v, n, tie).0, ENTRY_LIMIT, ENTRY_LIMIT)
  {
    hide GrowRoot, InsertNonFull, Small, Size, Shape;
    if Full(t) {
      MovedSmall(t, h, n);
      InsertNonFullSmall(GrowRoot(t, h, n), h + 1, k, v, n + 2, tie, ENTRY_LIMIT, ENTRY_LIMIT);
    } else {
      InsertNonFullSmall(t, h, k, v, n, tie, ENTRY_LIMIT, ENTRY_LIMIT);
    }
  }

  /** Among such entries, without dead copies, no split clashes. */
  lemma SmallInsertNeverClashes(t: Tree, h: nat, k: Key, n: nat, tie: Tie)
    requires Shape(t, h) && Ranged(t, Strict) && Small(t, ENTRY_LIMIT, ENTRY_LIMIT)
    ensures !MeetsClashAtInsert(t, h, k, n, tie)
  {
    hide GrowRoot, Small, Ranged, Size, Shape, AllKeys, Lookup;
    if Full(t) {
      MovedSmall(t, h, n);
      GrowRootRanged(t, h, n, Strict);
      SmallNeverClashes(GrowRoot(t, h, n), h + 1, k, n + 2, tie);
    } else {
      SmallNeverClashes(t, h, k, n, tie);
    }
  }

  lemma AnswersUpdate(s: set<Key>, f: Key -> Option<Val>, s': set<Key>, f': Key -> Option<Val>, k: Key, v: Val)
    requires s' == s + {k}
    requires forall q :: f'(q) == if q == k then Some(v) else f(q)
    ensures Answers(s', f') == Answers(s, f)[k := v]
  {
  }

  /** What an insertion does to the map: nothing if it meets its promoted copy, an update otherwise. */
  lemma InsertMeans(t: Tree, h: nat, k: Key, v: Val, n: nat, tie: Tie, o: Order)
    requires Shape(t, h) && Ordered(t, o) && !MeetsClashAtInsert(t, h, k, n, tie)
    ensures Ordered(Insert(t, h, k, v, n, tie).0, Weak)
    ensures Contents(Insert(t, h, k, v, n, tie).0) ==
      if tie.EqualGoesRight? || !MeetsPromotedAtInsert(t, h, k, n) then Contents(t)[k := v] else Contents(t)
  {
    hide Insert, KeySet, Ordered, Lookup, Shape;
    var t' := Insert(t, h, k, v, n, tie).0;
    if o.Strict? {
      StrictIsWeak(t);
    }
    InsertOrdered(t, h, k, v, n, tie, Weak);
    var updates := tie.EqualGoesRight? || !MeetsPromotedAtInsert(t, h, k, n);
    forall q
      ensures Lookup(t', q) == if q == k && updates then Some(v) else Lookup(t, q)
    {
      InsertLookup(t, h, k, v, n, tie, Weak, q);
    }
    if updates {
      AnswersUpdate(KeySet(t), q => Lookup(t, q), KeySet(t'), q => Lookup(t', q), k, v);
    } else {
      MetIsStored(t, h, k, n);
      LookupFindsKeys(t, h, k, Weak);
      assert KeySet(t') == KeySet(t);
    }
  }

  /** Main theorem: an insertion is a map update, except when a clash or the promoted key is met. */
  lemma InsertRefinesMapUpdate(t: Tree, h: nat, k: Key, v: Val, n: nat, tie: Tie, o: Order)
    requires Shape(t, h) && Ordered(t, o) && !MeetsClashAtInsert(t, h, k, n, tie)
    requires tie.EqualGoesRight? || !MeetsPromotedAtInsert(t, h, k, n)
    ensures Ordered(Insert(t, h, k, v, n, tie).0, o)
    ensures Contents(Insert(t, h, k, v, n, tie).0) == Contents(t)[k := v]
  {
    InsertOrdered(t, h, k, v, n, tie, o);
    InsertMeans(t, h, k, v, n, tie, o);
  }

  /** The code as written updates the map if and only if it meets no promoted copy of k, or v was stored already. */
  lemma WrittenInsertIsUpdateIff(t: Tree, h: nat, k: Key, v: Val, n: nat, o: Order)
    requires Shape(t, h) && Ordered(t, o) && !MeetsClashAtInsert(t, h, k, n, AsWritten)
    ensures (forall q :: Lookup(Insert(t, h, k, v, n, AsWritten).0, q) == if q == k then Some(v) else Lookup(t, q))
       <==> (!MeetsPromotedAtInsert(t, h, k, n) || Lookup(t, k) == Some(v))
  {
    hide Insert, KeySet, Ordered, Lookup, Shape;
    var t' := Insert(t, h, k, v, n, AsWritten).0;
    forall q
      ensures Lookup(t', q) ==
        if q == k && !MeetsPromotedAtInsert(t, h, k, n) then Some(v) else Lookup(t, q)
    {
      InsertLookup(t, h, k, v, n, AsWritten, o, q);
    }
    assert Lookup(t', k) == if !MeetsPromotedAtInsert(t, h, k, n) then Some(v) else Lookup(t, k);
  }

  // ------------------------------------------------------------ fresh keys

  lemma {:induction false} MetKeyIsStored(t: Tree, h: nat, k: Key, n: nat, o: Order)
    requires Shape(t, h) && Ordered(t, o) && MeetsPromoted(t, h, k, n) && !MeetsClash(t, h, k, n, AsWritten)
    ensures k in KeySet(t)
    decreases h
  {
    hide KeySet, Less, Descend;
    var i := Route(t.keys, k);
    if Promoted(t, h, k, n) {
      NodeKeyIsStored(t.kids[i], h - 1, |t.kids[i].keys| / 2, o);
      InKeySet(t, i, k);
    } else {
      hide Promoted, Clash;
      DescendKeeps(t, h, k, n, AsWritten, o);
      var (t1, j, n1) := Descend(t, h, k, n, AsWritten);
      MetKeyIsStored(t1.kids[j], h - 1, k, n1, o);
      InKeySet(t1, j, k);
    }
  }

  /** An insertion that meets its promoted copy finds its key stored. */
  lemma MetIsStored(t: Tree, h: nat, k: Key, n: nat)
    requires Shape(t, h) && Ordered(t, Weak) && MeetsPromotedAtInsert(t, h, k, n) && !MeetsClashAtInsert(t, h, k, n, AsWritten)
    ensures k in KeySet(t)
  {
    hide GrowRoot, KeySet, Ordered, Lookup, Shape, Size;
    if Full(t) {
      GrowRootKeeps(t, h, n, Weak);
      MetKeyIsStored(GrowRoot(t, h, n), h + 1, k, n + 2, Weak);
    } else {
      MetKeyIsStored(t, h, k, n, Weak);
    }
  }

  /** A fresh key is never met, so as written every insertion of a fresh key is a map update. */
  lemma FreshKeyIsNeverMet(t: Tree, h: nat, k: Key, n: nat, o: Order)
    requires Shape(t, h) && Ordered(t, o) && k !in Contents(t) && !MeetsClashAtInsert(t, h, k, n, AsWritten)
    ensures !MeetsPromotedAtInsert(t, h, k, n)
  {
    hide KeySet, Ordered, Shape;
    if o.Strict? {
      StrictIsWeak(t);
    }
    LookupFindsKeys(t, h, k, Weak);
    if MeetsPromotedAtInsert(t, h, k, n) {
      MetIsStored(t, h, k, n);
    }
  }

  // ------------------------------------------------------------------ runs

  datatype Store = Store(tree: Tree, height: nat, pages: nat)

  /** Everything that holds of the stored tree between insertions. */
  ghost predicate Sound(s: Store, o: Order) {
    && Shape(s.tree, s.height) && Ordered(s.tree, o)
    && Proper(s.tree) && s.tree.id == 0 && Ids(s.tree) == Range(0, s.pages)
    && Chained(s.tree, None)
  }

  const EMPTY_STORE := Store(Leaf(0, [], [], None), 0, 1)

  function InsertStep(s: Store, k: Key, v: Val, tie: Tie): Store
    requires Shape(s.tree, s.height)
  {
    var (t, n) := Insert(s.tree, s.height, k, v, s.pages, tie);
    Store(t, NewHeight(s.tree, s.height), n)
  }

  ghost predicate Meets(s: Store, k: Key)
    requires Shape(s.tree, s.height)
  {
    MeetsPromotedAtInsert(s.tree, s.height, k, s.pages)
  }

  ghost predicate Clashes(s: Store, k: Key, tie: Tie)
    requires Shape(s.tree, s.height)
  {
    MeetsClashAtInsert(s.tree, s.height, k, s.pages, tie)
  }

  /** One insertion keeps every invariant of the stored tree, and does to the map what InsertMeans says. */
  lemma InsertStepSound(s: Store, k: Key, v: Val, tie: Tie, o: Order)
    requires Sound(s, o) && !Clashes(s, k, tie)
    ensures var s' := InsertStep(s, k, v, tie);
      var met := tie.AsWritten? && Meets(s, k);
      && Sound(s', if met then Weak else o) && s.pages <= s'.pages <= s.pages + s.height + 3
      && Contents(s'.tree) == if met then Contents(s.tree) else Contents(s.tree)[k := v]
  {
    hide Insert, Ordered, Shape, Proper, Chained, Contents, Size;
    InsertPages(s.tree, s.height, k, v, s.pages, tie);
    InsertMeans(s.tree, s.height, k, v, s.pages, tie, o);
    if tie.EqualGoesRight? || !Meets(s, k) {
      InsertOrdered(s.tree, s.height, k, v, s.pages, tie, o);
    }
  }

  /** A run of insertions, the last one last. */
  datatype Run = Start | Then(before: Run, key: Key, val: Val)

  function Apply(r: Run, tie: Tie): (s: Store)
    ensures Shape(s.tree, s.height)
  {
    match r
    case Start => EMPTY_STORE
    case Then(before, k, v) =>
      var s := Apply(before, tie);
      InsertShape(s.tree, s.height, k, v, s.pages, tie);
      InsertStep(s, k, v, tie)
  }

  /** What the run should leave: the last value given to each key. */
  ghost function Latest(r: Run): map<Key, Val> {
    match r
    case Start => map[]
    case Then(before, k, v) => Latest(before)[k := v]
  }

  ghost predicate Costs(r: Run, e: nat, d: nat) {
    r.Then? ==> 16 + |r.key| + |r.val| <= e && 12 + |r.key| <= d && Costs(r.before, e, d)
  }

  /** What the run really leaves: an insertion that meets its promoted copy changes no answer. */
  ghost function Kept(r: Run, tie: Tie): map<Key, Val> {
    match r
    case Start => map[]
    case Then(before, k, v) =>
      if tie.AsWritten? && Meets(Apply(before, tie), k) then Kept(before, tie) else Kept(before, tie)[k := v]
  }

  /** No insertion of the run meets the promoted copy of its own key. */
  ghost predicate NeverMeets(r: Run) {
    r.Then? ==> NeverMeets(r.before) && !Meets(Apply(r.before, AsWritten), r.key)
  }

  /** No insertion of the run meets a clash. */
  ghost predicate NeverClashes(r: Run, tie: Tie) {
    r.Then? ==> NeverClashes(r.before, tie) && !Clashes(Apply(r.before, tie), r.key, tie)
  }

  ghost predicate AllFresh(r: Run) {
    r.Then? ==> AllFresh(r.before) && r.key !in Latest(r.before)
  }

  /** What needs no order at all: shape, distinct pages, no other pages, and the leaf chain. */
  ghost predicate Laid(s: Store) {
    && Shape(s.tree, s.height) && Proper(s.tree) && s.tree.id == 0 && Ids(s.tree) == Range(0, s.pages) && Chained(s.tree, None)
  }

  /** Over every run, clashes and promoted copies or not, the pages form one tree with one chain of leaves. */
  lemma {:induction false} RunsAreLaid(r: Run, tie: Tie)
    ensures Laid(Apply(r, tie))
  {
    match r
    case Start =>
      assert Range(0, 1) == {0};
    case Then(before, k, v) =>
      hide Insert, Shape, Proper, Chained, Ids;
      RunsAreLaid(before, tie);
      var s := Apply(before, tie);
      InsertPages(s.tree, s.height, k, v, s.pages, tie);
  }

  /** Safety over every run without a clash: the stored tree stays sound, and its map is exactly what the run keeps. */
  lemma {:induction false} RunsKeep(r: Run, tie: Tie)
    requires NeverClashes(r, tie)
    ensures Sound(Apply(r, tie), Weak) && Contents(Apply(r, tie).tree) == Kept(r, tie)
  {
    hide Meets, Clashes, InsertStep;
    match r
    case Start =>
      assert Range(0, 1) == {0};
    case Then(before, k, v) =>
      hide Sound, Contents;
      RunsKeep(before, tie);
      InsertStepSound(Apply(before, tie), k, v, tie, Weak);
  }

  /** If it never meets a promoted copy either, there are no dead copies, and the map holds the last value of each key. */
  lemma {:induction false} RunsAreRight(r: Run, tie: Tie)
    requires NeverClashes(r, tie) && (tie.EqualGoesRight? || NeverMeets(r))
    ensures Sound(Apply(r, tie), Strict) && Contents(Apply(r, tie).tree) == Latest(r)
  {
    hide Meets, Clashes, InsertStep;
    match r
    case Start =>
      assert Range(0, 1) == {0};
    case Then(before, k, v) =>
      hide Sound, Contents;
      RunsAreRight(before, tie);
      InsertStepSound(Apply(before, tie), k, v, tie, Strict);
  }

  /** With entries of cost at most 3039 a run that meets no promoted copy meets no clash. */
  lemma {:induction false} SmallRunsNeverClash(r: Run, tie: Tie)
    requires Costs(r, ENTRY_LIMIT, ENTRY_LIMIT) && (tie.EqualGoesRight? || NeverMeets(r))
    ensures NeverClashes(r, tie) && Small(Apply(r, tie).tree, ENTRY_LIMIT, ENTRY_LIMIT)
  {
    if r.Then? {
      hide Small, Meets, Sound, Insert, Contents;
      SmallRunsNeverClash(r.before, tie);
      RunsAreRight(r.before, tie);
      var s := Apply(r.before, tie);
      SoundIsOrdered(s, Strict);
      OrderedIsRanged(s.tree, Strict);
      SmallInsertNeverClashes(s.tree, s.height, r.key, s.pages, tie);
      InsertSmall(s.tree, s.height, r.key, r.val, s.pages, tie);
    }
  }

  lemma SoundIsOrdered(s: Store, o: Order)
    requires Sound(s, o)
    ensures Shape(s.tree, s.height) && Ordered(s.tree, o)
  {
  }

  /** Runs of fresh keys are right as written. */
  lemma {:induction false} FreshRunsNeverMeet(r: Run)
    requires NeverClashes(r, AsWritten) && AllFresh(r)
    ensures NeverMeets(r)
  {
    if r.Then? {
      hide Sound, Insert, Contents;
      FreshRunsNeverMeet(r.before);
      RunsAreRight(r.before, AsWritten);
      var s := Apply(r.before, AsWritten);
      SoundIsOrdered(s, Strict);
      FreshKeyIsNeverMet(s.tree, s.height, r.key, s.pages, Strict);
    }
  }

  /** Fresh keys of small entries neither meet promoted copies nor clash. */
  lemma {:induction false} SmallFreshRuns(r: Run)
    requires Costs(r, ENTRY_LIMIT, ENTRY_LIMIT) && AllFresh(r)
    ensures NeverMeets(r) && NeverClashes(r, AsWritten)
  {
    if r.Then? {
      hide Sound, Insert, Contents, Small;
      SmallFreshRuns(r.before);
      SmallRunsNeverClash(r.before, AsWritten);
      RunsAreRight(r.before, AsWritten);
      var s := Apply(r.before, AsWritten);
      SoundIsOrdered(s, Strict);
      OrderedIsRanged(s.tree, Strict);
      SmallInsertNeverClashes(s.tree, s.height, r.key, s.pages, AsWritten);
      FreshRunsNeverMeet(r);
    }
  }

  /** Every insertion of the run left every node within its page. */
  ghost predicate AllFit(r: Run, tie: Tie) {
    Fits(Apply(r, tie).tree) && (r.Then? ==> AllFit(r.before, tie))
  }

  ghost predicate Overfull(s: Store, k: Key, v: Val, tie: Tie)
    requires Shape(s.tree, s.height)
  {
    MeetsOverfullAtInsert(s.tree, s.height, k, v, s.pages, tie)
  }

  /** No insertion of the run meets an overfull node. */
  ghost predicate NeverOverfull(r: Run, tie: Tie) {
    r.Then? ==> NeverOverfull(r.before, tie) && !Overfull(Apply(r.before, tie), r.key, r.val, tie)
  }

  /** Exactly which runs keep every node within its page throughout. */
  lemma {:induction false} RunsFitIff(r: Run, tie: Tie)
    ensures AllFit(r, tie) <==> NeverOverfull(r, tie)
  {
    if r.Then? {
      hide Fits, Insert, MeetsOverfullAtInsert;
      RunsFitIff(r.before, tie);
      var s := Apply(r.before, tie);
      if AllFit(r.before, tie) {
        InsertFitsIff(s.tree, s.height, r.key, r.val, s.pages, tie);
      }
    }
  }

  /** Page fit over every run: no node ever outgrows its page, whichever way ties go. */
  lemma {:induction false} RunsFit(r: Run, tie: Tie)
    requires Costs(r, ENTRY_FIT, KEY_FIT)
    ensures AllFit(r, tie) && Small(Apply(r, tie).tree, ENTRY_FIT, KEY_FIT)
  {
    if r.Then? {
      RunsFit(r.before, tie);
      var s := Apply(r.before, tie);
      InsertFits(s.tree, s.height, r.key, r.val, s.pages, tie);
    }
  }
}
