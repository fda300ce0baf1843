/** When an insertion keeps the search order: the conditions are not only sufficient. */
module TreeExact {
  import opened Keys
  import opened Trees
  import opened TreeOrder
  import opened TreeRuns

  /** The key is stored after an insertion into any tree. */
  lemma {:induction false} KeyIsStored(t: Tree, h: nat, k: Key, v: Val, n: nat, tie: Tie)
    requires Shape(t, h)
    ensures k in KeySet(InsertNonFull(t, h, k, v, n, tie).0)
    decreases h
  {
    hide Descend, Less;
    if t.Leaf? {
      var i := LowerBound(t.keys, k);
      assert LeafInsert(t, k, v).keys[i] == k;
    } else {
      var (t1, j, n1) := Descend(t, h, k, n, tie);
      KeyIsStored(t1.kids[j], h - 1, k, v, n1, tie);
      InKeySet(InsertNonFull(t, h, k, v, n, tie).0, j, k);
    }
  }

  lemma EqualNeighbours(keys: seq<Key>, i: nat)
    requires i + 1 < |keys| && keys[i] == keys[i + 1]
    ensures !Sorted(keys)
  {
    hide Less;
    Trichotomy(keys[i], keys[i + 1]);
  }

  /** A clash leaves two equal separators side by side. */
  lemma ClashUnsorted(t: Tree, h: nat, k: Key, n: nat, tie: Tie)
    requires Shape(t, h) && t.Branch? && Clash(t, Route(t.keys, k))
    ensures !Sorted(Descend(t, h, k, n, tie).0.keys)
  {
    hide Less, Sorted, Descend, Route, Split, SplitKid;
    DescendSplits(t, h, k, n, tie);
    var i := Route(t.keys, k);
    var m := Split(t.kids[i], n).1;
    var keys := InsertAt(t.keys, i, m);
    if i > 0 && t.keys[i - 1] == m {
      EqualNeighbours(keys, i - 1);
    } else {
      EqualNeighbours(keys, i);
    }
  }

  /** A clash leaves a node unsorted, at whatever depth. */
  lemma {:induction false} ClashBreaks(t: Tree, h: nat, k: Key, v: Val, n: nat, tie: Tie)
    requires Shape(t, h) && MeetsClash(t, h, k, n, tie)
    ensures !Tidy(InsertNonFull(t, h, k, v, n, tie).0)
    decreases h
  {
    hide Descend, Clash, Sorted, Less;
    var (t1, j, n1) := Descend(t, h, k, n, tie);
    var t' := InsertNonFull(t, h, k, v, n, tie).0;
    if Clash(t, Route(t.keys, k)) {
      ClashUnsorted(t, h, k, n, tie);
    } else {
      ClashBreaks(t1.kids[j], h - 1, k, v, n1, tie);
      assert t'.kids[j] == InsertNonFull(t1.kids[j], h - 1, k, v, n1, tie).0;
    }
  }

  lemma SeparatorNotLeft(t: Tree, i: nat)
    requires t.Branch? && Ordered(t, Strict) && i < |t.keys|
    ensures i < |t.kids| && t.keys[i] !in KeySet(t.kids[i])
  {
    hide Less;
    Trichotomy(t.keys[i], t.keys[i]);
    assert Separates(t, i, Strict);
  }

  /** The key goes left of its own promoted copy. */
  lemma PromotedBreaksHere(t: Tree, h: nat, k: Key, v: Val, n: nat)
    requires Shape(t, h) && t.Branch? && Promoted(t, h, k, n)
    ensures !Ordered(InsertNonFull(t, h, k, v, n, AsWritten).0, Strict)
  {
    hide Descend, KeySet, Ordered, Less, Split, SplitKid;
    var i := Route(t.keys, k);
    DescendSplits(t, h, k, n, AsWritten);
    Trichotomy(k, k);
    var (t1, j, n1) := Descend(t, h, k, n, AsWritten);
    KeyIsStored(t1.kids[j], h - 1, k, v, n1, AsWritten);
    var t' := InsertNonFull(t, h, k, v, n, AsWritten).0;
    assert j == i && t'.keys[i] == k && k in KeySet(t'.kids[i]);
    if Ordered(t', Strict) {
      SeparatorNotLeft(t', i);
    }
  }

  lemma {:induction false} PromotedBreaks(t: Tree, h: nat, k: Key, v: Val, n: nat)
    requires Shape(t, h) && MeetsPromoted(t, h, k, n)
    ensures !Ordered(InsertNonFull(t, h, k, v, n, AsWritten).0, Strict)
    decreases h
  {
    hide Descend, Promoted, KeySet, Less, Separates;
    var (t1, j, n1) := Descend(t, h, k, n, AsWritten);
    if Promoted(t, h, k, n) {
      PromotedBreaksHere(t, h, k, v, n);
    } else {
      PromotedBreaks(t1.kids[j], h - 1, k, v, n1);
      var t' := InsertNonFull(t, h, k, v, n, AsWritten).0;
      assert t'.kids[j] == InsertNonFull(t1.kids[j], h - 1, k, v, n1, AsWritten).0;
    }
  }

  /** Exactly when every node is still sorted after an insertion. */
  lemma InsertStaysTidyIff(t: Tree, h: nat, k: Key, v: Val, n: nat, tie: Tie, o: Order)
    requires Shape(t, h) && Ordered(t, o)
    ensures Tidy(Insert(t, h, k, v, n, tie).0) <==> !MeetsClashAtInsert(t, h, k, n, tie)
  {
    hide InsertNonFull, GrowRoot, Ordered, MeetsClash, Size, Tidy, Shape, KeySet;
    if !MeetsClashAtInsert(t, h, k, n, tie) {
      InsertMeans(t, h, k, v, n, tie, o);
      OrderedIsTidy(Insert(t, h, k, v, n, tie).0, Weak);
    } else if Full(t) {
      ClashBreaks(GrowRoot(t, h, n), h + 1, k, v, n + 2, tie);
    } else {
      ClashBreaks(t, h, k, v, n, tie);
    }
  }

  /** Exactly when an insertion keeps the search order, with or without dead copies. */
  lemma InsertKeepsOrderIff(t: Tree, h: nat, k: Key, v: Val, n: nat, tie: Tie, o: Order)
    requires Shape(t, h) && Ordered(t, o)
    ensures Ordered(Insert(t, h, k, v, n, tie).0, o) <==>
      !MeetsClashAtInsert(t, h, k, n, tie) && (o.Weak? || tie.EqualGoesRight? || !MeetsPromotedAtInsert(t, h, k, n))
  {
    hide InsertNonFull, GrowRoot, Ordered, MeetsClash, MeetsPromoted, Size, Tidy, Shape, KeySet;
    var t' := Insert(t, h, k, v, n, tie).0;
    if MeetsClashAtInsert(t, h, k, n, tie) {
      InsertStaysTidyIff(t, h, k, v, n, tie, o);
      if Ordered(t', o) {
        OrderedIsTidy(t', o);
      }
    } else if o.Weak? || tie.EqualGoesRight? || !MeetsPromotedAtInsert(t, h, k, n) {
      InsertOrdered(t, h, k, v, n, tie, o);
    } else if Full(t) {
      PromotedBreaks(GrowRoot(t, h, n), h + 1, k, v, n + 2);
    } else {
      PromotedBreaks(t, h, k, v, n);
    }
  }

  /** The order holds after every insertion of the run. */
  ghost predicate AlwaysOrdered(r: Run, tie: Tie, o: Order) {
    Ordered(Apply(r, tie).tree, o) && (r.Then? ==> AlwaysOrdered(r.before, tie, o))
  }

  /** Exactly which runs stay in order throughout. */
  lemma {:induction false} RunsOrderedIff(r: Run, tie: Tie, o: Order)
    ensures AlwaysOrdered(r, tie, o) <==> NeverClashes(r, tie) && (o.Weak? || tie.EqualGoesRight? || NeverMeets(r))
  {
    hide Ordered, Insert, MeetsClashAtInsert, MeetsPromotedAtInsert;
    if r.Start? {
      EmptyIsOrdered(o);
    } else {
      RunsOrderedIff(r.before, tie, o);
      var s := Apply(r.before, tie);
      if AlwaysOrdered(r.before, tie, o) {
        InsertKeepsOrderIff(s.tree, s.height, r.key, r.val, s.pages, tie, o);
      }
    }
  }

  lemma EmptyIsOrdered(o: Order)
    ensures Ordered(EMPTY_STORE.tree, o)
  {
  }

  // ---------------------------------------------------- the last insertion

  /** The run up to and including the last insertion of a key. */
  function UpToLast(r: Run, k: Key): Run {
    if r.Start? || r.key == k then r else UpToLast(r.before, k)
  }

  /** Later insertions of other keys change no answer for this one. */
  lemma {:induction false} AnswerIsFromLast(r: Run, tie: Tie, k: Key)
    requires NeverClashes(r, tie)
    ensures NeverClashes(UpToLast(r, k), tie)
    ensures Lookup(Apply(r, tie).tree, k) == Lookup(Apply(UpToLast(r, k), tie).tree, k)
  {
    hide Insert, Lookup, Clashes, Sound, Contents;
    if r.Then? && r.key != k {
      AnswerIsFromLast(r.before, tie, k);
      RunsKeep(r.before, tie);
      var s := Apply(r.before, tie);
      SoundIsOrdered(s, Weak);
      NoClash(s, r.key, tie);
      InsertLookup(s.tree, s.height, r.key, r.val, s.pages, tie, Weak, k);
    }
  }

  lemma NoClash(s: Store, k: Key, tie: Tie)
    requires Shape(s.tree, s.height) && !Clashes(s, k, tie)
    ensures !MeetsClashAtInsert(s.tree, s.height, k, s.pages, tie)
  {
  }

  /** The last insertion of the key met no promoted copy of it, or its value was stored already. */
  ghost predicate LastKept(r: Run, tie: Tie, k: Key)
    requires UpToLast(r, k).Then?
  {
    var last := UpToLast(r, k);
    var s := Apply(last.before, tie);
    tie.EqualGoesRight? || !Meets(s, k) || Lookup(s.tree, k) == Some(last.val)
  }

  /** Search finds the last value given to a key if and only if that insertion was kept. */
  lemma LastValueFoundIff(r: Run, tie: Tie, k: Key)
    requires NeverClashes(r, tie) && UpToLast(r, k).Then?
    ensures Lookup(Apply(r, tie).tree, k) == Some(UpToLast(r, k).val) <==> LastKept(r, tie, k)
  {
    hide Insert, Lookup, Clashes, Sound, Contents, NeverClashes;
    AnswerIsFromLast(r, tie, k);
    var last := UpToLast(r, k);
    LastIsThere(r, k);
    var s := Apply(last.before, tie);
    PrefixNeverClashes(last, tie);
    RunsKeep(last.before, tie);
    SoundIsOrdered(s, Weak);
    NoClash(s, k, tie);
    InsertLookup(s.tree, s.height, k, last.val, s.pages, tie, Weak, k);
  }

  lemma PrefixNeverClashes(r: Run, tie: Tie)
    requires NeverClashes(r, tie) && r.Then?
    ensures NeverClashes(r.before, tie) && !Clashes(Apply(r.before, tie), r.key, tie)
  {
  }

  lemma {:induction false} LastIsThere(r: Run, k: Key)
    ensures UpToLast(r, k).Then? ==> UpToLast(r, k).key == k && k in Latest(r) && Latest(r)[k] == UpToLast(r, k).val
    ensures UpToLast(r, k).Start? ==> k !in Latest(r)
  {
    if r.Then? && r.key != k {
      LastIsThere(r.before, k);
    }
  }
}
