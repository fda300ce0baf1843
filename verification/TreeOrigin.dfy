/** Where answers come from: whatever happens to the tree, it never answers a value that was not inserted under the key. */
module TreeOrigin {
  import opened Keys
  import opened Trees
  import opened TreeRuns
  import opened TreeFailure

  /** Every leaf entry of the tree is one of the given ones. */
  ghost predicate Within(t: Tree, s: set<(Key, Val)>) {
    match t
    case Leaf(_, keys, vals, _) => |keys| == |vals| && forall i :: 0 <= i < |keys| ==> (keys[i], vals[i]) in s
    case Branch(_, _, kids) => forall i :: 0 <= i < |kids| ==> Within(kids[i], s)
  }

  lemma {:induction false} WithinMore(t: Tree, s: set<(Key, Val)>, s': set<(Key, Val)>)
    requires Within(t, s) && s <= s'
    ensures Within(t, s')
  {
    if t.Branch? {
      forall i | 0 <= i < |t.kids|
        ensures Within(t.kids[i], s')
      {
        WithinMore(t.kids[i], s, s');
      }
    }
  }

  lemma {:induction false} AnswerIsWithin(t: Tree, q: Key, s: set<(Key, Val)>)
    requires Within(t, s) && Lookup(t, q).Some?
    ensures (q, Lookup(t, q).value) in s
  {
    hide LowerBound, Route;
    if t.Branch? {
      AnswerIsWithin(t.kids[Route(t.keys, q)], q, s);
    }
  }

  lemma SplitWithin(c: Tree, n: nat, s: set<(Key, Val)>)
    requires Splittable(c) && Within(c, s)
    ensures Within(Split(c, n).0, s) && Within(Split(c, n).2, s)
  {
  }

  lemma SplitKidWithin(t: Tree, i: nat, n: nat, s: set<(Key, Val)>)
    requires t.Branch? && |t.kids| == |t.keys| + 1 && i < |t.kids| && Splittable(t.kids[i]) && Within(t, s)
    ensures Within(SplitKid(t, i, n), s)
  {
    hide Split, SplitKid;
    SplitWithin(t.kids[i], n, s);
    SplitKidNode(t, i, n);
    forall j | 0 <= j < |SplitKid(t, i, n).kids|
      ensures Within(SplitKid(t, i, n).kids[j], s)
    {
      SplitKidAt(t, i, n, j);
    }
  }

  lemma LeafInsertWithin(t: Tree, k: Key, v: Val, s: set<(Key, Val)>)
    requires t.Leaf? && Within(t, s) && (k, v) in s
    ensures Within(LeafInsert(t, k, v), s)
  {
    hide LowerBound;
  }

  lemma {:induction false} AttemptWithin(t: Tree, h: nat, k: Key, v: Val, n: nat, tie: Tie, s: set<(Key, Val)>)
    requires Shape(t, h) && Within(t, s) && (k, v) in s
    ensures Within(Attempt(t, h, k, v, n, tie).tree, s)
    decreases h
  {
    hide Descend, Size, Split, SplitKid, LeafInsert;
    if t.Leaf? {
      LeafInsertWithin(t, k, v, s);
    } else {
      DescendsInto(t, h, k, n, tie);
      var (t1, j, n1) := Descend(t, h, k, n, tie);
      var i := Route(t.keys, k);
      if Full(t.kids[i]) {
        SplitKidWithin(t, i, n, s);
        SplitWithin(t.kids[i], n, s);
      }
      AttemptWithin(t1.kids[j], h - 1, k, v, n1, tie, s);
    }
  }

  lemma GrownWithin(t: Tree, h: nat, n: nat, s: set<(Key, Val)>)
    requires Shape(t, h) && Full(t) && Within(t, s)
    ensures Within(GrowRoot(t, h, n), s)
  {
    FullIsSplittable(t, h);
    var moved := t.(id := n);
    assert Within(moved, s);
    SplitKidWithin(Branch(t.id, [], [moved]), 0, n + 1, s);
  }

  /** The entries a run inserts. */
  ghost function Given(r: Run): set<(Key, Val)> {
    if r.Start? then {} else Given(r.before) + {(r.key, r.val)}
  }

  lemma {:induction false} DrainedWithin(r: Run, tie: Tie)
    ensures Within(Drained(r, tie).tree, Given(r))
  {
    if r.Then? {
      hide Attempt, GrowRoot, Size;
      DrainedWithin(r.before, tie);
      var s := Drained(r.before, tie);
      WithinMore(s.tree, Given(r.before), Given(r));
      if Full(s.tree) {
        GrownWithin(s.tree, s.height, s.pages, Given(r));
        AttemptWithin(GrowRoot(s.tree, s.height, s.pages), s.height + 1, r.key, r.val, s.pages + 2, tie, Given(r));
      } else {
        AttemptWithin(s.tree, s.height, r.key, r.val, s.pages, tie, Given(r));
      }
    }
  }

  /** After any run of attempts, sorted or not, failed or not: an answer is a value given to that key. */
  lemma AnswersWereGiven(r: Run, tie: Tie, q: Key)
    requires Lookup(Drained(r, tie).tree, q).Some?
    ensures (q, Lookup(Drained(r, tie).tree, q).value) in Given(r)
  {
    DrainedWithin(r, tie);
    AnswerIsWithin(Drained(r, tie).tree, q, Given(r));
  }
}
