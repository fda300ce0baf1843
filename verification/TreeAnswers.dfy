/** What search answers after a whole run of attempts, some of which may have failed. */
module TreeAnswers {
  import opened Keys
  import opened Trees
  import opened TreeOrder
  import opened TreeRange
  import opened TreeFit
  import opened TreeRuns
  import opened TreeExact
  import opened TreeFailure

  /** No attempt of the run meets a clash. */
  ghost predicate DrainNeverClashes(r: Run, tie: Tie) {
    r.Then? ==> DrainNeverClashes(r.before, tie) && !Clashes(Drained(r.before, tie), r.key, tie)
  }

  /** No attempt of the run meets the promoted copy of its own key. */
  ghost predicate DrainNeverMeets(r: Run) {
    r.Then? ==> DrainNeverMeets(r.before) && !Meets(Drained(r.before, AsWritten), r.key)
  }

  ghost predicate SavedIn(s: Store, k: Key, v: Val, tie: Tie)
    requires Shape(s.tree, s.height)
  {
    SavedAtInsert(s.tree, s.height, k, v, s.pages, tie)
  }

  /** An attempt on k cuts q off from search. */
  ghost predicate Cuts(s: Store, k: Key, v: Val, tie: Tie, q: Key)
    requires Shape(s.tree, s.height)
  {
    CutAtInsert(s.tree, s.height, k, v, s.pages, tie, q)
  }

  /** What the run leaves under a key: the last value saved, unless it was cut off since. */
  ghost function Answered(r: Run, tie: Tie, q: Key): Option<Val> {
    match r
    case Start => None
    case Then(before, k, v) =>
      var s := Drained(before, tie);
      if q == k && SavedIn(s, k, v, tie) then Some(v)
      else if Cuts(s, k, v, tie, q) then CutAnswerAtInsert(s.tree, s.height, k, v, s.pages, tie, q)
      else Answered(before, tie, q)
  }

  lemma NoClashIn(s: Store, k: Key, tie: Tie)
    requires Shape(s.tree, s.height) && !Clashes(s, k, tie)
    ensures !MeetsClashAtInsert(s.tree, s.height, k, s.pages, tie)
  {
  }

  lemma {:induction false} DrainedRanged(r: Run, tie: Tie)
    requires DrainNeverClashes(r, tie)
    ensures Ranged(Drained(r, tie).tree, Weak)
  {
    if r.Then? {
      hide Ranged, AttemptInsert, Clashes;
      DrainedRanged(r.before, tie);
      var s := Drained(r.before, tie);
      NoClashIn(s, r.key, tie);
      AttemptInsertRanged(s.tree, s.height, r.key, r.val, s.pages, tie, Weak);
    }
  }

  /** Search after any run of attempts without a clash. */
  lemma {:induction false} DrainedAnswers(r: Run, tie: Tie, q: Key)
    requires DrainNeverClashes(r, tie)
    ensures Lookup(Drained(r, tie).tree, q) == Answered(r, tie, q)
  {
    hide Lookup;
    if r.Then? {
      hide Ranged, AttemptInsert, Clashes, SavedAtInsert, CutAtInsert, CutAnswerAtInsert;
      DrainedRanged(r.before, tie);
      DrainedAnswers(r.before, tie, q);
      var s := Drained(r.before, tie);
      NoClashIn(s, r.key, tie);
      AttemptInsertAnswers(s.tree, s.height, r.key, r.val, s.pages, tie, Weak, q);
    } else {
      EmptyAnswersNothing(q);
    }
  }

  lemma EmptyAnswersNothing(q: Key)
    ensures Lookup(EMPTY_STORE.tree, q) == None
  {
  }

  /** If no promoted copy is met there are no dead copies, whatever fails. */
  lemma {:induction false} DrainedStrict(r: Run, tie: Tie)
    requires DrainNeverClashes(r, tie) && (tie.EqualGoesRight? || DrainNeverMeets(r))
    ensures Ranged(Drained(r, tie).tree, Strict)
  {
    if r.Then? {
      hide Ranged, AttemptInsert, Clashes, Meets;
      DrainedStrict(r.before, tie);
      var s := Drained(r.before, tie);
      NoClashIn(s, r.key, tie);
      if tie.AsWritten? {
        NotMetIn(s, r.key);
      }
      AttemptInsertRanged(s.tree, s.height, r.key, r.val, s.pages, tie, Strict);
    } else {
      EmptyIsRanged();
    }
  }

  lemma NotMetIn(s: Store, k: Key)
    requires Shape(s.tree, s.height) && !Meets(s, k)
    ensures !MeetsPromotedAtInsert(s.tree, s.height, k, s.pages)
  {
  }

  lemma EmptyIsRanged()
    ensures Ranged(EMPTY_STORE.tree, Strict)
  {
  }

  /** With entries of cost at most 3039 such a run meets no clash, whatever fails. */
  lemma {:induction false} SmallDrainNeverClashes(r: Run, tie: Tie)
    requires Costs(r, ENTRY_LIMIT, ENTRY_LIMIT) && (tie.EqualGoesRight? || DrainNeverMeets(r))
    ensures DrainNeverClashes(r, tie)
  {
    if r.Then? {
      hide Ranged, AttemptInsert, Meets, Small, MeetsClashAtInsert;
      SmallDrainNeverClashes(r.before, tie);
      DrainedStrict(r.before, tie);
      DrainedSmall(r.before, tie);
      var s := Drained(r.before, tie);
      SmallInsertNeverClashes(s.tree, s.height, r.key, s.pages, tie);
    }
  }

  // ------------------------------------------------------ the last value

  ghost predicate Succeeds(s: Store, k: Key, v: Val, tie: Tie)
    requires Shape(s.tree, s.height)
  {
    AttemptInsert(s.tree, s.height, k, v, s.pages, tie).ok
  }

  /** No attempt fails while there are dead copies, which the failure could uncover. */
  ghost predicate CutsClean(r: Run, tie: Tie) {
    r.Then? ==>
      && CutsClean(r.before, tie)
      && (!Succeeds(Drained(r.before, tie), r.key, r.val, tie) ==> Ranged(Drained(r.before, tie).tree, Strict))
  }

  lemma {:induction false} StrictCutsClean(r: Run, tie: Tie)
    requires DrainNeverClashes(r, tie) && (tie.EqualGoesRight? || DrainNeverMeets(r))
    ensures CutsClean(r, tie)
  {
    if r.Then? {
      hide Ranged, AttemptInsert, Meets, Clashes, Succeeds;
      StrictCutsClean(r.before, tie);
      DrainedStrict(r.before, tie);
    }
  }

  lemma {:induction false} FittingCutsClean(r: Run, tie: Tie)
    requires AllFit(r, tie)
    ensures CutsClean(r, tie)
  {
    if r.Then? {
      hide Ranged, AttemptInsert, Fits, Insert;
      FittingCutsClean(r.before, tie);
      FitSucceeds(r, tie);
    }
  }

  lemma FitSucceeds(r: Run, tie: Tie)
    requires AllFit(r, tie) && r.Then?
    ensures Drained(r.before, tie) == Apply(r.before, tie) && Succeeds(Drained(r.before, tie), r.key, r.val, tie)
  {
    hide AttemptInsert, Insert;
    DrainedIsApply(r.before, tie);
    var s := Apply(r.before, tie);
    BeforeFits(r, tie);
    AttemptInsertIsInsertion(s.tree, s.height, r.key, r.val, s.pages, tie);
    AfterFits(r, tie);
  }

  lemma AfterFits(r: Run, tie: Tie)
    requires AllFit(r, tie) && r.Then?
    ensures var s := Apply(r.before, tie); Fits(Insert(s.tree, s.height, r.key, r.val, s.pages, tie).0)
  {
    hide Fits, Insert;
  }

  /** After an attempt on k search finds v: it was saved, or v was there and was not cut off. */
  ghost predicate HeldAt(s: Store, k: Key, v: Val, tie: Tie)
    requires Shape(s.tree, s.height)
  {
    SavedIn(s, k, v, tie) || (!Cuts(s, k, v, tie, k) && Lookup(s.tree, k) == Some(v))
  }

  /** No attempt since the last one on the key cut it off. */
  ghost predicate NeverCutSince(r: Run, tie: Tie, q: Key) {
    r.Then? && r.key != q ==> NeverCutSince(r.before, tie, q) && !Cuts(Drained(r.before, tie), r.key, r.val, tie, q)
  }

  /** The last attempt on the key left its value to be found, and no later one cut it off. */
  ghost predicate LastHeld(r: Run, tie: Tie, q: Key)
    requires UpToLast(r, q).Then?
  {
    var last := UpToLast(r, q);
    HeldAt(Drained(last.before, tie), q, last.val, tie) && NeverCutSince(r, tie, q)
  }

  /** Only failures cut, and where there are no dead copies they leave nothing under a key they cut off. */
  lemma CutLeavesNothing(s: Store, k: Key, v: Val, tie: Tie, q: Key)
    requires Shape(s.tree, s.height) && !Clashes(s, k, tie) && Cuts(s, k, v, tie, q) && !(q == k && SavedIn(s, k, v, tie))
    requires !Succeeds(s, k, v, tie) ==> Ranged(s.tree, Strict)
    ensures CutAnswerAtInsert(s.tree, s.height, k, v, s.pages, tie, q) == None
  {
    hide Ranged, AttemptInsert, SavedAtInsert, CutAtInsert, CutAnswerAtInsert, Lookup;
    if Succeeds(s, k, v, tie) {
      SuccessSaves(s.tree, s.height, k, v, s.pages, tie, q);
    } else {
      NoClashIn(s, k, tie);
      StrictRangeIsWeak(s.tree);
      AttemptInsertAnswers(s.tree, s.height, k, v, s.pages, tie, Strict, q);
      FailureLosesRightHalves(s.tree, s.height, k, v, s.pages, tie, q);
    }
  }

  lemma {:induction false} AnsweredSinceLast(r: Run, tie: Tie, q: Key)
    requires DrainNeverClashes(r, tie) && CutsClean(r, tie)
    ensures Answered(r, tie, q) == if NeverCutSince(r, tie, q) then Answered(UpToLast(r, q), tie, q) else None
    ensures DrainNeverClashes(UpToLast(r, q), tie) && CutsClean(UpToLast(r, q), tie)
  {
    if r.Then? && r.key != q {
      hide Ranged, AttemptInsert, Clashes, Succeeds, SavedIn, Cuts;
      AnsweredSinceLast(r.before, tie, q);
      if Cuts(Drained(r.before, tie), r.key, r.val, tie, q) {
        CutLeavesNothing(Drained(r.before, tie), r.key, r.val, tie, q);
      }
    }
  }

  /** Where the last attempt on a key left its value. */
  lemma AnsweredAtLast(r: Run, tie: Tie)
    requires r.Then? && DrainNeverClashes(r, tie) && CutsClean(r, tie)
    ensures Answered(r, tie, r.key) == Some(r.val) <==> HeldAt(Drained(r.before, tie), r.key, r.val, tie)
  {
    hide Ranged, AttemptInsert, Clashes, Succeeds, SavedIn, Cuts, Lookup;
    var s := Drained(r.before, tie);
    DrainedAnswers(r.before, tie, r.key);
    if Cuts(s, r.key, r.val, tie, r.key) && !SavedIn(s, r.key, r.val, tie) {
      CutLeavesNothing(s, r.key, r.val, tie, r.key);
    }
  }

  /**
   * After any run of attempts, successful or not: search finds the last value
   * given to a key if and only if its attempt left it to be found and no later
   * attempt cut it off.
   */
  lemma LastFoundIff(r: Run, tie: Tie, q: Key)
    requires DrainNeverClashes(r, tie) && CutsClean(r, tie) && UpToLast(r, q).Then?
    ensures Lookup(Drained(r, tie).tree, q) == Some(UpToLast(r, q).val) <==> LastHeld(r, tie, q)
  {
    hide Ranged, AttemptInsert, Clashes, Succeeds, SavedIn, Cuts, Lookup, HeldAt;
    DrainedAnswers(r, tie, q);
    AnsweredSinceLast(r, tie, q);
    LastIsThere(r, q);
    AnsweredAtLast(UpToLast(r, q), tie);
  }

  // -------------------------------------------------- while everything fits

  lemma FitAttempt(r: Run, tie: Tie, q: Key)
    requires AllFit(r, tie) && r.Then?
    ensures AllFit(r.before, tie) && Drained(r.before, tie) == Apply(r.before, tie)
    ensures var s := Drained(r.before, tie);
      && !Cuts(s, r.key, r.val, tie, q)
      && (SavedIn(s, r.key, r.val, tie) <==> tie.EqualGoesRight? || !Meets(s, r.key))
  {
    hide AttemptInsert, SavedAtInsert, CutAtInsert, Insert, Fits;
    FitSucceeds(r, tie);
    var s := Drained(r.before, tie);
    SuccessSaves(s.tree, s.height, r.key, r.val, s.pages, tie, q);
  }

  lemma {:induction false} FittingNeverCuts(r: Run, tie: Tie, q: Key)
    requires AllFit(r, tie)
    ensures NeverCutSince(r, tie, q) && AllFit(UpToLast(r, q), tie)
  {
    if r.Then? {
      hide Cuts, Fits, Apply, Drained;
      FitAttempt(r, tie, q);
      if r.key != q {
        FittingNeverCuts(r.before, tie, q);
      }
    }
  }

  /** Then a value is held if and only if its insertion was kept. */
  lemma FittingHeldIsKept(r: Run, tie: Tie, q: Key)
    requires AllFit(r, tie) && UpToLast(r, q).Then?
    ensures LastHeld(r, tie, q) <==> LastKept(r, tie, q)
  {
    hide Cuts, SavedIn, Fits, Apply, Drained, Lookup, NeverCutSince, AllFit, Meets;
    FittingNeverCuts(r, tie, q);
    LastIsThere(r, q);
    FitAttempt(UpToLast(r, q), tie, q);
  }

  lemma {:induction false} FittingNeverClashes(r: Run, tie: Tie)
    requires AllFit(r, tie)
    ensures DrainNeverClashes(r, tie) <==> NeverClashes(r, tie)
  {
    if r.Then? {
      hide Clashes, Fits, Apply, Drained;
      FitAttempt(r, tie, r.key);
      FittingNeverClashes(r.before, tie);
    }
  }
}
