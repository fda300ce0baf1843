/**
 * The leaf chain as the file holds it, after any run of attempts. A leaf that
 * a failed insertion cut off from search stays in the chain for ever.
 */
module TreeChain {
  import opened Keys
  import opened Trees
  import opened TreeOrder
  import opened TreeRange
  import opened TreePages
  import opened TreeRuns
  import opened TreeScan
  import opened TreeFailure
  import opened TreeLeaves

  // -------------------------------------------------------------- the chain

  ghost predicate DistinctIds(ls: seq<Tree>) {
    forall i, j :: 0 <= i < j < |ls| ==> ls[i].id != ls[j].id
  }

  /** The leaves of the tree are in the chain, at whose start is the first of them; further leaves are in pages the tree does not reach. */
  ghost predicate Covers(ls: seq<Tree>, t: Tree) {
    && ls != [] && ls[0].id == FirstLeaf(t) && (t.Leaf? ==> ls == [t])
    && (forall x :: LeafIn(t, x) ==> x in ls)
    && (forall x :: x in ls && x.id in Ids(t) ==> LeafIn(t, x))
  }

  /** A chain of leaves in pages below n, from the first leaf of the tree to the end, past all its leaves. */
  ghost predicate ChainOf(ls: seq<Tree>, t: Tree, n: nat) {
    && IsChain(ls, None) && DistinctIds(ls) && Covers(ls, t)
    && forall i :: 0 <= i < |ls| ==> Shape(ls[i], 0) && ls[i].id < n
  }

  lemma ChainListed(ls: seq<Tree>, t: Tree, n: nat)
    requires ChainOf(ls, t, n)
    ensures LeafRun(ls)
  {
  }

  /** Where a leaf is in the chain. */
  function Place(ls: seq<Tree>, u: Tree): (p: nat)
    requires u in ls
    ensures p < |ls| && ls[p] == u
  {
    if ls[0] == u then 0 else 1 + Place(ls[1..], u)
  }

  function Splice(ls: seq<Tree>, p: nat, news: seq<Tree>): seq<Tree>
    requires p < |ls|
  {
    ls[..p] + news + ls[p + 1..]
  }

  lemma InSplice(ls: seq<Tree>, p: nat, news: seq<Tree>, x: Tree)
    requires p < |ls| && DistinctIds(ls)
    ensures x in Splice(ls, p, news) <==> (x in ls && x != ls[p]) || x in news
  {
    if x in ls && x != ls[p] {
      var i :| 0 <= i < |ls| && ls[i] == x;
      assert i < p ==> ls[..p][i] == x;
      assert i > p ==> ls[p + 1..][i - p - 1] == x;
    }
  }

  lemma SpliceDistinct(ls: seq<Tree>, p: nat, news: seq<Tree>, n: nat, n': nat)
    requires p < |ls| && DistinctIds(ls) && InPlaceOf(ls[p], news, n, n')
    requires forall i :: 0 <= i < |ls| ==> ls[i].id < n
    ensures DistinctIds(Splice(ls, p, news))
  {
    hide IsChain, Shape;
    var s := Splice(ls, p, news);
    var d := |news| - 1;
    forall i, j | 0 <= i < j < |s|
      ensures s[i].id != s[j].id
    {
      assert s[i] == if i < p then ls[i] else if i <= p + d then news[i - p] else ls[i - d];
      assert s[j] == if j < p then ls[j] else if j <= p + d then news[j - p] else ls[j - d];
    }
  }

  lemma SpliceLinked(ls: seq<Tree>, p: nat, news: seq<Tree>, n: nat, n': nat)
    requires p < |ls| && IsChain(ls, None) && InPlaceOf(ls[p], news, n, n')
    ensures IsChain(Splice(ls, p, news), None)
  {
    hide Shape;
    var s := Splice(ls, p, news);
    var d := |news| - 1;
    assert forall i :: 0 <= i < |s| ==> s[i] == if i < p then ls[i] else if i <= p + d then news[i - p] else ls[i - d];
    forall i | 0 <= i < |s|
      ensures LinksOn(s, i, None)
    {
      assert LinksOn(ls, p, None);
      if i < p {
        assert LinksOn(ls, i, None);
      } else if i <= p + d {
        assert LinksOn(news, i - p, ls[p].next);
      } else {
        assert LinksOn(ls, i - d, None);
      }
    }
  }

  // ------------------------------------------------------------ one attempt

  /** The chain after an attempt that starts at t. */
  ghost function NextChain(ls: seq<Tree>, t: Tree, h: nat, k: Key, v: Val, n: nat, tie: Tie): seq<Tree>
    requires Shape(t, h) && ChainOf(ls, t, n)
  {
    TouchedIsLeaf(t, h, k, n, tie);
    Splice(ls, Place(ls, Touched(t, h, k, n, tie)), NewLeaves(t, h, k, v, n, tie))
  }

  /** The leaves of the chain after an attempt. */
  lemma InNextChain(ls: seq<Tree>, t: Tree, h: nat, k: Key, v: Val, n: nat, tie: Tie, x: Tree)
    requires Shape(t, h) && ChainOf(ls, t, n)
    ensures x in NextChain(ls, t, h, k, v, n, tie) <==>
      (x in ls && x != Touched(t, h, k, n, tie)) || x in NewLeaves(t, h, k, v, n, tie)
  {
    TouchedIsLeaf(t, h, k, n, tie);
    InSplice(ls, Place(ls, Touched(t, h, k, n, tie)), NewLeaves(t, h, k, v, n, tie), x);
  }

  /** Leaves of the tree come from what was made, all others are where they were. */
  lemma NextCovers(ls: seq<Tree>, t: Tree, h: nat, k: Key, v: Val, n: nat, tie: Tie, x: Tree)
    requires Shape(t, h) && Proper(t) && ChainOf(ls, t, n)
    requires forall y :: y in Ids(t) ==> y < n
    ensures var t' := Attempt(t, h, k, v, n, tie).tree;
      && (LeafIn(t', x) ==> x in NextChain(ls, t, h, k, v, n, tie))
      && (x in NextChain(ls, t, h, k, v, n, tie) && x.id in Ids(t') ==> LeafIn(t', x))
  {
    hide Attempt, Made, LeafIn, PartOf, Ids, Touched, NewLeaves, NextChain;
    var t' := Attempt(t, h, k, v, n, tie).tree;
    var m := Made(t, h, k, v, n, tie);
    AttemptIsPart(t, h, k, v, n, tie);
    MadePages(t, h, k, v, n, tie);
    MadeLeaves(t, h, k, v, n, tie, x);
    InNextChain(ls, t, h, k, v, n, tie, x);
    TouchedIsLeaf(t, h, k, n, tie);
    if LeafIn(t', x) {
      PartLeaves(t', m, x);
    }
    if x in NextChain(ls, t, h, k, v, n, tie) && x.id in Ids(t') {
      PartIds(t', m, x.id);
      assert x in ls && x.id in Ids(t) ==> LeafIn(t, x);
      assert LeafIn(m, x);
      PartHasLeaf(t', m, x);
    }
  }

  lemma {:induction false} AttemptFirst(t: Tree, h: nat, k: Key, v: Val, n: nat, tie: Tie)
    requires Shape(t, h)
    ensures FirstLeaf(Attempt(t, h, k, v, n, tie).tree) == FirstLeaf(t)
    decreases h
  {
    hide Descend, Size, Split, SplitKid;
    if t.Branch? {
      DescendsInto(t, h, k, n, tie);
      var (t1, j, n1) := Descend(t, h, k, n, tie);
      var i := Route(t.keys, k);
      AttemptFirst(t1.kids[j], h - 1, k, v, n1, tie);
      if Full(t.kids[i]) {
        SplitKidNode(t, i, n);
        SplitKidAt(t, i, n, 0);
        LeftHalfFirst(t.kids[i], h - 1, n);
      }
    }
  }

  lemma LeftHalfFirst(c: Tree, h: nat, n: nat)
    requires Shape(c, h) && Splittable(c)
    ensures FirstLeaf(Split(c, n).0) == FirstLeaf(c)
  {
  }

  /** The first of the spliced chain is in the page that was first before. */
  lemma SpliceFirst(ls: seq<Tree>, p: nat, news: seq<Tree>, n: nat, n': nat)
    requires p < |ls| && InPlaceOf(ls[p], news, n, n')
    ensures Splice(ls, p, news) != [] && Splice(ls, p, news)[0].id == ls[0].id
  {
    hide IsChain, Shape;
    assert p > 0 ==> Splice(ls, p, news)[0] == ls[0];
    assert p == 0 ==> Splice(ls, p, news)[0] == news[0];
  }

  /** As long as the root is a leaf, it is the whole chain. */
  lemma LoneLeaf(ls: seq<Tree>, t: Tree, h: nat, k: Key, v: Val, n: nat, tie: Tie)
    requires Shape(t, h) && ChainOf(ls, t, n) && Attempt(t, h, k, v, n, tie).tree.Leaf?
    ensures NextChain(ls, t, h, k, v, n, tie) == [Attempt(t, h, k, v, n, tie).tree]
  {
    hide Descend, Size, LeafInsert;
    if t.Branch? {
      DescendsInto(t, h, k, n, tie);
    }
  }

  lemma NextLinked(ls: seq<Tree>, t: Tree, h: nat, k: Key, v: Val, n: nat, tie: Tie)
    requires Shape(t, h) && ChainOf(ls, t, n)
    ensures var ls' := NextChain(ls, t, h, k, v, n, tie);
      IsChain(ls', None) && DistinctIds(ls') && ls' != [] && ls'[0].id == ls[0].id
  {
    hide Touched, NewLeaves, LeafIn, Ids, Shape, IsChain, Place, Splice, DistinctIds, InPlaceOf, Covers;
    var (u, news) := (Touched(t, h, k, n, tie), NewLeaves(t, h, k, v, n, tie));
    var n' := Attempt(t, h, k, v, n, tie).pages;
    hide Attempt;
    TouchedInChain(ls, t, h, k, n, tie);
    NewLeavesInPlace(t, h, k, v, n, tie);
    var p := Place(ls, u);
    SpliceDistinct(ls, p, news, n, n');
    SpliceLinked(ls, p, news, n, n');
    SpliceFirst(ls, p, news, n, n');
  }

  lemma TouchedInChain(ls: seq<Tree>, t: Tree, h: nat, k: Key, n: nat, tie: Tie)
    requires Shape(t, h) && ChainOf(ls, t, n)
    ensures LeafRun(ls) && Touched(t, h, k, n, tie) in ls
  {
    TouchedIsLeaf(t, h, k, n, tie);
  }

  lemma NextBelow(ls: seq<Tree>, t: Tree, h: nat, k: Key, v: Val, n: nat, tie: Tie)
    requires Shape(t, h) && ChainOf(ls, t, n)
    ensures var (ls', n') := (NextChain(ls, t, h, k, v, n, tie), Attempt(t, h, k, v, n, tie).pages);
      n <= n' ==> forall i :: 0 <= i < |ls'| ==> Shape(ls'[i], 0) && ls'[i].id < n'
  {
    hide Touched, NewLeaves, LeafIn, Ids, Shape, IsChain, NextChain, Attempt;
    var (ls', n') := (NextChain(ls, t, h, k, v, n, tie), Attempt(t, h, k, v, n, tie).pages);
    TouchedInChain(ls, t, h, k, n, tie);
    NewLeavesInPlace(t, h, k, v, n, tie);
    forall i | n <= n' && 0 <= i < |ls'|
      ensures Shape(ls'[i], 0) && ls'[i].id < n'
    {
      InNextChain(ls, t, h, k, v, n, tie, ls'[i]);
    }
  }

  /** The chain goes on leading past all leaves, whether the attempt succeeds or fails. */
  lemma ChainStep(ls: seq<Tree>, t: Tree, h: nat, k: Key, v: Val, n: nat, tie: Tie)
    requires Shape(t, h) && Proper(t) && ChainOf(ls, t, n)
    requires forall y :: y in Ids(t) ==> y < n
    ensures ChainOf(NextChain(ls, t, h, k, v, n, tie), Attempt(t, h, k, v, n, tie).tree, Attempt(t, h, k, v, n, tie).pages)
  {
    hide LeafIn, Ids, Shape, IsChain, Proper, NextChain, Attempt, DistinctIds;
    var r := Attempt(t, h, k, v, n, tie);
    var ls' := NextChain(ls, t, h, k, v, n, tie);
    NextLinked(ls, t, h, k, v, n, tie);
    NextBelow(ls, t, h, k, v, n, tie);
    AttemptFirst(t, h, k, v, n, tie);
    AttemptPages(t, h, k, v, n, tie);
    forall x
      ensures LeafIn(r.tree, x) ==> x in ls'
      ensures x in ls' && x.id in Ids(r.tree) ==> LeafIn(r.tree, x)
    {
      NextCovers(ls, t, h, k, v, n, tie, x);
    }
    if r.tree.Leaf? {
      LoneLeaf(ls, t, h, k, v, n, tie);
    }
  }

  // ---------------------------------------------------------- a fresh root

  /** The old root in its new page. */
  function Moved(t: Tree, n: nat): Tree {
    t.(id := n)
  }

  /** A full root that is a leaf is split before the descent; any other keeps the chain as it is. */
  ghost function GrownChain(ls: seq<Tree>, t: Tree, h: nat, n: nat): seq<Tree>
    requires Shape(t, h) && Full(t)
  {
    FullIsSplittable(t, h);
    var moved := Moved(t, n);
    if t.Leaf? then [Split(moved, n + 1).0, Split(moved, n + 1).2] else ls
  }

  lemma MovedLeafIn(t: Tree, n: nat, x: Tree)
    requires t.Branch?
    ensures LeafIn(Moved(t, n), x) <==> LeafIn(t, x)
  {
  }

  /** The new root's only two children are the halves of the old root. */
  lemma GrownKids(t: Tree, h: nat, n: nat)
    requires Shape(t, h) && Full(t)
    ensures Splittable(t) && Splittable(Moved(t, n))
    ensures var (l, m, r) := Split(Moved(t, n), n + 1); GrowRoot(t, h, n) == Branch(t.id, [m], [l, r])
  {
    FullIsSplittable(t, h);
  }

  lemma GrownLeafIn(t: Tree, h: nat, n: nat, x: Tree)
    requires Shape(t, h) && Full(t)
    ensures Splittable(Moved(t, n))
    ensures var (l, m, r) := Split(Moved(t, n), n + 1); LeafIn(GrowRoot(t, h, n), x) <==> LeafIn(l, x) || LeafIn(r, x)
  {
    hide LeafIn, Split, GrowRoot;
    GrownKids(t, h, n);
    var g := GrowRoot(t, h, n);
    if LeafIn(g, x) {
      var i := LeafHasKid(g, x);
    }
    if LeafIn(g.kids[0], x) {
      InLeaves(g, 0, x);
    }
    if LeafIn(g.kids[1], x) {
      InLeaves(g, 1, x);
    }
  }

  lemma GrownBranchChain(ls: seq<Tree>, t: Tree, h: nat, n: nat)
    requires Shape(t, h) && Full(t) && Proper(t) && ChainOf(ls, t, n) && t.Branch?
    requires forall y :: y in Ids(t) ==> y < n
    ensures ChainOf(ls, GrowRoot(t, h, n), n + 2)
  {
    hide LeafIn, Ids, Split, GrowRoot, IsChain, Proper;
    var g := GrowRoot(t, h, n);
    GrowRootPages(t, h, n);
    GrownKids(t, h, n);
    LeftHalfFirst(Moved(t, n), h, n + 1);
    forall x
      ensures LeafIn(g, x) <==> LeafIn(t, x)
    {
      GrownLeafIn(t, h, n, x);
      SplitLeafIn(Moved(t, n), n + 1, x);
      MovedLeafIn(t, n, x);
    }
  }

  lemma GrownLeafChain(ls: seq<Tree>, t: Tree, h: nat, n: nat)
    requires Shape(t, h) && Full(t) && ChainOf(ls, t, n) && t.Leaf?
    ensures ChainOf(GrownChain(ls, t, h, n), GrowRoot(t, h, n), n + 2)
  {
    hide LeafIn, Ids, Split, GrowRoot, Size;
    var moved := Moved(t, n);
    GrownKids(t, h, n);
    assert LinksOn(ls, 0, None);
    HalvesAreLeaves(moved, n + 1);
    SplitShape(moved, 0, n + 1);
    var (l, r) := (Split(moved, n + 1).0, Split(moved, n + 1).2);
    LeafInItself(l);
    LeafInItself(r);
    forall x
      ensures LeafIn(GrowRoot(t, h, n), x) <==> x in [l, r]
    {
      GrownLeafIn(t, h, n, x);
    }
    assert FirstLeaf(GrowRoot(t, h, n)) == l.id;
  }

  lemma GrowChain(ls: seq<Tree>, t: Tree, h: nat, n: nat)
    requires Shape(t, h) && Full(t) && Proper(t) && ChainOf(ls, t, n)
    requires forall y :: y in Ids(t) ==> y < n
    ensures ChainOf(GrownChain(ls, t, h, n), GrowRoot(t, h, n), n + 2)
  {
    if t.Leaf? {
      GrownLeafChain(ls, t, h, n);
    } else {
      GrownBranchChain(ls, t, h, n);
    }
  }

  // --------------------------------------------------------- whole attempts

  /** What a whole attempt makes, as if every parent had been saved. */
  function MadeAtInsert(t: Tree, h: nat, k: Key, v: Val, n: nat, tie: Tie): Tree
    requires Shape(t, h)
  {
    if Full(t) then Made(GrowRoot(t, h, n), h + 1, k, v, n + 2, tie) else Made(t, h, k, v, n, tie)
  }

  /** The entry was put into its leaf and the leaf was saved. */
  ghost predicate LeafSavedAtInsert(t: Tree, h: nat, k: Key, v: Val, n: nat, tie: Tie)
    requires Shape(t, h)
  {
    if Full(t) then LeafSaved(GrowRoot(t, h, n), h + 1, k, v, n + 2, tie) else LeafSaved(t, h, k, v, n, tie)
  }

  /** What the chain of a tree in a file of n pages presupposes. */
  ghost predicate Chainable(ls: seq<Tree>, t: Tree, h: nat, n: nat) {
    Shape(t, h) && Proper(t) && ChainOf(ls, t, n) && forall y :: y in Ids(t) ==> y < n
  }

  lemma GrownChainable(ls: seq<Tree>, t: Tree, h: nat, n: nat)
    requires Chainable(ls, t, h, n) && Full(t)
    ensures Chainable(GrownChain(ls, t, h, n), GrowRoot(t, h, n), h + 1, n + 2)
  {
    hide ChainOf, Proper, Ids, Shape, GrowRoot;
    GrowChain(ls, t, h, n);
    GrowRootPages(t, h, n);
    PagesGiven(t, GrowRoot(t, h, n), n, n + 2);
  }

  /** The chain after a whole attempt. */
  ghost function InsertChain(ls: seq<Tree>, t: Tree, h: nat, k: Key, v: Val, n: nat, tie: Tie): seq<Tree>
    requires Chainable(ls, t, h, n)
  {
    if Full(t) then
      GrownChainable(ls, t, h, n);
      NextChain(GrownChain(ls, t, h, n), GrowRoot(t, h, n), h + 1, k, v, n + 2, tie)
    else NextChain(ls, t, h, k, v, n, tie)
  }

  lemma ChainableStep(ls: seq<Tree>, t: Tree, h: nat, k: Key, v: Val, n: nat, tie: Tie)
    requires Chainable(ls, t, h, n)
    ensures var r := Attempt(t, h, k, v, n, tie); Chainable(NextChain(ls, t, h, k, v, n, tie), r.tree, h, r.pages)
  {
    hide ChainOf, Proper, Ids, Shape, Attempt, NextChain;
    ChainStep(ls, t, h, k, v, n, tie);
    AttemptShape(t, h, k, v, n, tie);
    AttemptPages(t, h, k, v, n, tie);
  }

  /**
   * After any attempt, successful or not, there is one chain: it begins at the
   * leftmost leaf, follows the links to an end, and leads past every leaf.
   */
  lemma InsertKeepsChain(ls: seq<Tree>, t: Tree, h: nat, k: Key, v: Val, n: nat, tie: Tie)
    requires Chainable(ls, t, h, n)
    ensures var r := AttemptInsert(t, h, k, v, n, tie);
      Chainable(InsertChain(ls, t, h, k, v, n, tie), r.tree, NewHeight(t, h), r.pages)
  {
    hide ChainOf, Proper, Ids, Shape, GrowRoot, Attempt, NextChain, GrownChain;
    if Full(t) {
      GrownChainable(ls, t, h, n);
      ChainableStep(GrownChain(ls, t, h, n), GrowRoot(t, h, n), h + 1, k, v, n + 2, tie);
    } else {
      ChainableStep(ls, t, h, k, v, n, tie);
    }
  }

  // ------------------------------------------------------ the entries listed

  /** One entry under k was put in, or an entry under k was given the value v. */
  ghost predicate Puts(ps: seq<(Key, Val)>, ps': seq<(Key, Val)>, k: Key, v: Val) {
    exists i :: 0 <= i <= |ps| && PutsAt(ps, ps', k, v, i)
  }

  predicate PutsAt(ps: seq<(Key, Val)>, ps': seq<(Key, Val)>, k: Key, v: Val, i: nat)
    requires i <= |ps|
  {
    ps' == ps[..i] + [(k, v)] + ps[i..] || (i < |ps| && ps[i].0 == k && ps' == ps[i := (k, v)])
  }

  lemma PutsBetween(a: seq<(Key, Val)>, b: seq<(Key, Val)>, b': seq<(Key, Val)>, c: seq<(Key, Val)>, k: Key, v: Val)
    requires Puts(b, b', k, v)
    ensures Puts(a + b + c, a + b' + c, k, v)
  {
    var i :| 0 <= i <= |b| && PutsAt(b, b', k, v, i);
    var (ps, ps', o) := (a + b + c, a + b' + c, |a| + i);
    if b' == b[..i] + [(k, v)] + b[i..] {
      assert ps[..o] == a + b[..i] && ps[o..] == b[i..] + c;
      assert ps' == ps[..o] + [(k, v)] + ps[o..];
    } else {
      assert ps' == ps[o := (k, v)];
    }
    assert PutsAt(ps, ps', k, v, o);
  }

  lemma {:induction false} PairsConcat(ks: seq<Key>, vs: seq<Val>, mid: nat)
    requires |ks| == |vs| && mid <= |ks|
    ensures Pairs(ks, vs) == Pairs(ks[..mid], vs[..mid]) + Pairs(ks[mid..], vs[mid..])
  {
    var (a, b) := (Pairs(ks[..mid], vs[..mid]), Pairs(ks[mid..], vs[mid..]));
    hide Pairs;
    assert forall i :: 0 <= i < |ks| ==> Pairs(ks, vs)[i] == (a + b)[i];
  }

  lemma LeafPuts(t: Tree, k: Key, v: Val)
    requires Shape(t, 0) && t.Leaf?
    ensures var t' := LeafInsert(t, k, v); Shape(t', 0) && Puts(Pairs(t.keys, t.vals), Pairs(t'.keys, t'.vals), k, v)
  {
    hide Pairs, LowerBound;
    var t' := LeafInsert(t, k, v);
    var (ps, ps', i) := (Pairs(t.keys, t.vals), Pairs(t'.keys, t'.vals), LowerBound(t.keys, k));
    if i < |t.keys| && t.keys[i] == k {
      assert ps' == ps[i := (k, v)];
    } else {
      assert ps' == ps[..i] + [(k, v)] + ps[i..];
    }
    assert PutsAt(ps, ps', k, v, i);
  }

  /** The listing after: the entry put in, if it was saved, and else nothing changed. */
  ghost predicate Listed(ps: seq<(Key, Val)>, ps': seq<(Key, Val)>, k: Key, v: Val, saved: bool) {
    if saved then Puts(ps, ps', k, v) else ps' == ps
  }

  lemma ListedBetween(a: seq<(Key, Val)>, b: seq<(Key, Val)>, b': seq<(Key, Val)>, c: seq<(Key, Val)>, k: Key, v: Val, saved: bool)
    requires Listed(b, b', k, v, saved)
    ensures Listed(a + b + c, a + b' + c, k, v, saved)
  {
    if saved {
      PutsBetween(a, b, b', c, k, v);
    }
  }

  lemma ScanOne(l: Tree)
    requires Shape(l, 0) && l.Leaf?
    ensures Scan([l]) == Pairs(l.keys, l.vals)
  {
    assert [l][1..] == [];
  }

  lemma ScanTwo(l: Tree, r: Tree)
    requires Shape(l, 0) && Shape(r, 0) && l.Leaf? && r.Leaf?
    ensures Scan([l, r]) == Pairs(l.keys, l.vals) + Pairs(r.keys, r.vals)
  {
    assert [l, r][1..] == [r];
    ScanOne(r);
  }

  /** The halves of a leaf list its entries. */
  lemma HalvesList(c: Tree, n: nat)
    requires Shape(c, 0) && c.Leaf? && Splittable(c)
    ensures var (l, r) := (Split(c, n).0, Split(c, n).2);
      && Shape(l, 0) && Shape(r, 0) && l.Leaf? && r.Leaf?
      && Pairs(c.keys, c.vals) == Pairs(l.keys, l.vals) + Pairs(r.keys, r.vals)
  {
    PairsConcat(c.keys, c.vals, |c.keys| / 2);
  }

  lemma MadeLists(t: Tree, k: Key, v: Val, n: nat, tie: Tie)
    requires Shape(t, 0) && t.Leaf?
    ensures var m := Made(t, 0, k, v, n, tie);
      && m.Leaf? && Shape(m, 0) && Listed(Pairs(t.keys, t.vals), Pairs(m.keys, m.vals), k, v, LeafSaved(t, 0, k, v, n, tie))
  {
    hide Made, LeafSaved, LeafInsert, Pairs;
    MadeOfLeaf(t, k, v, n, tie);
    LeafPuts(t, k, v);
  }

  lemma LeftMadeLists(l: Tree, r: Tree, k: Key, v: Val, n: nat, tie: Tie)
    requires Shape(l, 0) && Shape(r, 0) && l.Leaf? && r.Leaf?
    ensures LeafRun([Made(l, 0, k, v, n, tie), r])
    ensures Listed(Pairs(l.keys, l.vals) + Pairs(r.keys, r.vals), Scan([Made(l, 0, k, v, n, tie), r]), k, v, LeafSaved(l, 0, k, v, n, tie))
  {
    hide Made, LeafSaved, Pairs, Listed, Scan;
    MadeLists(l, k, v, n, tie);
    var m := Made(l, 0, k, v, n, tie);
    ScanTwo(m, r);
    var (a, b, c) := (Pairs(l.keys, l.vals), Pairs(m.keys, m.vals), Pairs(r.keys, r.vals));
    ListedBetween([], a, b, c, k, v, LeafSaved(l, 0, k, v, n, tie));
    assert [] + a == a && [] + b == b;
  }

  lemma RightMadeLists(l: Tree, r: Tree, k: Key, v: Val, n: nat, tie: Tie)
    requires Shape(l, 0) && Shape(r, 0) && l.Leaf? && r.Leaf?
    ensures LeafRun([l, Made(r, 0, k, v, n, tie)])
    ensures Listed(Pairs(l.keys, l.vals) + Pairs(r.keys, r.vals), Scan([l, Made(r, 0, k, v, n, tie)]), k, v, LeafSaved(r, 0, k, v, n, tie))
  {
    hide Made, LeafSaved, Pairs, Listed, Scan;
    MadeLists(r, k, v, n, tie);
    var m := Made(r, 0, k, v, n, tie);
    ScanTwo(l, m);
    var (a, b, c) := (Pairs(l.keys, l.vals), Pairs(r.keys, r.vals), Pairs(m.keys, m.vals));
    ListedBetween(a, b, c, [], k, v, LeafSaved(r, 0, k, v, n, tie));
    assert a + b + [] == a + b && a + c + [] == a + c;
  }

  /** The new leaves list what the old one did, with the entry put in if it was saved. */
  lemma {:induction false} NewLeavesList(t: Tree, h: nat, k: Key, v: Val, n: nat, tie: Tie)
    requires Shape(t, h)
    ensures var (u, news) := (Touched(t, h, k, n, tie), NewLeaves(t, h, k, v, n, tie));
      && u.Leaf? && Shape(u, 0) && LeafRun(news)
      && Listed(Pairs(u.keys, u.vals), Scan(news), k, v, LeafSaved(t, h, k, v, n, tie))
    decreases h
  {
    hide Split, SplitKid, Descend, Size, LeafInsert, Pairs, Listed, Scan, Made;
    if t.Branch? {
      DescendsInto(t, h, k, n, tie);
      var (t1, j, n1) := Descend(t, h, k, n, tie);
      var i := Route(t.keys, k);
      var c := t.kids[i];
      if Full(c) && c.Leaf? {
        HalvesList(c, n);
        if j == i {
          LeftMadeLists(Split(c, n).0, Split(c, n).2, k, v, n1, tie);
        } else {
          RightMadeLists(Split(c, n).0, Split(c, n).2, k, v, n1, tie);
        }
      } else {
        NewLeavesList(t1.kids[j], h - 1, k, v, n1, tie);
      }
    } else {
      MadeLists(t, k, v, n, tie);
      ScanOne(Made(t, h, k, v, n, tie));
    }
  }

  /** The entries a chain lists. */
  ghost function Listing(ls: seq<Tree>): seq<(Key, Val)> {
    if LeafRun(ls) then Scan(ls) else []
  }

  lemma ScanSplice(ls: seq<Tree>, p: nat, news: seq<Tree>)
    requires LeafRun(ls) && LeafRun(news) && p < |ls|
    ensures LeafRun(ls[..p]) && LeafRun(ls[p + 1..]) && LeafRun(Splice(ls, p, news))
    ensures Scan(ls) == Scan(ls[..p]) + Pairs(ls[p].keys, ls[p].vals) + Scan(ls[p + 1..])
    ensures Scan(Splice(ls, p, news)) == Scan(ls[..p]) + Scan(news) + Scan(ls[p + 1..])
  {
    hide Pairs, Scan;
    var (a, c) := (ls[..p], ls[p + 1..]);
    ScanOne(ls[p]);
    assert ls == a + [ls[p]] + c;
    ScanConcat(a, [ls[p]]);
    ScanConcat(a + [ls[p]], c);
    ScanConcat(a, news);
    ScanConcat(a + news, c);
  }

  lemma NextListing(ls: seq<Tree>, t: Tree, h: nat, k: Key, v: Val, n: nat, tie: Tie)
    requires Shape(t, h) && ChainOf(ls, t, n)
    ensures Listed(Listing(ls), Listing(NextChain(ls, t, h, k, v, n, tie)), k, v, LeafSaved(t, h, k, v, n, tie))
  {
    hide Pairs, Scan, Touched, NewLeaves, Listed, LeafSaved, IsChain, Covers;
    var (u, news) := (Touched(t, h, k, n, tie), NewLeaves(t, h, k, v, n, tie));
    TouchedInChain(ls, t, h, k, n, tie);
    var p := Place(ls, u);
    NewLeavesList(t, h, k, v, n, tie);
    ScanSplice(ls, p, news);
    ListedBetween(Scan(ls[..p]), Pairs(u.keys, u.vals), Scan(news), Scan(ls[p + 1..]), k, v, LeafSaved(t, h, k, v, n, tie));
  }

  lemma GrownListing(ls: seq<Tree>, t: Tree, h: nat, n: nat)
    requires Shape(t, h) && Full(t) && ChainOf(ls, t, n)
    ensures Listing(GrownChain(ls, t, h, n)) == Listing(ls)
  {
    hide Pairs, Scan, Split, Size;
    if t.Leaf? {
      GrownKids(t, h, n);
      var moved := Moved(t, n);
      HalvesList(moved, n + 1);
      ScanTwo(Split(moved, n + 1).0, Split(moved, n + 1).2);
      ScanOne(t);
    }
  }

  /**
   * An attempt changes the listing by one entry under its own key, put in or
   * given the new value, if the leaf was saved, and not at all otherwise.
   */
  lemma InsertListing(ls: seq<Tree>, t: Tree, h: nat, k: Key, v: Val, n: nat, tie: Tie)
    requires Chainable(ls, t, h, n)
    ensures Listed(Listing(ls), Listing(InsertChain(ls, t, h, k, v, n, tie)), k, v, LeafSavedAtInsert(t, h, k, v, n, tie))
  {
    hide Listing, NextChain, LeafSaved, Listed, GrowRoot, GrownChain, ChainOf, Shape, Proper, Ids;
    if Full(t) {
      GrownChainable(ls, t, h, n);
      GrownListing(ls, t, h, n);
      NextListing(GrownChain(ls, t, h, n), GrowRoot(t, h, n), h + 1, k, v, n + 2, tie);
    } else {
      NextListing(ls, t, h, k, v, n, tie);
    }
  }

  /** Entries of other keys stay, and a key once listed stays listed. */
  lemma ListedKeeps(ps: seq<(Key, Val)>, ps': seq<(Key, Val)>, k: Key, v: Val, saved: bool, q: Key, w: Val)
    requires Listed(ps, ps', k, v, saved)
    ensures q != k ==> ((q, w) in ps' <==> (q, w) in ps)
    ensures Lists(ps', q) <==> Lists(ps, q) || (saved && q == k)
    ensures (q, w) in ps' ==> (q, w) in ps || (q, w) == (k, v)
  {
    hide Listed, Lists;
    ListedMember(ps, ps', k, v, saved, (q, w));
    if Lists(ps', q) {
      var u := ListedValue(ps', q);
      ListedMember(ps, ps', k, v, saved, (q, u));
      MemberIsListed(ps, q, u);
    }
    if Lists(ps, q) {
      var u := ListedValue(ps, q);
      ListedMember(ps, ps', k, v, saved, (q, u));
      MemberIsListed(ps', q, u);
    }
    if saved {
      ListedMember(ps, ps', k, v, saved, (k, v));
      MemberIsListed(ps', k, v);
    }
  }

  lemma MemberIsListed(ps: seq<(Key, Val)>, q: Key, u: Val)
    ensures (q, u) in ps ==> Lists(ps, q)
  {
    if (q, u) in ps {
      var i :| 0 <= i < |ps| && ps[i] == (q, u);
    }
  }

  lemma ListedValue(ps: seq<(Key, Val)>, q: Key) returns (u: Val)
    requires Lists(ps, q)
    ensures (q, u) in ps
  {
    var i :| 0 <= i < |ps| && ps[i].0 == q;
    u := ps[i].1;
  }

  lemma PutInMember(ps: seq<(Key, Val)>, i: nat, p: (Key, Val), e: (Key, Val))
    requires i <= |ps|
    ensures p in ps[..i] + [e] + ps[i..] <==> p in ps || p == e
  {
    assert ps == ps[..i] + ps[i..];
  }

  lemma OverwrittenMember(ps: seq<(Key, Val)>, i: nat, p: (Key, Val), e: (Key, Val))
    requires i < |ps| && ps[i].0 == e.0
    ensures p in ps[i := e] ==> p in ps || p == e
    ensures e in ps[i := e] && (p in ps && p.0 != e.0 ==> p in ps[i := e])
  {
    assert ps[i := e][i] == e;
    if p in ps && p.0 != e.0 {
      var o :| 0 <= o < |ps| && ps[o] == p;
      assert ps[i := e][o] == p;
    }
  }

  lemma ListedMember(ps: seq<(Key, Val)>, ps': seq<(Key, Val)>, k: Key, v: Val, saved: bool, p: (Key, Val))
    requires Listed(ps, ps', k, v, saved)
    ensures p.0 != k ==> (p in ps' <==> p in ps)
    ensures p in ps' ==> p in ps || (saved && p == (k, v))
    ensures (saved ==> (k, v) in ps') && (!saved ==> ps' == ps)
  {
    if saved {
      var i :| 0 <= i <= |ps| && PutsAt(ps, ps', k, v, i);
      if ps' == ps[..i] + [(k, v)] + ps[i..] {
        PutInMember(ps, i, p, (k, v));
        PutInMember(ps, i, (k, v), (k, v));
      } else {
        OverwrittenMember(ps, i, p, (k, v));
      }
    }
  }

  // -------------------------------------------------- the chain and search

  lemma {:induction false} ScanHas(ls: seq<Tree>, i: nat, j: nat)
    requires LeafRun(ls) && i < |ls| && j < |ls[i].keys|
    ensures (ls[i].keys[j], ls[i].vals[j]) in Scan(ls)
  {
    hide Pairs;
    var first := Pairs(ls[0].keys, ls[0].vals);
    if i == 0 {
      assert first[j] == (ls[0].keys[j], ls[0].vals[j]);
    } else {
      ScanHas(ls[1..], i - 1, j);
    }
  }

  lemma {:induction false} LookupLeaf(t: Tree, h: nat, q: Key) returns (x: Tree, j: nat)
    requires Shape(t, h) && Lookup(t, q).Some?
    ensures LeafIn(t, x) && Shape(x, 0) && x.Leaf? && j < |x.keys| && x.keys[j] == q && Lookup(t, q) == Some(x.vals[j])
    decreases h
  {
    hide LowerBound, Route;
    if t.Leaf? {
      x, j := t, LowerBound(t.keys, q);
    } else {
      x, j := LookupLeaf(t.kids[Route(t.keys, q)], h - 1, q);
    }
  }

  /** What search finds is listed. */
  lemma FoundIsListed(ls: seq<Tree>, t: Tree, h: nat, n: nat, q: Key)
    requires Shape(t, h) && ChainOf(ls, t, n) && Lookup(t, q).Some?
    ensures (q, Lookup(t, q).value) in Listing(ls)
  {
    hide Scan, Lookup;
    var x, j := LookupLeaf(t, h, q);
    assert x in ls;
    var i :| 0 <= i < |ls| && ls[i] == x;
    ScanHas(ls, i, j);
  }

  /** Without dead copies, a key that a failed insertion cuts off is not found any more, but its entry is still listed. */
  lemma CutOffStaysListed(ls: seq<Tree>, t: Tree, h: nat, k: Key, v: Val, n: nat, tie: Tie, q: Key)
    requires Chainable(ls, t, h, n) && Ranged(t, Strict) && !MeetsClashAtInsert(t, h, k, n, tie)
    requires CutAtInsert(t, h, k, v, n, tie, q) && q != k && Lookup(t, q).Some?
    ensures Lookup(AttemptInsert(t, h, k, v, n, tie).tree, q) == None
    ensures (q, Lookup(t, q).value) in Listing(InsertChain(ls, t, h, k, v, n, tie))
  {
    hide Listing, AttemptInsert, InsertChain, CutAtInsert, Lookup, Ranged, Shape, ChainOf, Proper, Ids;
    FailureLosesRightHalves(t, h, k, v, n, tie, q);
    FoundIsListed(ls, t, h, n, q);
    InsertListing(ls, t, h, k, v, n, tie);
    ListedKeeps(Listing(ls), Listing(InsertChain(ls, t, h, k, v, n, tie)), k, v, LeafSavedAtInsert(t, h, k, v, n, tie), q, Lookup(t, q).value);
  }

  // --------------------------------------------------- as long as it is whole

  lemma {:induction false} LeavesAreIn(t: Tree, x: Tree)
    ensures x in Leaves(t) <==> LeafIn(t, x)
    decreases t, 1
  {
    if t.Branch? {
      LeavesOfAreIn(t.kids, x);
    }
  }

  lemma {:induction false} LeavesOfAreIn(kids: seq<Tree>, x: Tree)
    ensures x in LeavesOf(kids) <==> exists i :: 0 <= i < |kids| && LeafIn(kids[i], x)
    decreases kids, 0
  {
    hide LeafIn;
    if kids != [] {
      LeavesAreIn(kids[0], x);
      LeavesOfAreIn(kids[1..], x);
      if i :| 0 <= i < |kids| && LeafIn(kids[i], x) {
        assert i > 0 ==> kids[1..][i - 1] == kids[i];
      }
    }
  }

  lemma {:induction false} SameChain(a: seq<Tree>, b: seq<Tree>, i: nat)
    requires IsChain(a, None) && IsChain(b, None) && a != [] && b != [] && a[0].id == b[0].id
    requires forall x, y :: x in a && y in b && x.id == y.id ==> x == y
    requires i < |a|
    ensures i < |b| && a[i] == b[i] && (i + 1 == |a| <==> i + 1 == |b|)
  {
    if i > 0 {
      SameChain(a, b, i - 1);
      assert LinksOn(a, i - 1, None) && LinksOn(b, i - 1, None);
    }
    assert LinksOn(a, i, None) && LinksOn(b, i, None);
    assert a[i] in a && b[i] in b;
  }

  /** While the tree reaches every page and its leaves are linked in order, the chain is its leaves. */
  lemma WholeChainIsLeaves(ls: seq<Tree>, t: Tree, h: nat, n: nat)
    requires Chainable(ls, t, h, n) && Chained(t, None) && Ids(t) == Range(0, n)
    ensures ls == Leaves(t)
  {
    hide LeafIn, Ids, Shape, Chained, Leaves, IsChain, Proper;
    ChainIsInOrder(t, h, None);
    forall x, y | x in ls && y in Leaves(t) && x.id == y.id
      ensures x == y
    {
      LeavesAreIn(t, y);
      LeafUnique(t, x, y);
    }
    var b := Leaves(t);
    forall i | 0 <= i < |ls|
      ensures i < |b| && ls[i] == b[i] && (i + 1 == |ls| <==> i + 1 == |b|)
    {
      SameChain(ls, b, i);
    }
    SameChain(ls, b, |ls| - 1);
    assert forall i :: 0 <= i < |ls| ==> ls[i] == b[i];
  }

  lemma {:induction false} LeafUnique(t: Tree, x: Tree, y: Tree)
    requires Proper(t) && LeafIn(t, x) && LeafIn(t, y) && x.id == y.id
    ensures x == y
  {
    if t.Branch? {
      hide LeafIn, Proper;
      var i := LeafHasKid(t, x);
      var j := LeafHasKid(t, y);
      LeafKidUnique(t, i, j, x, y);
      KidProper(t, i);
      LeafUnique(t.kids[i], x, y);
    }
  }

  // ----------------------------------------------------------- whole runs

  /** The chain after a run of attempts. */
  ghost function ChainAfter(r: Run, tie: Tie): (ls: seq<Tree>)
    ensures var s := Drained(r, tie); Chainable(ls, s.tree, s.height, s.pages)
  {
    match r
    case Start =>
      EmptyIsChainable();
      [EMPTY_STORE.tree]
    case Then(before, k, v) =>
      var s := Drained(before, tie);
      InsertKeepsChain(ChainAfter(before, tie), s.tree, s.height, k, v, s.pages, tie);
      InsertChain(ChainAfter(before, tie), s.tree, s.height, k, v, s.pages, tie)
  }

  lemma EmptyIsChainable()
    ensures Chainable([EMPTY_STORE.tree], EMPTY_STORE.tree, EMPTY_STORE.height, EMPTY_STORE.pages)
  {
  }

  /** Some attempt of the run put an entry under the key into a leaf that was saved. */
  ghost predicate EverSaved(r: Run, tie: Tie, q: Key) {
    r.Then? &&
    var s := Drained(r.before, tie);
    EverSaved(r.before, tie, q) || (q == r.key && LeafSavedAtInsert(s.tree, s.height, r.key, r.val, s.pages, tie))
  }

  /** After any run of attempts, a key is listed if and only if one of its leaves was ever saved. No failure takes a key out. */
  lemma {:induction false} ListedForever(r: Run, tie: Tie, q: Key)
    ensures Lists(Listing(ChainAfter(r, tie)), q) <==> EverSaved(r, tie, q)
  {
    hide Lists, Listing;
    match r
    case Start =>
      EmptyListsNothing(q);
    case Then(before, k, v) =>
      hide Chainable, InsertChain, LeafSavedAtInsert, AttemptInsert;
      ListedForever(before, tie, q);
      var s := Drained(before, tie);
      var ls := ChainAfter(before, tie);
      InsertListing(ls, s.tree, s.height, k, v, s.pages, tie);
      ListedKeeps(Listing(ls), Listing(ChainAfter(r, tie)), k, v, LeafSavedAtInsert(s.tree, s.height, k, v, s.pages, tie), q, []);
  }

  lemma EmptyListsNothing(q: Key)
    ensures !Lists(Listing([EMPTY_STORE.tree]), q)
  {
    ScanOne(EMPTY_STORE.tree);
  }

  /** While everything fits and no split clashes, the chain lists what search answers if and only if no dead copy was made. */
  lemma FittingScanIff(r: Run, tie: Tie)
    requires AllFit(r, tie) && NeverClashes(r, tie)
    ensures var t := Drained(r, tie).tree;
      && t == Apply(r, tie).tree && ChainAfter(r, tie) == Leaves(t)
      && (ScansTo(t, Listing(ChainAfter(r, tie))) <==> Ordered(t, Strict))
  {
    hide Drained, Apply, AllFit, NeverClashes, ChainAfter, ScansTo, Ordered, Chained, Ids, Proper, ChainOf, Shape, Leaves;
    DrainedIsApply(r, tie);
    RunsAreLaid(r, tie);
    RunsKeep(r, tie);
    var s := Apply(r, tie);
    WholeChainIsLeaves(ChainAfter(r, tie), s.tree, s.height, s.pages);
    ScanIsContentsIff(s.tree, s.height);
  }
}
