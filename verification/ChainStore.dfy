/** The leaf chain in a file: each of its leaves in its own page, also those that search cannot reach any more. */
module ChainStores {
  import opened Keys
  import opened Pagers
  import opened Trees
  import opened TreePages
  import opened TreeRuns
  import opened TreeFailure
  import opened TreeLeaves
  import opened TreeChain
  import opened NodePages
  import opened TreeStores

  /** Every leaf of the tree is in its page. */
  ghost predicate LeavesHeld(f: seq<Bytes>, crc: Checksum, t: Tree) {
    forall x :: LeafIn(t, x) ==> Holds(f, crc, x.id, NodeOf(x))
  }

  /** Every leaf of the chain is in its page. */
  ghost predicate ChainHeld(f: seq<Bytes>, crc: Checksum, ls: seq<Tree>) {
    forall x :: x in ls ==> Holds(f, crc, x.id, NodeOf(x))
  }

  lemma {:induction false} StoredLeafHeld(f: seq<Bytes>, crc: Checksum, t: Tree, x: Tree)
    requires Stored(f, crc, t) && LeafIn(t, x)
    ensures Holds(f, crc, x.id, NodeOf(x))
  {
    hide Holds, NodeOf;
    if t.Branch? {
      var i := LeafHasKid(t, x);
      StoredLeafHeld(f, crc, t.kids[i], x);
    }
  }

  lemma StoredLeavesHeld(f: seq<Bytes>, crc: Checksum, t: Tree)
    requires Stored(f, crc, t)
    ensures LeavesHeld(f, crc, t)
  {
    hide Stored, LeafIn, Holds, NodeOf;
    forall x | LeafIn(t, x)
      ensures Holds(f, crc, x.id, NodeOf(x))
    {
      StoredLeafHeld(f, crc, t, x);
    }
  }

  lemma HeldElsewhere(f: seq<Bytes>, f': seq<Bytes>, crc: Checksum, ids: set<nat>, x: Tree)
    requires Holds(f, crc, x.id, NodeOf(x)) && OnlyTouches(f, f', ids) && x.id !in ids
    ensures Holds(f', crc, x.id, NodeOf(x))
  {
  }

  /** Below a node in memory: the child entered has its leaves in place, and no other page was written but the node's own. */
  lemma ReplaceHeld(f: seq<Bytes>, f': seq<Bytes>, crc: Checksum, t: Tree, i: nat, m: Tree)
    requires t.Branch? && i < |t.kids| && Proper(t) && StoredBelow(f, crc, t) && LeavesHeld(f', crc, m)
    requires OnlyTouches(f, f', Ids(t.kids[i]))
    ensures LeavesHeld(f', crc, t.(kids := t.kids[i := m]))
  {
    hide Stored, LeafIn, Holds, NodeOf, Proper, Ids, OnlyTouches;
    var t' := t.(kids := t.kids[i := m]);
    forall x | LeafIn(t', x)
      ensures Holds(f', crc, x.id, NodeOf(x))
    {
      ReplaceLeafIn(t, i, m, x);
      if LeafElsewhere(t, i, x) {
        ElsewhereHeld(f, f', crc, t, i, x);
      }
    }
  }

  lemma ElsewhereHeld(f: seq<Bytes>, f': seq<Bytes>, crc: Checksum, t: Tree, i: nat, x: Tree)
    requires t.Branch? && i < |t.kids| && Proper(t) && StoredBelow(f, crc, t) && LeafElsewhere(t, i, x)
    requires OnlyTouches(f, f', Ids(t.kids[i]))
    ensures Holds(f', crc, x.id, NodeOf(x))
  {
    hide Stored, LeafIn, Holds, NodeOf, Proper, Ids, OnlyTouches;
    var o :| 0 <= o < |t.kids| && o != i && LeafIn(t.kids[o], x);
    assert StoredBelow(f, crc, t);
    StoredLeafHeld(f, crc, t.kids[o], x);
    LeafInIds(t.kids[o], x);
    if x.id in Ids(t.kids[i]) {
      UniqueKid(t, i, o, x.id);
    }
    HeldElsewhere(f, f', crc, Ids(t.kids[i]), x);
  }

  /** Saving the node itself touches no leaf below it. */
  lemma OwnSaveKeepsLeaves(f: seq<Bytes>, f': seq<Bytes>, crc: Checksum, t: Tree)
    requires t.Branch? && Proper(t) && LeavesHeld(f, crc, t) && OnlyTouches(f, f', {t.id})
    ensures LeavesHeld(f', crc, t)
  {
    hide LeafIn, Holds, NodeOf, Proper, OnlyTouches;
    forall x | LeafIn(t, x)
      ensures Holds(f', crc, x.id, NodeOf(x))
    {
      NodeIsNoLeaf(t, x);
      HeldElsewhere(f, f', crc, {t.id}, x);
    }
  }

  /** The node over the child that was entered, as if the child had been saved up to its root. */
  lemma MadeBelow(t: Tree, i: nat, kid: Tree, h: nat, k: Key, v: Val, n: nat, tie: Tie)
    requires t.Branch? && Proper(t) && i < |t.kids| && kid == t.kids[i] && Shape(kid, h)
    requires forall x :: x in Ids(t) ==> x < n
    ensures Proper(t.(kids := t.kids[i := Made(kid, h, k, v, n, tie)]))
  {
    hide Made, Ids, Proper, Shape, Attempt;
    KidIdsBelow(t, i, n);
    KidProper(t, i);
    MadePages(kid, h, k, v, n, tie);
    ReplaceKidPages(t, i, Made(kid, h, k, v, n, tie), n, Attempt(kid, h, k, v, n, tie).pages);
  }

  lemma MadeUnfolds(t: Tree, h: nat, k: Key, v: Val, n: nat, tie: Tie)
    requires Shape(t, h) && t.Branch?
    ensures var (t1, j, n1) := Descend(t, h, k, n, tie);
      && t1.Branch? && j < |t1.kids| && Shape(t1.kids[j], h - 1)
      && Made(t, h, k, v, n, tie) == t1.(kids := t1.kids[j := Made(t1.kids[j], h - 1, k, v, n1, tie)])
  {
    hide Descend;
  }

  lemma LeafMade(t: Tree, k: Key, v: Val, n: nat, tie: Tie)
    requires Shape(t, 0) && t.Leaf?
    ensures Made(t, 0, k, v, n, tie) == Attempt(t, 0, k, v, n, tie).tree
  {
  }

  // ------------------------------------------------------- the whole chain

  ghost predicate ChainStored(f: seq<Bytes>, crc: Checksum, ls: seq<Tree>, t: Tree) {
    ChainOf(ls, t, |f|) && ChainHeld(f, crc, ls)
  }

  lemma EnteredChainable(f: seq<Bytes>, crc: Checksum, ls: seq<Tree>, t: Tree, h: nat)
    requires Entered(f, crc, t, h) && ChainStored(f, crc, ls, t)
    ensures Chainable(ls, t, h, |f|)
  {
  }

  /** Where the leaves of the next chain come from: the old chain, outside the tree, or what was made. */
  lemma NextFrom(ls: seq<Tree>, t: Tree, h: nat, k: Key, v: Val, n: nat, tie: Tie, x: Tree)
    requires Chainable(ls, t, h, n) && x in NextChain(ls, t, h, k, v, n, tie)
    ensures LeafIn(Made(t, h, k, v, n, tie), x) || (x in ls && x.id !in Ids(t))
  {
    hide Made, LeafIn, Ids, Touched, NewLeaves, NextChain, Proper, Shape;
    InNextChain(ls, t, h, k, v, n, tie, x);
    MadeLeaves(t, h, k, v, n, tie, x);
    assert x in ls && x.id in Ids(t) ==> LeafIn(t, x);
  }

  lemma GrownFrom(ls: seq<Tree>, t: Tree, h: nat, n: nat, x: Tree)
    requires Chainable(ls, t, h, n) && Full(t) && x in GrownChain(ls, t, h, n) && x.id !in Ids(GrowRoot(t, h, n))
    ensures x in ls && x.id !in Ids(t)
  {
    hide LeafIn, Ids, GrowRoot, Proper, Shape, Split, IsChain;
    var g := GrowRoot(t, h, n);
    GrowRootPages(t, h, n);
    if t.Leaf? {
      GrownKids(t, h, n);
      HalvesAreLeaves(Moved(t, n), n + 1);
    }
  }

  lemma InsertFrom(ls: seq<Tree>, t: Tree, h: nat, k: Key, v: Val, n: nat, tie: Tie, x: Tree)
    requires Chainable(ls, t, h, n) && x in InsertChain(ls, t, h, k, v, n, tie)
    ensures LeafIn(MadeAtInsert(t, h, k, v, n, tie), x) || (x in ls && x.id !in Ids(t))
  {
    hide Made, LeafIn, Ids, NextChain, GrownChain, Proper, GrowRoot, ChainOf, Shape;
    if Full(t) {
      var g := GrowRoot(t, h, n);
      GrownChainable(ls, t, h, n);
      NextFrom(GrownChain(ls, t, h, n), g, h + 1, k, v, n + 2, tie, x);
      if !LeafIn(Made(g, h + 1, k, v, n + 2, tie), x) {
        GrownFrom(ls, t, h, n, x);
      }
    } else {
      NextFrom(ls, t, h, k, v, n, tie, x);
    }
  }

  /** After an attempt the pages hold the next chain. */
  lemma InsertStoresChain(f: seq<Bytes>, f': seq<Bytes>, crc: Checksum, ls: seq<Tree>, t: Tree, h: nat, k: Key, v: Val, tie: Tie)
    requires Entered(f, crc, t, h) && ChainStored(f, crc, ls, t)
    requires LeavesHeld(f', crc, MadeAtInsert(t, h, k, v, |f|, tie)) && OnlyTouches(f, f', Ids(t))
    requires |f'| == AttemptInsert(t, h, k, v, |f|, tie).pages
    ensures Chainable(ls, t, h, |f|)
    ensures ChainStored(f', crc, InsertChain(ls, t, h, k, v, |f|, tie), AttemptInsert(t, h, k, v, |f|, tie).tree)
  {
    hide MadeAtInsert, LeafIn, Holds, NodeOf, Ids, InsertChain, AttemptInsert, ChainOf, Proper, Entered;
    EnteredChainable(f, crc, ls, t, h);
    InsertKeepsChain(ls, t, h, k, v, |f|, tie);
    var ls' := InsertChain(ls, t, h, k, v, |f|, tie);
    forall x | x in ls'
      ensures Holds(f', crc, x.id, NodeOf(x))
    {
      InsertFrom(ls, t, h, k, v, |f|, tie, x);
      if !LeafIn(MadeAtInsert(t, h, k, v, |f|, tie), x) {
        HeldElsewhere(f, f', crc, Ids(t), x);
      }
    }
  }
}
