/** Trees in files: each node in its own page, and what writing pages leaves of them. */
module TreeStores {
  import opened Keys
  import opened Limits
  import opened Codec
  import opened Pagers
  import opened Trees
  import opened TreePages
  import opened TreeFit
  import opened TreeRuns
  import opened TreeFailure
  import opened NodePages

  /** Only the pages of ids, and new pages, may differ. */
  ghost predicate OnlyTouches(f: seq<Bytes>, f': seq<Bytes>, ids: set<nat>) {
    |f| <= |f'| && forall x :: 0 <= x < |f| && x !in ids ==> f'[x] == f[x]
  }

  lemma KidIdsInside(t: Tree, i: nat)
    requires t.Branch? && i < |t.kids|
    ensures Ids(t.kids[i]) <= Ids(t)
  {
    forall x | x in Ids(t.kids[i])
      ensures x in Ids(t)
    {
      InIds(t, i, x);
    }
  }

  /** Both halves are stored once their two pages are; the subtrees moved along stay where they are. */
  lemma HalvesStored(f: seq<Bytes>, f': seq<Bytes>, crc: Checksum, c: Tree, n: nat)
    requires Splittable(c) && Proper(c) && StoredBelow(f, crc, c) && OnlyTouches(f, f', {c.id})
    requires var (l, m, r) := Split(c, n);
      Holds(f', crc, l.id, NodeOf(l)) && Holds(f', crc, n, NodeOf(r))
    ensures Stored(f', crc, Split(c, n).0) && Stored(f', crc, Split(c, n).2)
  {
    hide Holds, NodeOf, Ids;
    var (l, m, r) := Split(c, n);
    if c.Branch? {
      forall a | 0 <= a < |c.kids|
        ensures Stored(f', crc, c.kids[a])
      {
        StoredFrame(f, f', crc, c.kids[a]);
      }
      assert forall a :: 0 <= a < |l.kids| ==> l.kids[a] == c.kids[a];
      assert forall a :: 0 <= a < |r.kids| ==> r.kids[a] == c.kids[|c.keys| / 2 + 1 + a];
    }
  }

  /** A subtree is not affected by writing pages of another one. */
  lemma SiblingStored(f: seq<Bytes>, f': seq<Bytes>, crc: Checksum, t: Tree, i: nat, o: nat)
    requires t.Branch? && i < |t.kids| && o < |t.kids| && o != i
    requires Proper(t) && StoredBelow(f, crc, t) && OnlyTouches(f, f', Ids(t.kids[i]))
    ensures Stored(f', crc, t.kids[o])
  {
    hide Holds, NodeOf, Ids, Stored;
    assert if o < i then Ids(t.kids[o]) !! Ids(t.kids[i]) else Ids(t.kids[i]) !! Ids(t.kids[o]);
    StoredFrame(f, f', crc, t.kids[o]);
  }

  lemma PartedStored(f: seq<Bytes>, crc: Checksum, t: Tree, i: nat, n: nat)
    requires t.Branch? && |t.kids| == |t.keys| + 1 && i < |t.kids| && Splittable(t.kids[i])
    requires Stored(f, crc, Split(t.kids[i], n).0) && Stored(f, crc, Split(t.kids[i], n).2)
    requires forall o :: 0 <= o < |t.kids| && o != i ==> Stored(f, crc, t.kids[o])
    ensures StoredBelow(f, crc, SplitKid(t, i, n))
  {
    var t1 := SplitKid(t, i, n);
    forall j | 0 <= j < |t1.kids|
      ensures Stored(f, crc, t1.kids[j])
    {
      SplitKidAt(t, i, n, j);
    }
  }

  /** Saving the halves of child i leaves everything below the parent stored. */
  lemma SplitStored(f: seq<Bytes>, f': seq<Bytes>, crc: Checksum, t: Tree, i: nat, n: nat)
    requires t.Branch? && |t.kids| == |t.keys| + 1 && i < |t.kids| && Splittable(t.kids[i])
    requires Proper(t) && StoredBelow(f, crc, t) && OnlyTouches(f, f', {t.kids[i].id})
    requires Holds(f', crc, t.kids[i].id, NodeOf(Split(t.kids[i], n).0))
    requires Holds(f', crc, n, NodeOf(Split(t.kids[i], n).2))
    ensures StoredBelow(f', crc, SplitKid(t, i, n))
  {
    hide Holds, NodeOf, Ids, Split, SplitKid;
    SplitPagesAre(t.kids[i], n);
    KidProper(t, i);
    OwnId(t.kids[i]);
    HalvesStored(f, f', crc, t.kids[i], n);
    forall o | 0 <= o < |t.kids| && o != i
      ensures Stored(f', crc, t.kids[o])
    {
      SiblingStored(f, f', crc, t, i, o);
    }
    PartedStored(f', crc, t, i, n);
  }

  /** Replacing one child leaves the others stored. */
  lemma ReplaceStored(f: seq<Bytes>, f': seq<Bytes>, crc: Checksum, t: Tree, j: nat, c: Tree)
    requires t.Branch? && j < |t.kids| && Proper(t) && StoredBelow(f, crc, t)
    requires OnlyTouches(f, f', Ids(t.kids[j])) && Stored(f', crc, c)
    ensures StoredBelow(f', crc, t.(kids := t.kids[j := c]))
  {
    hide Holds, NodeOf, Ids;
    forall o | 0 <= o < |t.kids| && o != j
      ensures Stored(f', crc, t.kids[o])
    {
      SiblingStored(f, f', crc, t, j, o);
    }
  }

  /** Saving the node itself, in its own page, completes a stored tree. */
  lemma SelfStored(f: seq<Bytes>, f': seq<Bytes>, crc: Checksum, t: Tree)
    requires Proper(t) && StoredBelow(f, crc, t)
    requires OnlyTouches(f, f', {t.id}) && Holds(f', crc, t.id, NodeOf(t))
    ensures Stored(f', crc, t)
  {
    if t.Branch? {
      forall i | 0 <= i < |t.kids|
        ensures Stored(f', crc, t.kids[i])
      {
        StoredFrame(f, f', crc, t.kids[i]);
      }
    }
  }

  lemma BlankThenSave(f: seq<Bytes>, blank: Bytes, page: Bytes)
    ensures PutPage(PutPage(f, |f|, blank), |f|, page) == PutPage(f, |f|, page)
  {
    assert PutPage(f, |f|, blank) == f + [blank];
  }

  /** The node an operation works on, as its caller has just read it: stored, fitting, sorted, on existing pages. */
  ghost predicate Entered(f: seq<Bytes>, crc: Checksum, t: Tree, h: nat) {
    && Shape(t, h) && Tidy(t) && Proper(t) && Fits(t) && LinksBelow(t, |f|)
    && Stored(f, crc, t)
    && (forall x :: x in Ids(t) ==> x < |f|)
  }

  lemma EnteredHas(f: seq<Bytes>, crc: Checksum, t: Tree, h: nat)
    requires Entered(f, crc, t, h)
    ensures Shape(t, h) && Tidy(t) && Proper(t) && Fits(t) && LinksBelow(t, |f|) && Stored(f, crc, t)
    ensures forall x :: x in Ids(t) ==> x < |f|
  {
  }

  lemma EnteredFrom(f: seq<Bytes>, crc: Checksum, t: Tree, h: nat)
    requires Shape(t, h) && Tidy(t) && Proper(t) && Fits(t) && LinksBelow(t, |f|) && Stored(f, crc, t)
    requires forall x :: x in Ids(t) ==> x < |f|
    ensures Entered(f, crc, t, h)
  {
  }

  /** The page numbers in a node on existing pages fit their 32 bits. */
  lemma NodeNumbersFit(t: Tree, n: nat)
    requires LinksBelow(t, n) && Size(t) <= NODE_LIMIT && n <= U32_BOUND
    requires forall x :: x in Ids(t) ==> x < n
    ensures Encodable(NodeOf(t))
  {
    hide Ids, Size;
    if t.Branch? {
      forall i | 0 <= i < |t.kids|
        ensures t.kids[i].id < n
      {
        OwnId(t.kids[i]);
        InIds(t, i, t.kids[i].id);
      }
    }
    FittingNodeIsEncodable(t);
  }

  lemma SearchStep(f: seq<Bytes>, crc: Checksum, t: Tree, h: nat, key: Key)
    requires Shape(t, h) && t.Branch? && Tidy(t) && Stored(f, crc, t)
    ensures var c := t.kids[Route(t.keys, key)];
      h > 0 && Shape(c, h - 1) && Tidy(c) && Stored(f, crc, c) && Lookup(t, key) == Lookup(c, key)
  {
  }

  lemma NothingToRedo(f: seq<Bytes>, log: seq<WalEntry>, crc: Checksum)
    ensures Redoes(f, log, f, log, crc)
  {
    assert log[|log|..] == [];
  }

  lemma KidEntered(f: seq<Bytes>, crc: Checksum, t: Tree, h: nat, i: nat)
    requires t.Branch? && Entered(f, crc, t, h) && i < |t.kids|
    ensures h > 0 && Shape(t.kids[i], h - 1) && Stored(f, crc, t.kids[i])
  {
    assert StoredBelow(f, crc, t);
  }

  lemma DescendIntoFull(t: Tree, h: nat, key: Key, n: nat, tie: Tie)
    requires Shape(t, h) && t.Branch? && Full(t.kids[Route(t.keys, key)])
    ensures var i := Route(t.keys, key);
      && Splittable(t.kids[i])
      && Descend(t, h, key, n, tie) ==
        (SplitKid(t, i, n), if GoesRight(Split(t.kids[i], n).1, key, tie) then i + 1 else i, n + 1)
      && SplitKid(t, i, n).keys[i] == Split(t.kids[i], n).1
  {
    FullIsSplittable(t.kids[Route(t.keys, key)], h - 1);
  }

  lemma DescendIntoRoomy(t: Tree, h: nat, key: Key, n: nat, tie: Tie)
    requires Shape(t, h) && t.Branch? && !Full(t.kids[Route(t.keys, key)])
    ensures Descend(t, h, key, n, tie) == (t, Route(t.keys, key), n)
  {
  }

  lemma MovedStored(f: seq<Bytes>, f': seq<Bytes>, crc: Checksum, t: Tree, n: nat)
    requires Stored(f, crc, t) && OnlyTouches(f, f', {}) && Holds(f', crc, n, NodeOf(t))
    ensures Stored(f', crc, t.(id := n))
  {
    if t.Branch? {
      forall i | 0 <= i < |t.kids|
        ensures Stored(f', crc, t.kids[i])
      {
        StoredFrame(f, f', crc, t.kids[i]);
      }
    }
  }

  /** The fresh root over the moved old one, before it is split. */
  lemma MovedReady(f: seq<Bytes>, crc: Checksum, t: Tree, h: nat, n: nat)
    requires Shape(t, h) && Full(t) && Proper(t) && LinksBelow(t, n) && Fits(t)
    requires forall x :: x in Ids(t) ==> x < n
    requires Stored(f, crc, t.(id := n)) && |f| == n + 1
    ensures var below := Branch(t.id, [], [t.(id := n)]);
      && Shape(below, h + 1) && Splittable(below.kids[0]) && Proper(below) && LinksBelow(below, |f|) && FitsBelow(below)
      && StoredBelow(f, crc, below) && KidIds(below.kids) == [n]
      && forall x :: x in Ids(below) ==> x < |f|
  {
    hide Holds, NodeOf, Ids;
    FullIsSplittable(t, h);
    MovedPages(t, n);
    MovedFits(t, n);
    LinksGrow(t, n, n + 1);
    MovedLinks(t, n + 1, n);
    PagesGiven(t, Branch(t.id, [], [t.(id := n)]), n, n + 1);
  }

  lemma MovedLinks(t: Tree, n: nat, id: nat)
    requires LinksBelow(t, n)
    ensures LinksBelow(t.(id := id), n)
  {
  }

  lemma GrownTidy(t: Tree, h: nat, n: nat)
    requires Shape(t, h) && Full(t) && Tidy(t)
    ensures Tidy(GrowRoot(t, h, n))
  {
    FullIsSplittable(t, h);
    var moved := t.(id := n);
    assert Tidy(moved);
    SplitTidy(moved, n + 1);
    var (l, m, r) := Split(moved, n + 1);
    var g := GrowRoot(t, h, n);
    assert g.keys == [m] && g.kids == [l, r];
  }

  /** The new root over the split old one, as an insertion expects it once it is saved. */
  lemma GrownReady(t: Tree, h: nat, n: nat)
    requires Shape(t, h) && Full(t) && Tidy(t) && Fits(t)
    requires Proper(t) && LinksBelow(t, n) && n + 2 < U32_BOUND
    requires forall x :: x in Ids(t) ==> x < n
    ensures var g := GrowRoot(t, h, n);
      && g.id == t.id && Tidy(g) && Fits(g) && Proper(g) && LinksBelow(g, n + 2) && |WriteNode(NodeOf(g))| == Size(g)
      && Encodable(NodeOf(g)) && (forall x :: x in Ids(g) ==> x < n + 2)
  {
    hide GrowRoot, Tidy, Proper, LinksBelow, Size, NodeOf, Ids;
    var g := GrowRoot(t, h, n);
    GrownTidy(t, h, n);
    GrownFits(t, h, n);
    GrowRootPages(t, h, n);
    PagesGiven(t, g, n, n + 2);
    GrownLinks(t, h, n);
    EncodedSize(g);
    NodeNumbersFit(g, n + 2);
  }

  lemma DescendTidy(t: Tree, h: nat, key: Key, n: nat, tie: Tie)
    requires Shape(t, h) && t.Branch? && Tidy(t)
    ensures var (t1, j, n1) := Descend(t, h, key, n, tie); Tidy(t1.kids[j])
  {
    var i := Route(t.keys, key);
    if Full(t.kids[i]) {
      DescendIntoFull(t, h, key, n, tie);
      SplitTidy(t.kids[i], n);
      SplitKidAt(t, i, n, Descend(t, h, key, n, tie).1);
    }
  }

  lemma DescendLinks(t: Tree, h: nat, key: Key, n: nat, tie: Tie)
    requires Shape(t, h) && t.Branch? && LinksBelow(t, n)
    ensures var (t1, j, n1) := Descend(t, h, key, n, tie); LinksBelow(t1, n1)
  {
    hide Split, SplitKid, GoesRight;
    var i := Route(t.keys, key);
    if Full(t.kids[i]) {
      FullIsSplittable(t.kids[i], h - 1);
      LinksGrow(t, n, n + 1);
      SplitKidLinks(t, i, n);
    }
  }

  /** A child below a node in memory is as an insertion expects it. */
  lemma ChildEntered(f: seq<Bytes>, crc: Checksum, t: Tree, h: nat, j: nat)
    requires Shape(t, h) && t.Branch? && j < |t.kids| && Tidy(t.kids[j]) && Proper(t) && LinksBelow(t, |f|)
    requires FitsBelow(t) && StoredBelow(f, crc, t)
    requires forall x :: x in Ids(t) ==> x < |f|
    ensures Entered(f, crc, t.kids[j], h - 1)
  {
    hide Ids, Holds, NodeOf;
    KidIdsBelow(t, j, |f|);
    KidProper(t, j);
  }

  /** After making room, the child to enter is as an insertion expects it. */
  lemma RoomMade(f0: seq<Bytes>, f1: seq<Bytes>, crc: Checksum, t: Tree, h: nat, key: Key, tie: Tie)
    requires t.Branch? && Entered(f0, crc, t, h)
    requires |f1| == Descend(t, h, key, |f0|, tie).2 && StoredBelow(f1, crc, Descend(t, h, key, |f0|, tie).0)
    ensures var (t1, j, n1) := Descend(t, h, key, |f0|, tie);
      && n1 <= |f0| + 1 && UsesPages(t, t1, |f0|, n1) && Proper(t1) && FitsBelow(t1)
      && (forall x :: x in Ids(t1) ==> x < |f1|)
      && Entered(f1, crc, t1.kids[j], h - 1)
  {
    hide Descend, Ids, Holds, NodeOf, Stored, StoredBelow, Tidy, Proper, LinksBelow, Size;
    var n := |f0|;
    DescendPages(t, h, key, n, tie);
    DescendTidy(t, h, key, n, tie);
    DescendFitsIff(t, h, key, n, tie);
    DescendLinks(t, h, key, n, tie);
    var (t1, j, n1) := Descend(t, h, key, n, tie);
    PagesGiven(t, t1, n, n1);
    ChildEntered(f1, crc, t1, h, j);
  }

  lemma TouchesThen(f0: seq<Bytes>, f1: seq<Bytes>, f2: seq<Bytes>, a: set<nat>, b: set<nat>)
    requires OnlyTouches(f0, f1, a) && OnlyTouches(f1, f2, b)
    requires forall x :: x in b && x < |f0| ==> x in a
    ensures OnlyTouches(f0, f2, a)
  {
  }

  /** Replacing a child by one in the same page changes no page number. */
  lemma SameNode(t: Tree, i: nat, c: Tree)
    requires t.Branch? && i < |t.kids| && c.id == t.kids[i].id
    ensures NodeOf(t.(kids := t.kids[i := c])) == NodeOf(t)
  {
    assert KidIds(t.kids[i := c]) == KidIds(t.kids);
  }

  /** After the recursive insertion: the node with its new child, still to be saved, has the page and the bytes it had. */
  lemma ChildReplaced(t: Tree, i: nat, c: Tree, n: nat, n': nat)
    requires t.Branch? && i < |t.kids| && Proper(t) && UsesAtMost(t.kids[i], c, n, n')
    requires forall x :: x in Ids(t) ==> x < n
    requires n' <= U32_BOUND
    ensures var t' := t.(kids := t.kids[i := c]);
      && t.id < n && t'.id == t.id && Proper(t') && NodeOf(t') == NodeOf(t) && |WriteNode(NodeOf(t))| == Size(t') == Size(t)
      && (Size(t') <= NODE_LIMIT ==> Encodable(NodeOf(t)))
  {
    hide Ids, NodeOf, Proper, SumLen;
    var t' := t.(kids := t.kids[i := c]);
    OwnId(t);
    ReplaceKidUses(t, i, c, n, n');
    SameNode(t, i, c);
    EncodedSize(t');
    if Size(t') <= NODE_LIMIT {
      BranchNumbersFit(t, n);
    }
  }

  lemma BranchNumbersFit(t: Tree, n: nat)
    requires t.Branch? && Size(t) <= NODE_LIMIT && n <= U32_BOUND
    requires forall x :: x in Ids(t) ==> x < n
    ensures Encodable(NodeOf(t))
  {
    hide Ids, Size;
    forall i | 0 <= i < |t.kids|
      ensures t.kids[i].id < n
    {
      OwnId(t.kids[i]);
      InIds(t, i, t.kids[i].id);
    }
    FittingNodeIsEncodable(t);
  }

  /**
   * After a failure: the node's own page was never written, one child was, and
   * a right half that was cut off is in no stored node's list of children.
   */
  lemma UnsavedStored(f0: seq<Bytes>, f1: seq<Bytes>, f2: seq<Bytes>, crc: Checksum, t: Tree, h: nat, key: Key, tie: Tie, c: Tree)
    requires t.Branch? && Entered(f0, crc, t, h)
    requires var (t1, j, n1) := Descend(t, h, key, |f0|, tie);
      && StoredBelow(f1, crc, t1) && OnlyTouches(f0, f1, {t.kids[Route(t.keys, key)].id})
      && OnlyTouches(f1, f2, Ids(t1.kids[j])) && Stored(f2, crc, c) && c.id == t1.kids[j].id
      && UsesPages(t, t1, |f0|, n1) && n1 == |f1|
    ensures var (t1, j, n1) := Descend(t, h, key, |f0|, tie);
      var i := Route(t.keys, key);
      && (j != i ==> Splittable(t.kids[i]))
      && Stored(f2, crc, Unsaved(t, i, |f0|, j, c)) && OnlyTouches(f0, f2, Ids(t.kids[i]))
  {
    hide Descend, Ids, Holds, NodeOf, Tidy, Proper, LinksBelow, Size, Split, SplitKid, Stored, StoredBelow, UsesPages;
    var n := |f0|;
    DescendsInto(t, h, key, n, tie);
    var (t1, j, n1) := Descend(t, h, key, n, tie);
    var i := Route(t.keys, key);
    OwnId(t.kids[i]);
    EnteredKidWithin(f0, f1, crc, t, h, key, tie);
    TouchesBoth(f0, f1, f2, t.kids[i].id, Ids(t1.kids[j]), Ids(t.kids[i]));
    var c' := if j == i then c else Split(t.kids[i], n).0;
    if j != i {
      KidProper(t, i);
      KidIdsBelow(t, i, n);
      LeftHalfStays(f1, f2, crc, t, i, n, t1);
      SplitPagesAre(t.kids[i], n);
    } else if Full(t.kids[i]) {
      SplitPagesAre(t.kids[i], n);
    }
    OwnPageUntouched(f0, f2, crc, t, h, i, c');
  }

  /** The pages of the child entered are old ones of the routed child, or new. */
  lemma EnteredKidWithin(f0: seq<Bytes>, f1: seq<Bytes>, crc: Checksum, t: Tree, h: nat, key: Key, tie: Tie)
    requires t.Branch? && Entered(f0, crc, t, h)
    ensures var (t1, j, n1) := Descend(t, h, key, |f0|, tie);
      forall x :: x in Ids(t1.kids[j]) && x < |f0| ==> x in Ids(t.kids[Route(t.keys, key)])
  {
    hide Descend, Ids, Holds, NodeOf, Tidy, LinksBelow, Size, Split, SplitKid, Stored, StoredBelow;
    var n := |f0|;
    DescendsInto(t, h, key, n, tie);
    var i := Route(t.keys, key);
    if Full(t.kids[i]) {
      KidProper(t, i);
      KidIdsBelow(t, i, n);
      SplitPages(t.kids[i], n);
    }
  }

  lemma TouchesBoth(f0: seq<Bytes>, f1: seq<Bytes>, f2: seq<Bytes>, id: nat, b: set<nat>, a: set<nat>)
    requires OnlyTouches(f0, f1, {id}) && OnlyTouches(f1, f2, b) && id in a
    requires forall x :: x in b && x < |f0| ==> x in a
    ensures OnlyTouches(f0, f2, a)
  {
  }

  /** What is written below the right half does not touch the left half. */
  lemma LeftHalfStays(f1: seq<Bytes>, f2: seq<Bytes>, crc: Checksum, t: Tree, i: nat, n: nat, t1: Tree)
    requires t.Branch? && |t.kids| == |t.keys| + 1 && i < |t.kids| && Splittable(t.kids[i]) && t1 == SplitKid(t, i, n)
    requires StoredBelow(f1, crc, t1) && Proper(t.kids[i]) && n !in Ids(t.kids[i])
    requires OnlyTouches(f1, f2, Ids(Split(t.kids[i], n).2))
    ensures Stored(f2, crc, Split(t.kids[i], n).0)
  {
    hide Ids, Holds, NodeOf, Proper, Split, SplitKid, Stored;
    SplitPages(t.kids[i], n);
    SplitKidAt(t, i, n, i);
    SplitKidNode(t, i, n);
    StoredFrame(f1, f2, crc, Split(t.kids[i], n).0);
  }

  /** A node over a rewritten child in the same page is stored by its own, untouched page. */
  lemma OwnPageUntouched(f: seq<Bytes>, f': seq<Bytes>, crc: Checksum, t: Tree, h: nat, i: nat, c: Tree)
    requires t.Branch? && Entered(f, crc, t, h) && i < |t.kids|
    requires OnlyTouches(f, f', Ids(t.kids[i])) && Stored(f', crc, c) && c.id == t.kids[i].id
    ensures Stored(f', crc, t.(kids := t.kids[i := c]))
  {
    hide NodeOf, Ids;
    OwnId(t);
    SameNode(t, i, c);
    ReplaceStored(f, f', crc, t, i, c);
  }

  /** The parent's node after a split: one key and one child more. */
  lemma SplitNodeIs(t: Tree, i: nat, n: nat)
    requires t.Branch? && |t.kids| == |t.keys| + 1 && i < |t.kids| && Splittable(t.kids[i])
    ensures var parent := NodeOf(t);
      NodeOf(SplitKid(t, i, n)) ==
        parent.(keys := InsertAt(parent.keys, i, Split(t.kids[i], n).1), children := InsertAt(parent.children, i + 1, n))
  {
    var t1 := SplitKid(t, i, n);
    var ids := InsertAt(KidIds(t.kids), i + 1, n);
    forall j | 0 <= j < |ids|
      ensures ids[j] == KidIds(t1.kids)[j]
    {
      SplitKidAt(t, i, n, j);
    }
    assert ids == KidIds(t1.kids);
  }

  lemma HalfNodes(c: Tree, n: nat)
    requires Splittable(c) && c.Branch?
    ensures var (l, m, r) := Split(c, n);
      var mid := |c.keys| / 2;
      KidIds(l.kids) == KidIds(c.kids)[..mid + 1] && KidIds(r.kids) == KidIds(c.kids)[mid + 1..]
  {
  }

  /** Both halves of a stored child fit their pages and carry only numbers below the new file length. */
  lemma HalvesCanBeSaved(t: Tree, i: nat, n: nat)
    requires t.Branch? && i < |t.kids| && Splittable(t.kids[i]) && LinksBelow(t, n)
    requires FitsBelow(t) && Proper(t) && n < U32_BOUND
    requires forall x :: x in Ids(t) ==> x < n
    ensures var (l, m, r) := Split(t.kids[i], n);
      && Encodable(NodeOf(l)) && Encodable(NodeOf(r))
      && |WriteNode(NodeOf(l))| <= NODE_LIMIT && |WriteNode(NodeOf(r))| <= NODE_LIMIT
      && t.kids[i].id < n
  {
    hide Ids, NodeOf, Proper, Split, Size;
    var c := t.kids[i];
    KidIdsBelow(t, i, n);
    KidProper(t, i);
    OwnId(c);
    SplitPages(c, n);
    HalvesFit(c, n);
    LinksGrow(t, n, n + 1);
    HalvesLink(c, n);
    var (l, m, r) := Split(c, n);
    EncodedSize(l);
    EncodedSize(r);
    NodeNumbersFit(l, n + 1);
    NodeNumbersFit(r, n + 1);
  }

  lemma LogOne(f: seq<Bytes>, log: seq<WalEntry>, id: nat, page: Bytes, crc: Checksum)
    requires |page| == PAGE_SIZE
    ensures Redoes(f, log, PutPage(f, id, Seal(page, crc)), log + [PageUpdate(id, page)], crc)
  {
    var one := [PageUpdate(id, page)];
    assert (log + one)[|log|..] == one && one[..0] == [];
    assert page[..PAGE_SIZE] == page;
  }
}
