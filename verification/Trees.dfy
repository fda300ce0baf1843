/**
 * The B+tree as a value: what the page graph under page 0 unfolds to, and the
 * insertion algorithm on it. Every node carries the page it is stored in.
 */
module Trees {
  import opened Keys
  import opened Limits

  datatype Tree =
    | Leaf(id: nat, keys: seq<Key>, vals: seq<Val>, next: Option<nat>)
    | Branch(id: nat, keys: seq<Key>, kids: seq<Tree>)

  /** Where an equal key goes after a split: the code as written sends it left. */
  datatype Tie = AsWritten | EqualGoesRight

  // ------------------------------------------------------------------ sizes


  /** Length-prefixed byte strings take eight bytes each beside their content. */
  function SumLen(xs: seq<Bytes>): nat {
    if xs == [] then 0 else 8 + |xs[0]| + SumLen(xs[1..])
  }

  /** Serialised size of one node, in bytes. */
  function Size(t: Tree): nat {
    match t
    case Leaf(_, keys, vals, next) => 29 + (if next.Some? then 4 else 0) + SumLen(keys) + SumLen(vals)
    case Branch(_, keys, kids) => 29 + SumLen(keys) + 4 * |kids|
  }

  predicate Full(t: Tree) {
    Size(t) > PAGE_SIZE * 3 / 4
  }

  // ------------------------------------------------------------------ shape

  /** All leaves at depth h, one more child than keys, one value per leaf key. */
  ghost predicate Shape(t: Tree, h: nat) {
    match t
    case Leaf(_, keys, vals, _) => h == 0 && |keys| == |vals|
    case Branch(_, keys, kids) =>
      h > 0 && |kids| == |keys| + 1 && forall i :: 0 <= i < |kids| ==> Shape(kids[i], h - 1)
  }

  /** Every node's own keys are strictly sorted. */
  ghost predicate Tidy(t: Tree) {
    Sorted(t.keys) && (t.Branch? ==> forall i :: 0 <= i < |t.kids| ==> Tidy(t.kids[i]))
  }

  ghost function KeySet(t: Tree): set<Key> {
    match t
    case Leaf(_, keys, _, _) => set x | x in keys
    case Branch(_, _, kids) => set i, x | 0 <= i < |kids| && x in KeySet(kids[i]) :: x
  }

  // -------------------------------------------------------------- operations

  /** The search from a node down to a leaf. */
  function Lookup(t: Tree, q: Key): Option<Val> {
    match t
    case Leaf(_, keys, vals, _) =>
      var i := LowerBound(keys, q);
      if i < |keys| && keys[i] == q && i < |vals| then Some(vals[i]) else None
    case Branch(_, keys, kids) =>
      var i := Route(keys, q);
      if i < |kids| then Lookup(kids[i], q) else None
  }

  ghost predicate Splittable(c: Tree) {
    |c.keys| > 0 && (if c.Leaf? then |c.vals| == |c.keys| else |c.kids| == |c.keys| + 1)
  }

  /** Left half in the old page, promoted key, right half in page n. */
  function Split(c: Tree, n: nat): (Tree, Key, Tree)
    requires Splittable(c)
  {
    var mid := |c.keys| / 2;
    match c
    case Leaf(id, keys, vals, next) =>
      (Leaf(id, keys[..mid], vals[..mid], Some(n)), keys[mid], Leaf(n, keys[mid..], vals[mid..], next))
    case Branch(id, keys, kids) =>
      (Branch(id, keys[..mid], kids[..mid + 1]), keys[mid], Branch(n, keys[mid + 1..], kids[mid + 1..]))
  }

  /** The parent after its child i was split into pages kids[i].id and n. */
  function SplitKid(t: Tree, i: nat, n: nat): Tree
    requires t.Branch? && |t.kids| == |t.keys| + 1 && i < |t.kids| && Splittable(t.kids[i])
  {
    var (l, m, r) := Split(t.kids[i], n);
    Branch(t.id, InsertAt(t.keys, i, m), InsertAt(t.kids[i := l], i + 1, r))
  }

  predicate GoesRight(m: Key, k: Key, tie: Tie) {
    Less(m, k) || (tie.EqualGoesRight? && m == k)
  }

  function LeafInsert(t: Tree, k: Key, v: Val): (r: Tree)
    requires t.Leaf? && |t.keys| == |t.vals|
    ensures r.Leaf?
  {
    var i := LowerBound(t.keys, k);
    if i < |t.keys| && t.keys[i] == k then t.(vals := t.vals[i := v])
    else t.(keys := InsertAt(t.keys, i, k), vals := InsertAt(t.vals, i, v))
  }

  /** One level of the descent: the node with room made below, the child to enter, the next free page. */
  function Descend(t: Tree, h: nat, k: Key, n: nat, tie: Tie): (r: (Tree, nat, nat))
    requires Shape(t, h) && t.Branch?
    ensures Shape(r.0, h) && r.0.Branch? && r.1 < |r.0.kids|
  {
    var i := Route(t.keys, k);
    if Full(t.kids[i]) then
      FullIsSplittable(t.kids[i], h - 1);
      SplitKidShape(t, h, i, n);
      var m := Split(t.kids[i], n).1;
      (SplitKid(t, i, n), if GoesRight(m, k, tie) then i + 1 else i, n + 1)
    else (t, i, n)
  }

  /** Insertion into a node with room; returns the new node and the next free page. */
  function InsertNonFull(t: Tree, h: nat, k: Key, v: Val, n: nat, tie: Tie): (Tree, nat)
    requires Shape(t, h)
    decreases h
  {
    if t.Leaf? then (LeafInsert(t, k, v), n)
    else
      var (t1, j, n1) := Descend(t, h, k, n, tie);
      var (c, n2) := InsertNonFull(t1.kids[j], h - 1, k, v, n1, tie);
      (t1.(kids := t1.kids[j := c]), n2)
  }

  /** A full root moves to page n and becomes the only child of a fresh root, then is split. */
  function GrowRoot(t: Tree, h: nat, n: nat): (r: Tree)
    requires Shape(t, h) && Full(t)
    ensures Shape(r, h + 1) && r.Branch?
  {
    FullIsSplittable(t, h);
    var below := Branch(t.id, [], [t.(id := n)]);
    SplitKidShape(below, h + 1, 0, n + 1);
    SplitKid(below, 0, n + 1)
  }

  function Insert(t: Tree, h: nat, k: Key, v: Val, n: nat, tie: Tie): (Tree, nat)
    requires Shape(t, h)
  {
    if Full(t) then InsertNonFull(GrowRoot(t, h, n), h + 1, k, v, n + 2, tie)
    else InsertNonFull(t, h, k, v, n, tie)
  }

  function NewHeight(t: Tree, h: nat): nat {
    if Full(t) then h + 1 else h
  }

  /** The child about to be entered is full and its middle key, which its split promotes, is k. */
  ghost predicate Promoted(t: Tree, h: nat, k: Key, n: nat)
    requires Shape(t, h) && t.Branch?
  {
    var c := t.kids[Route(t.keys, k)];
    Full(c) && |c.keys| > 0 && c.keys[|c.keys| / 2] == k
  }

  /**
   * The descent for k meets a full child whose middle key is k itself, so that
   * the split promotes k and the code as written then sends k left of it.
   */
  ghost predicate MeetsPromoted(t: Tree, h: nat, k: Key, n: nat)
    requires Shape(t, h)
    decreases h
  {
    t.Branch? &&
    var (t1, j, n1) := Descend(t, h, k, n, AsWritten);
    Promoted(t, h, k, n) || MeetsPromoted(t1.kids[j], h - 1, k, n1)
  }

  /** A key that is not yet a separator next to child i. */
  predicate NewSeparator(t: Tree, i: nat, m: Key)
    requires i <= |t.keys|
  {
    (i > 0 ==> t.keys[i - 1] != m) && (i < |t.keys| ==> t.keys[i] != m)
  }

  /** Child i is full, and its split promotes a key that the parent already has next to it. */
  predicate Clash(t: Tree, i: nat)
    requires t.Branch? && i <= |t.keys| && i < |t.kids|
  {
    var c := t.kids[i];
    Full(c) && |c.keys| > 0 && !NewSeparator(t, i, c.keys[|c.keys| / 2])
  }

  /** The descent for k meets such a split, which leaves two equal separators. */
  ghost predicate MeetsClash(t: Tree, h: nat, k: Key, n: nat, tie: Tie)
    requires Shape(t, h)
    decreases h
  {
    t.Branch? &&
    var (t1, j, n1) := Descend(t, h, k, n, tie);
    Clash(t, Route(t.keys, k)) || MeetsClash(t1.kids[j], h - 1, k, n1, tie)
  }

  // ---------------------------------------------------------- shape lemmas

  lemma FullIsSplittable(c: Tree, h: nat)
    requires Shape(c, h) && Full(c)
    ensures Splittable(c)
  {
  }

  lemma SplitShape(c: Tree, h: nat, n: nat)
    requires Shape(c, h) && Splittable(c)
    ensures Shape(Split(c, n).0, h) && Shape(Split(c, n).2, h)
  {
  }

  lemma SplitKidShape(t: Tree, h: nat, i: nat, n: nat)
    requires Shape(t, h) && t.Branch? && i < |t.kids| && Splittable(t.kids[i])
    ensures Shape(SplitKid(t, i, n), h)
  {
    SplitShape(t.kids[i], h - 1, n);
  }

  /** Uniform depth survives an insertion. */
  lemma {:induction false} InsertNonFullShape(t: Tree, h: nat, k: Key, v: Val, n: nat, tie: Tie)
    requires Shape(t, h)
    ensures Shape(InsertNonFull(t, h, k, v, n, tie).0, h)
    decreases h
  {
    if t.Branch? {
      var (t1, j, n1) := Descend(t, h, k, n, tie);
      InsertNonFullShape(t1.kids[j], h - 1, k, v, n1, tie);
    }
  }

  lemma SplitBranchKids(c: Tree, n: nat, i: nat)
    requires c.Branch? && Splittable(c) && i < |c.kids|
    ensures var (l, m, r) := Split(c, n);
      var mid := |c.keys| / 2;
      && l.Branch? && r.Branch? && |l.kids| == |l.keys| + 1 == mid + 1 && |r.kids| == |r.keys| + 1 == |c.kids| - mid - 1
      && c.kids[i] == if i <= mid then l.kids[i] else r.kids[i - mid - 1]
  {
  }

  lemma SplitPagesAre(c: Tree, n: nat)
    requires Splittable(c)
    ensures Split(c, n).0.id == c.id && Split(c, n).2.id == n
  {
  }

  lemma SplitKidNode(t: Tree, i: nat, n: nat)
    requires t.Branch? && |t.kids| == |t.keys| + 1 && i < |t.kids| && Splittable(t.kids[i])
    ensures var t1 := SplitKid(t, i, n); t1.Branch? && t1.id == t.id && |t1.kids| == |t1.keys| + 1 == |t.kids| + 1
  {
  }

  lemma SplitKidAt(t: Tree, i: nat, n: nat, j: nat)
    requires t.Branch? && |t.kids| == |t.keys| + 1 && i < |t.kids| && Splittable(t.kids[i])
    requires j < |t.kids| + 1
    ensures SplitKid(t, i, n).kids[j] ==
      if j < i then t.kids[j] else if j == i then Split(t.kids[i], n).0
      else if j == i + 1 then Split(t.kids[i], n).2 else t.kids[j - 1]
  {
  }
}
