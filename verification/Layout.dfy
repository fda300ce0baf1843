/** The stored formats byte by byte: numbers little-endian, lengths in eight bytes, variants in four. */
module Layouts {
  import opened Keys
  import opened Codec
  import opened WalLog
  import opened OverlayScans

  /** Each byte of a stored number is its digit to base 256, the lowest first. */
  lemma {:induction false} Digits(n: nat, w: nat, i: nat)
    requires i < w
    ensures LE(n, w)[i] as nat == (n / Pow256(i)) % 256
  {
    if i > 0 {
      Digits(n / 256, w - 1, i - 1);
      DivideTwice(n, Pow256(i - 1));
    }
  }

  lemma DivideTwice(n: nat, p: nat)
    requires p > 0
    ensures 256 * p > 0 && (n / 256) / p == n / (256 * p)
  {
    var (q, r) := (n / 256, n % 256);
    var (a, b) := (q / p, q % p);
    assert n == (256 * p) * a + (256 * b + r);
    Quotient(n, 256 * p, a, 256 * b + r);
  }

  lemma Quotient(n: nat, m: nat, a: nat, b: nat)
    requires m > 0 && n == m * a + b && b < m
    ensures n / m == a
  {
    Larger(m, n / m, a);
    Larger(m, a, n / m);
  }

  lemma Larger(m: nat, x: nat, y: nat)
    ensures x < y ==> m * x + m <= m * y
  {
    if x < y {
      var more: nat := m * (y - x - 1);
      assert m * y == m * x + m + more by {
        assert y == x + 1 + (y - x - 1);
      }
    }
  }

  lemma Small(n: byte)
    ensures LE(n as nat, 4) == [n, 0, 0, 0] && LE(n as nat, 8) == [n, 0, 0, 0, 0, 0, 0, 0]
  {
    assert LE(0, 3) == [0] + LE(0, 2) && LE(0, 7) == [0] + LE(0, 6) && LE(0, 5) == [0] + LE(0, 4);
  }

  lemma OneByte(x: byte)
    ensures WriteBytes([x]) == [1, 0, 0, 0, 0, 0, 0, 0, x]
  {
    hide LE;
    Small(1);
  }

  /** One entry of each kind, as it stands in the log behind its length. */
  lemma PageEntry()
    ensures WriteEntry(PageUpdate(3, [9])) == [0, 0, 0, 0, 3, 0, 0, 0, 1, 0, 0, 0, 0, 0, 0, 0, 9]
  {
    hide LE, WriteBytes;
    Small(0);
    Small(3);
    OneByte(9);
  }

  lemma RecordEntry()
    ensures WriteEntry(RecordUpdate([7], [8])) == [1, 0, 0, 0, 1, 0, 0, 0, 0, 0, 0, 0, 7, 1, 0, 0, 0, 0, 0, 0, 0, 8]
  {
    hide LE, WriteBytes;
    Small(1);
    OneByte(7);
    OneByte(8);
  }

  lemma StartEntry()
    ensures WriteEntry(TransactionStart(5)) == [2, 0, 0, 0, 5, 0, 0, 0, 0, 0, 0, 0]
  {
    hide LE;
    Small(2);
    Small(5);
  }

  lemma CommitEntry()
    ensures WriteEntry(TransactionCommit(5, 6, 7)) ==
      [3, 0, 0, 0, 5, 0, 0, 0, 0, 0, 0, 0, 6, 0, 0, 0, 0, 0, 0, 0, 7, 0, 0, 0, 0, 0, 0, 0]
  {
    hide LE;
    Small(3);
    Small(5);
    Small(6);
    Small(7);
  }

  /** A whole frame: the length of the entry in four bytes, then the entry. */
  lemma RollbackFrame()
    ensures Frame(TransactionRollback(5)) == [12, 0, 0, 0, 4, 0, 0, 0, 5, 0, 0, 0, 0, 0, 0, 0]
  {
    hide LE;
    Small(4);
    Small(5);
    Small(12);
    var e := TransactionRollback(5);
    assert WriteEntry(e) == [4, 0, 0, 0, 5, 0, 0, 0, 0, 0, 0, 0];
  }

  const LEAF := Node(LeafNode, [[7]], [], [[8]], Some(2))
  const BRANCH := Node(Internal, [[7]], [4, 5], [], None)

  lemma LeafTail()
    ensures WriteChildrenOn(LEAF) ==
      [0, 0, 0, 0, 0, 0, 0, 0, 1, 0, 0, 0, 0, 0, 0, 0, 1, 0, 0, 0, 0, 0, 0, 0, 8, 1, 2, 0, 0, 0]
  {
    hide LE, WriteAll, WriteIds;
    Small(0);
    Small(1);
    Small(2);
    OneString(8);
    assert WriteLink(LEAF.nextLeaf) == [1, 2, 0, 0, 0];
    assert WriteValuesOn(LEAF) == [1, 0, 0, 0, 0, 0, 0, 0, 1, 0, 0, 0, 0, 0, 0, 0, 8, 1, 2, 0, 0, 0];
  }

  lemma Regrouped(n: Node, tag: nat)
    requires tag == if n.nodeType.Internal? then 0 else 1
    ensures WriteNode(n) == (LE(tag, 4) + LE(|n.keys|, 8) + WriteAll(n.keys)) + WriteChildrenOn(n)
  {
    hide LE, WriteAll, WriteChildrenOn;
  }

  lemma Head(tag: byte)
    ensures LE(tag as nat, 4) + LE(1, 8) + WriteAll([[7]]) ==
      [tag, 0, 0, 0, 1, 0, 0, 0, 0, 0, 0, 0, 1, 0, 0, 0, 0, 0, 0, 0, 7]
  {
    hide LE, WriteAll;
    Small(tag);
    Small(1);
    OneString(7);
  }

  /** A leaf with a link: variant, keys, no children, values, link. */
  lemma LeafLayout()
    ensures WriteNode(LEAF) ==
      [1, 0, 0, 0, 1, 0, 0, 0, 0, 0, 0, 0, 1, 0, 0, 0, 0, 0, 0, 0, 7, 0, 0, 0, 0, 0, 0, 0, 0,
       1, 0, 0, 0, 0, 0, 0, 0, 1, 0, 0, 0, 0, 0, 0, 0, 8, 1, 2, 0, 0, 0]
  {
    hide LE, WriteAll, WriteChildrenOn, WriteNode;
    Regrouped(LEAF, 1);
    Head(1);
    LeafTail();
  }

  lemma BranchTail()
    ensures WriteChildrenOn(BRANCH) == [2, 0, 0, 0, 0, 0, 0, 0, 4, 0, 0, 0, 5, 0, 0, 0, 0, 0, 0, 0, 0, 0, 0, 0, 0]
  {
    hide LE, WriteAll, WriteIds;
    Small(0);
    Small(2);
    OneString(7);
    TwoIds();
    assert WriteValuesOn(BRANCH) == [0, 0, 0, 0, 0, 0, 0, 0, 0];
  }

  /** An internal node: variant, keys, children, no values, no link. */
  lemma InternalLayout()
    ensures WriteNode(BRANCH) ==
      [0, 0, 0, 0, 1, 0, 0, 0, 0, 0, 0, 0, 1, 0, 0, 0, 0, 0, 0, 0, 7, 2, 0, 0, 0, 0, 0, 0, 0, 4, 0, 0, 0, 5, 0, 0, 0,
       0, 0, 0, 0, 0, 0, 0, 0, 0]
  {
    hide LE, WriteAll, WriteChildrenOn, WriteNode;
    Regrouped(BRANCH, 0);
    Head(0);
    BranchTail();
  }

  lemma TwoIds()
    ensures WriteIds([4, 5]) == [4, 0, 0, 0, 5, 0, 0, 0]
  {
    hide LE;
    Small(4);
    Small(5);
    assert [4, 5][1..] == [5] && [5][1..] == [];
    assert WriteIds([5]) == LE(5, 4) + [];
  }

  lemma OneString(x: byte)
    ensures WriteAll([[x]]) == [1, 0, 0, 0, 0, 0, 0, 0, x] && WriteAll([]) == [] && WriteIds([]) == []
  {
    OneByte(x);
    assert [[x]][1..] == [];
  }

  /** Stored records, live and deleted. */
  lemma LiveRecord()
    ensures WriteStored(StoredRecord([9], 5, false, 6)) ==
      [1, 0, 0, 0, 0, 0, 0, 0, 9, 5, 0, 0, 0, 0, 0, 0, 0, 0, 6, 0, 0, 0, 0, 0, 0, 0]
  {
    hide LE, WriteBytes;
    OneByte(9);
    Small(5);
    Small(6);
  }

  lemma DeletedRecord()
    ensures WriteStored(StoredRecord([], 5, true, 6)) ==
      [0, 0, 0, 0, 0, 0, 0, 0, 5, 0, 0, 0, 0, 0, 0, 0, 1, 6, 0, 0, 0, 0, 0, 0, 0]
  {
    hide LE;
    Small(0);
    Small(5);
    Small(6);
  }
}
