/** Fixed-size pages with a checksum in front, addressed by number. */
module Pagers {
  import opened Keys
  import opened Limits
  import opened Codec


  type U32 = n: nat | n < U32_BOUND

  /** A checksum over the bytes behind the first four; any function will do. */
  type Checksum = Bytes -> U32

  function Zeros(n: nat): (b: Bytes)
    ensures |b| == n
    ensures forall i :: 0 <= i < n ==> b[i] == 0
  {
    seq(n, i => 0)
  }

  /** The page as written: its first four bytes hold the checksum of the rest. */
  function Seal(page: Bytes, crc: Checksum): (b: Bytes)
    requires |page| == PAGE_SIZE
    ensures |b| == PAGE_SIZE && b[4..] == page[4..]
  {
    LE(crc(page[4..]), 4) + page[4..]
  }

  /** A page is accepted when its stored checksum is absent or right. */
  predicate Intact(page: Bytes, crc: Checksum)
    requires |page| == PAGE_SIZE
  {
    FromLE(page[..4]) == 0 || FromLE(page[..4]) == crc(page[4..])
  }

  lemma SealIsIntact(page: Bytes, crc: Checksum)
    requires |page| == PAGE_SIZE
    ensures Intact(Seal(page, crc), crc)
  {
    SealHasChecksum(page, crc);
  }

  /** The stored checksum is that of the bytes behind it. */
  lemma SealHasChecksum(page: Bytes, crc: Checksum)
    requires |page| == PAGE_SIZE
    ensures FromLE(Seal(page, crc)[..4]) == crc(page[4..])
  {
    Pow256Values();
    FromLEOfLE(crc(page[4..]), 4);
    assert Seal(page, crc)[..4] == LE(crc(page[4..]), 4);
  }

  /** The file after writing a sealed page at id; a gap before it reads as zero pages. */
  function PutPage(file: seq<Bytes>, id: nat, page: Bytes): (f: seq<Bytes>)
    ensures |f| == (if id < |file| then |file| else id + 1) && f[id] == page
    ensures forall x :: 0 <= x < |file| && x != id ==> f[x] == file[x]
    ensures forall x :: |file| <= x < id ==> f[x] == Zeros(PAGE_SIZE)
  {
    if id < |file| then file[id := page]
    else file + seq(id - |file|, i => Zeros(PAGE_SIZE)) + [page]
  }

  class Pager {
    const checksum: Checksum
    var file: seq<Bytes>

    ghost predicate Valid()
      reads this
    {
      forall i :: 0 <= i < |file| ==> |file[i]| == PAGE_SIZE
    }

    constructor (checksum: Checksum, file: seq<Bytes>)
      requires forall i :: 0 <= i < |file| ==> |file[i]| == PAGE_SIZE
      ensures Valid() && this.file == file && this.checksum == checksum
    {
      this.checksum, this.file := checksum, file;
    }

    /** The number of pages in the file, as a 32-bit number. */
    function NumPages(): nat
      reads this
    {
      |file| % U32_BOUND
    }

    /** Past the end a page reads as zeros; a wrong nonzero checksum is an error. */
    method ReadPage(id: nat) returns (r: Result<Bytes>)
      requires Valid()
      ensures id >= |file| ==> r == Ok(Zeros(PAGE_SIZE))
      ensures id < |file| ==> (r.Ok? <==> Intact(file[id], checksum)) && (r.Ok? ==> r.value == file[id])
      ensures id < |file| ==>
        (r.Err? <==> FromLE(file[id][..4]) != 0 && FromLE(file[id][..4]) != checksum(file[id][4..]))
    {
      var page := if id < |file| then file[id] else Zeros(PAGE_SIZE);
      var stored := FromLE(page[..4]);
      if id >= |file| {
        ZerosAreNoChecksum();
      }
      if stored != 0 {
        var actual := checksum(page[4..]);
        if actual != stored {
          return Err("checksum mismatch");
        }
      }
      r := Ok(page);
    }

    method WritePage(id: nat, data: Bytes)
      requires Valid() && |data| == PAGE_SIZE
      modifies this`file
      ensures Valid() && file == PutPage(old(file), id, Seal(data, checksum))
      ensures |file| == (if id < old(|file|) then old(|file|) else id + 1)
      ensures forall x :: 0 <= x < |file| && x != id ==> file[x] == if x < old(|file|) then old(file)[x] else Zeros(PAGE_SIZE)
      ensures file[id][4..] == data[4..] && FromLE(file[id][..4]) == checksum(data[4..])
      ensures Intact(file[id], checksum)
    {
      var page := Seal(data, checksum);
      SealIsIntact(data, checksum);
      SealHasChecksum(data, checksum);
      file := PutPage(file, id, page);
    }
  }

  /**
   * A page is written, then the bytes behind its checksum are changed: reading it
   * is refused if and only if the checksum is not zero and that of the changed
   * bytes is another one.
   */
  method ReadDamaged(pager: Pager, id: nat, data: Bytes, damaged: Bytes) returns (r: Result<Bytes>)
    requires pager.Valid() && |data| == PAGE_SIZE && |damaged| == PAGE_SIZE - 4
    modifies pager`file
    ensures r.Err? <==> pager.checksum(data[4..]) != 0 && pager.checksum(damaged) != pager.checksum(data[4..])
  {
    pager.WritePage(id, data);
    var page := pager.file[id][..4] + damaged;
    assert page[..4] == pager.file[id][..4] && page[4..] == damaged;
    pager.file := pager.file[id := page];
    r := pager.ReadPage(id);
  }

  lemma ZerosAreNoChecksum()
    ensures FromLE(Zeros(PAGE_SIZE)[..4]) == 0
  {
    assert Zeros(PAGE_SIZE)[..4] == [0, 0, 0, 0];
    assert FromLE([0, 0, 0, 0]) == 0 by {
      assert [0, 0, 0, 0][1..] == [0, 0, 0] && [0, 0, 0][1..] == [0, 0] && [0, 0][1..] == [0] && [0][1..] == [];
      assert FromLE([0, 0]) == 0;
    }
  }
}
