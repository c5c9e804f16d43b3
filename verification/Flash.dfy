/** The flash device below Coffee, and the shipped geometry made symbolic. */
module FlashDevice {
  import opened Arithmetic

  /** `k * n`, defined by addition to keep products out of the proofs. */
  function Times(k: nat, n: nat): nat {
    if k == 0 then 0 else Times(k - 1, n) + n
  }

  lemma {:induction false} TimesIsProduct(k: nat, n: nat)
    ensures Times(k, n) == k * n
  {
    if k > 0 {
      TimesIsProduct(k - 1, n);
      MulDistributes(1, k, n);
    }
  }

  lemma {:induction false} TimesAdd(a: nat, b: nat, n: nat)
    ensures Times(a + b, n) == Times(a, n) + Times(b, n)
  {
    if b > 0 {
      TimesAdd(a, b - 1, n);
    }
  }

  lemma {:induction false} TimesAligned(k: nat, n: nat)
    requires n > 0
    ensures Aligned(Times(k, n), n)
  {
    if k > 0 {
      TimesAligned(k - 1, n);
      MultipleStep(Times(k - 1, n), n);
    }
  }

  /** Every size that cfs-coffee-arch.h fixes for one board, kept symbolic.
      `tableLimit` is COFFEE_LOG_TABLE_LIMIT. */
  datatype GeometryData = Geometry(
    pageSize: nat,
    pagesPerSector: nat,
    sectors: nat,
    nameLength: nat,
    logSize: nat,
    tableLimit: nat,
    dynSize: nat,
    maxOpenFiles: nat,
    fdSetSize: nat)
  {
    predicate Valid() {
      && 1 <= nameLength
      && 10 + nameLength <= pageSize < 0x1_0000
      && 1 <= pagesPerSector
      && 1 <= sectors
      && Times(sectors, pagesPerSector) < 0x4000     // twice a page count is an int16_t
      && pageSize <= logSize < 0x4000
      && logSize / pageSize <= tableLimit < 0x4000
      && dynSize < 0x4000
    }
  }

  /** The configuration of cfs-coffee-arch.h. */
  function ShippedGeometry(): (g: GeometryData)
    ensures g.Valid()
  {
    TimesIsProduct(32, 256);
    Geometry(256, 256, 32, 2, 1024, 256, 4096, 6, 8)
  }

  type Geometry = g: GeometryData | g.Valid()
    witness ShippedGeometry()

  const G: Geometry

  const PAGE_SIZE: nat := G.pageSize
  const PAGES_PER_SECTOR: nat := G.pagesPerSector
  const SECTOR_COUNT: nat := G.sectors
  const PAGE_COUNT: nat := Times(SECTOR_COUNT, PAGES_PER_SECTOR)
  const NAME_LENGTH: nat := G.nameLength
  const HEADER_SIZE: nat := 10 + NAME_LENGTH
  const LOG_SIZE: nat := G.logSize
  const LOG_TABLE_LIMIT: nat := G.tableLimit
  const DYN_SIZE: nat := G.dynSize
  const MAX_OPEN_FILES: nat := G.maxOpenFiles
  const FD_SET_SIZE: nat := G.fdSetSize

  type Bytes = seq<bv8>

  /** The bytes of every live extent, by first page. */
  type Disk = map<int, Bytes>

  /** The byte address of a page: `page * PAGE_SIZE`. */
  function Base(page: nat): nat {
    Times(page, PAGE_SIZE)
  }

  /** The first page of a sector: `sector * PAGES_PER_SECTOR`. */
  function FirstPage(sector: nat): nat {
    Times(sector, PAGES_PER_SECTOR)
  }

  lemma BaseStep(p: nat, n: nat)
    ensures Base(p + n) == Base(p) + Base(n)
  {
    TimesAdd(p, n, PAGE_SIZE);
  }

  lemma BaseOne()
    ensures Base(0) == 0 && Base(1) == PAGE_SIZE
  {
    assert Times(0, PAGE_SIZE) == 0;
  }

  lemma BaseOrder(p: nat, q: nat)
    requires p <= q
    ensures Base(p) <= Base(q)
    ensures p < q ==> Base(p) + PAGE_SIZE <= Base(q)
  {
    BaseStep(p, q - p);
    if p < q {
      BaseStep(1, q - p - 1);
      assert Times(1, PAGE_SIZE) == PAGE_SIZE;
    }
  }

  lemma PageInDevice(p: nat)
    requires p < PAGE_COUNT
    ensures Base(p) + PAGE_SIZE <= Base(PAGE_COUNT)
  {
    BaseOrder(p, PAGE_COUNT);
  }

  lemma SectorPages(sector: nat)
    requires sector < SECTOR_COUNT
    ensures FirstPage(0) == 0 && FirstPage(SECTOR_COUNT) == PAGE_COUNT
    ensures FirstPage(sector + 1) == FirstPage(sector) + PAGES_PER_SECTOR <= PAGE_COUNT
    ensures Aligned(FirstPage(sector), PAGES_PER_SECTOR)
    ensures Base(FirstPage(sector)) + Base(PAGES_PER_SECTOR) == Base(FirstPage(sector + 1)) <= Base(PAGE_COUNT)
  {
    TimesAdd(sector + 1, SECTOR_COUNT - sector - 1, PAGES_PER_SECTOR);
    TimesAligned(sector, PAGES_PER_SECTOR);
    BaseStep(FirstPage(sector), PAGES_PER_SECTOR);
    BaseOrder(FirstPage(sector + 1), PAGE_COUNT);
  }

  lemma DeviceSectors()
    ensures 0 < SECTOR_COUNT && 0 < PAGES_PER_SECTOR
    ensures FirstPage(0) == 0 && FirstPage(SECTOR_COUNT) == PAGE_COUNT
    ensures Aligned(PAGE_COUNT, PAGES_PER_SECTOR)
  {
    TimesAligned(SECTOR_COUNT, PAGES_PER_SECTOR);
  }

  /** Programming can only set bits: the bytes of `data` are OR-ed in at `addr`. */
  function OrInto(m: Bytes, addr: int, data: Bytes): (r: Bytes)
    requires 0 <= addr && addr + |data| <= |m|
    ensures |r| == |m|
  {
    seq(|m|, i requires 0 <= i < |m| => if addr <= i < addr + |data| then m[i] | data[i - addr] else m[i])
  }

  /** `size` bytes from `addr` set to zero. */
  function Zeroed(m: Bytes, addr: int, size: int): (r: Bytes)
    requires 0 <= addr && 0 <= size && addr + size <= |m|
    ensures |r| == |m|
  {
    seq(|m|, i requires 0 <= i < |m| => if addr <= i < addr + size then 0 else m[i])
  }

  predicate AllZero(s: Bytes) {
    forall i :: 0 <= i < |s| ==> s[i] == 0
  }

  /** A program over erased cells stores the data itself. */
  lemma OrIntoBlank(m: Bytes, addr: int, data: Bytes)
    requires 0 <= addr && addr + |data| <= |m|
    requires AllZero(m[addr..addr + |data|])
    ensures OrInto(m, addr, data)[addr..addr + |data|] == data
  {
    forall i | 0 <= i < |data|
      ensures OrInto(m, addr, data)[addr + i] == data[i]
    {
      assert m[addr + i] == m[addr..addr + |data|][i];
      OrZero(data[i]);
    }
  }

  lemma OrZero(b: bv8)
    ensures 0 | b == b
  {
  }

  function Inverted(s: Bytes): (r: Bytes)
    ensures |r| == |s|
  {
    seq(|s|, i requires 0 <= i < |s| => !s[i])
  }

  /** The driver inverts every byte both ways, so erased flash (all ones) reads as
      zeros and programming, which clears raw bits, reads as a bitwise OR. */
  class Flash {
    const cells: array<bv8>

    ghost predicate Valid() {
      cells.Length == Base(PAGE_COUNT)
    }

    ghost function Contents(): (m: Bytes)
      reads cells
      ensures |m| == cells.Length
    {
      Inverted(cells[..])
    }

    constructor ()
      ensures Valid() && fresh(cells)
      ensures AllZero(Contents())
    {
      cells := new bv8[Base(PAGE_COUNT)](_ => 0xff);
    }

    method Read(addr: int, size: int) returns (buf: Bytes)
      requires 0 <= addr && 0 <= size && addr + size <= cells.Length
      ensures buf == Contents()[addr..addr + size]
    {
      buf := [];
      for i := 0 to size
        invariant buf == Contents()[addr..addr + i]
      {
        buf := buf + [!cells[addr + i]];
      }
    }

    method Program(addr: int, data: Bytes)
      requires 0 <= addr && addr + |data| <= cells.Length
      modifies cells
      ensures Contents() == OrInto(old(Contents()), addr, data)
    {
      for i := 0 to |data|
        invariant forall k :: 0 <= k < cells.Length ==>
          cells[k] == if addr <= k < addr + i then old(cells[k]) & !data[k - addr] else old(cells[k])
      {
        cells[addr + i] := cells[addr + i] & !data[i];
      }
      forall k | 0 <= k < cells.Length
        ensures Contents()[k] == OrInto(old(Contents()), addr, data)[k]
      {
        if addr <= k < addr + |data| {
          Inversion(old(cells[k]), data[k - addr]);
        }
      }
    }

    method EraseSector(sector: nat)
      requires Valid()
      requires sector < SECTOR_COUNT
      modifies cells
      ensures Base(FirstPage(sector)) + Base(PAGES_PER_SECTOR) <= cells.Length
      ensures Contents() == Zeroed(old(Contents()), Base(FirstPage(sector)), Base(PAGES_PER_SECTOR))
    {
      SectorPages(sector);
      var addr := Base(FirstPage(sector));
      var size := Base(PAGES_PER_SECTOR);
      for i := 0 to size
        invariant forall k :: 0 <= k < cells.Length ==>
          cells[k] == if addr <= k < addr + i then 0xff else old(cells[k])
      {
        cells[addr + i] := 0xff;
      }
    }
  }

  lemma Inversion(raw: bv8, b: bv8)
    ensures !(raw & !b) == !raw | b
  {
  }
}
