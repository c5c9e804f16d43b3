/** Coffee's page allocator and garbage collector over the flash device. */
module Volumes {
  import opened Arithmetic
  import opened FlashDevice
  import opened Headers
  import opened Layouts
  import opened Collecting
  import opened Pages
  import opened Passes
  import opened Disks
  import opened Searching
  import opened Allocations

  const INVALID_PAGE: int := -1

  class Volume {
    const flash: Flash
    var nextFree: int
    var skipPages: int              // static state of get_sector_status
    var lastPagesAreActive: bool
    var gcWait: bool

    /** cfs_coffee_format on a fresh device. */
    constructor ()
      ensures flash.Valid() && fresh(flash) && fresh(flash.cells)
      ensures forall p :: 0 <= p < PAGE_COUNT ==> Layout()[p] == Blank
      ensures nextFree == 0 && !gcWait
      ensures Valid() && Disk() == map[] && (SECTOR_COUNT == 1 ==> Packs())
    {
      hide View, Sound, PageOf, PageBytes, AllZero, Position, NoFreeBelow, DiskOf;
      var device := new Flash();
      flash := device;
      nextFree, skipPages, lastPagesAreActive, gcWait := 0, 0, false, false;
      new;
      ErasedPages(Mem());
      BlankVolume(Mem());
      OneSector();
    }

    ghost function Mem(): (m: Bytes)
      requires flash.Valid()
      reads flash.cells
      ensures |m| == Base(PAGE_COUNT)
    {
      flash.Contents()
    }

    ghost function Layout(): (L: Layout)
      requires flash.Valid()
      reads flash.cells
      ensures |L| == PAGE_COUNT
    {
      View(Mem())
    }

    method WriteHeader(h: Header, page: int)
      requires flash.Valid() && h.Fits() && 0 <= page < PAGE_COUNT
      modifies flash.cells
      ensures Base(page) + HEADER_SIZE <= |old(Mem())|
      ensures Mem() == OrInto(old(Mem()), Base(page), Encode(h.(flags := h.flags | HDR_FLAG_VALID)))
    {
      PageInDevice(page);
      flash.Program(Base(page), Encode(h.(flags := h.flags | HDR_FLAG_VALID)));
    }

    method ReadHeader(page: int) returns (h: Header)
      requires flash.Valid() && 0 <= page < PAGE_COUNT
      ensures h == Decode(PageBytes(Mem(), page))
    {
      PageInDevice(page);
      var buf := flash.Read(Base(page), HEADER_SIZE);
      h := Decode(buf);
      assert buf == PageBytes(Mem(), page)[..HEADER_SIZE];
      DecodePrefix(PageBytes(Mem(), page), buf);
    }

    /** The classifier. Started at sector 0 and called sector by sector, it counts the
        pages of each class exactly and remembers exactly the spill, although it reads
        only the headers at scan positions of the layout `L` the pass started from. */
    method GetSectorStatus(sector: nat, ghost L: Layout)
        returns (active: int, obsolete: int, free: int, isolate: int)
      requires flash.Valid() && sector < SECTOR_COUNT
      requires |L| == PAGE_COUNT && WellFormed(L, PAGES_PER_SECTOR)
      requires sector > 0 ==> PassState(L, PAGES_PER_SECTOR, FirstPage(sector), skipPages, lastPagesAreActive)
      requires 0 <= FirstPage(sector) <= PAGE_COUNT
      requires forall q :: Resume(L, PAGES_PER_SECTOR, FirstPage(sector)) <= q < PAGE_COUNT ==> Layout()[q] == L[q]
      modifies this`skipPages, this`lastPagesAreActive
      ensures SectorStats(L, PAGES_PER_SECTOR, FirstPage(sector), active, obsolete, free)
      ensures PassState(L, PAGES_PER_SECTOR, FirstPage(sector + 1), skipPages, lastPagesAreActive)
      ensures isolate == IsolationCount(PAGES_PER_SECTOR, skipPages, lastPagesAreActive)
    {
      hide FirstPage, Aligned, Walked, SectorStats, SectorEnd, Resume, Has, PageOf, PageBytes, Decode, WellFormed;
      hide PageClass;
      if sector == 0 {
        skipPages := 0;
        lastPagesAreActive := false;
      }
      var sectorStart := FirstPage(sector);
      SectorPages(sector);
      PassStarts(L, PAGES_PER_SECTOR);
      active, obsolete, free := 0, 0, 0;
      if lastPagesAreActive {
        if skipPages >= PAGES_PER_SECTOR {
          CoveredSector(L, PAGES_PER_SECTOR, sectorStart, skipPages, true);
          active := PAGES_PER_SECTOR;
          skipPages := skipPages - PAGES_PER_SECTOR;
          return active, obsolete, free, 0;
        }
        active := skipPages;
      } else {
        if skipPages >= PAGES_PER_SECTOR {
          CoveredSector(L, PAGES_PER_SECTOR, sectorStart, skipPages, false);
          obsolete := PAGES_PER_SECTOR;
          skipPages := skipPages - PAGES_PER_SECTOR;
          return active, obsolete, free, if skipPages >= PAGES_PER_SECTOR then 0 else skipPages;
        }
        obsolete := skipPages;
      }
      WalkStarts(L, PAGES_PER_SECTOR, sectorStart, skipPages, lastPagesAreActive);
      ResumeIsFirst(L, PAGES_PER_SECTOR, sectorStart);
      active, obsolete, free := CountUnits(sectorStart, active, obsolete, L);
      hide PassState;
      skipPages := active + obsolete + free - PAGES_PER_SECTOR;
      if skipPages > 0 {
        if lastPagesAreActive {
          active := PAGES_PER_SECTOR - obsolete;
        } else {
          obsolete := PAGES_PER_SECTOR - active;
        }
      }
      isolate := if lastPagesAreActive || skipPages >= PAGES_PER_SECTOR then 0 else skipPages;
    }

    /** The classifier's loop over the units that start in the sector. */
    method CountUnits(sectorStart: int, active0: int, obsolete0: int, ghost L: Layout)
        returns (active: int, obsolete: int, free: int)
      requires flash.Valid() && |L| == PAGE_COUNT && WellFormed(L, PAGES_PER_SECTOR)
      requires 0 <= sectorStart <= PAGE_COUNT && Resume(L, PAGES_PER_SECTOR, sectorStart) <= sectorStart + skipPages
      requires Walked(L, PAGES_PER_SECTOR, sectorStart, sectorStart + skipPages, active0, obsolete0, 0,
        lastPagesAreActive)
      requires forall q :: Resume(L, PAGES_PER_SECTOR, sectorStart) <= q < PAGE_COUNT ==> Layout()[q] == L[q]
      modifies this`lastPagesAreActive
      ensures Counted(L, PAGES_PER_SECTOR, sectorStart, active, obsolete, free, lastPagesAreActive)
    {
      hide Walked, SectorEnd, Resume, Has, PageOf, PageBytes, Decode, WellFormed, Counted;
      var sectorEnd := sectorStart + PAGES_PER_SECTOR;
      active, obsolete, free := active0, obsolete0, 0;
      var page := sectorStart + skipPages;
      while page < sectorEnd
        invariant Walked(L, PAGES_PER_SECTOR, sectorStart, page, active, obsolete, 0, lastPagesAreActive)
        invariant Resume(L, PAGES_PER_SECTOR, sectorStart) <= page
        decreases sectorEnd - page
      {
        WalkStep(L, PAGES_PER_SECTOR, sectorStart, page, active, obsolete, lastPagesAreActive);
        var hdr := ReadHeader(page);
        assert PageOf(PageBytes(Mem(), page)) == L[page];
        HeaderTells(PageBytes(Mem(), page));
        ghost var was := lastPagesAreActive;
        lastPagesAreActive := false;
        if hdr.IsActive() {
          lastPagesAreActive := true;
          page := page + hdr.maxPages;
          active := active + hdr.maxPages;
        } else if hdr.IsIsolated() {
          page := page + 1;
          obsolete := obsolete + 1;
        } else if hdr.IsObsolete() {
          page := page + hdr.maxPages;
          obsolete := obsolete + hdr.maxPages;
        } else {
          CountedFree(L, PAGES_PER_SECTOR, sectorStart, page, active, obsolete, was);
          free := sectorEnd - page;
          return;
        }
      }
      CountedEnd(L, PAGES_PER_SECTOR, sectorStart, page, active, obsolete, lastPagesAreActive);
    }

    /** Writes isolation headers over the tail of an obsolete extent. */
    method IsolatePages(start: int, count: int)
      requires flash.Valid() && 0 <= start && 0 <= count && start + count <= PAGE_COUNT
      modifies flash.cells
      ensures forall q :: start <= q < start + count ==> Layout()[q] == Isolated
      ensures forall q :: 0 <= q < PAGE_COUNT && !(start <= q < start + count) ==>
        PageBytes(Mem(), q) == PageBytes(old(Mem()), q)
    {
      hide Encode, PageOf, Decode, Has, PageBytes;
      var hdr := Header(0, 0, 0, 0, 0, HDR_FLAG_ALLOCATED | HDR_FLAG_ISOLATED, seq(NAME_LENGTH, _ => 0));
      for page := 0 to count
        invariant forall q :: start <= q < start + page ==> PageOf(PageBytes(Mem(), q)) == Isolated
        invariant forall q :: 0 <= q < PAGE_COUNT && !(start <= q < start + page) ==>
          PageBytes(Mem(), q) == PageBytes(old(Mem()), q)
      {
        ghost var before := Mem();
        WriteHeader(hdr, start + page);
        WrittenIsolated(before, hdr.(flags := hdr.flags | HDR_FLAG_VALID), start + page);
      }
    }

    /** COFFEE_ERASE, seen page by page. */
    method EraseSector(sector: nat)
      requires flash.Valid() && sector < SECTOR_COUNT
      modifies flash.cells
      ensures forall q :: FirstPage(sector) <= q < FirstPage(sector) + PAGES_PER_SECTOR && q < PAGE_COUNT ==>
        Layout()[q] == Blank
      ensures forall q :: 0 <= q < PAGE_COUNT && !(FirstPage(sector) <= q < FirstPage(sector) + PAGES_PER_SECTOR) ==>
        PageBytes(Mem(), q) == PageBytes(old(Mem()), q)
    {
      hide PageOf, PageBytes, Base;
      SectorPages(sector);
      BaseOrder(FirstPage(sector), FirstPage(sector + 1));
      flash.EraseSector(sector);
      ZeroedPages(old(Mem()), FirstPage(sector), FirstPage(sector) + PAGES_PER_SECTOR);
    }

    /** The erasing branch of the collector's loop: the sector goes, and the tail of an
        extent that ends in the next sector is split into isolated pages first. */
    method EraseObsolete(sector: nat, isolationCount: int, ghost L0: Layout, ghost m0: Bytes)
      requires flash.Valid() && sector < SECTOR_COUNT && |m0| == Base(PAGE_COUNT)
      requires |L0| == PAGE_COUNT && WellFormed(L0, PAGES_PER_SECTOR) && FirstPage(sector + 1) <= PAGE_COUNT
      requires FirstPage(sector) <= PAGE_COUNT && Layout() == Swept(L0, PAGES_PER_SECTOR, FirstPage(sector))
      requires Erasable(L0, PAGES_PER_SECTOR, FirstPage(sector))
      requires PassState(L0, PAGES_PER_SECTOR, FirstPage(sector + 1), skipPages, lastPagesAreActive)
      requires isolationCount == IsolationCount(PAGES_PER_SECTOR, skipPages, lastPagesAreActive)
      requires SameActiveBytes(L0, m0, Mem())
      modifies this`nextFree, flash.cells
      ensures nextFree == if FirstPage(sector) < old(nextFree) then FirstPage(sector) else old(nextFree)
      ensures Layout() == Swept(L0, PAGES_PER_SECTOR, FirstPage(sector + 1))
      ensures SameActiveBytes(L0, m0, Mem())
    {
      hide FirstPage, Aligned, Swept, PassState, Erasable, Resume, Collected, CollectedPage, View;
      hide PageClass, SameActiveBytes, PageOf, PageBytes, WellFormed, Base, IsolationCount;
      SectorPages(sector);
      var firstPage := FirstPage(sector);
      IsolationFits(L0, PAGES_PER_SECTOR, firstPage, skipPages, lastPagesAreActive);
      if firstPage < nextFree {
        nextFree := firstPage;
      }
      ghost var m1 := Mem();
      if isolationCount > 0 {
        IsolatePages(firstPage + PAGES_PER_SECTOR, isolationCount);
      }
      ghost var m2 := Mem();
      assert View(m2) == Layout();
      EraseSector(sector);
      assert View(Mem()) == Layout();
      ErasedSweep(L0, m1, m2, Mem(), firstPage, firstPage + PAGES_PER_SECTOR + isolationCount, skipPages,
        lastPagesAreActive);
      ErasedKeepsActive(L0, firstPage, isolationCount, m0, m1, Mem());
    }

    /** One greedy pass over all sectors. */
    method CollectGarbage()
      requires flash.Valid() && WellFormed(Layout(), PAGES_PER_SECTOR)
      modifies this`skipPages, this`lastPagesAreActive, this`nextFree, flash.cells
      ensures Layout() == Collected(old(Layout()), PAGES_PER_SECTOR)
      ensures nextFree == CollectedNextFree(old(Layout()), PAGES_PER_SECTOR, old(nextFree))
      ensures SameActiveBytes(old(Layout()), old(Mem()), Mem())
    {
      hide *;
      ghost var L0, m0 := Layout(), Mem();
      DeviceSectors();
      PassStarts(L0, PAGES_PER_SECTOR);
      SweptStarts(L0, PAGES_PER_SECTOR);
      SweptHintAll(L0, PAGES_PER_SECTOR, nextFree);
      SameActiveBytesRefl(L0, m0);
      for sector := 0 to SECTOR_COUNT
        invariant 0 <= FirstPage(sector) <= PAGE_COUNT
        invariant Layout() == Swept(L0, PAGES_PER_SECTOR, FirstPage(sector))
        invariant sector > 0 ==> PassState(L0, PAGES_PER_SECTOR, FirstPage(sector), skipPages, lastPagesAreActive)
        invariant nextFree == SweptHint(L0, PAGES_PER_SECTOR, FirstPage(sector), old(nextFree))
        invariant SameActiveBytes(L0, m0, Mem())
      {
        SectorPages(sector);
        SweptSuffix(L0, PAGES_PER_SECTOR, FirstPage(sector));
        var active, obsolete, free, isolationCount := GetSectorStatus(sector, L0);
        StatsDecide(L0, PAGES_PER_SECTOR, FirstPage(sector), active, obsolete, free);
        SweptHintStep(L0, PAGES_PER_SECTOR, FirstPage(sector), old(nextFree));
        if active > 0 {
          SweptKeep(L0, PAGES_PER_SECTOR, FirstPage(sector));
          continue;
        }
        if obsolete > 0 {
          EraseObsolete(sector, isolationCount, L0, m0);
        } else {
          SweptKeep(L0, PAGES_PER_SECTOR, FirstPage(sector));
        }
      }
      SweptAll(L0, PAGES_PER_SECTOR);
    }

    // --------------------------------------------------------- allocation

    /** The layout can be scanned, the hint is a scan position, and no reachable free
        page lies below it. */
    ghost predicate Valid()
      reads this, flash.cells
    {
      && flash.Valid()
      && Sound(Mem())
      && Position(Layout(), PAGES_PER_SECTOR, nextFree)
      && NoFreeBelow(Layout(), PAGES_PER_SECTOR, nextFree)
    }

    /** The bytes of every live extent, by first page. */
    ghost function Disk(): Disk
      requires Valid()
      reads this, flash.cells
    {
      DiskOf(Mem())
    }

    /** The allocator's view: the layout, the hint, and whether a pass is worth a try. */
    ghost function Alloc(): Allocator
      requires flash.Valid()
      reads this, flash.cells
    {
      Allocator(Layout(), nextFree, gcWait)
    }

    /** First fit from the hint. */
    method FindContiguousPages(amount: nat) returns (start: int)
      requires flash.Valid() && amount > 0
      requires Tiles(Layout(), PAGES_PER_SECTOR, nextFree, PAGE_COUNT)
      modifies this`nextFree
      ensures start == FirstFit(Layout(), PAGES_PER_SECTOR, old(nextFree), amount)
      ensures start == INVALID_PAGE ==>
        nextFree == old(nextFree) && NoRoom(Layout(), PAGES_PER_SECTOR, old(nextFree), amount)
      ensures start != INVALID_PAGE ==>
        && Eligible(Layout(), PAGES_PER_SECTOR, old(nextFree), start, amount)
        && Tiles(Layout(), PAGES_PER_SECTOR, old(nextFree), start)
        && (forall x :: x < start ==> !Eligible(Layout(), PAGES_PER_SECTOR, old(nextFree), x, amount))
        && nextFree == if start == old(nextFree) then start + amount else old(nextFree)
    {
      hide Tiles, Unit, SectorEnd, PageClass, PageOf, PageBytes, Decode, Eligible, Has;
      ghost var L := Layout();
      start := INVALID_PAGE;
      var page := nextFree;
      SearchStarts(L, PAGES_PER_SECTOR, nextFree, amount);
      while page < PAGE_COUNT
        invariant nextFree == old(nextFree)
        invariant SearchState(L, PAGES_PER_SECTOR, nextFree, page, start, amount)
        decreases PAGE_COUNT - page
      {
        SearchInRange(L, nextFree, page, start, amount);
        var hdr := ReadHeader(page);
        HeaderTellsNext(Mem(), page);
        if hdr.IsFree() {
          SearchFree(L, PAGES_PER_SECTOR, nextFree, page, start, amount);
          if start == INVALID_PAGE {
            start := page;
            if start + amount >= PAGE_COUNT {
              FirstFitIs(L, PAGES_PER_SECTOR, nextFree, amount, -1);
              return INVALID_PAGE;
            }
          }
          page := NextFile(page, hdr);
          if start + amount <= page {
            FirstFitIs(L, PAGES_PER_SECTOR, nextFree, amount, start);
            if start == nextFree {
              nextFree := start + amount;
            }
            return start;
          }
        } else {
          SearchTaken(L, PAGES_PER_SECTOR, nextFree, page, start, amount);
          start := INVALID_PAGE;
          page := NextFile(page, hdr);
        }
      }
      SearchEnds(L, PAGES_PER_SECTOR, nextFree, page, start, amount);
      FirstFitIs(L, PAGES_PER_SECTOR, nextFree, amount, -1);
      start := INVALID_PAGE;
    }

    /** Decides, with the classifier alone, whether a greedy pass would leave the hint
        on a scan position. The source has no such check. */
    method CollectionIsSafe() returns (safe: bool)
      requires flash.Valid() && WellFormed(Layout(), PAGES_PER_SECTOR)
      modifies this`skipPages, this`lastPagesAreActive
      ensures safe <==> PassIsSafe(Layout(), PAGES_PER_SECTOR, nextFree)
    {
      hide PageOf, PageBytes, Decode, Encode, Tiles, Unit, SectorEnd, PageClass, Base, FirstPage, FreshExtent;
      hide Eligible, Has, NoFreeBelow, AllZero, Collected, CollectedNextFree, LowestErased, PassState, SectorStats;
      hide SameActiveBytes, View, DiskOf, PassIsSafe, Aligned;
      ghost var L := Layout();
      DeviceSectors();
      PassStarts(L, PAGES_PER_SECTOR);
      LowestStarts(L, PAGES_PER_SECTOR);
      LayoutSize(Mem());
      for sector := 0 to SECTOR_COUNT
        invariant 0 <= FirstPage(sector) <= PAGE_COUNT
        invariant sector > 0 ==> PassState(L, PAGES_PER_SECTOR, FirstPage(sector), skipPages, lastPagesAreActive)
        invariant FirstPage(sector) <= LowestErased(L, PAGES_PER_SECTOR)
      {
        SectorPages(sector);
        var spill := if sector == 0 then 0 else skipPages;
        SpillIsPosition(L, PAGES_PER_SECTOR, FirstPage(sector), spill, lastPagesAreActive);
        var active, obsolete, free, _ := GetSectorStatus(sector, L);
        StatsDecide(L, PAGES_PER_SECTOR, FirstPage(sector), active, obsolete, free);
        LowestStep(L, PAGES_PER_SECTOR, FirstPage(sector));
        if active == 0 && obsolete > 0 {
          SafeAtLowest(L, PAGES_PER_SECTOR, nextFree);
          return FirstPage(sector) >= nextFree || spill == 0;
        }
      }
      SafeAtLowest(L, PAGES_PER_SECTOR, nextFree);
      return true;
    }

    /** The device has one sector, and nothing but blank pages from the hint on. */
    ghost predicate Packs()
      reads this, flash.cells
    {
      flash.Valid() && Packed(Alloc(), PAGES_PER_SECTOR)
    }

    /** Whether a reservation would need a pass that leaves the hint off the scan. The
        source has no such check. */
    method WouldStrand(amount: nat) returns (strands: bool)
      requires Valid() && amount > 0
      modifies this`nextFree, this`skipPages, this`lastPagesAreActive
      ensures Valid() && Disk() == old(Disk()) && Alloc() == old(Alloc()) && Sane(Alloc(), PAGES_PER_SECTOR)
      ensures strands <==> Strands(Alloc(), PAGES_PER_SECTOR, amount)
    {
      hide Sound, PageOf, PageBytes, Tiles, Eligible, NoFreeBelow, View, DiskOf, PassIsSafe;
      var hint := nextFree;
      HintWalk(Mem(), hint);
      var page := FindContiguousPages(amount);
      nextFree := hint;
      if page != INVALID_PAGE || gcWait {
        return false;
      }
      var safe := CollectionIsSafe();
      strands := !safe;
    }

    /** The page half of reserve: search, collect garbage if that fails, search again,
        and write the header. `Answers` says which page it is and what is left behind,
        safe pass or not. Unless the pass was unsafe, the disk gains exactly the new
        extent; if it was, no byte of any file that was there is lost. */
    method Reserve(hdr: Header) returns (page: int)
      requires Valid() && hdr.Fits() && hdr.maxPages >= 1
      requires !Has(hdr.flags, HDR_FLAG_OBSOLETE) && !Has(hdr.flags, HDR_FLAG_ISOLATED)
      requires Has(hdr.flags, HDR_FLAG_ALLOCATED)
      modifies this, flash.cells
      ensures flash.Valid() && Sane(old(Alloc()), PAGES_PER_SECTOR)
      ensures Answers(old(Alloc()), PAGES_PER_SECTOR, hdr.maxPages, page, Alloc())
      ensures page == INVALID_PAGE <==> Starved(old(Alloc()), PAGES_PER_SECTOR, hdr.maxPages)
      ensures (page, Alloc()) == Served(old(Alloc()), PAGES_PER_SECTOR, hdr.maxPages)
      ensures page == INVALID_PAGE || (0 <= page && page + hdr.maxPages < PAGE_COUNT)
      ensures SameActiveBytes(old(Layout()), old(Mem()), Mem())
      ensures !Strands(old(Alloc()), PAGES_PER_SECTOR, hdr.maxPages) ==>
        && Valid()
        && (page == INVALID_PAGE ==>
             Disk() == old(Disk()) && NoRoom(Layout(), PAGES_PER_SECTOR, nextFree, hdr.maxPages))
        && (page != INVALID_PAGE ==>
              && page !in old(Disk())
              && Disk() == old(Disk())[page := FreshExtent(hdr.(flags := hdr.flags | HDR_FLAG_VALID))])
    {
      hide NoRoom, PageOf, PageBytes, Decode, Encode, Tiles, Unit, SectorEnd, PageClass, Base, FirstPage, FreshExtent;
      hide Eligible, Has, NoFreeBelow, AllZero, Collected, CollectedNextFree, LowestErased, PassState, SectorStats;
      hide SameActiveBytes, View, DiskOf, PassIsSafe, Aligned, FirstFit, Answers, Starved;
      ghost var a, m0 := Alloc(), Mem();
      ghost var h := hdr.(flags := hdr.flags | HDR_FLAG_VALID);
      ActiveHeader(hdr);
      HintWalk(m0, nextFree);
      HintWalksOn(a, PAGES_PER_SECTOR);
      ServedAnswers(a, PAGES_PER_SECTOR, hdr.maxPages);
      SameActiveBytesRefl(Layout(), m0);
      page := FindContiguousPages(hdr.maxPages);
      if page == INVALID_PAGE {
        NoneFits(a.layout, a.hint, hdr.maxPages);
        if gcWait {
          return;
        }
        CollectGarbage();
        ghost var m1 := Mem();
        CollectedDisk(m0, m1, a.hint, nextFree);
        page := FindContiguousPages(hdr.maxPages);
        if page == INVALID_PAGE {
          NoneFits(Layout(), nextFree, hdr.maxPages);
          gcWait := true;
          return;
        }
        PlacedAfterPass(m0, m1, a.hint, page, h);
      } else {
        FoundDisk(m0, page, h, a.hint);
      }
      WriteHeader(hdr, page);
    }

    // ------------------------------------------------------- files on the disk

    /** A removed file is a reason to try a collection again. */
    method AllowCollection()
      requires Valid()
      modifies this`gcWait
      ensures Valid() && Disk() == old(Disk()) && !gcWait
      ensures old(Packs()) ==> Packs()
    {
      gcWait := false;
    }

    /** write_header over a live header. */
    method RewriteHeader(hdr: Header, page: int)
      requires Valid() && page in Disk() && hdr.Fits() && |Disk()[page]| >= HEADER_SIZE
      requires CanOverwrite(Decode(Disk()[page]), hdr) && hdr.maxPages == Decode(Disk()[page]).maxPages
      requires !Has(hdr.flags, HDR_FLAG_ISOLATED)
      modifies flash.cells
      ensures Valid()
      ensures var h := hdr.(flags := hdr.flags | HDR_FLAG_VALID);
        Disk() == if hdr.IsObsolete() then old(Disk()) - {page}
                  else old(Disk())[page := OrInto(old(Disk())[page], 0, Encode(h))]
      ensures old(Packs()) ==> Packs()
    {
      hide PageOf, PageBytes, Decode, Encode, Tiles, Unit, SectorEnd, PageClass, Base, FirstPage, FreshExtent;
      hide Eligible, Has, NoFreeBelow, AllZero, Collected, CollectedNextFree, LowestErased, PassState, SectorStats;
      hide SameActiveBytes, View, DiskOf, PassIsSafe, Aligned;
      ghost var h := hdr.(flags := hdr.flags | HDR_FLAG_VALID);
      ValidFlagOnly(hdr);
      PageOnDisk(Mem(), page);
      HeaderDisk(Mem(), page, h, nextFree);
      ghost var a, m := Alloc(), Mem();
      WriteHeader(hdr, page);
      assert Packed(a, PAGES_PER_SECTOR) ==> Packed(Alloc(), PAGES_PER_SECTOR) by {
        if Packed(a, PAGES_PER_SECTOR) {
          StillPacked(m, Mem(), page, 0, Encode(h), a);
        }
      }
    }

    /** read_header of a live extent. */
    method ReadFileHeader(page: int) returns (hdr: Header)
      requires Valid() && page in Disk()
      ensures |Disk()[page]| >= HEADER_SIZE && hdr == Decode(Disk()[page])
      ensures hdr.IsActive() && 0 <= page < PAGE_COUNT
    {
      hide PageOf, PageBytes, Decode, View, DiskOf, Position, NoFreeBelow, Sound;
      PageOnDisk(Mem(), page);
      DiskHeader(Mem(), page);
      hdr := ReadHeader(page);
    }

    /** The flash half of find_file: the quick-skip scan for the first file with this
        name. */
    method ScanFor(name: Bytes) returns (page: int, hdr: Header)
      requires Valid()
      ensures page == INVALID_PAGE ==> forall p :: p in Disk() ==> !Matches(Disk()[p], name)
      ensures page != INVALID_PAGE ==>
        && page in Disk() && Matches(Disk()[page], name) && hdr == Decode(Disk()[page])
        && forall p :: p in Disk() && p < page ==> !Matches(Disk()[p], name)
    {
      hide Unit, Tiles, SectorEnd, PageOf, PageBytes, Decode, Has, View, DiskOf, NoFreeBelow, Matches;
      hide Header.IsActive, Header.IsLog;
      var at := 0;
      page := INVALID_PAGE;
      ScanStarts(Mem());
      while at < PAGE_COUNT
        invariant ScanState(Mem(), at, name)
        decreases PAGE_COUNT - at
      {
        ScanStep(Mem(), at, name);
        hdr := ReadHeader(at);
        if hdr.IsActive() && !hdr.IsLog() && hdr.name == name {
          page := at;
          ScanFound(Mem(), at, name);
          return;
        }
        at := NextFile(at, hdr);
      }
      ScanEnds(Mem(), at, name);
      hdr := Header(0, 0, 0, 0, 0, 0, seq(NAME_LENGTH, _ => 0));
    }

    /** COFFEE_WRITE behind the header of a live extent. */
    method Program(page: int, off: nat, data: Bytes)
      requires Valid() && page in Disk() && HEADER_SIZE <= off && off + |data| <= |Disk()[page]|
      modifies flash.cells
      ensures Valid()
      ensures Disk() == old(Disk())[page := OrInto(old(Disk())[page], off, data)]
      ensures flash.Valid()
      ensures forall n :: Stalled(old(Alloc()), PAGES_PER_SECTOR, n) ==> Stalled(Alloc(), PAGES_PER_SECTOR, n)
      ensures old(Packs()) ==> Packs()
    {
      hide PageOf, PageBytes, Decode, Encode, Tiles, Unit, SectorEnd, PageClass, Base, FirstPage, FreshExtent;
      hide Eligible, Has, NoFreeBelow, AllZero, Collected, CollectedNextFree, LowestErased, PassState, SectorStats;
      hide SameActiveBytes, View, DiskOf, PassIsSafe, Aligned, Stalled;
      PageOnDisk(Mem(), page);
      ProgramDisk(Mem(), page, off, data, nextFree);
      ProgrammedOutside(Mem(), page, off, data);
      ghost var a, m := Alloc(), Mem();
      flash.Program(Base(page) + off, data);
      assert Packed(a, PAGES_PER_SECTOR) ==> Packed(Alloc(), PAGES_PER_SECTOR) by {
        if Packed(a, PAGES_PER_SECTOR) {
          StillPacked(m, Mem(), page, off, data, a);
        }
      }
      StallsOn(a, Layout(), page);
    }

    /** COFFEE_READ from a live extent. A log record may reach past the end of the
        extent, but never past the device, because the allocator leaves the last page
        alone. */
    method Read(page: int, off: nat, size: nat) returns (buf: Bytes)
      requires Valid() && page in Disk() && off + size <= |Disk()[page]| + PAGE_SIZE
      ensures |buf| == size
      ensures forall i :: 0 <= i < size && off + i < |Disk()[page]| ==> buf[i] == Disk()[page][off + i]
      ensures off + size <= |Disk()[page]| ==> buf == Disk()[page][off..off + size]
      ensures 0 <= page && Base(page) + off + size <= |Mem()| && buf == Mem()[Base(page) + off..Base(page) + off + size]
    {
      hide PageOf, PageBytes, Decode, View, DiskOf, Sound, Position, NoFreeBelow, Base;
      PageOnDisk(Mem(), page);
      buf := flash.Read(Base(page) + off, size);
      ReadSlice(Mem(), Base(page), Disk()[page], off, buf);
    }
  }

  /** The bytes of every page that belongs to an active extent of `L` are the same. */
  ghost predicate SameActiveBytes(L: Layout, m: Bytes, m': Bytes)
    requires |m| == |m'| == Base(PAGE_COUNT)
  {
    && WellFormed(L, PAGES_PER_SECTOR) && |L| == PAGE_COUNT
    && forall q :: 0 <= q < PAGE_COUNT && PageClass(L, PAGES_PER_SECTOR, 0, q) == Act ==>
         PageBytes(m', q) == PageBytes(m, q)
  }

  lemma WrittenIsolated(m: Bytes, h: Header, page: int)
    requires |m| == Base(PAGE_COUNT) && 0 <= page < PAGE_COUNT && h.Fits()
    requires h.flags == HDR_FLAG_ALLOCATED | HDR_FLAG_ISOLATED | HDR_FLAG_VALID
    requires Base(page) + HEADER_SIZE <= |m|
    ensures var m' := OrInto(m, Base(page), Encode(h));
      && PageOf(PageBytes(m', page)) == Isolated
      && forall q :: 0 <= q < PAGE_COUNT && q != page ==> PageBytes(m', q) == PageBytes(m, q)
  {
    hide Encode, PageOf, Decode, Has;
    var d := Encode(h);
    PageInDevice(page);
    BaseStep(page, 1);
    OrIntoSlice(m, Base(page), Base(page) + PAGE_SIZE, 0, d);
    PagesOutside(m, OrInto(m, Base(page), d), page, page + 1);
    IsolationWins(PageBytes(m, page), h);
  }

  lemma SamePage(m: Bytes, m': Bytes, q: int)
    requires |m| == |m'| == Base(PAGE_COUNT) && 0 <= q < PAGE_COUNT && PageBytes(m', q) == PageBytes(m, q)
    ensures View(m')[q] == View(m)[q]
  {
  }

  lemma SweptAt(L: Layout, n: nat, b: int, q: int)
    requires WellFormed(L, n) && 0 <= b <= |L| && 0 <= q < |L|
    ensures |Swept(L, n, b)| == |L| && Swept(L, n, b)[q] == SweptPage(L, n, b, q)
  {
  }

  /** One sector's share of the pass: `m1` with isolated pages behind the sector is `m2`,
      and `m2` without the sector is `m3`. */
  lemma ErasedSweep(L0: Layout, m1: Bytes, m2: Bytes, m3: Bytes, b: int, d: int, skip: int, la: bool)
    requires |m1| == |m2| == |m3| == Base(PAGE_COUNT) && |L0| == PAGE_COUNT
    requires WellFormed(L0, PAGES_PER_SECTOR) && Aligned(b, PAGES_PER_SECTOR)
    requires 0 <= b < |L0| && b + PAGES_PER_SECTOR <= |L0| && 0 <= IsolationCount(PAGES_PER_SECTOR, skip, la)
    requires Erasable(L0, PAGES_PER_SECTOR, b) && PassState(L0, PAGES_PER_SECTOR, b + PAGES_PER_SECTOR, skip, la)
    requires View(m1) == Swept(L0, PAGES_PER_SECTOR, b)
    requires d == b + PAGES_PER_SECTOR + IsolationCount(PAGES_PER_SECTOR, skip, la)
    requires forall q :: b + PAGES_PER_SECTOR <= q < d && q < |L0| ==> View(m2)[q] == Isolated
    requires forall q :: 0 <= q < PAGE_COUNT && !(b + PAGES_PER_SECTOR <= q < d) ==>
      PageBytes(m2, q) == PageBytes(m1, q)
    requires forall q :: b <= q < b + PAGES_PER_SECTOR ==> View(m3)[q] == Blank
    requires forall q :: 0 <= q < PAGE_COUNT && !(b <= q < b + PAGES_PER_SECTOR) ==>
      PageBytes(m3, q) == PageBytes(m2, q)
    ensures View(m3) == Swept(L0, PAGES_PER_SECTOR, b + PAGES_PER_SECTOR)
  {
    hide PassState, Erasable, PageBytes, View, WellFormed, Base, IsolationCount, SweptPage, Swept, Aligned;
    LayoutSize(m3);
    forall q | 0 <= q < |L0| && (q < b || q >= d)
      ensures View(m3)[q] == SweptPage(L0, PAGES_PER_SECTOR, b, q)
    {
      SamePage(m1, m2, q);
      SamePage(m2, m3, q);
      SweptAt(L0, PAGES_PER_SECTOR, b, q);
    }
    forall q | b + PAGES_PER_SECTOR <= q < d && q < |L0|
      ensures View(m3)[q] == Isolated
    {
      SamePage(m2, m3, q);
    }
    SweptErase(L0, PAGES_PER_SECTOR, b, skip, la, View(m3));
  }

  lemma SameActiveBytesRefl(L: Layout, m: Bytes)
    requires |m| == Base(PAGE_COUNT) && WellFormed(L, PAGES_PER_SECTOR) && |L| == PAGE_COUNT
    ensures SameActiveBytes(L, m, m)
  {
  }

  /** Erasing sector `b` and isolating `k` pages behind it leaves active pages alone. */
  lemma ErasedKeepsActive(L: Layout, b: int, k: int, m0: Bytes, m: Bytes, m': Bytes)
    requires |m0| == |m| == |m'| == Base(PAGE_COUNT) && SameActiveBytes(L, m0, m)
    requires 0 <= b && b + PAGES_PER_SECTOR + k <= |L|
    requires forall q :: b <= q < b + PAGES_PER_SECTOR + k ==> PageClass(L, PAGES_PER_SECTOR, 0, q) != Act
    requires forall q :: 0 <= q < PAGE_COUNT && !(b <= q < b + PAGES_PER_SECTOR + k) ==>
      PageBytes(m', q) == PageBytes(m, q)
    ensures SameActiveBytes(L, m0, m')
  {
  }

  /** next_file, for a page whose header is `hdr`. */
  function NextFile(page: nat, hdr: Header): int {
    if hdr.IsFree() then SectorEnd(page, PAGES_PER_SECTOR)
    else if hdr.IsIsolated() then page + 1
    else page + hdr.maxPages
  }

  lemma SearchInRange(L: Layout, from: int, page: int, start: int, amount: nat)
    requires SearchState(L, PAGES_PER_SECTOR, from, page, start, amount) && page < |L|
    ensures 0 <= page && L[page] != Dirty
    ensures page < Next(L, PAGES_PER_SECTOR, page)
    ensures start != INVALID_PAGE ==> start + amount < |L|
  {
    Step(L, PAGES_PER_SECTOR, from, page);
  }

  lemma HeaderTellsNext(m: Bytes, page: int)
    requires |m| == Base(PAGE_COUNT) && 0 <= page < PAGE_COUNT && View(m)[page] != Dirty
    ensures var hdr := Decode(PageBytes(m, page));
      && (hdr.IsFree() <==> View(m)[page] == Blank)
      && NextFile(page, hdr) == Next(View(m), PAGES_PER_SECTOR, page)
  {
    hide PageBytes, PageOf, Decode;
    HeaderTells(PageBytes(m, page));
  }

  lemma LayoutSize(m: Bytes)
    requires |m| == Base(PAGE_COUNT)
    ensures |View(m)| == PAGE_COUNT
  {
  }

  lemma HintWalk(m: Bytes, hint: int)
    requires Sound(m) && Position(View(m), PAGES_PER_SECTOR, hint)
    ensures Tiles(View(m), PAGES_PER_SECTOR, hint, PAGE_COUNT)
    ensures WellFormed(View(m), PAGES_PER_SECTOR)
  {
    TilesSplit(View(m), PAGES_PER_SECTOR, 0, hint, PAGE_COUNT);
  }

  lemma NoneFits(L: Layout, hint: int, amount: nat)
    requires Tiles(L, PAGES_PER_SECTOR, hint, |L|) && FirstFit(L, PAGES_PER_SECTOR, hint, amount) == -1
    ensures NoRoom(L, PAGES_PER_SECTOR, hint, amount)
  {
    assert forall x :: Eligible(L, PAGES_PER_SECTOR, hint, x, amount) ==> hint <= x;
  }

  /** After a pass, safe or not, the search can be repeated; after a safe one the volume
      is as good as before. */
  lemma CollectedDisk(m: Bytes, m': Bytes, hint: int, hint': int)
    requires Sound(m) && |m'| == |m| && View(m') == Collected(View(m), PAGES_PER_SECTOR)
    requires Position(View(m), PAGES_PER_SECTOR, hint) && NoFreeBelow(View(m), PAGES_PER_SECTOR, hint)
    requires hint' == CollectedNextFree(View(m), PAGES_PER_SECTOR, hint)
    requires SameActiveBytes(View(m), m, m')
    ensures Tiles(View(m'), PAGES_PER_SECTOR, hint', PAGE_COUNT)
    ensures PassIsSafe(View(m), PAGES_PER_SECTOR, hint) ==>
      && Sound(m') && DiskOf(m') == DiskOf(m)
      && Position(View(m'), PAGES_PER_SECTOR, hint') && NoFreeBelow(View(m'), PAGES_PER_SECTOR, hint')
  {
    hide PageOf, PageBytes, View, DiskOf, NoFreeBelow, Tiles, PassIsSafe, Collected, CollectedNextFree;
    LayoutSize(m);
    HintWalks(View(m), PAGES_PER_SECTOR, hint);
    if PassIsSafe(View(m), PAGES_PER_SECTOR, hint) {
      CollectDisk(m, m');
      HintStaysReachable(View(m), PAGES_PER_SECTOR, hint);
      PassKeepsNoFreeBelow(View(m), PAGES_PER_SECTOR, hint);
    }
  }

  /** The header of an extent that was found after a pass overwrites no active page. */
  lemma PlacedAfterPass(m: Bytes, m': Bytes, hint: int, start: int, h: Header)
    requires Sound(m) && |m'| == |m| && View(m') == Collected(View(m), PAGES_PER_SECTOR)
    requires Position(View(m), PAGES_PER_SECTOR, hint) && NoFreeBelow(View(m), PAGES_PER_SECTOR, hint)
    requires SameActiveBytes(View(m), m, m') && h.Fits() && h.maxPages >= 1 && h.IsActive()
    requires var hint' := CollectedNextFree(View(m), PAGES_PER_SECTOR, hint);
      && Tiles(View(m'), PAGES_PER_SECTOR, hint', PAGE_COUNT)
      && Eligible(View(m'), PAGES_PER_SECTOR, hint', start, h.maxPages)
      && Tiles(View(m'), PAGES_PER_SECTOR, hint', start)
    ensures 0 <= start && start + h.maxPages < PAGE_COUNT && Base(start) + HEADER_SIZE <= |m'|
    ensures var m2 := OrInto(m', Base(start), Encode(h));
      && View(m2) == View(m')[start := Active(h.maxPages)] && SameActiveBytes(View(m), m, m2)
      && (PassIsSafe(View(m), PAGES_PER_SECTOR, hint) ==>
            var hint' := CollectedNextFree(View(m), PAGES_PER_SECTOR, hint);
            var hint2 := if start == hint' then start + h.maxPages else hint';
            && start !in DiskOf(m) && Sound(m2) && DiskOf(m2) == DiskOf(m)[start := FreshExtent(h)]
            && Position(View(m2), PAGES_PER_SECTOR, hint2) && NoFreeBelow(View(m2), PAGES_PER_SECTOR, hint2))
  {
    hide PageOf, DiskOf, NoFreeBelow, Tiles, PassIsSafe, Collected, FreshExtent, Encode, Base, View, PageBytes;
    hide PageClass;
    var hint' := CollectedNextFree(View(m), PAGES_PER_SECTOR, hint);
    PlacedPages(m', hint', start, h);
    assert PageClass(View(m'), PAGES_PER_SECTOR, hint', start) == Fr;
    HintFindsNoActive(View(m), PAGES_PER_SECTOR, hint, start);
    CollectedDisk(m, m', hint, hint');
    if PassIsSafe(View(m), PAGES_PER_SECTOR, hint) {
      FoundDisk(m', start, h, hint');
    }
  }

  lemma FoundDisk(m: Bytes, start: int, h: Header, hint: int)
    requires Sound(m) && h.Fits() && h.maxPages >= 1 && h.IsActive()
    requires Position(View(m), PAGES_PER_SECTOR, hint) && NoFreeBelow(View(m), PAGES_PER_SECTOR, hint)
    requires Tiles(View(m), PAGES_PER_SECTOR, hint, PAGE_COUNT)
    requires Eligible(View(m), PAGES_PER_SECTOR, hint, start, h.maxPages)
    requires Tiles(View(m), PAGES_PER_SECTOR, hint, start)
    ensures 0 <= start && start + h.maxPages < PAGE_COUNT && Base(start) + HEADER_SIZE <= |m| && start !in DiskOf(m)
    ensures var m' := OrInto(m, Base(start), Encode(h));
      var hint' := if start == hint then start + h.maxPages else hint;
      && View(m') == View(m)[start := Active(h.maxPages)] && SameActiveBytes(View(m), m, m')
      && Sound(m') && DiskOf(m') == DiskOf(m)[start := FreshExtent(h)]
      && Position(View(m'), PAGES_PER_SECTOR, hint') && NoFreeBelow(View(m'), PAGES_PER_SECTOR, hint')
  {
    hide Tiles, Unit, PageBytes, PageOf, SectorEnd, Base, FreshExtent, Encode, PageClass, View;
    TilesConcat(View(m), PAGES_PER_SECTOR, 0, hint, start);
    HintMissesNothing(View(m), PAGES_PER_SECTOR, hint, start, h.maxPages);
    ReserveDisk(m, start, h, hint);
    ReservedPages(m, start, h);
    assert PageClass(View(m), PAGES_PER_SECTOR, 0, start) == Fr;
  }

  /** What a request for `amount` pages comes to on a packed volume. */
  ghost predicate Handed(hint: int, amount: nat, page: int, hint': int) {
    if hint + amount < PAGE_COUNT then page == hint && hint' == hint + amount
    else page == INVALID_PAGE && hint' == hint
  }

  lemma FlashIsValid(v: Volume)
    requires v.Valid()
    ensures v.flash.Valid()
  {
  }

  lemma AllocSane(v: Volume)
    requires v.Valid() && v.flash.Valid()
    ensures Sane(v.Alloc(), PAGES_PER_SECTOR) && v.Alloc().hint == v.nextFree && v.Alloc().gcWait == v.gcWait
  {
  }

  lemma PackedRequest(v: Volume, amount: nat)
    requires v.Valid() && v.Packs() && amount > 0 && (v.Disk() != map[] || v.nextFree + amount < PAGE_COUNT)
    ensures Sane(v.Alloc(), PAGES_PER_SECTOR) && !Strands(v.Alloc(), PAGES_PER_SECTOR, amount)
    ensures var (page, b) := Served(v.Alloc(), PAGES_PER_SECTOR, amount);
      0 <= v.nextFree && Packed(b, PAGES_PER_SECTOR) && Handed(v.nextFree, amount, page, b.hint)
  {
    hide Strands, Served, Base, PageOf, PageBytes, Tiles;
    TilesRange(v.Layout(), PAGES_PER_SECTOR, 0, v.nextFree);
    if v.nextFree + amount < PAGE_COUNT {
      PackedServed(v.Alloc(), PAGES_PER_SECTOR, amount, 0);
    } else {
      var p :| p in v.Disk();
      DiskAt(v.Mem(), p);
      PackedServed(v.Alloc(), PAGES_PER_SECTOR, amount, p);
    }
  }

  /** What is written to a live extent does not reach the pages behind the hint. */
  lemma StallsOn(a: Allocator, G: Layout, p: int)
    requires SameOutside(a.layout, G, PAGES_PER_SECTOR, p)
    ensures forall n :: Stalled(a, PAGES_PER_SECTOR, n) ==> Stalled(a.(layout := G), PAGES_PER_SECTOR, n)
  {
    hide Stalled, SameOutside;
    forall n | Stalled(a, PAGES_PER_SECTOR, n)
      ensures Stalled(a.(layout := G), PAGES_PER_SECTOR, n)
    {
      StaysStalled(a, G, PAGES_PER_SECTOR, p, n);
    }
  }

  lemma StillPacked(m: Bytes, m': Bytes, page: int, off: nat, data: Bytes, a: Allocator)
    requires Sound(m) && Sound(m') && page in DiskOf(m) && off + |data| <= |DiskOf(m)[page]|
    requires 0 <= page && Base(page) + off + |data| <= |m| && m' == OrInto(m, Base(page) + off, data)
    requires a.layout == View(m) && Packed(a, PAGES_PER_SECTOR) && Position(View(m'), PAGES_PER_SECTOR, a.hint)
    ensures Packed(a.(layout := View(m')), PAGES_PER_SECTOR)
  {
    hide Base, PageOf, PageBytes, Tiles, AllZero;
    DiskAt(m, page);
    var L := View(m);
    assert page < a.hint;
    NoPositionInside(L, PAGES_PER_SECTOR, page, a.hint);
    BaseStep(page, SpanOf(m, page));
    PagesOutside(m, m', page, page + SpanOf(m, page));
  }

  lemma ActiveHeader(h: Header)
    requires !Has(h.flags, HDR_FLAG_OBSOLETE) && !Has(h.flags, HDR_FLAG_ISOLATED) && Has(h.flags, HDR_FLAG_ALLOCATED)
    ensures h.(flags := h.flags | HDR_FLAG_VALID).IsActive()
    ensures h.Fits() ==> h.(flags := h.flags | HDR_FLAG_VALID).Fits()
  {
    HasSet(h.flags, HDR_FLAG_VALID);
  }

  lemma ValidFlagOnly(hdr: Header)
    ensures var h := hdr.(flags := hdr.flags | HDR_FLAG_VALID);
      && (h.Fits() <==> hdr.Fits()) && (h.IsObsolete() <==> hdr.IsObsolete())
      && (Has(h.flags, HDR_FLAG_ISOLATED) <==> Has(hdr.flags, HDR_FLAG_ISOLATED))
      && forall was :: CanOverwrite(was, hdr) ==> CanOverwrite(was, h)
  {
    HasSet(hdr.flags, HDR_FLAG_VALID);
  }

  lemma PageOnDisk(m: Bytes, page: int)
    requires Sound(m) && page in DiskOf(m)
    ensures 0 <= page < PAGE_COUNT
    ensures Base(page) + |DiskOf(m)[page]| + PAGE_SIZE <= |m|
    ensures DiskOf(m)[page] == m[Base(page)..Base(page) + |DiskOf(m)[page]|]
  {
    hide PageOf, PageBytes, Decode, Tiles, AllZero, SectorEnd;
    DiskAt(m, page);
    BaseStep(page, SpanOf(m, page));
    BaseOrder(page + SpanOf(m, page), PAGE_COUNT);
  }

  /** What was read, as far as the extent `ext` at `base` goes. */
  lemma ReadSlice(m: Bytes, base: nat, ext: Bytes, off: nat, buf: Bytes)
    requires base + |ext| <= |m| && ext == m[base..base + |ext|]
    requires base + off + |buf| <= |m| && buf == m[base + off..base + off + |buf|]
    ensures forall i :: 0 <= i < |buf| && off + i < |ext| ==> buf[i] == ext[off + i]
    ensures off + |buf| <= |ext| ==> buf == ext[off..off + |buf|]
  {
  }

  lemma OneSector()
    ensures SECTOR_COUNT == 1 ==> PAGE_COUNT == PAGES_PER_SECTOR
  {
    TimesIsProduct(1, PAGES_PER_SECTOR);
  }

  lemma BlankVolume(m: Bytes)
    requires |m| == Base(PAGE_COUNT) && forall p :: 0 <= p < PAGE_COUNT ==> View(m)[p] == Blank
    ensures Sound(m) && Position(View(m), PAGES_PER_SECTOR, 0) && NoFreeBelow(View(m), PAGES_PER_SECTOR, 0)
    ensures DiskOf(m) == map[]
  {
    DeviceSectors();
    BlankLayout(View(m), PAGES_PER_SECTOR);
  }

  lemma ErasedPages(m: Bytes)
    requires |m| == Base(PAGE_COUNT) && AllZero(m)
    ensures forall p :: 0 <= p < PAGE_COUNT ==> View(m)[p] == Blank
  {
    forall p | 0 <= p < PAGE_COUNT
      ensures PageOf(PageBytes(m, p)) == Blank
    {
      PageInDevice(p);
      assert AllZero(PageBytes(m, p));
    }
  }

  /** A file, not a log, with the given name. */
  predicate Matches(ext: Bytes, name: Bytes) {
    |ext| >= HEADER_SIZE && !Decode(ext).IsLog() && Decode(ext).name == name
  }

  /** The scan stands at `at` and has passed no file with this name. */
  ghost predicate ScanState(m: Bytes, at: int, name: Bytes) {
    && Sound(m) && 0 <= at && Position(View(m), PAGES_PER_SECTOR, at)
    && forall p :: p in DiskOf(m) && p < at ==> !Matches(DiskOf(m)[p], name)
  }

  lemma ScanStarts(m: Bytes)
    requires Sound(m)
    ensures forall name :: ScanState(m, 0, name)
  {
  }

  lemma ScanStep(m: Bytes, at: int, name: Bytes)
    requires ScanState(m, at, name) && at < PAGE_COUNT
    ensures var hdr := Decode(PageBytes(m, at));
      && at < NextFile(at, hdr)
      && (hdr.IsActive() <==> at in DiskOf(m))
      && (at in DiskOf(m) ==> |DiskOf(m)[at]| >= HEADER_SIZE && hdr == Decode(DiskOf(m)[at]))
      && (!(hdr.IsActive() && !hdr.IsLog() && hdr.name == name) ==> ScanState(m, NextFile(at, hdr), name))
  {
    hide Tiles, SectorEnd, PageOf, PageBytes, Decode, Has, AllZero;
    StepPosition(View(m), PAGES_PER_SECTOR, at);
    HeaderTellsNext(m, at);
    HeaderTells(PageBytes(m, at));
    DiskAt(m, at);
    if at in DiskOf(m) {
      DiskHeader(m, at);
    }
    forall p | p in DiskOf(m) && at < p
      ensures Next(View(m), PAGES_PER_SECTOR, at) <= p
    {
      DiskAt(m, p);
      NoPositionInside(View(m), PAGES_PER_SECTOR, at, p);
    }
  }

  lemma ScanFound(m: Bytes, at: int, name: Bytes)
    requires ScanState(m, at, name) && at in DiskOf(m) && |DiskOf(m)[at]| >= HEADER_SIZE
    requires !Decode(DiskOf(m)[at]).IsLog() && Decode(DiskOf(m)[at]).name == name
    ensures Matches(DiskOf(m)[at], name)
    ensures forall p :: p in DiskOf(m) && p < at ==> !Matches(DiskOf(m)[p], name)
  {
  }

  lemma ScanEnds(m: Bytes, at: int, name: Bytes)
    requires ScanState(m, at, name) && at >= PAGE_COUNT
    ensures forall p :: p in DiskOf(m) ==> !Matches(DiskOf(m)[p], name)
  {
  }
}
