/** The Coffee file operations. */
module CoffeeFiles {
  import opened FlashDevice
  import opened Headers
  import opened Disks
  import opened Searching
  import opened Allocations
  import opened Volumes
  import opened MicroLogs
  import opened FileStates
  import opened FileSteps
  import opened FileRemovals
  import opened FileLogs
  import opened FileMerges
  import opened FileWrites
  import opened WriteLoops
  import opened WriteFates

  /** Enough of the invariant to read through descriptor `k`. */
  ghost predicate CanRead(s: FsState, k: int) {
    && DiskOk(s.disk)
    && 0 <= k < |s.fds|
    && DescriptorOk(s.disk, s.files, s.fds[k])
    && (s.fds[k].IsOpen() ==> SlotOk(s.disk, s.files[s.fds[k].file]))
  }

  /** A readable descriptor's file, spelled out. */
  lemma OpenFile(s: FsState, k: int)
    requires CanRead(s, k) && s.fds[k].IsOpen()
    ensures var f := s.files[s.fds[k].file]; var D := s.disk;
      && f.page in D && IsFile(D, f.page) && FileOk(D, f.page)
      && |D[f.page]| == HEADER_SIZE + Capacity(Decode(D[f.page]))
      && 0 <= f.end <= Capacity(Decode(D[f.page]))
      && f.modified == Decode(D[f.page]).IsModified()
      && (f.modified ==> Decode(D[f.page]).logPage in D && LogOf(D, f.page) == D[Decode(D[f.page]).logPage]
                         && CleanLog(Decode(D[f.page]), LogOf(D, f.page)))
      && (f.recordCount >= 0 ==> f.modified && f.recordCount == Used(LogOf(D, f.page), 0, Records(Decode(D[f.page]))))
      && f.recordCount >= -1
      && Capacity(Decode(D[f.page])) <= Base(PAGE_COUNT)
  {
  }

  /** What read_log_page works with: a file with a log, and a usable record count. */
  ghost predicate LogReadable(D: Disk, p: int, recordCount: int) {
    && DiskOk(D) && IsModifiedFile(D, p)
    && recordCount <= Records(Decode(D[p]))
    && (recordCount >= 0 ==> Used(LogOf(D, p), 0, Records(Decode(D[p]))) <= recordCount)
  }

  lemma LogReadableParts(D: Disk, p: int, recordCount: int)
    requires LogReadable(D, p, recordCount)
    ensures DiskOk(D) && IsModifiedFile(D, p) && FileOk(D, p) && ConfigOk(Decode(D[p])) && RecordSize(Decode(D[p])) > 0
    ensures Decode(D[p]).logPage in D && LogOf(D, p) == D[Decode(D[p]).logPage]
    ensures CleanLog(Decode(D[p]), LogOf(D, p))
    ensures HEADER_SIZE + 2 * Records(Decode(D[p])) <= HEADER_SIZE + LogSize(Decode(D[p])) <= |LogOf(D, p)|
    ensures 0 <= Records(Decode(D[p]))
  {
    TableFits(Decode(D[p]));
  }

  class Coffee {
    const vol: Volume
    const files: array<Slot>
    const fds: array<Descriptor>
    /** How many requests for an extent, a slot or a descriptor were refused so far, and
        how many were not made because they would have stranded the allocator. */
    ghost var shortages: nat
    ghost var strandings: nat

    /** The tables are different objects from the device. */
    ghost predicate Apart() {
      && files as object != vol && files as object != vol.flash.cells
      && fds as object != vol && fds as object != vol.flash.cells
      && files as object != fds
    }

    ghost function Refusals(): nat
      reads this
    {
      shortages + strandings
    }

    ghost predicate Shape()
      reads vol, vol.flash.cells
    {
      && vol.Valid()
      && Apart()
      && files.Length == MAX_OPEN_FILES
      && fds.Length == FD_SET_SIZE
    }

    ghost function Fs(): (s: FsState)
      requires vol.Valid()
      reads vol, vol.flash.cells, files, fds
      ensures |s.files| == files.Length && |s.fds| == fds.Length
    {
      FsState(vol.Disk(), files[..], fds[..])
    }

    constructor ()
      ensures shortages == 0 && strandings == 0 && vol.nextFree == 0
      ensures forall k :: 0 <= k < fds.Length ==> !fds[k].IsOpen()
      ensures forall i :: 0 <= i < files.Length ==> files[i].IsFree()
      ensures SECTOR_COUNT == 1 ==> vol.Packs()
      ensures Shape() && Ok(Fs()) && Fs().disk == map[] && fresh(vol) && fresh(vol.flash) && fresh(vol.flash.cells)
      ensures fresh(files) && fresh(fds)
    {
      var v := new Volume();
      vol := v;
      files := new Slot[MAX_OPEN_FILES](_ => Slot(0, 0, 0, 0, 0, false));
      fds := new Descriptor[FD_SET_SIZE](_ => Descriptor(0, -1, COFFEE_FD_FREE));
      shortages, strandings := 0, 0;
      new;
      Formatted(Fs());
    }

    // ----------------------------------------------------------------- reading

    /** A batch of a region table, no more than the buffer for it takes. */
    method ReadTable(logPage: int, base: nat, count: nat) returns (indices: Bytes)
      requires vol.Valid() && logPage in vol.Disk() && count <= LOG_TABLE_LIMIT
      requires base + 2 * count <= |vol.Disk()[logPage]|
      ensures indices == vol.Disk()[logPage][base..base + 2 * count]
    {
      hide Volume.Valid, Volume.Disk;
      indices := vol.Read(logPage, base, 2 * count);
    }

    /** Searches the region table backwards, a batch at a time. */
    method GetRecordIndex(logPage: int, searchRecords: nat, region: nat) returns (match_: int)
      requires vol.Valid() && logPage in vol.Disk() && LOG_TABLE_LIMIT > 0
      requires HEADER_SIZE + 2 * searchRecords <= |vol.Disk()[logPage]|
      ensures match_ == Newest(vol.Disk()[logPage], searchRecords, region)
    {
      hide Volume.Valid, Volume.Disk;
      hide Newest, Entry, Word;
      ghost var log := vol.Disk()[logPage];
      var base := HEADER_SIZE + 2 * searchRecords;
      var batchSize := if searchRecords > LOG_TABLE_LIMIT then LOG_TABLE_LIMIT else searchRecords;
      var processed := 0;
      match_ := -1;
      while processed < searchRecords && match_ < 0
        invariant 0 <= processed <= searchRecords
        invariant processed < searchRecords ==> 0 < batchSize <= LOG_TABLE_LIMIT
        invariant base == HEADER_SIZE + 2 * (searchRecords - processed)
        invariant match_ >= 0 ==> match_ == Newest(log, searchRecords, region)
        invariant match_ < 0 ==>
          match_ == -1 && Newest(log, searchRecords - processed, region) == Newest(log, searchRecords, region)
        decreases searchRecords - processed
      {
        if batchSize + processed > searchRecords {
          batchSize := searchRecords - processed;
        }
        base := base - 2 * batchSize;
        var indices := ReadTable(logPage, base, batchSize);
        var i := batchSize - 1;
        while i >= 0
          invariant -1 <= i < batchSize
          invariant Newest(log, searchRecords - processed - (batchSize - 1 - i), region)
            == Newest(log, searchRecords, region)
        {
          EntryInBatch(log, searchRecords - processed - batchSize, batchSize, indices, i);
          NewestStep(log, searchRecords - processed - (batchSize - 1 - i), region);
          if Word(indices, 2 * i) - 1 == region {
            match_ := searchRecords - processed - (batchSize - i);
            break;
          }
          i := i - 1;
        }
        processed := processed + batchSize;
      }
      if match_ < 0 {
        NewestStep(log, 0, region);
      }
    }

    /** read_log_page. The request is clipped to its region whether or not the log has
        a record for it. */
    method ReadLogPage(hdr: Header, recordCount: int, offset: nat, size: nat, ghost page: int)
        returns (r: int, clipped: nat, buf: Bytes)
      requires vol.Valid() && page in vol.Disk() && LogReadable(vol.Disk(), page, recordCount)
      requires hdr == Decode(vol.Disk()[page])
      requires RecordSize(hdr) > 0
      ensures clipped == Chunk(offset, size, RecordSize(hdr))
      ensures HEADER_SIZE + 2 * Records(hdr) <= |LogOf(vol.Disk(), page)|
      ensures var k := Newest(LogOf(vol.Disk(), page), Records(hdr), Region(offset, RecordSize(hdr)));
        if k < 0 then r == -1
        else
          && r == clipped == |buf|
          && var at := RecordAt(hdr, k) + Within(offset, RecordSize(hdr));
             at + clipped <= |LogOf(vol.Disk(), page)| && buf == LogOf(vol.Disk(), page)[at..at + clipped]
    {
      hide Volume.Valid, Volume.Disk;
      hide Newest, Used, CleanLog, ConfigOk, DiskOk, FileOk, IsModifiedFile, LogOf, Times, Region, Within, Chunk;
      hide LogReadable, Decode, RecordAt, Records;
      ghost var D := vol.Disk();
      ghost var log := LogOf(D, page);
      LogReadableParts(D, page, recordCount);
      var logRecordSize, logRecords := RecordSize(hdr), Records(hdr);
      var region := Region(offset, logRecordSize);
      clipped := Chunk(offset, size, logRecordSize);
      var searchRecords := if recordCount < 0 then logRecords else recordCount;
      SearchBound(D, page, recordCount, region);
      var matchIndex := GetRecordIndex(hdr.logPage, searchRecords, region);
      buf := [];
      if matchIndex < 0 {
        r := -1;
      } else {
        RecordInside(hdr, log, matchIndex, offset, size);
        buf := vol.Read(hdr.logPage, RecordAt(hdr, matchIndex) + Within(offset, logRecordSize), clipped);
        r := clipped;
      }
    }

    /** The body of cfs_read's loop: the newest record for the region, or else the
        extent itself. */
    method ReadChunk(hdr: Header, file: Slot, o: nat, bytesLeft: nat, ghost s: FsState, ghost fd: int)
        returns (c: nat, part: Bytes)
      requires vol.Valid() && vol.Disk() == s.disk && CanRead(s, fd) && IsOpenFd(s, fd)
      requires file == s.files[s.fds[fd].file] && file.modified
      requires file.page in s.disk && |s.disk[file.page]| >= HEADER_SIZE && hdr == Decode(s.disk[file.page])
      requires 0 < bytesLeft && o + bytesLeft <= |Data(s, fd)|
      ensures 0 < c <= bytesLeft && part == Data(s, fd)[o..o + c]
    {
      hide Volume.Valid, Volume.Disk, Data;
      hide DiskOk, FileOk, IsFile, IsModifiedFile, LogOf, CleanLog, ConfigOk, ByteAt, Times, Newest, Region, Within;
      hide Used, Decode, CanRead, LogReadable, ZeroFrom;
      OpenFile(s, fd);
      ReadBounds(s, fd);
      LoggedRead(s, fd, o, bytesLeft);
      var r, clipped, buf := ReadLogPage(hdr, file.recordCount, o, bytesLeft, file.page);
      c, part := clipped, buf;
      if r < 0 {
        part := vol.Read(file.page, HEADER_SIZE + o, clipped);
      }
    }

    /** The loop of cfs_read over a file with a log. */
    method ReadLogged(fd: int, file: Slot, n: nat, ghost s: FsState) returns (buf: Bytes)
      requires vol.Valid() && Apart() && s == Fs() && CanRead(s, fd) && IsOpenFd(s, fd)
      requires file == s.files[s.fds[fd].file] && file.modified && file.page in s.disk
      requires 0 <= s.fds[fd].offset && s.fds[fd].offset + n <= |Data(s, fd)|
      modifies fds
      ensures buf == Data(s, fd)[s.fds[fd].offset..s.fds[fd].offset + n]
      ensures fds[..] == s.fds[fd := s.fds[fd].(offset := s.fds[fd].offset + n)]
    {
      hide Volume.Valid, Volume.Disk, Data, CanRead, Decode;
      var hdr := vol.ReadFileHeader(file.page);
      ghost var o0 := fds[fd].offset;
      buf := [];
      var bytesLeft: int := n;
      while bytesLeft > 0
        invariant 0 <= bytesLeft <= n
        invariant vol.Valid() && vol.Disk() == s.disk
        invariant fds[..] == s.fds[fd := s.fds[fd].(offset := o0 + n - bytesLeft)]
        invariant buf == Data(s, fd)[o0..o0 + n - bytesLeft]
      {
        var c, part := ReadChunk(hdr, file, fds[fd].offset, bytesLeft, s, fd);
        fds[fd] := fds[fd].(offset := fds[fd].offset + c);
        buf := buf + part;
        bytesLeft := bytesLeft - c;
      }
    }

    /** cfs_read. Only the descriptor's offset changes. The call does not look where the
        extent of a file without a log ends: if the file's end was moved beyond it, so
        are the bytes. */
    method CfsRead(fd: int, size: nat) returns (r: int, buf: Bytes)
      requires vol.Valid() && Apart() && (0 <= fd < fds.Length ==> CanRead(Fs(), fd) || Overruns(Fs(), fd))
      modifies fds
      ensures !Readable(old(Fs()), fd) ==> r == -1 && fds[..] == old(fds[..])
      ensures Readable(old(Fs()), fd) ==>
        && (CanRead(old(Fs()), fd) ==> ReadResult(old(Fs()), fd, size, r, buf))
        && (Overruns(old(Fs()), fd) ==> RawResult(old(Fs()), vol.Mem(), fd, size, r, buf))
        && fds[..] == old(fds[..])[fd := old(fds[fd]).(offset := old(fds[fd].offset) + r)]
    {
      hide Volume.Valid, Volume.Disk, Volume.Mem, Data, ReadResult, Descriptor.IsReadable, Descriptor.IsOpen, CanRead;
      hide Base;
      if fd < 0 || fd >= fds.Length || !fds[fd].IsOpen() || !fds[fd].IsReadable() {
        return -1, [];
      }
      ghost var s0 := Fs();
      ReadReady(s0, fd);
      var file := files[fds[fd].file];
      var n: int := size;
      if fds[fd].offset + size > file.end {
        n := file.end - fds[fd].offset;
      }
      if !file.modified {
        buf := vol.Read(file.page, HEADER_SIZE + fds[fd].offset, n);
        if CanRead(s0, fd) {
          PlainRead(s0, fd, n, size, buf);
        }
        fds[fd] := fds[fd].(offset := fds[fd].offset + n);
        return n, buf;
      }
      ReadSetup(s0, fd);
      buf := ReadLogged(fd, file, n, s0);
      r := n;
      LoggedResult(s0, fd, n, size, buf);
    }

    // ------------------------------------------------------------- the tables

    /** What holds between calls. */
    ghost predicate Valid()
      reads vol, vol.flash.cells, files, fds
    {
      Shape() && Ok(Fs())
    }

    /** A packed volume with pages to spare or not, but with a slot and a descriptor. */
    ghost predicate Ready()
      reads vol, vol.flash.cells, files, fds
    {
      vol.Packs() && HasSlot(files[..]) && HasFd(fds[..])
    }

    method GetAvailableFd() returns (fd: int)
      ensures fd == -1 ==> forall k :: 0 <= k < fds.Length ==> fds[k].IsOpen()
      ensures fd != -1 ==> 0 <= fd < fds.Length && !fds[fd].IsOpen() && forall k :: 0 <= k < fd ==> fds[k].IsOpen()
    {
      for i := 0 to fds.Length
        invariant forall k :: 0 <= k < i ==> fds[k].IsOpen()
      {
        if fds[i].flags == COFFEE_FD_FREE {
          return i;
        }
      }
      return -1;
    }

    /** load_file: a free slot if there is one, else an unreferenced one. */
    method LoadFile(start: int, hdr: Header) returns (i: int)
      modifies files
      ensures i == -1 ==> files[..] == old(files[..]) && forall j :: !Loadable(old(files[..]), j)
      ensures i != -1 ==>
        && Loadable(old(files[..]), i)
        && files[..] == old(files[..])[
             i := Slot(UNKNOWN_OFFSET, start, hdr.maxPages, -1, old(files[i].references), hdr.IsModified())]
        && SlotChoice(old(files[..]), i)
    {
      var unreferenced, free := -1, -1;
      i := 0;
      while i < files.Length
        invariant 0 <= i <= files.Length && free == -1
        invariant forall j :: 0 <= j < i ==> !files[j].IsFree()
        invariant forall j :: (if unreferenced == -1 then 0 else unreferenced + 1) <= j < i ==> !Loadable(files[..], j)
        invariant unreferenced != -1 ==> unreferenced < i && Loadable(files[..], unreferenced)
      {
        if files[i].IsFree() {
          free := i;
          break;
        } else if files[i].references == 0 {
          unreferenced := i;
        }
        i := i + 1;
      }
      if free == -1 {
        if unreferenced != -1 {
          i := unreferenced;
        } else {
          return -1;
        }
      }
      files[i] := files[i].(page := start, end := UNKNOWN_OFFSET, maxPages := hdr.maxPages,
        modified := hdr.IsModified(), recordCount := -1);
    }

    /** find_file: the cached files first, then the flash. */
    method FindFile(name: Bytes) returns (i: int)
      requires Valid()
      modifies files
      ensures Valid() && FoundFile(old(Fs()), Fs(), i, name)
    {
      hide Volume.Valid, Volume.Disk, Ok, DiskOk, Decode, FileOk, SlotOk, SameViews;
      ghost var s := Fs();
      for j := 0 to files.Length
        invariant files[..] == s.files && vol.Valid() && vol.Disk() == s.disk
        invariant forall k :: 0 <= k < j ==> !CachedAs(s, k, name)
      {
        if !files[j].IsFree() {
          CachedOnDisk(s, j);
          var hdr := vol.ReadFileHeader(files[j].page);
          if !hdr.IsLog() && hdr.name == name {
            return j;
          }
        }
      }
      var page, hdr := vol.ScanFor(name);
      if page == INVALID_PAGE {
        assert forall p :: p in vol.Disk() ==> !Matches(vol.Disk()[p], name);
        StoredMatches(s, name);
        return -1;
      }
      i := LoadFile(page, hdr);
      if i != -1 {
        FreeUnreferenced(s, i);
        LoadsOk(s, Fs(), i, name);
      }
    }

    /** file_end */
    method FileEnd(page: int) returns (end: int)
      requires vol.Valid() && page in vol.Disk() && Shaped(vol.Disk())
      ensures end == EndOf(vol.Disk()[page])
    {
      hide Volume.Valid, Volume.Disk, Decode, Times;
      ghost var ext := vol.Disk()[page];
      var hdr := vol.ReadFileHeader(page);
      var p: int := hdr.maxPages - 1;
      while p >= 0
        invariant -1 <= p < hdr.maxPages
        invariant forall x :: Base(p + 1) <= x < |ext| ==> ext[x] == 0
      {
        BaseStep(p, 1);
        BaseOne();
        BaseOrder(p + 1, hdr.maxPages);
        var buf := vol.Read(page, Base(p), PAGE_SIZE);
        var i: int := PAGE_SIZE - 1;
        while i >= 0
          invariant -1 <= i < PAGE_SIZE
          invariant forall x :: Base(p) + i < x < |ext| ==> ext[x] == 0
        {
          if buf[i] != 0 {
            TrimmedIs(ext, Base(p) + i + 1);
            if p == 0 && i < HEADER_SIZE {
              return 0;
            }
            PastHeader(p, i);
            return 1 + i + Base(p) - HEADER_SIZE;
          }
          i := i - 1;
        }
        p := p - 1;
      }
      BaseOne();
      TrimmedIs(ext, 0);
      return 0;
    }

    /** There is no run of so many free pages, and there is none after a pass either, or a
        pass is not worth a try. */
    ghost predicate NoSpace(pages: nat)
      reads vol, vol.flash.cells
    {
      && vol.flash.Valid() && Sane(vol.Alloc(), PAGES_PER_SECTOR)
      && Starved(vol.Alloc(), PAGES_PER_SECTOR, pages)
    }

    /** To make room for so many pages would take a pass that strands the allocator. */
    ghost predicate Stranding(pages: nat)
      reads vol, vol.flash.cells
    {
      && vol.flash.Valid() && Sane(vol.Alloc(), PAGES_PER_SECTOR)
      && Strands(vol.Alloc(), PAGES_PER_SECTOR, pages)
    }

    /** An extent of so many pages can be had, and a slot for it. */
    ghost predicate CanMake(pages: nat)
      reads vol, vol.flash.cells, files
    {
      !NoSpace(pages) && !Stranding(pages) && HasSlot(files[..])
    }

    /** And there is a descriptor for the copying of merge_log. */
    ghost predicate CanMerge(pages: nat)
      reads vol, vol.flash.cells, files, fds
    {
      CanMake(pages) && HasFd(fds[..])
    }

    /** What a refusal for so many pages leaves behind: no room, and no pass to be tried; or
        no slot; or no descriptor where one is needed for copying. */
    ghost predicate Denied(pages: nat, copying: bool)
      reads vol, vol.flash.cells, files, fds
    {
      || (vol.flash.Valid() && Stalled(vol.Alloc(), PAGES_PER_SECTOR, pages))
      || !HasSlot(files[..]) || (copying && !HasFd(fds[..]))
    }

    /** The next record of the file in slot `i` needs pages, and they are denied. */
    ghost predicate Blocked(i: int)
      reads this, vol, vol.flash.cells, files, fds
    {
      && 0 <= i < files.Length && vol.Valid()
      && NeedAt(vol.Disk(), files[i]) > 0 && Denied(NeedAt(vol.Disk(), files[i]), files[i].modified)
    }

    /** A write of `size` bytes at `fd` needs a larger extent, and it is denied. */
    ghost predicate Cramped(fd: int, size: int)
      reads this, vol, vol.flash.cells, files, fds
    {
      && 0 <= fd < fds.Length && 0 <= fds[fd].file < files.Length
      && var f := files[fds[fd].file];
         size + fds[fd].offset + HEADER_SIZE > Base(f.maxPages) && Denied(MergePages(f, 1), true)
    }

    /** The page half of reserve. The request is not made if it would run a pass that
        strands the allocator. */
    method ReservePages(hdr: Header) returns (page: int)
      requires Valid() && hdr.Fits() && hdr.maxPages >= 1
      requires !Has(hdr.flags, HDR_FLAG_OBSOLETE) && !Has(hdr.flags, HDR_FLAG_ISOLATED)
      requires Has(hdr.flags, HDR_FLAG_ALLOCATED)
      modifies vol, vol.flash.cells, this`shortages, this`strandings
      ensures vol.Valid() && Sane(old(vol.Alloc()), PAGES_PER_SECTOR)
      ensures strandings == old(strandings) + if old(Stranding(hdr.maxPages)) then 1 else 0
      ensures page == INVALID_PAGE ==> vol.Disk() == old(vol.Disk()) && Refusals() == old(Refusals()) + 1
      ensures page == INVALID_PAGE <==> old(NoSpace(hdr.maxPages)) || old(Stranding(hdr.maxPages))
      ensures page == INVALID_PAGE ==>
        vol.flash.Valid() && Stalled(vol.Alloc(), PAGES_PER_SECTOR, hdr.maxPages)
      ensures shortages > old(shortages) ==> old(NoSpace(hdr.maxPages))
      ensures page != INVALID_PAGE ==>
        && 0 <= page && page + hdr.maxPages < PAGE_COUNT && page !in old(vol.Disk()) && Refusals() == old(Refusals())
        && vol.Disk() == old(vol.Disk())[page := FreshExtent(hdr.(flags := hdr.flags | HDR_FLAG_VALID))]
      ensures old(vol.Packs()) && (old(vol.Disk()) != map[] || old(vol.nextFree) + hdr.maxPages < PAGE_COUNT) ==>
        && 0 <= old(vol.nextFree) && vol.Packs() && strandings == old(strandings)
        && Handed(old(vol.nextFree), hdr.maxPages, page, vol.nextFree)
    {
      hide Volume.Valid, Volume.Disk, Volume.Layout, FreshExtent, Ok, Has, Served, Strands, Sane, NoRoom, Packed;
      hide Starved, Stalled;
      if vol.Packs() && (vol.Disk() != map[] || vol.nextFree + hdr.maxPages < PAGE_COUNT) {
        PackedRequest(vol, hdr.maxPages);
      }
      FlashIsValid(vol);
      AllocSane(vol);
      StalledEither(vol.Alloc(), PAGES_PER_SECTOR, hdr.maxPages);
      var strands := vol.WouldStrand(hdr.maxPages);
      if strands {
        strandings := strandings + 1;
        return -1;
      }
      ghost var a := vol.Alloc();
      page := vol.Reserve(hdr);
      if page == INVALID_PAGE {
        AllocSane(vol);
        RefusedStalls(a, PAGES_PER_SECTOR, hdr.maxPages, vol.Alloc());
        shortages := shortages + 1;
      }
    }

    /** reserve with duplicates allowed, which is how every file operation calls it. */
    method Reserve(name: Bytes, pages: nat, flags: bv8) returns (i: int)
      requires Valid() && |name| == NAME_LENGTH && 1 <= pages < 0x1_0000
      requires flags == 0 || flags == HDR_FLAG_LOG
      modifies vol, vol.flash.cells, files, this`shortages, this`strandings
      ensures vol.Valid() && Reserved(old(Fs()), Fs(), i, ReservedHeader(name, pages, flags))
      ensures Sane(old(vol.Alloc()), PAGES_PER_SECTOR)
      ensures strandings == old(strandings) + if old(Stranding(pages)) then 1 else 0
      ensures i == -1 ==> Refusals() == old(Refusals()) + 1
      ensures i != -1 <==> old(CanMake(pages))
      ensures i == -1 ==> Denied(pages, false)
      ensures shortages > old(shortages) ==> old(NoSpace(pages)) || !HasSlot(old(files[..]))
      ensures i != -1 ==> Refusals() == old(Refusals()) && 0 <= files[i].page < PAGE_COUNT
      ensures old(vol.Packs()) && (old(vol.Disk()) != map[] || old(vol.nextFree) + pages < PAGE_COUNT) ==>
        && vol.Packs() && strandings == old(strandings)
        && Supplied(old(vol.nextFree), pages, old(files[..]), vol.nextFree, i != -1)
        && (i != -1 ==> files[i].page == old(vol.nextFree))
    {
      hide Volume.Valid, Volume.Disk, Volume.Layout, Volume.Packs, Decode, FreshExtent, Ok, Has, SlotOk, Strands;
      hide Sane, NoRoom, NoSpace, Stranding, Starved;
      ghost var s := Fs();
      var hdr := Header(0, 0, 0, pages, 0, HDR_FLAG_ALLOCATED | flags, name);
      ReservedFlags(name, pages, flags);
      var page := ReservePages(hdr);
      if page == INVALID_PAGE {
        return -1;
      }
      i := LoadFile(page, hdr);
      assert i != -1 ==> Loadable(s.files, i);
      if i != -1 {
        FreeUnreferenced(s, i);
        files[i] := files[i].(end := 0);
      } else {
        shortages := shortages + 1;
      }
    }

    /** cfs_close */
    method CfsClose(fd: int)
      requires Valid()
      modifies files, fds
      ensures Valid()
      ensures IsOpenFd(old(Fs()), fd) ==>
        && OpenCount(old(fds[..]), old(fds[fd].file)) > 0
        && Fs() == Closed(old(Fs()), fd)
      ensures !IsOpenFd(old(Fs()), fd) ==> Fs() == old(Fs())
      ensures (0 <= fd < fds.Length ==> !fds[fd].IsOpen()) && (HasSlot(old(files[..])) ==> HasSlot(files[..]))
      ensures !IsOpenFd(Fs(), fd) && forall k :: 0 <= k < fds.Length && k != fd ==> SameView(old(Fs()), Fs(), k)
    {
      hide Volume.Valid, Volume.Disk, Ok, OpenCount, Content, Data, SameView;
      ghost var s := Fs();
      if 0 <= fd < fds.Length && fds[fd].IsOpen() {
        OpenInRange(s, fd);
        ClosedOk(s, fd);
        ClosedCount(s, fd);
        fds[fd] := fds[fd].(flags := COFFEE_FD_FREE);
        files[fds[fd].file] := files[fds[fd].file].(references := files[fds[fd].file].references - 1);
        fds[fd] := fds[fd].(file := -1);
        assert Fs() == Closed(s, fd);
        SlotsAfterClosing(s, fd);
      } else {
        SameViewsRefl(s);
        assert Fs() == s;
      }
    }

    /** cfs_seek. The check against the size of the extent forgets the header: the call
        keeps the file layer intact exactly when the new offset leaves room for it. */
    method CfsSeek(fd: int, offset: int, whence: SeekFrom) returns (r: int)
      requires Valid()
      modifies files, fds
      ensures vol.Valid() && vol.Disk() == old(vol.Disk())
      ensures var to := SeekTarget(old(Fs()), fd, offset, whence);
        if IsOpenFd(old(Fs()), fd) && 0 <= to <= Base(old(files[fds[fd].file].maxPages)) then
          && r == to
          && Fs() == Sought(old(Fs()), fd, to)
          && (Valid() <==> to + HEADER_SIZE <= Base(old(files[fds[fd].file].maxPages)))
        else r == -1 && Fs() == old(Fs())
    {
      hide Volume.Valid, Volume.Disk, Ok, Base, OpenCount;
      ghost var s := Fs();
      if !(0 <= fd < fds.Length && fds[fd].IsOpen()) {
        return -1;
      }
      OpenInRange(s, fd);
      var newOffset :=
        match whence
        case SeekSet => offset
        case SeekEnd => files[fds[fd].file].end + offset
        case SeekCur => fds[fd].offset + offset;
      if newOffset < 0 || newOffset > Base(files[fds[fd].file].maxPages) {
        return -1;
      }
      SoughtOk(s, fd, newOffset);
      OpenMaxPages(s, fd);
      if files[fds[fd].file].end < newOffset {
        files[fds[fd].file] := files[fds[fd].file].(end := newOffset);
      }
      fds[fd] := fds[fd].(offset := newOffset);
      r := newOffset;
      assert Fs() == Sought(s, fd, newOffset);
    }

    /** A new file of the default size. */
    method Create(name: Bytes) returns (i: int)
      requires Valid() && |name| == NAME_LENGTH && FoundFile(Fs(), Fs(), -1, name)
      modifies vol, vol.flash.cells, files, this`shortages, this`strandings
      ensures Valid() && SameViews(old(Fs()), Fs()) && i >= -1
      ensures i >= 0 ==> OpenedContent(old(Fs()), Fs(), i, name) && OpenedAside(old(Fs()), Fs(), i) && NewFile(Fs(), i)
      ensures i >= 0 ==> Refusals() == old(Refusals())
      ensures i < 0 ==> Refusals() > old(Refusals())
      ensures i >= 0 <==> old(CanMake(PageCountFor(DYN_SIZE)))
      ensures shortages > old(shortages) ==> old(NoSpace(PageCountFor(DYN_SIZE))) || !HasSlot(old(files[..]))
      ensures vol.flash.Valid()
      ensures old(vol.Packs()) && old(vol.nextFree) + PageCountFor(DYN_SIZE) < PAGE_COUNT ==>
        && vol.Packs() && vol.nextFree == old(vol.nextFree) + PageCountFor(DYN_SIZE)
        && (i >= 0 <==> HasSlot(old(files[..]))) && strandings == old(strandings)
        && (i >= 0 ==> files[i].page == old(vol.nextFree))
    {
      hide Volume.Packs, Volume.Valid, Volume.Disk, Ok, Reserved, FoundFile, OpenCount, SameViews, OpenedContent;
      hide OpenedAside, ByteAt, Decode, EndOf, Content, NoSpace, Stranding, CanMake, HasSlot;
      ghost var s := Fs();
      ghost var h := ReservedHeader(name, PageCountFor(DYN_SIZE), 0);
      PageCountIsCeiling(DYN_SIZE);
      i := Reserve(name, PageCountFor(DYN_SIZE), 0);
      FlashIsValid(vol);
      if i == -1 {
        NotReserved(s, Fs(), h);
        return -1;
      }
      CreatedFile(s, Fs(), i, name, PageCountFor(DYN_SIZE));
      CreatedNew(s, Fs(), i, h);
      files[i] := files[i].(end := 0);
      CreatedAside(s, Fs(), i, h);
    }

    /** The size of a file that was found is made known. */
    method Measure(i: int, ghost s: FsState, name: Bytes)
      requires Valid() && Ok(s) && FoundFile(s, Fs(), i, name) && i != -1
      modifies files
      ensures Valid() && SameViews(s, Fs()) && 0 <= i < files.Length
      ensures OpenedContent(s, Fs(), i, name) && OpenedAside(s, Fs(), i) && FindsKnown(s, Fs(), i, name)
    {
      hide Volume.Valid, Volume.Disk, Ok, FoundFile, OpenCount, SameViews, OpenedContent;
      hide OpenedAside, ByteAt, Decode, EndOf, Content;
      ghost var s1 := Fs();
      FoundOk(s, s1, i, name);
      FoundKnown(s, s1, i, name);
      FoundContent(s, s1, i, name);
      FoundAside(s, s1, i, name);
      if files[i].end == UNKNOWN_OFFSET {
        var end := FileEnd(files[i].page);
        files[i] := files[i].(end := end);
        SizedContent(s, s1, Fs(), i, name);
        SlotAside(s, s1, Fs(), i);
      }
    }

    /** The part of cfs_open that finds the file, or creates it, and makes its size
        known. */
    method FindOrCreate(name: Bytes, flags: bv8) returns (i: int)
      requires Valid() && |name| == NAME_LENGTH
      modifies vol, vol.flash.cells, files, this`shortages, this`strandings
      ensures Valid() && SameViews(old(Fs()), Fs())
      ensures i < 0 ==> i == -1
      ensures i >= 0 ==> OpenedContent(old(Fs()), Fs(), i, name) && OpenedAside(old(Fs()), Fs(), i)
      ensures FindsKnown(old(Fs()), Fs(), i, name)
      ensures i >= 0 && !Findable(old(Fs()), name) ==> NewFile(Fs(), i)
      ensures i >= 0 ==> Refusals() == old(Refusals())
      ensures Refusals() >= old(Refusals())
      ensures i < 0 && Refusals() == old(Refusals()) ==>
        Fs() == old(Fs()) && flags & (CFS_READ | CFS_WRITE) == CFS_READ && NotFound(old(Fs()), name)
      ensures i >= 0 <==>
        || Findable(old(Fs()), name)
        || (flags & (CFS_READ | CFS_WRITE) != CFS_READ && old(CanMake(PageCountFor(DYN_SIZE))))
      ensures shortages > old(shortages) ==>
        && !Findable(old(Fs()), name) && flags & (CFS_READ | CFS_WRITE) != CFS_READ
        && (old(NoSpace(PageCountFor(DYN_SIZE))) || !HasSlot(old(files[..])))
      ensures vol.flash.Valid() && (Findable(old(Fs()), name) ==> vol.Alloc() == old(vol.Alloc()))
      ensures old(vol.Packs()) && IsKnown(old(Fs()), name) ==>
        vol.Packs() && vol.nextFree == old(vol.nextFree) && strandings == old(strandings)
      ensures old(vol.Packs()) && Creates(old(Fs()), name, flags, old(vol.nextFree)) ==>
        && vol.Packs() && vol.nextFree == old(vol.nextFree) + PageCountFor(DYN_SIZE)
        && (i >= 0 <==> HasSlot(old(files[..]))) && strandings == old(strandings)
        && (i >= 0 ==> NewFile(Fs(), i) && files[i].page == old(vol.nextFree))
    {
      hide Volume.Packs, Volume.Valid, Volume.Disk, Ok, Reserved, FoundFile, OpenCount, SameViews, OpenedContent;
      hide OpenedAside, ByteAt, Decode, EndOf, Content, NoSpace, Stranding, Findable, HasSlot, NewFile;
      hide Volume.Alloc, KnownAs, NotFound;
      ghost var s := Fs();
      FlashIsValid(vol);
      i := FindFile(name);
      ghost var s1 := Fs();
      KnownIsFound(s, s1, i, name);
      FindableIsFound(s, s1, i, name);
      if i == -1 {
        NothingFound(s, s1, name);
        NoneKnown(s, name);
        SameViewsRefl(s);
        if flags & (CFS_READ | CFS_WRITE) == CFS_READ {
          return -1;
        }
        i := Create(name);
      } else {
        Measure(i, s, name);
      }
    }

    /** The end of cfs_open: the descriptor is put on the file. */
    method Attach(fd: int, i: int, name: Bytes, flags: bv8, ghost s: FsState, ghost s1: FsState)
      requires Valid() && 0 <= fd < fds.Length == |s.fds| == |s1.fds| && flags != COFFEE_FD_FREE && !s.fds[fd].IsOpen()
      requires Fs() == s1.(fds := s1.fds[fd := fds[fd]]) && !fds[fd].IsOpen() && fds[fd].file == i
      requires SameViews(s, Fs()) && FindsKnown(s, s1, i, name)
      requires i >= 0 && OpenedContent(s, s1, i, name) && OpenedAside(s, s1, i)
      modifies files, fds
      ensures Valid() && IsOpenFd(Fs(), fd) && fds[fd].file == i < files.Length == |s1.files|
      ensures OpensKnown(s, Fs(), fd, name, flags) && OpenedAside(s, Fs(), i) && OpenedContent(s, Fs(), i, name)
      ensures fds[fd].flags == flags && fds[fd].offset == (if flags & CFS_APPEND != 0 then |Data(Fs(), fd)| else 0)
      ensures (forall k :: 0 <= k < fds.Length && k != fd ==> SameView(s, Fs(), k)) && SameSharing(s, Fs())
      ensures (NewFile(s1, i) ==> NewFile(Fs(), i)) && files[i].page == s1.files[i].page
    {
      hide NewFile, Volume.Valid, Volume.Disk, Ok, OpenCount;
      hide SameViews, SameView, SameSharing, OpenedContent, OpenedAside, ByteAt, Decode, EndOf, FindsKnown;
      hide OpensKnown, KnownAs;
      ghost var s2 := Fs();
      OpenedSlot(s, s1, s2, i, name);
      var offset := if flags & CFS_APPEND != 0 then files[i].end else 0;
      OpenedOk(s2, fd, i, flags, offset);
      fds[fd] := fds[fd].(flags := flags);
      fds[fd] := fds[fd].(offset := offset);
      files[i] := files[i].(references := files[i].references + 1);
      assert Fs() == Opened(s2, fd, i, flags, offset);
      OpensFound(s, s1, s2.fds[fd], fd, i, name, flags, offset);
      OpenedViews(s, s2, Fs(), fd, i, name);
      SlotAside(s, s1, Fs(), i);
      StillNew(s1, Fs(), i);
    }

    /** cfs_open */
    method CfsOpen(name: Bytes, flags: bv8) returns (fd: int)
      requires Valid() && |name| == NAME_LENGTH && flags != COFFEE_FD_FREE
      modifies vol, vol.flash.cells, files, fds, this`shortages, this`strandings
      ensures Valid()
      ensures fd < 0 ==> fd == -1 && SameViews(old(Fs()), Fs())
      ensures OpensKnown(old(Fs()), Fs(), fd, name, flags)
      ensures fd < 0 && Refusals() == old(Refusals()) ==>
        && (forall j :: !KnownAs(old(Fs()), j, name))
        && vol.Disk() == old(vol.Disk()) && files[..] == old(files[..])
        && flags & (CFS_READ | CFS_WRITE) == CFS_READ && NotFound(old(Fs()), name)
      ensures fd >= 0 ==> Refusals() == old(Refusals())
      ensures Refusals() >= old(Refusals())
      ensures fd >= 0 ==>
        && fd < fds.Length && !IsOpenFd(old(Fs()), fd) && IsOpenFd(Fs(), fd)
        && (forall k :: 0 <= k < fd ==> old(fds[..])[k].IsOpen())
        && OpenedAside(old(Fs()), Fs(), fds[fd].file)
        && OpenedContent(old(Fs()), Fs(), fds[fd].file, name) && fds[fd].flags == flags
        && fds[fd].offset == (if flags & CFS_APPEND != 0 then |Data(Fs(), fd)| else 0)
        && (forall k :: 0 <= k < fds.Length && k != fd ==> SameView(old(Fs()), Fs(), k))
        && SameSharing(old(Fs()), Fs())
      ensures fd >= 0 && !Findable(old(Fs()), name) ==> NewFile(Fs(), fds[fd].file)
      ensures fd >= 0 <==>
        && HasFd(old(fds[..]))
        && (|| Findable(old(Fs()), name)
            || (flags & (CFS_READ | CFS_WRITE) != CFS_READ && old(CanMake(PageCountFor(DYN_SIZE)))))
      ensures shortages > old(shortages) ==>
        || !HasFd(old(fds[..]))
        || (!Findable(old(Fs()), name) && (old(NoSpace(PageCountFor(DYN_SIZE))) || !HasSlot(old(files[..]))))
      ensures vol.flash.Valid() && (Findable(old(Fs()), name) ==> vol.Alloc() == old(vol.Alloc()))
      ensures old(vol.Packs()) && IsKnown(old(Fs()), name) ==>
        && vol.Packs() && vol.nextFree == old(vol.nextFree) && strandings == old(strandings)
        && (HasFd(old(fds[..])) ==> fd >= 0)
      ensures old(Ready()) && Creates(old(Fs()), name, flags, old(vol.nextFree)) ==>
        && fd >= 0 && vol.Packs() && vol.nextFree == old(vol.nextFree) + PageCountFor(DYN_SIZE)
        && strandings == old(strandings) && NewFile(Fs(), fds[fd].file)
        && FilePage(Fs(), fd) == old(vol.nextFree)
    {
      hide Volume.Packs, NewFile, Creates, IsKnown, HasSlot, HasFd, Volume.Valid, Volume.Disk, Ok, OpenCount;
      hide SameViews, SameView, SameSharing, OpenedContent, OpenedAside, ByteAt, Decode, EndOf, FindsKnown;
      hide OpensKnown, KnownAs, NoSpace, CanMake, Findable, Volume.Alloc;
      ghost var s := Fs();
      FlashIsValid(vol);
      fd := GetAvailableFd();
      if fd < 0 {
        SameViewsRefl(s);
        NoneOpened(s, name, flags);
        NoFd(s.fds);
        shortages := shortages + 1;
        return -1;
      }
      FreeFd(s.fds, fd);
      fds[fd] := fds[fd].(flags := 0);
      assert Fs() == s;
      var i := FindOrCreate(name, flags);
      ghost var s1 := Fs();
      IdleDescriptor(s1, fd, fds[fd].(file := i));
      fds[fd] := fds[fd].(file := i);
      ghost var s2 := Fs();
      SameViewsTrans(s, s1, s2);
      if i < 0 {
        NotKnown(s, s1, s2, name, flags);
        return -1;
      }
      Attach(fd, i, name, flags, s, s1);
    }

    // ------------------------------------------------------------------ removing

    /** The part of remove_by_page that forgets an extent in the tables. */
    method Forget(page: int, closeFds: bool)
      modifies files, fds
      requires Apart()
      ensures files[..] == ClearedSlots(old(files[..]), page)
      ensures fds[..] == if closeFds then ClosedAll(old(files[..]), old(fds[..]), page) else old(fds[..])
    {
      ghost var F, T := files[..], fds[..];
      if closeFds {
        for k := 0 to fds.Length
          invariant files[..] == F
          invariant forall l :: 0 <= l < k ==> fds[l] == ClosedOn(F, T[l], page)
          invariant forall l :: k <= l < fds.Length ==> fds[l] == T[l]
        {
          if 0 <= fds[k].file < files.Length && files[fds[k].file].page == page {
            fds[k] := fds[k].(flags := COFFEE_FD_FREE);
          }
        }
      }
      ghost var T' := fds[..];
      for i := 0 to files.Length
        invariant fds[..] == T'
        invariant forall j :: 0 <= j < i ==> files[j] == ClearedSlot(F[j], page)
        invariant forall j :: i <= j < files.Length ==> files[j] == F[j]
      {
        if files[i].page == page {
          files[i] := files[i].(page := NO_PAGE, references := 0, maxPages := 0);
        }
      }
    }

    /** remove_by_page */
    method RemoveByPage(page: int, removeLog: bool, closeFds: bool) returns (r: int)
      requires vol.Valid() && Apart() && page in vol.Disk()
      requires LogGoesToo(Fs(), page, removeLog) ==>
        Decode(vol.Disk()[page]).logPage in vol.Disk() && Decode(vol.Disk()[page]).logPage != page
      modifies vol, vol.flash.cells, files, fds
      ensures r == 0 && vol.Valid() && 0 <= page
      ensures Fs() == Removed(old(Fs()), page, removeLog, closeFds)
      ensures !vol.gcWait && vol.nextFree == old(vol.nextFree)
      ensures old(vol.Packs()) ==> vol.Packs() && vol.nextFree == old(vol.nextFree)
      decreases removeLog
    {
      hide Volume.Packs, Volume.Valid, Volume.Disk, Decode, ClearedSlots, ClosedAll;
      ghost var s := Fs();
      var hdr := vol.ReadFileHeader(page);
      if removeLog && hdr.IsModified() {
        r := RemoveByPage(hdr.logPage, false, false);
      }
      ghost var s1 := Fs();
      vol.RewriteHeader(hdr.(flags := hdr.flags | HDR_FLAG_OBSOLETE), page);
      vol.AllowCollection();
      Forget(page, closeFds);
      r := 0;
    }

    /** cfs_remove: the file and its log go, its descriptors are closed, and nothing else
        on the disk or in anyone's view changes. */
    method CfsRemove(name: Bytes) returns (r: int, ghost page: int)
      requires Valid()
      modifies vol, vol.flash.cells, files, fds
      ensures Valid() && (r == 0 || r == -1)
      ensures r == -1 ==>
        && Fs() == old(Fs()) && (forall j :: !CachedAs(old(Fs()), j, name))
        && NotFound(old(Fs()), name)
      ensures r == 0 ==>
        && Stored(old(Fs()), page, name) && vol.Disk() == DiskWithout(old(vol.Disk()), page)
        && SameSharing(old(Fs()), Fs()) && (forall j :: 0 <= j < files.Length ==> Rests(old(Fs()), Fs(), j))
        && forall k :: 0 <= k < fds.Length ==>
             if OnFile(old(Fs()), k, page) then !IsOpenFd(Fs(), k) else SameView(old(Fs()), Fs(), k)
      ensures r == 0 ==> !vol.gcWait && HasSlot(files[..])
      ensures r == -1 <==> !Findable(old(Fs()), name)
      ensures vol.nextFree == old(vol.nextFree) && (r == -1 ==> vol.gcWait == old(vol.gcWait))
    {
      hide Volume.Valid, Volume.Disk, Decode, Ok, FoundFile, DiskWithout, SameView, SameViews, SameSharing, Removed;
      hide OnFile, Rests, HasSlot, Findable;
      ghost var s := Fs();
      var i := FindFile(name);
      ghost var s1 := Fs();
      FoundOk(s, s1, i, name);
      FindableIsFound(s, s1, i, name);
      page := NO_PAGE;
      if i == -1 {
        NothingFound(s, s1, name);
        r := -1;
        return;
      }
      page := files[i].page;
      FoundViews(s, s1, i, name);
      FoundLog(s1, page);
      r := RemoveByPage(files[i].page, true, true);
      RemovedOk(s1, page);
      SlotFreed(s1, Fs(), i);
      RemovedRest(s, s1, Fs(), i, name);
      RemovedViews(s, s1, Fs(), page);
    }

    // ------------------------------------------------------------------- the log

    /** create_log */
    method CreateLog(i: int, hdr: Header) returns (r: int, hdr1: Header)
      requires Valid() && 0 <= i < files.Length && CachedFile(vol.Disk(), files[i])
      requires !files[i].modified && files[i].references > 0
      requires |vol.Disk()[files[i].page]| >= HEADER_SIZE && hdr == Decode(vol.Disk()[files[i].page]) && hdr.IsActive()
      modifies vol, vol.flash.cells, files, this`shortages, this`strandings
      ensures Valid() && fds[..] == old(fds[..])
      ensures r == INVALID_PAGE ==>
        && Refusals() > old(Refusals()) && files[..] == old(files[..])
        && SameViews(old(Fs()), Fs()) && Extends(old(vol.Disk()), vol.Disk())
      ensures r != INVALID_PAGE ==> Refusals() == old(Refusals()) && LogCreated(old(Fs()), Fs(), i, r)
      ensures old(vol.Packs()) ==>
        && vol.Packs() && strandings == old(strandings)
        && Supplied(old(vol.nextFree), PageCountFor(LogSize(hdr)), old(files[..]), vol.nextFree, r != INVALID_PAGE)
      ensures r != INVALID_PAGE ==> HasSlot(files[..])
      ensures r != INVALID_PAGE <==> old(CanMake(PageCountFor(LogSize(hdr))))
      ensures r == INVALID_PAGE ==> Denied(PageCountFor(LogSize(hdr)), false)
      ensures r != INVALID_PAGE ==>
        files[i].page in vol.Disk() && |vol.Disk()[files[i].page]| >= HEADER_SIZE
          && hdr1 == Decode(vol.Disk()[files[i].page])
    {
      hide Volume.Packs, Volume.Valid, Volume.Disk, Decode, Encode, Ok, Reserved, LogCreated, PointsTo, SameViews;
      hide Times, OrInto, ConfigOk, HasSlot, Supplied, CanMake;
      ghost var s := Fs();
      LogNeeds(s, i);
      PageCountIsCeiling(LogSize(hdr));
      ghost var h := ReservedHeader(hdr.name, PageCountFor(LogSize(hdr)), HDR_FLAG_LOG);
      ReservedFlags(hdr.name, PageCountFor(LogSize(hdr)), HDR_FLAG_LOG);
      var li := Reserve(hdr.name, PageCountFor(LogSize(hdr)), HDR_FLAG_LOG);
      ghost var s1 := Fs();
      if li == -1 {
        NotReserved(s, s1, h);
        assert files[..] == s.files by { RefusedTables(s, s1, h); }
        return INVALID_PAGE, hdr;
      }
      ReservedElsewhere(s, s1, li, h, i);
      r := files[li].page;
      var hdr' := hdr.(flags := hdr.flags | HDR_FLAG_MODIFIED, logPage := r);
      LogHeader(s1.disk[files[i].page], hdr', r);
      vol.RewriteHeader(hdr', files[i].page);
      hdr1 := hdr'.(flags := hdr'.flags | HDR_FLAG_VALID);
      files[i] := files[i].(modified := true);
      SpareSlot(s1.files, files[..], li, i);
      CreatedLogOk(s, s1, Fs(), i, li, h, vol.Disk()[files[i].page]);
    }

    /** find_next_record: the cached number of records, or a search of the region table,
        a batch at a time, whose outer loop goes on after a hit. */
    method FindNextRecord(recordCount: int, logPage: int, logRecords: nat) returns (r: int)
      requires vol.Valid() && logPage in vol.Disk() && LOG_TABLE_LIMIT > 0 && logRecords > 0
      requires HEADER_SIZE + 2 * logRecords <= |vol.Disk()[logPage]|
      ensures r ==
        if recordCount >= 0 then recordCount else NextRecord(vol.Disk()[logPage], 0, logRecords, LOG_TABLE_LIMIT)
    {
      hide Volume.Valid, Volume.Disk;
      hide NextRecord, Used, Entry, Word;
      if recordCount >= 0 {
        return recordCount;
      }
      ghost var log := vol.Disk()[logPage];
      var preferredBatchSize := if logRecords > LOG_TABLE_LIMIT then LOG_TABLE_LIMIT else logRecords;
      r := logRecords;
      var processed := 0;
      while processed < logRecords
        invariant 0 <= processed <= logRecords
        invariant logRecords < LOG_TABLE_LIMIT ==> processed == 0 || processed == logRecords
        invariant if processed < logRecords
          then
            NextRecord(log, processed, logRecords, LOG_TABLE_LIMIT) == NextRecord(log, 0, logRecords, LOG_TABLE_LIMIT)
          else r == NextRecord(log, 0, logRecords, LOG_TABLE_LIMIT)
      {
        var rest := logRecords - processed;
        var batchSize := if rest >= preferredBatchSize then preferredBatchSize else rest;
        var indices := ReadTable(logPage, HEADER_SIZE + 2 * processed, batchSize);
        NextRecordStep(log, processed, logRecords, LOG_TABLE_LIMIT);
        r := 0;
        UsedStep(log, processed, processed + batchSize);
        while r < batchSize
          invariant 0 <= r <= batchSize
          invariant Used(log, processed + r, processed + batchSize) == Used(log, processed, processed + batchSize)
        {
          EntryInBatch(log, processed, batchSize, indices, r);
          UsedStep(log, processed + r, processed + batchSize);
          if Word(indices, 2 * r) == 0 {
            r := r + processed;
            break;
          }
          r := r + 1;
        }
        UsedStep(log, processed + batchSize, processed + batchSize);
        processed := processed + batchSize;
      }
    }

    /** The old content of the region a record is about to replace. */
    method ReadOldRecord(hdr: Header, page: int, logRecord: nat, region: nat) returns (copyBuf: Bytes)
      requires vol.Valid() && page in vol.Disk() && IsModifiedFile(vol.Disk(), page) && hdr == Decode(vol.Disk()[page])
      requires RecordSize(hdr) > 0 && LogReadable(vol.Disk(), page, logRecord)
      requires HEADER_SIZE + Times(region, RecordSize(hdr)) <= |vol.Disk()[page]|
      ensures |copyBuf| == RecordSize(hdr) && OldRecord(vol.Disk(), page, region, RecordSize(hdr), copyBuf)
    {
      hide Volume.Valid, Volume.Disk, Decode, OldRecord, Newest, Used, CleanLog, ConfigOk, DiskOk, FileOk, LogOf;
      hide Times, Region, Within, Chunk, LogReadable, RecordAt, Records, IsModifiedFile;
      ghost var D := vol.Disk();
      var rs := RecordSize(hdr);
      LogReadableParts(D, page, logRecord);
      WholeRegion(D, page, region);
      var r, _, buf := ReadLogPage(hdr, logRecord, Times(region, rs), rs, page);
      copyBuf := buf;
      if r < 0 {
        copyBuf := vol.Read(page, HEADER_SIZE + Times(region, rs), rs);
      }
      OldRecordOf(D, page, region, copyBuf);
    }

    /** The second half of write_log_page: fill in a record and append it. */
    method AppendRecord(i: int, hdr: Header, logRecord: nat, off: nat, d: Bytes)
      requires Valid() && 0 <= i < files.Length && CachedFile(vol.Disk(), files[i]) && files[i].modified
      requires files[i].references > 0
      requires IsModifiedFile(vol.Disk(), files[i].page) && hdr == Decode(vol.Disk()[files[i].page])
      requires FileOk(vol.Disk(), files[i].page) && HEADER_SIZE + 2 * Records(hdr) <= |LogOf(vol.Disk(), files[i].page)|
      requires logRecord == Used(LogOf(vol.Disk(), files[i].page), 0, Records(hdr)) < Records(hdr)
      requires 0 < |d| <= RecordSize(hdr) - Within(off, RecordSize(hdr))
      requires off + |d| + HEADER_SIZE <= |vol.Disk()[files[i].page]|
      modifies vol.flash.cells, files
      ensures (old(vol.Packs()) ==> vol.Packs()) && (HasSlot(old(files[..])) ==> HasSlot(files[..]))
      ensures Valid() && LogWritten(old(Fs()), Fs(), i, off, d) && files[i].recordCount == logRecord + 1
    {
      hide Volume.Packs, Volume.Valid, Volume.Disk, Decode, OldRecord, Patched, LogWritten, Newest, Used, CleanLog;
      hide ConfigOk, DiskOk, FileOk, LogOf, Times, Region, Within, Ok, LogReadable, RecordAt, Records, IsModifiedFile;
      hide OrInto;
      ghost var s := Fs();
      var rs := RecordSize(hdr);
      var region := Region(off, rs);
      AppendSetup(s, i, logRecord, off, d);
      var copyBuf: Bytes := seq(rs, _ => 0);
      if Within(off, rs) > 0 || |d| != rs {
        copyBuf := ReadOldRecord(hdr, files[i].page, logRecord, region);
      }
      PatchedOf(s.disk, files[i].page, rs, copyBuf, off, d);
      copyBuf := copyBuf[..Within(off, rs)] + d + copyBuf[Within(off, rs) + |d|..];
      vol.Program(hdr.logPage, HEADER_SIZE + 2 * logRecord, WordBytes(region + 1));
      vol.Program(hdr.logPage, HEADER_SIZE + 2 * Records(hdr) + Times(logRecord, rs), copyBuf);
      files[i] := files[i].(recordCount := logRecord + 1);
      SlotsStay(s.files, files[..], i);
      AppendedDisk(s.disk, files[i].page, logRecord, region, copyBuf, vol.Disk());
      AppendedOk(s, Fs(), i, logRecord, copyBuf, off, d);
    }

    // ------------------------------------------------------------------- merging

    /** The copying loop of merge_log. */
    method CopyFile(fd: int, np: int, bufSize: nat, ghost s1: FsState, ghost i: int, ghost h: Header)
        returns (offset: nat)
      requires vol.Valid() && Apart() && bufSize > 0 && 0 <= i < |s1.files|
      requires Copying(s1, Fs(), i, fd, np, h, 0)
      modifies vol.flash.cells, fds
      ensures vol.Valid() && files[..] == old(files[..]) && (old(vol.Packs()) ==> vol.Packs())
      ensures offset == |Content(s1, i)| && Copying(s1, Fs(), i, fd, np, h, offset)
    {
      hide Volume.Packs, Volume.Valid, Volume.Disk, Copying, ReadResult, OrInto, Content, DiskOk, DescriptorOk, SlotOk;
      ghost var F := files[..];
      offset := 0;
      var more := true;
      while more
        invariant vol.Valid() && files[..] == F && (old(vol.Packs()) ==> vol.Packs())
        invariant Copying(s1, Fs(), i, fd, np, h, offset) && offset <= |Content(s1, i)|
        invariant !more ==> offset == |Content(s1, i)|
        decreases |Content(s1, i)| - offset, more
      {
        ghost var s := Fs();
        CopyingCanRead(s1, s, i, fd, np, h, offset);
        var n, buf := CfsRead(fd, bufSize);
        CopyingRead(s1, s, i, fd, np, h, offset, bufSize, n, buf);
        if n > 0 {
          vol.Program(np, HEADER_SIZE + offset, buf);
          CopyingStep(s1, s, Fs(), i, fd, np, h, offset, buf);
          offset := offset + n;
        } else {
          assert fds[..] == s.fds;
        }
        more := n != 0;
      }
    }

    /** The loop of merge_log that moves the descriptors. */
    method MoveDescriptors(page: int, ni: int, ghost i: int)
      requires Apart() && 0 <= ni < files.Length && 0 <= i < files.Length && ni != i
      requires files[i].page == page != files[ni].page && files[ni].references == 0
      requires forall k :: 0 <= k < fds.Length && fds[k].IsOpen() ==>
        0 <= fds[k].file < files.Length && fds[k].file != ni && (files[fds[k].file].page == page <==> fds[k].file == i)
      modifies files, fds
      ensures fds[..] == MovedFds(old(fds[..]), i, ni)
      ensures files[..] == old(files[..])[ni := old(files[ni]).(references := OpenCount(fds[..], ni))]
    {
      ghost var F, T := files[..], fds[..];
      for k := 0 to fds.Length
        invariant forall l :: 0 <= l < k ==> fds[l] == MovedFd(T[l], i, ni)
        invariant forall l :: k <= l < fds.Length ==> fds[l] == T[l]
        invariant files[..] == F[ni := F[ni].(references := OpenCount(fds[..k], ni))]
      {
        ghost var before := fds[..k];
        if fds[k].IsOpen() && files[fds[k].file].page == page {
          fds[k] := fds[k].(file := ni);
          files[ni] := files[ni].(references := files[ni].references + 1);
        }
        assert fds[..k + 1][..k] == before;
      }
      assert fds[..fds.Length] == fds[..];
    }

    /** The last part of merge_log: the copy takes over. */
    method TakeOver(page: int, ni: int, offset: nat, hdr: Header, ghost i: int, ghost fd: int, ghost s: FsState,
          ghost h: Header)
        returns (ghost h7: Header)
      requires vol.Valid() && Apart() && 0 <= ni < files.Length && files[ni].page != NO_PAGE && 0 <= page
      requires Copied(s, Fs(), i, fd, ni, page, offset, h)
      requires hdr == Decode(s.disk[page]) && h.name == hdr.name
      modifies vol, vol.flash.cells, files, fds
      ensures old(vol.Packs()) ==> vol.Packs() && vol.nextFree == old(vol.nextFree)
      ensures vol.Valid() && old(files[ni].page) in vol.Disk() && |s.files| == files.Length && |s.fds| == fds.Length
      ensures CanReplace(s, i, ni, fd, old(files[ni].page), vol.Disk()[old(files[ni].page)], h7)
      ensures Fs() == Replaced(s, i, ni, fd, old(files[ni].page), vol.Disk()[old(files[ni].page)])
      ensures h7.name == hdr.name && h7.logRecords == hdr.logRecords && h7.logRecordSize == hdr.logRecordSize
      ensures h7.maxPages == h.maxPages
    {
      hide Volume.Packs, Volume.Valid, Volume.Disk, Copied, Decode, OrInto, Encode, Removed, Replaced, CanReplace;
      hide CopyOf, DiskOk, FileOk, MovedFds, OpenCount, Content, Ok, FreshFile, PlainHeader, CanOverwrite;
      ghost var np, s3 := files[ni].page, Fs();
      CopiedParts(s, s3, i, fd, ni, page, offset, h);
      MoveDescriptors(page, ni, i);
      ghost var s4 := Fs();
      var _ := RemoveByPage(page, true, false);
      ghost var s5 := Fs();
      CopyStays(s, s4, s5, ni, page, np);
      var hdr2 := vol.ReadFileHeader(files[ni].page);
      var hdr3 := hdr2.(logRecordSize := hdr.logRecordSize, logRecords := hdr.logRecords);
      ghost var e := vol.Disk()[np];
      h7 := CopyCompleted(s, s3, i, fd, ni, page, offset, h, e, hdr3);
      vol.RewriteHeader(hdr3, files[ni].page);
      files[ni] := files[ni].(modified := false, end := offset);
      TakenOver(s, s3, Fs(), i, ni, fd, np, vol.Disk()[np], h7);
    }

    /** The second half of merge_log: the content goes over to the new extent, which takes
        the place of the old one. */
    method Transfer(page: int, fd: int, ni: int, hdr: Header, extend: nat, ghost i: int, ghost s: FsState,
          ghost s1: FsState, ghost h: Header)
      requires Shape() && files.Length == |s.files| && fds.Length == |s.fds| && extend <= 1
      requires Ok(s) && 0 <= i < |s.files| && CachedFile(s.disk, s.files[i]) && s.files[i].references > 0
      requires s.files[i].page == page
      requires 0 <= page && 0 <= fd < |s.fds| && !IsOpenFd(s, fd) && s1 == Opened(s, fd, i, CFS_READ, 0)
      requires 0 <= i < |s1.files|
      requires 0 <= ni < files.Length && files[ni].page != NO_PAGE && Loadable(s1.files, ni) && !h.IsLog()
      requires FreshFile(h)
      requires files[..] == s1.files[ni := Slot(0, files[ni].page, h.maxPages, -1, 0, false)]
      requires Copying(s1, Fs(), i, fd, files[ni].page, h, 0)
      requires hdr == Decode(s.disk[page]) && h.name == hdr.name
      requires h.maxPages == if extend == 0 then hdr.maxPages else 2 * hdr.maxPages
      modifies vol, vol.flash.cells, files, fds
      ensures Valid() && IsOpenFd(Fs(), fd) && files[fds[fd].file].references > 0 && HasSlot(files[..])
      ensures MergedInto(s, Closed(Fs(), fd), i, ni, extend)
      ensures old(vol.Packs()) ==> vol.Packs() && vol.nextFree == old(vol.nextFree)
    {
      hide Volume.Packs, Volume.Valid, Volume.Disk, Decode, Ok, Copying, Copied, MergedInto, Content, CanReplace;
      hide Replaced;
      hide Closed, OpenCount, FreshFile, CachedFile;
      ghost var np := files[ni].page;
      var bufSize := if hdr.logRecordSize == 0 then PAGE_SIZE else hdr.logRecordSize;
      var offset := CopyFile(fd, files[ni].page, bufSize, s1, i, h);
      CopyFinished(s, s1, Fs(), i, fd, ni, page, offset, h);
      ghost var h7 := TakeOver(page, ni, offset, hdr, i, fd, s, h);
      MergedOk(s, i, ni, fd, np, vol.Disk()[np], h7, extend);
      MergedSlots(s, i, ni, fd, np, vol.Disk()[np], h7);
    }

    /** The merge opens the very file it is merging. */
    method OpenAgain(name: Bytes, ghost i: int) returns (fd: int)
      requires Valid() && |name| == NAME_LENGTH && KnownAs(Fs(), i, name) && files[i].references > 0
      modifies vol, vol.flash.cells, files, fds, this`shortages, this`strandings
      ensures Valid()
      ensures fd < 0 ==> Fs() == old(Fs()) && Refusals() > old(Refusals())
      ensures fd >= 0 ==>
        && fd < fds.Length && !IsOpenFd(old(Fs()), fd) && 0 <= i < files.Length && Refusals() == old(Refusals())
        && Fs() == Opened(old(Fs()), fd, i, CFS_READ, 0) && (HasSlot(files[..]) <==> HasSlot(old(files[..])))
      ensures vol.flash.Valid() && vol.Alloc() == old(vol.Alloc()) && (fd >= 0 <==> HasFd(old(fds[..])))
      ensures old(Ready()) ==>
        fd >= 0 && vol.Packs() && vol.nextFree == old(vol.nextFree) && strandings == old(strandings)
          && HasSlot(files[..])
    {
      hide Volume.Packs, Volume.Valid, Volume.Disk, Ok, OpensKnown, KnownAs, OpenedContent, SameViews, SameView;
      hide SameSharing;
      hide OpenedAside, NotFound, OpenCount, Creates, HasSlot, HasFd, Content, Findable, NoSpace, CanMake, Volume.Alloc;
      ghost var s := Fs();
      KnownFindable(s, i, name);
      NotFreeSlot(s, i, name);
      fd := CfsOpen(name, CFS_READ);
      OwnOpening(s, Fs(), fd, i, name);
      if fd >= 0 {
        SlotsAfterOpening(s, i, fd, CFS_READ, Fs());
      }
    }

    /** Between opening and closing: a request for the new extent, and the transfer. */
    method Move(page: int, fd: int, hdr: Header, extend: nat, ghost i: int, ghost s: FsState) returns (ni: int)
      requires Valid() && Ok(s) && files.Length == |s.files| && fds.Length == |s.fds| && extend <= 1
      requires 0 <= i < |s.files| && CachedFile(s.disk, s.files[i]) && s.files[i].references > 0
      requires s.files[i].page == page
      requires 0 <= page && 0 <= fd < |s.fds| && !IsOpenFd(s, fd) && Fs() == Opened(s, fd, i, CFS_READ, 0)
      requires |s.disk[page]| >= HEADER_SIZE && hdr == Decode(s.disk[page]) && |hdr.name| == NAME_LENGTH
      requires 1 <= hdr.maxPages == s.files[i].maxPages < 0x8000 && (hdr.logRecordSize > 0 || PAGE_SIZE > 0)
      modifies vol, vol.flash.cells, files, fds, this`shortages, this`strandings
      ensures Valid() && IsOpenFd(Fs(), fd) && files[fds[fd].file].references > 0
      ensures ni == -1 ==> Refusals() > old(Refusals()) && Unmerged(s, Closed(Fs(), fd), i)
      ensures ni != -1 ==>
        Refusals() == old(Refusals()) && MergedInto(s, Closed(Fs(), fd), i, ni, extend) && HasSlot(files[..])
      ensures old(vol.Packs()) && HasSlot(old(files[..])) ==> strandings == old(strandings)
      ensures old(vol.Packs()) && HasSlot(old(files[..])) ==>
        if old(vol.nextFree) + MergePages(s.files[i], extend) < PAGE_COUNT
        then ni != -1 && vol.Packs() && vol.nextFree == old(vol.nextFree) + MergePages(s.files[i], extend)
        else ni == -1
      ensures ni != -1 <==> old(CanMake(MergePages(s.files[i], extend)))
      ensures ni == -1 ==> Denied(MergePages(s.files[i], extend), false) && files[fds[fd].file].references > 1
    {
      hide Volume.Packs, Volume.Valid, Volume.Disk, Decode, Ok, SameView, HasSlot, FreshExtent, CanMake;
      hide Reserved, Copying, MergedInto, Unmerged, Content, Closed, OpenCount, FreshFile;
      ghost var s1 := Fs();
      InDisk(s1, i);
      var maxPages := if extend == 0 then hdr.maxPages else 2 * hdr.maxPages;
      ghost var h := ReservedHeader(hdr.name, maxPages, 0);
      ReservedFlags(hdr.name, maxPages, 0);
      ni := Reserve(hdr.name, maxPages, 0);
      ghost var s2 := Fs();
      if ni == -1 {
        NotReserved(s1, s2, h);
        RefusedTables(s1, s2, h);
        UnmergedOk(s, s1, s2, fd, i, h);
        return;
      }
      CopyStarted(s, s1, s2, fd, i, ni, h);
      Transfer(page, fd, ni, hdr, extend, i, s, s1, h);
    }

    /** merge_log: the file moves to a fresh extent without a log, twice as large if it is
        being extended, or nobody notices that it was tried. */
    method MergeLog(page: int, extend: nat, ghost i: int) returns (r: int, ghost ni: int)
      requires Valid() && 0 <= i < files.Length && CachedFile(vol.Disk(), files[i])
      requires files[i].page == page && files[i].references > 0 && extend <= 1
      modifies vol, vol.flash.cells, files, fds, this`shortages, this`strandings
      ensures Valid() && (r == 0 || r == -1)
      ensures old(Ready()) ==> strandings == old(strandings)
      ensures old(Ready()) ==>
        if old(vol.nextFree) + MergePages(old(files[i]), extend) < PAGE_COUNT
        then r == 0 && Ready() && vol.nextFree == old(vol.nextFree) + MergePages(old(files[i]), extend)
        else r == -1
      ensures r == 0 <==> old(CanMerge(MergePages(files[i], extend)))
      ensures r == -1 ==> Denied(MergePages(old(files[i]), extend), true)
      ensures r == -1 ==> Refusals() > old(Refusals()) && Unmerged(old(Fs()), Fs(), i)
      ensures r == 0 ==> Refusals() == old(Refusals()) && MergedInto(old(Fs()), Fs(), i, ni, extend)
    {
      hide Volume.Packs, Volume.Valid, Volume.Disk, Decode, Ok, KnownAs, HasSlot, HasFd, MergedInto, Unmerged, Closed;
      hide OpenCount, Starved, Strands, Sane, Volume.Alloc;
      ghost var s := Fs();
      ni := -1;
      MergeSetup(s, i);
      var hdr := vol.ReadFileHeader(page);
      var fd := OpenAgain(hdr.name, i);
      if fd < 0 {
        UnmergedRefl(s, i);
        return -1, -1;
      }
      var newFile := Move(page, fd, hdr, extend, i, s);
      ghost var s1 := Fs();
      if newFile == -1 {
        SlotStaysTaken(s1, fd);
      }
      CfsClose(fd);
      FreeFd(fds[..], fd);
      ni := newFile;
      r := if newFile == -1 then -1 else 0;
    }

    /** write_log_page: one record at most, or a merge, or nothing. */
    method WriteLogPage(i: int, off: nat, buf: Bytes) returns (r: int, ghost ni: int)
      requires Valid() && 0 <= i < files.Length && CachedFile(vol.Disk(), files[i]) && files[i].references > 0
      requires |buf| > 0 && off + |buf| + HEADER_SIZE <= |vol.Disk()[files[i].page]|
      modifies vol, vol.flash.cells, files, fds, this`shortages, this`strandings
      ensures Valid() && -1 <= r <= |buf|
      ensures r < 0 ==> Refusals() > old(Refusals()) && Unmerged(old(Fs()), Fs(), i)
      ensures r == 0 ==>
        Refusals() == old(Refusals()) && old(files[i].modified) && MergedInto(old(Fs()), Fs(), i, ni, 0)
      ensures r > 0 ==> Refusals() == old(Refusals()) && LogWritten(old(Fs()), Fs(), i, off, buf[..r])
      ensures old(Ready()) ==> strandings == old(strandings)
      ensures old(Ready()) ==>
        if Affords(old(vol.nextFree), NeedAt(old(vol.Disk()), old(files[i])))
        then r >= 0 && Ready() && vol.nextFree == old(vol.nextFree) + NeedAt(old(vol.Disk()), old(files[i]))
        else r < 0
      ensures var need := NeedAt(old(vol.Disk()), old(files[i]));
        r >= 0 <==> need == 0 || if old(files[i].modified) then old(CanMerge(need)) else old(CanMake(need))
      ensures r < 0 ==> Blocked(i)
      ensures r > 0 ==> TakesChunk(old(vol.Disk()), old(files[i].page), off, |buf|, r)
      ensures r == 0 || (r < 0 && old(files[i].modified)) ==> FullAt(old(vol.Disk()), old(files[i].page))
    {
      hide Volume.Packs, Volume.Valid, Volume.Disk, HasSlot, HasFd, NeedAt, Decode, Ok, SameViews, Unmerged;
      hide MergedInto, LogWritten, TakesChunk, FullAt, LogCreated, Used, CleanLog, ConfigOk, DiskOk, FileOk, LogOf;
      hide Times, Region, Within, Chunk, Records, RecordSize, IsModifiedFile, NextRecord, CanMake, CanMerge;
      ghost var s := Fs();
      ni := -1;
      LogSetup(s, i);
      LogLevel(s, i, off, |buf|);
      LogNeed(s, i);
      var hdr := vol.ReadFileHeader(files[i].page);
      var logRecord := 0;
      ChunkBound(off, |buf|, RecordSize(hdr));
      var size := Chunk(off, |buf|, RecordSize(hdr));
      if hdr.IsModified() {
        NextIsUsed(LogOf(s.disk, files[i].page), Records(hdr));
        logRecord := FindNextRecord(files[i].recordCount, hdr.logPage, Records(hdr));
        if logRecord >= Records(hdr) {
          r, ni := MergeLog(files[i].page, 0, i);
          if r < 0 {
            NeedStays(s, Fs(), i);
          }
          return;
        }
        AppendRecord(i, hdr, logRecord, off, buf[..size]);
      } else {
        var logPage, hdr1 := CreateLog(i, hdr);
        ghost var s1 := Fs();
        if logPage == INVALID_PAGE {
          NotCreated(s, s1, i);
          NeedStays(s, s1, i);
          return -1, -1;
        }
        CreatedSetup(s, s1, i, logPage);
        AppendRecord(i, hdr1, 0, off, buf[..size]);
        CreatedWritten(s, s1, Fs(), i, logPage, off, buf[..size]);
      }
      r := size;
    }

    // ------------------------------------------------------------------- writing

    /** The body of that loop: one merge into an extent twice as large. */
    method Enlarge(fd: int) returns (r: int)
      requires Valid() && IsOpenFd(Fs(), fd)
      modifies vol, vol.flash.cells, files, fds, this`shortages, this`strandings
      ensures Valid() && (r == 0 || r == -1) && Wrote(old(Fs()), Fs(), fd, [])
      ensures IsOpenFd(Fs(), fd) && fds[fd].offset == old(fds[fd].offset)
      ensures var f, was := files[fds[fd].file], old(files[fds[fd].file]);
        && was.maxPages >= 1
        && if r == 0 then !f.modified && f.maxPages == 2 * was.maxPages <= PAGE_COUNT
           else f.maxPages == was.maxPages && Denied(MergePages(f, 1), true)
      ensures r == 0 ==> Alone(old(Fs()), Fs(), fd) && SameLogConfig(old(Fs()), Fs(), fd)
      ensures if r == 0 then Refusals() == old(Refusals()) else Refusals() > old(Refusals())
    {
      hide Volume.Packs, Volume.Valid, Volume.Disk, Ok, Wrote, MergedInto, Unmerged, Alone, Base, SameLogConfig;
      hide Denied, CanMerge, Data;
      ghost var s, i := Fs(), fds[fd].file;
      OpenSlot(s, fd);
      ghost var ni;
      r, ni := MergeLog(files[fds[fd].file].page, 1, i);
      if r < 0 {
        RefusedWrote(s, Fs(), fd);
      } else {
        MergedWrote(s, Fs(), fd, ni, 1);
        WroteOpen(s, Fs(), fd, []);
      }
    }

    /** The loop of cfs_write that doubles the extent until the request fits. */
    method ExtendFile(fd: int, size: nat) returns (r: int)
      requires Valid() && IsOpenFd(Fs(), fd)
      modifies vol, vol.flash.cells, files, fds, this`shortages, this`strandings
      ensures Valid() && (r == 0 || r == -1) && Wrote(old(Fs()), Fs(), fd, [])
      ensures r == 0 ==>
        Alone(old(Fs()), Fs(), fd) && (!old(files[fds[fd].file].modified) ==> !files[fds[fd].file].modified)
      ensures r == 0 ==>
        Refusals() == old(Refusals()) && size + fds[fd].offset + HEADER_SIZE <= Base(files[fds[fd].file].maxPages)
      ensures r == 0 ==> var pages, was := files[fds[fd].file].maxPages, old(files[fds[fd].file].maxPages);
        Doubled(was, pages) && (pages == was || Base(pages / 2) < size + fds[fd].offset + HEADER_SIZE)
      ensures r == -1 ==> Refusals() > old(Refusals()) && Cramped(fd, size)
      ensures FitsExtent(old(Fs()), fd, size) ==> r == 0 && Fs() == old(Fs()) && vol.nextFree == old(vol.nextFree)
      ensures FitsExtent(old(Fs()), fd, size) ==> strandings == old(strandings) && (old(vol.Packs()) ==> vol.Packs())
      ensures r == 0 && !FitsExtent(old(Fs()), fd, size) ==>
        !files[fds[fd].file].modified && SameLogConfig(old(Fs()), Fs(), fd)
    {
      hide Volume.Packs, Volume.Valid, Volume.Disk, Ok, Wrote, Alone, Base, SameLogConfig, Denied, Data;
      ghost var s := Fs();
      SelfWrote(s, fd);
      AloneRefl(s, fd);
      while size + fds[fd].offset + HEADER_SIZE > Base(files[fds[fd].file].maxPages)
        invariant Valid() && IsOpenFd(Fs(), fd) && Wrote(s, Fs(), fd, []) && Refusals() == old(Refusals())
        invariant FitsExtent(s, fd, size) ==> strandings == old(strandings)
        invariant FitsExtent(s, fd, size) ==>
          Fs() == s && vol.nextFree == old(vol.nextFree) && (old(vol.Packs()) ==> vol.Packs())
        invariant var pages, was := files[fds[fd].file].maxPages, old(files[fds[fd].file].maxPages);
          Doubled(was, pages) && (pages == was || Base(pages / 2) < size + fds[fd].offset + HEADER_SIZE)
        invariant Fs() == s || (!files[fds[fd].file].modified && SameLogConfig(s, Fs(), fd))
        invariant Alone(s, Fs(), fd) && (!old(files[fds[fd].file].modified) ==> !files[fds[fd].file].modified)
        decreases PAGE_COUNT - files[fds[fd].file].maxPages
      {
        ghost var s1 := Fs();
        r := Enlarge(fd);
        if r < 0 {
          WroteOn(s, s1, Fs(), fd, []);
          return -1;
        }
        SameConfigOn(s, s1, Fs(), fd);
        AloneTrans(s, s1, Fs(), fd, [], []);
        WroteOn(s, s1, Fs(), fd, []);
      }
      r := 0;
    }

    /** The body of the writing loop of cfs_write: write_log_page, and the offset and the
        end of the file behind it. */
    method WriteStep(fd: int, rest: Bytes) returns (n: int, grew: bool)
      requires Valid() && IsOpenFd(Fs(), fd) && |rest| > 0
      requires |rest| + fds[fd].offset + HEADER_SIZE <= Base(files[fds[fd].file].maxPages)
      modifies vol, vol.flash.cells, files, fds, this`shortages, this`strandings
      ensures Valid() && n >= -1
      ensures old(Ready()) ==> strandings == old(strandings)
      ensures old(Ready()) ==>
        if Affords(old(vol.nextFree), Need(old(Fs()), fd))
        then n >= 0 && Ready() && vol.nextFree == old(vol.nextFree) + Need(old(Fs()), fd)
        else n < 0
      ensures n < 0 ==> Refusals() > old(Refusals()) && Stuck(old(Fs()), Fs(), fd) && !grew
      ensures n < 0 ==> 0 <= fd < fds.Length && Blocked(fds[fd].file)
      ensures n >= 0 ==> Refusals() == old(Refusals()) && Stepped(old(Fs()), Fs(), fd, rest, n, grew)
    {
      hide Volume.Packs, HasSlot, HasFd, NeedAt, Volume.Valid, Volume.Disk, Ok, Wrote, MergedInto, Unmerged;
      hide LogWritten, Alone, Base, Logged, Data, Stuck, Blocked, CanMake, CanMerge;
      hide Stepped, TakesChunk, FullAt;
      ghost var s, i := Fs(), fds[fd].file;
      OpenSlot(s, fd);
      grew := false;
      ghost var ni;
      n, ni := WriteLogPage(fds[fd].file, fds[fd].offset, rest);
      ghost var s1 := Fs();
      if n < 0 {
        RefusedStuck(s, s1, fd);
      } else if n == 0 {
        MergedStep(s, s1, fd, ni, rest);
      } else {
        RecordFds(s, s1, i, s.fds[fd].offset, rest[..n]);
        fds[fd] := fds[fd].(offset := fds[fd].offset + n);
        if fds[fd].offset > files[fds[fd].file].end {
          files[fds[fd].file] := files[fds[fd].file].(end := fds[fd].offset);
          grew := true;
        }
        assert Fs() == Advanced(s1, fd, s.fds[fd].offset + n);
        StillSupplied(s1, Fs());
        RecordStep(s, s1, fd, rest, n, grew);
      }
    }

    /** One byte over a byte of an open file: it takes no room and gives none. */
    method PutMarker(fd: int, at: nat)
      requires Valid() && IsOpenFd(Fs(), fd) && files[fds[fd].file].page in vol.Disk()
      requires HEADER_SIZE + at < |vol.Disk()[files[fds[fd].file].page]|
      modifies vol.flash.cells
      ensures vol.Valid() && files[..] == old(files[..]) && fds[..] == old(fds[..])
      ensures var p := files[fds[fd].file].page;
        vol.Disk() == old(vol.Disk())[p := OrInto(old(vol.Disk())[p], HEADER_SIZE + at, [0xff])]
      ensures old(Blocked(fds[fd].file)) ==> Blocked(fds[fd].file)
    {
      hide Volume.Valid, Volume.Disk, Ok, OrInto, NeedAt, HasSlot, HasFd, Stalled, Volume.Alloc, Volume.Packs;
      ghost var s := Fs();
      vol.Program(files[fds[fd].file].page, HEADER_SIZE + at, [0xff]);
      MarkedNeed(s, fd, at);
    }

    /** The dummy end marker of cfs_write: one byte over the last byte of the file. */
    method MarkEnd(fd: int, ghost s: FsState, ghost d: Bytes) returns (ghost stored: Bytes)
      requires Valid() && Wrote(s, Fs(), fd, d) && |d| > 0 && IsOpenFd(Fs(), fd)
      requires s.fds[fd].offset + |d| == fds[fd].offset == files[fds[fd].file].end
      requires files[fds[fd].file].modified ==> Logged(vol.Disk(), FilePage(Fs(), fd), fds[fd].offset - 1)
      modifies vol.flash.cells
      ensures Valid() && files[..] == old(files[..]) && fds[..] == old(fds[..])
      ensures Wrote(s, Fs(), fd, stored) && (Alone(s, old(Fs()), fd) ==> Alone(s, Fs(), fd))
      ensures stored == if files[fds[fd].file].modified then d else Spoiled(d)
      ensures files[fds[fd].file].modified ==> Kept(Fs(), fd) == fds[fd].offset
      ensures old(Blocked(fds[fd].file)) ==> Blocked(fds[fd].file)
    {
      hide Volume.Valid, Volume.Disk, Ok, Wrote, Alone, Logged, Base, Data, Content, BlankPast, OrInto, SameView;
      hide Blocked;
      ghost var s1 := Fs();
      OpenSlot(s1, fd);
      WroteOpen(s, s1, fd, d);
      PutMarker(fd, fds[fd].offset - 1);
      ghost var s2 := Fs();
      if files[fds[fd].file].modified {
        MarkedLogged(s1, s2, fd, fds[fd].offset - 1);
        WroteOn(s, s1, s2, fd, d);
        if Alone(s, s1, fd) {
          AloneTrans(s, s1, s2, fd, d, []);
        }
        stored := d;
      } else {
        MarkedPlain(s1, s2, fd, fds[fd].offset - 1);
        SpoiledWrote(s, s1, s2, fd, d);
        AloneOn(s, s1, s2, fd, d);
        stored := Spoiled(d);
      }
    }

    /** The end of the branch that goes through the log: the marker, if it is due. */
    method Finish(fd: int, buf: Bytes, w: nat, needDummyWrite: bool, ghost s: FsState) returns (ghost stored: Bytes)
      requires Valid() && Marked(s, Fs(), fd, buf, w, needDummyWrite)
      modifies vol.flash.cells
      ensures Valid() && IsOpenFd(s, fd) && IsOpenFd(old(Fs()), fd) && LoopOutcome(s, Fs(), fd, buf, stored)
      ensures |stored| == w && (old(Blocked(fds[fd].file)) ==> Blocked(fds[fd].file))
      ensures |buf| > 0 ==> Fulfils(Ending(s, old(Fs()), fd, |buf|, w), buf, |buf|, stored)
    {
      hide Volume.Valid, Volume.Disk, Ok, Marked, LoopOutcome, Ending, Fulfils, Base, Data;
      ghost var s2 := Fs();
      MarkedWithin(s, s2, fd, buf, w, needDummyWrite);
      if needDummyWrite {
        MarkedParts(s, s2, fd, buf, w);
        stored := MarkEnd(fd, s, buf[..w]);
        MarkedOutcome(s, s2, Fs(), fd, buf, w, stored);
      } else {
        stored := buf[..w];
        UnmarkedOutcome(s, s2, fd, buf, w);
      }
      if |buf| > 0 {
        EndingMet(s, s2, fd, buf, w, needDummyWrite, stored);
      }
    }

    /** The branch of cfs_write that goes through the log. On a packed volume its fate is
        known beforehand. */
    method WriteLogged(fd: int, buf: Bytes) returns (r: int, ghost stored: Bytes)
      requires Valid() && IsOpenFd(Fs(), fd)
      requires |buf| + fds[fd].offset + HEADER_SIZE <= Base(files[fds[fd].file].maxPages)
      modifies vol, vol.flash.cells, files, fds, this`shortages, this`strandings
      ensures Valid() && Refusals() >= old(Refusals())
      ensures old(Ready()) && Foreseeable(old(Fs()), fd, |buf|) ==>
        Fulfils(FateOf(old(Fs()), old(vol.nextFree), fd, |buf|), buf, r, stored) && strandings == old(strandings)
      ensures r == -1 ==> stored == [] && Refusals() > old(Refusals()) && Wrote(old(Fs()), Fs(), fd, [])
      ensures r != -1 ==> r == |buf| && LoopOutcome(old(Fs()), Fs(), fd, buf, stored)
      ensures r != -1 ==> if |stored| < |buf| then Refusals() > old(Refusals()) else Refusals() == old(Refusals())
      ensures r == -1 || |stored| < |buf| ==> 0 <= fd < fds.Length && Blocked(fds[fd].file)
    {
      hide Volume.Packs, HasSlot, HasFd, Cycle, Affords, NeedAt, FateOf, Foreseeable, Ending, Fulfils, Volume.Valid;
      hide Volume.Disk, Ok, Writing, Stepped, Stuck, Marked, LoopOutcome, Base, Data;
      ghost var s := Fs();
      WritingStarts(s, fd, buf);
      ghost var h0 := vol.nextFree;
      ghost var easy := Ready() && Foreseeable(s, fd, |buf|);
      ghost var fate := FateOf(s, h0, fd, |buf|);
      if easy {
        CycleStarts(s, h0, fd, |buf|);
      }
      var needDummyWrite, w := false, 0;
      WritingParts(s, s, fd, buf, w, needDummyWrite);
      while w < |buf|
        invariant Valid() && Refusals() == old(Refusals()) && 0 <= w <= |buf| && IsOpenFd(Fs(), fd)
        invariant Writing(s, Fs(), fd, buf, w, needDummyWrite)
        invariant easy ==> strandings == old(strandings) && Ready() && Cycle(s, h0, fd, |buf|, Fs(), vol.nextFree, w)
        decreases |buf| - w, files[fds[fd].file].modified
      {
        ghost var s1, h1 := Fs(), vol.nextFree;
        WritingParts(s, s1, fd, buf, w, needDummyWrite);
        var n, grew := WriteStep(fd, buf[w..]);
        if n < 0 {
          WritingStuck(s, s1, Fs(), fd, buf, w, needDummyWrite);
          if easy {
            StuckEnding(s, h0, fd, |buf|, s1, h1, Fs(), w);
          }
          if w == 0 {
            RefusedMet(fate, buf);
            return -1, [];
          }
          break;
        }
        SteppedParts(s1, Fs(), fd, buf[w..], n, grew);
        WritingStep(s, s1, Fs(), fd, buf, w, needDummyWrite, n, grew);
        if easy {
          CycleStep(s, h0, fd, buf, s1, h1, w, Fs(), vol.nextFree, n, grew);
        }
        w := w + n;
        if grew {
          needDummyWrite := true;
        }
      }
      ghost var s2 := Fs();
      assert Marked(s, s2, fd, buf, w, needDummyWrite) by {
        if w == |buf| {
          WritingMarked(s, s2, fd, buf, needDummyWrite);
        }
      }
      assert easy ==> fate == Ending(s, s2, fd, |buf|, w) by {
        if easy && w == |buf| {
          CycleDone(s, h0, fd, buf, s2, vol.nextFree);
          WholeEnding(s, s2, fd, |buf|);
        }
      }
      r := |buf|;
      if easy {
        SomeBytes(s, fd, |buf|);
      }
      stored := Finish(fd, buf, w, needDummyWrite, s);
    }

    /** The branch of cfs_write that appends to a file without a log. */
    method WritePlain(fd: int, buf: Bytes) returns (r: int)
      requires Valid() && IsOpenFd(Fs(), fd)
      requires |buf| + fds[fd].offset + HEADER_SIZE <= Base(files[fds[fd].file].maxPages)
      requires !files[fds[fd].file].modified && fds[fd].offset >= files[fds[fd].file].end
      modifies vol.flash.cells, files, fds
      ensures Valid() && IsOpenFd(Fs(), fd) && r == |buf| && Wrote(old(Fs()), Fs(), fd, buf)
      ensures Alone(old(Fs()), Fs(), fd) && !files[fds[fd].file].modified
      ensures FilePage(old(Fs()), fd) in old(vol.Disk()) && 0 <= old(fds[fd].offset)
      ensures HEADER_SIZE + old(fds[fd].offset) + |buf| <= |old(vol.Disk())[FilePage(old(Fs()), fd)]|
      ensures Fs() == PlainlyWritten(old(Fs()), fd, buf) && (old(vol.Packs()) ==> vol.Packs())
    {
      hide Volume.Packs, Volume.Valid, Volume.Disk, Ok, Wrote, Alone, Base, Data, OrInto;
      ghost var s1 := Fs();
      OpenSlot(s1, fd);
      vol.Program(files[fds[fd].file].page, HEADER_SIZE + fds[fd].offset, buf);
      ghost var s2 := Fs();
      PlainWrote(s1, s2, fd, buf);
      fds[fd] := fds[fd].(offset := fds[fd].offset + |buf|);
      if fds[fd].offset > files[fds[fd].file].end {
        files[fds[fd].file] := files[fds[fd].file].(end := fds[fd].offset);
      }
      assert Fs() == Advanced(s2, fd, s1.fds[fd].offset + |buf|);
      r := |buf|;
    }

    /** cfs_write. The file behind the descriptor, and only that file, takes the bytes at
        the offset, which moves behind them; every flash write stays inside its extents.
        Without a refused request all of `buf` is written. */
    method CfsWrite(fd: int, buf: Bytes) returns (r: int, ghost stored: Bytes)
      requires Valid()
      modifies vol, vol.flash.cells, files, fds, this`shortages, this`strandings
      ensures Valid()
      ensures !Writable(old(Fs()), fd) ==> r == -1 && Fs() == old(Fs()) && Refusals() == old(Refusals())
      ensures Writable(old(Fs()), fd) ==> Answered(old(Fs()), Fs(), fd, buf, r, stored)
      ensures Writable(old(Fs()), fd) && r == -1 ==> Refusals() > old(Refusals())
      ensures r != -1 ==> if |stored| < |buf| then Refusals() > old(Refusals()) else Refusals() == old(Refusals())
      ensures Writable(old(Fs()), fd) && (r == -1 || |stored| < |buf|) ==>
        0 <= fd < fds.Length && (Cramped(fd, |buf|) || Blocked(fds[fd].file))
      ensures old(Ready()) && ThroughLog(old(Fs()), fd, |buf|) && Foreseeable(old(Fs()), fd, |buf|) ==>
        Fulfils(FateOf(old(Fs()), old(vol.nextFree), fd, |buf|), buf, r, stored) && strandings == old(strandings)
      ensures JustAppends(old(Fs()), fd, |buf|) ==>
        && r == |buf| && Fs() == PlainlyWritten(old(Fs()), fd, buf) && vol.nextFree == old(vol.nextFree)
        && strandings == old(strandings)
        && (old(vol.Packs()) ==> vol.Packs())
    {
      hide Volume.Packs, HasSlot, HasFd, FateOf, Foreseeable, Fulfils, Volume.Valid, Volume.Disk, Ok, Wrote, Alone;
      hide Base, Data, LoopOutcome, Answered, OrInto, FitsExtent, SameLogConfig, Blocked, Cramped;
      ghost var s := Fs();
      stored := [];
      if !(0 <= fd < fds.Length && fds[fd].IsOpen() && fds[fd].IsWritable()) {
        return -1, [];
      }
      OpenInRange(s, fd);
      r := ExtendFile(fd, |buf|);
      ghost var s1 := Fs();
      WroteOpen(s, s1, fd, []);
      if r < 0 {
        StoredNothing(s, s1, fd, buf);
        return -1, [];
      }
      OpenSlot(s1, fd);
      if files[fds[fd].file].modified || fds[fd].offset < files[fds[fd].file].end {
        r, stored := WriteLogged(fd, buf);
        if r < 0 {
          WroteOn(s, s1, Fs(), fd, []);
          StoredNothing(s, Fs(), fd, buf);
        } else {
          LoggedAfter(s, s1, Fs(), fd, buf, stored);
        }
      } else {
        r := WritePlain(fd, buf);
        stored := buf;
        PlainAfter(s, s1, Fs(), fd, buf);
      }
    }
  }

  lemma EntryInBatch(log: Bytes, first: nat, count: nat, indices: Bytes, i: nat)
    requires HEADER_SIZE + 2 * (first + count) <= |log| && i < count
    requires indices == log[HEADER_SIZE + 2 * first..HEADER_SIZE + 2 * (first + count)]
    ensures Word(indices, 2 * i) == Entry(log, first + i)
  {
  }

  lemma NewestStep(log: Bytes, n: nat, region: nat)
    requires HEADER_SIZE + 2 * n <= |log|
    ensures Newest(log, n, region) ==
      if n == 0 then -1 else if Entry(log, n - 1) == region + 1 then n - 1 else Newest(log, n - 1, region)
  {
  }

  lemma PastHeader(p: nat, i: nat)
    requires p > 0 || i >= HEADER_SIZE
    ensures Base(p) + i >= HEADER_SIZE
  {
    if p > 0 {
      BaseOne();
      BaseOrder(1, p);
    }
  }

  lemma CachedOnDisk(s: FsState, j: int)
    requires Ok(s) && 0 <= j < |s.files| && !s.files[j].IsFree()
    ensures s.files[j].page in s.disk && |s.disk[s.files[j].page]| >= HEADER_SIZE
  {
    assert SlotOk(s.disk, s.files[j]);
  }

  lemma StoredMatches(s: FsState, name: Bytes)
    requires forall p :: p in s.disk ==> !Matches(s.disk[p], name)
    ensures forall p :: !Stored(s, p, name)
  {
  }

  /** FD_VALID and FD_READABLE */
  ghost predicate Readable(s: FsState, k: int) {
    0 <= k < |s.fds| && s.fds[k].IsOpen() && s.fds[k].IsReadable()
  }

  /** How much a read of `size` bytes returns. */
  ghost function ReadSize(s: FsState, k: int, size: nat): int
    requires IsOpenFd(s, k)
  {
    var left := s.files[s.fds[k].file].end - s.fds[k].offset;
    if size > left then left else size
  }

  lemma ReadBounds(s: FsState, k: int)
    requires CanRead(s, k) && s.fds[k].IsOpen()
    ensures IsOpenFd(s, k) && 0 <= s.fds[k].offset <= s.files[s.fds[k].file].end
    ensures |Data(s, k)| == s.files[s.fds[k].file].end
    ensures s.files[s.fds[k].file].modified ==>
      LogReadable(s.disk, s.files[s.fds[k].file].page, s.files[s.fds[k].file].recordCount)
  {
  }

  lemma ReadSetup(s: FsState, k: int)
    requires CanRead(s, k) && s.fds[k].IsOpen()
    ensures IsOpenFd(s, k)
    ensures var f := s.files[s.fds[k].file];
      && 0 <= s.fds[k].offset <= f.end == |Data(s, k)|
      && f.page in s.disk && HEADER_SIZE + f.end <= |s.disk[f.page]|
  {
    OpenFile(s, k);
    ReadBounds(s, k);
  }

  /** The end of a file without a log has been moved behind its extent, but no further
      than one header. */
  ghost predicate Overruns(s: FsState, k: int) {
    && IsOpenFd(s, k)
    && var f := s.files[s.fds[k].file];
       && !f.modified && f.page in s.disk && HEADER_SIZE <= |s.disk[f.page]|
       && 0 <= s.fds[k].offset <= f.end && |s.disk[f.page]| < HEADER_SIZE + f.end <= |s.disk[f.page]| + HEADER_SIZE
  }

  lemma ReadReady(s: FsState, k: int)
    requires (CanRead(s, k) || Overruns(s, k)) && s.fds[k].IsOpen()
    ensures IsOpenFd(s, k)
    ensures var f := s.files[s.fds[k].file];
      && 0 <= s.fds[k].offset <= f.end && (f.modified ==> CanRead(s, k))
      && (!f.modified ==> f.page in s.disk && HEADER_SIZE + f.end <= |s.disk[f.page]| + PAGE_SIZE)
      && (CanRead(s, k) ==> f.page in s.disk && HEADER_SIZE + f.end <= |s.disk[f.page]|)
  {
    hide CanRead;
    if CanRead(s, k) {
      ReadSetup(s, k);
    }
  }

  /** The bytes of the device behind the offset, whosever they are. */
  ghost predicate RawResult(s: FsState, m: Bytes, k: int, size: nat, r: int, buf: Bytes) {
    && IsOpenFd(s, k) && r == ReadSize(s, k, size) && 0 <= r
    && 0 <= FilePage(s, k) && 0 <= s.fds[k].offset
    && var at := Base(FilePage(s, k)) + HEADER_SIZE + s.fds[k].offset;
       at + r <= |m| && buf == m[at..at + r]
  }

  /** The next `r` bytes of the file, as many as were asked for if there are so many. */
  ghost predicate ReadResult(s: FsState, k: int, size: nat, r: int, buf: Bytes) {
    && IsOpenFd(s, k)
    && r == ReadSize(s, k, size)
    && 0 <= s.fds[k].offset && 0 <= r && s.fds[k].offset + r <= |Data(s, k)|
    && buf == Data(s, k)[s.fds[k].offset..s.fds[k].offset + r]
  }

  lemma PlainRead(s: FsState, k: int, n: int, size: nat, buf: Bytes)
    requires IsOpenFd(s, k) && n == ReadSize(s, k, size) && CanRead(s, k)
    requires var f := s.files[s.fds[k].file]; var o := s.fds[k].offset;
      && !f.modified && 0 <= n && o + n <= f.end && 0 <= o && f.page in s.disk
      && HEADER_SIZE + o + n <= |s.disk[f.page]|
      && buf == s.disk[f.page][HEADER_SIZE + o..HEADER_SIZE + o + n]
    ensures ReadResult(s, k, size, n, buf)
  {
  }

  lemma LoggedResult(s: FsState, k: int, n: int, size: nat, buf: Bytes)
    requires IsOpenFd(s, k) && n == ReadSize(s, k, size)
    requires 0 <= s.fds[k].offset && 0 <= n && s.fds[k].offset + n <= |Data(s, k)|
    requires buf == Data(s, k)[s.fds[k].offset..s.fds[k].offset + n]
    ensures ReadResult(s, k, size, n, buf)
  {
  }

  /** One step of the loop of cfs_read, whichever place the bytes come from. */
  lemma LoggedRead(s: FsState, k: int, o: nat, size: nat)
    requires CanRead(s, k) && s.fds[k].IsOpen() && IsOpenFd(s, k)
    requires var f := s.files[s.fds[k].file];
      f.modified && o + size <= f.end && f.page in s.disk && |s.disk[f.page]| >= HEADER_SIZE
    ensures var f := s.files[s.fds[k].file]; var h := Decode(s.disk[f.page]); var log := LogOf(s.disk, f.page);
      && RecordSize(h) > 0 && HEADER_SIZE + 2 * Records(h) <= |log|
      && o + size <= |Data(s, k)|
      && var rs := RecordSize(h); var c := Chunk(o, size, rs); var j := Newest(log, Records(h), Region(o, rs));
      && HEADER_SIZE + o + c <= |s.disk[f.page]|
      && (j < 0 ==> Data(s, k)[o..o + c] == s.disk[f.page][HEADER_SIZE + o..HEADER_SIZE + o + c])
      && (j >= 0 ==>
            && RecordAt(h, j) + Within(o, rs) + c <= |log|
            && Data(s, k)[o..o + c] == log[RecordAt(h, j) + Within(o, rs)..RecordAt(h, j) + Within(o, rs) + c])
  {
    hide ConfigOk, Newest, Region, Within, Used, Times, Decode, CleanLog, ZeroFrom, Byte, ByteAt, FileOk, LogOf;
    hide DiskOk, CanRead, RecordAt, Records;
    var f := s.files[s.fds[k].file];
    OpenFile(s, k);
    ReadBounds(s, k);
    RegionBytes(s.disk, f.page, o, Chunk(o, size, RecordSize(Decode(s.disk[f.page]))));
  }

  lemma RegionBytes(D: Disk, p: int, o: nat, c: nat)
    requires DiskOk(D) && IsModifiedFile(D, p) && RecordSize(Decode(D[p])) > 0
    requires HEADER_SIZE + o + c <= |D[p]| && c <= RecordSize(Decode(D[p])) - Within(o, RecordSize(Decode(D[p])))
    ensures var h := Decode(D[p]); var log := LogOf(D, p); var rs := RecordSize(h);
      && HEADER_SIZE + 2 * Records(h) <= |log|
      && var j := Newest(log, Records(h), Region(o, rs));
      && (j >= 0 ==> RecordAt(h, j) + Within(o, rs) + c <= |log|)
      && forall x :: o <= x < o + c ==>
           ByteAt(D, p, x) == if j >= 0 then log[RecordAt(h, j) + Within(o, rs) + (x - o)] else D[p][HEADER_SIZE + x]
  {
    hide ConfigOk, Newest, Region, Within, Used, Times, Decode, CleanLog, Byte;
    LogReadableParts(D, p, -1);
    ReadRegion(D[p], LogOf(D, p), o, c);
  }

  lemma SearchBound(D: Disk, p: int, recordCount: int, region: nat)
    requires LogReadable(D, p, recordCount)
    requires RecordSize(Decode(D[p])) > 0
    ensures LOG_TABLE_LIMIT > 0
    ensures var n := Records(Decode(D[p])); var k := if recordCount < 0 then n else recordCount;
      && 0 <= k && HEADER_SIZE + 2 * k <= |LogOf(D, p)| && HEADER_SIZE + 2 * n <= |LogOf(D, p)|
      && Newest(LogOf(D, p), k, region) == Newest(LogOf(D, p), n, region)
  {
    LogReadableParts(D, p, recordCount);
    if recordCount >= 0 {
      NewestUsed(Decode(D[p]), LogOf(D, p), recordCount, region);
    }
  }

  lemma RecordInside(h: Header, log: Bytes, k: nat, offset: nat, size: nat)
    requires CleanLog(h, log) && k < Records(h)
    ensures RecordAt(h, k) + Within(offset, RecordSize(h)) + Chunk(offset, size, RecordSize(h)) <= |log|
  {
    RecordBounds(h, k);
  }

  lemma Formatted(s: FsState)
    requires s.disk == map[]
    requires forall i :: 0 <= i < |s.files| ==> s.files[i].IsFree() && s.files[i].references == 0
    requires forall k :: 0 <= k < |s.fds| ==> !s.fds[k].IsOpen()
    ensures Ok(s)
  {
    forall i | 0 <= i < |s.files|
      ensures OpenCount(s.fds, i) == 0
    {
      NoneOpen(s.fds, i);
    }
  }

  lemma {:induction false} NoneOpen(T: seq<Descriptor>, i: int)
    requires forall k :: 0 <= k < |T| ==> !T[k].IsOpen()
    ensures OpenCount(T, i) == 0
  {
    if T != [] {
      NoneOpen(T[..|T| - 1], i);
    }
  }

  function SeekTarget(s: FsState, fd: int, offset: int, whence: SeekFrom): int {
    if !IsOpenFd(s, fd) then -1
    else match whence
      case SeekSet => offset
      case SeekEnd => s.files[s.fds[fd].file].end + offset
      case SeekCur => s.fds[fd].offset + offset
  }

  ghost function Sought(s: FsState, k: int, to: int): FsState
    requires IsOpenFd(s, k)
  {
    var i := s.fds[k].file;
    s.(files := s.files[i := s.files[i].(end := if s.files[i].end < to then to else s.files[i].end)],
       fds := s.fds[k := s.fds[k].(offset := to)])
  }

  lemma OpenInRange(s: FsState, k: int)
    requires Ok(s) && 0 <= k < |s.fds| && s.fds[k].IsOpen()
    ensures IsOpenFd(s, k) && CachedFile(s.disk, s.files[s.fds[k].file])
    ensures 0 <= s.fds[k].offset <= s.files[s.fds[k].file].end
    ensures CanRead(s, k)
  {
    assert DescriptorOk(s.disk, s.files, s.fds[k]);
  }

  lemma OpenMaxPages(s: FsState, k: int)
    requires Ok(s) && IsOpenFd(s, k)
    ensures var f := s.files[s.fds[k].file];
      IsFile(s.disk, f.page) && Capacity(Decode(s.disk[f.page])) == Base(f.maxPages) - HEADER_SIZE
  {
    OpenInRange(s, k);
    assert SlotOk(s.disk, s.files[s.fds[k].file]);
  }

  lemma ClosedCount(s: FsState, k: int)
    requires Ok(s) && IsOpenFd(s, k)
    ensures s.files[s.fds[k].file].references == OpenCount(s.fds, s.fds[k].file) > 0
  {
    OpenCountPositive(s.fds, k, s.fds[k].file);
  }

  /** What an opened file holds: what it held in the cache, or what its extent holds, or
      nothing if it is new. */
  ghost predicate OpenedContent(s: FsState, s': FsState, i: int, name: Bytes) {
    && CachedAs(s', i, name) && s'.files[i].end >= 0
    && var p := s'.files[i].page;
       if p in s.disk then
         && Stored(s, p, name)
         && Content(s', i) ==
              if CachedAs(s, i, name) && s.files[i].page == p && s.files[i].end >= 0 then Content(s, i)
              else StoredContent(s, p)
       else
         Content(s', i) == [] && forall q :: !Stored(s, q, name)
  }

  /** Opening touches one slot, and no extent but the one of a new file. */
  ghost predicate OpenedAside(s: FsState, s': FsState, i: int) {
    && 0 <= i < |s'.files| == |s.files| && s'.files == s.files[i := s'.files[i]]
    && var p := s'.files[i].page;
       if p in s.disk then s'.disk == s.disk
       else Extends(s.disk, s'.disk) && s'.disk.Keys == s.disk.Keys + {p} && !s'.files[i].modified
  }

  lemma CreatedAside(s: FsState, s': FsState, i: int, h: Header)
    requires i != -1 && Reserved(s, s', i, h)
    ensures OpenedAside(s, s', i)
  {
    hide FreshExtent;
  }

  lemma FoundAside(s: FsState, s1: FsState, i: int, name: Bytes)
    requires i != -1 && FoundFile(s, s1, i, name)
    ensures 0 <= i < |s1.files| && s1.files[i].page in s.disk && OpenedAside(s, s1, i)
  {
    hide Decode;
  }

  /** What happens to the slot itself afterwards does not matter. */
  lemma SlotAside(s: FsState, s1: FsState, s2: FsState, i: int)
    requires OpenedAside(s, s1, i) && s2.disk == s1.disk && |s2.files| == |s1.files|
    requires s2.files == s1.files[i := s2.files[i]] && s2.files[i].page == s1.files[i].page
    requires s2.files[i].modified == s1.files[i].modified
    ensures OpenedAside(s, s2, i)
  {
  }

  /** After a removal every slot is free or as it was. */
  lemma RemovedRest(s: FsState, s1: FsState, s': FsState, i: int, name: Bytes)
    requires Ok(s1) && i != -1 && FoundFile(s, s1, i, name) && 0 <= i < |s1.files| && IsFile(s1.disk, s1.files[i].page)
    requires s' == Removed(s1, s1.files[i].page, true, true) && s1.files[i].page >= 0
    requires Decode(s1.disk[s1.files[i].page]).logPage >= 0
    ensures |s'.files| == |s.files| && forall j :: 0 <= j < |s'.files| ==> Rests(s, s', j)
  {
    hide Decode, ClosedAll, Ok, DiskWithout, IsModifiedFile;
    OkDisk(s1);
    RemovedParts(s1, s1.files[i].page, true);
  }

  /** No such file is stored, or every slot has an open file. */
  ghost predicate NotFound(s: FsState, name: Bytes) {
    (forall p :: !Stored(s, p, name)) || forall j :: !Loadable(s.files, j)
  }

  ghost predicate IsKnown(s: FsState, name: Bytes) {
    exists j :: KnownAs(s, j, name)
  }

  /** cfs_open makes a new file, and there are pages for it behind the hint. */
  ghost predicate Creates(s: FsState, name: Bytes, flags: bv8, hint: int) {
    && (forall p :: !Stored(s, p, name)) && flags & (CFS_READ | CFS_WRITE) != CFS_READ
    && hint + PageCountFor(DYN_SIZE) < PAGE_COUNT
  }

  /** A file as cfs_open makes it, with nothing configured for its log. */
  ghost predicate NewFile(s: FsState, i: int) {
    && 0 <= i < |s.files| && s.files[i].page in s.disk && |s.disk[s.files[i].page]| >= HEADER_SIZE
    && var h := Decode(s.disk[s.files[i].page]);
       h.logRecords == 0 && h.logRecordSize == 0 && h.maxPages == s.files[i].maxPages == PageCountFor(DYN_SIZE)
  }

  lemma StillNew(s: FsState, s': FsState, i: int)
    requires s'.disk == s.disk && |s'.files| == |s.files| && 0 <= i < |s.files|
    requires s'.files[i].page == s.files[i].page && s'.files[i].maxPages == s.files[i].maxPages
    ensures NewFile(s, i) ==> NewFile(s', i)
  {
    hide Decode;
  }

  lemma CreatedNew(s: FsState, s': FsState, i: int, h: Header)
    requires i != -1 && Reserved(s, s', i, h) && h.logRecords == 0 && h.logRecordSize == 0
    requires h.maxPages == PageCountFor(DYN_SIZE)
    ensures NewFile(s', i)
  {
    hide Decode, FreshExtent;
    FreshHeader(h);
  }

  lemma KnownIsFound(s: FsState, s1: FsState, i: int, name: Bytes)
    requires FoundFile(s, s1, i, name)
    ensures IsKnown(s, name) ==> i != -1
    ensures forall flags, hint :: Creates(s, name, flags, hint) ==>
      i == -1 && hint + PageCountFor(DYN_SIZE) < PAGE_COUNT
  {
    hide Decode;
    if i == -1 {
      assert forall j :: !CachedAs(s, j, name);
    } else {
      assert Stored(s, s1.files[i].page, name);
    }
  }

  lemma FindableIsFound(s: FsState, s1: FsState, i: int, name: Bytes)
    requires FoundFile(s, s1, i, name)
    ensures Findable(s, name) <==> i != -1
  {
    hide Decode;
    if i != -1 && !CachedAs(s, i, name) {
      assert Stored(s, s1.files[i].page, name) && Loadable(s.files, i);
    }
  }

  lemma NoneKnown(s: FsState, name: Bytes)
    requires forall j :: !CachedAs(s, j, name)
    ensures forall j :: !KnownAs(s, j, name)
  {
  }

  lemma KnownFindable(s: FsState, i: int, name: Bytes)
    requires KnownAs(s, i, name)
    ensures IsKnown(s, name) && Findable(s, name)
  {
    hide Decode;
  }

  lemma NothingFound(s: FsState, s1: FsState, name: Bytes)
    requires FoundFile(s, s1, -1, name)
    ensures s1 == s && NotFound(s, name) && forall j :: !CachedAs(s, j, name)
  {
  }

  /** An open file, or one that was closed but is still cached. */
  ghost predicate KnownAs(s: FsState, i: int, name: Bytes) {
    CachedAs(s, i, name) && s.files[i].end >= 0
  }

  /** A cached file is found where it is cached, and nothing moves. */
  ghost predicate FindsKnown(s: FsState, s': FsState, i: int, name: Bytes) {
    forall j :: KnownAs(s, j, name) ==> i == j && s' == s
  }

  ghost predicate OpensKnown(s: FsState, s': FsState, k: int, name: Bytes, flags: bv8) {
    forall j :: KnownAs(s, j, name) ==>
      if k < 0 then s' == s
      else k < |s.fds| == |s'.fds| && s' == Opened(s, k, j, flags, s'.fds[k].offset)
  }

  lemma NoneOpened(s: FsState, name: Bytes, flags: bv8)
    ensures OpensKnown(s, s, -1, name, flags)
  {
  }

  lemma NotKnown(s: FsState, s1: FsState, s': FsState, name: Bytes, flags: bv8)
    requires FindsKnown(s, s1, -1, name)
    ensures OpensKnown(s, s', -1, name, flags) && !IsKnown(s, name) && forall j :: !KnownAs(s, j, name)
  {
  }

  lemma OpensFound(s: FsState, s1: FsState, d: Descriptor, k: int, i: int, name: Bytes, flags: bv8, offset: int)
    requires FindsKnown(s, s1, i, name) && 0 <= k < |s.fds| == |s1.fds| && 0 <= i < |s1.files|
    ensures OpensKnown(s, Opened(s1.(fds := s1.fds[k := d]), k, i, flags, offset), k, name, flags)
  {
    hide KnownAs;
    assert s1.fds[k := d][k := Descriptor(offset, i, flags)] == s1.fds[k := Descriptor(offset, i, flags)];
  }

  /** A cached file is found where it is cached. */
  lemma FoundKnown(s: FsState, s1: FsState, i: int, name: Bytes)
    requires Ok(s) && FoundFile(s, s1, i, name)
    ensures FindsKnown(s, s1, i, name)
  {
    hide Decode, FileOk, LogOf, DiskOk, SlotOk;
  }

  lemma CreatedFile(s: FsState, s': FsState, i: int, name: Bytes, pages: nat)
    requires Ok(s) && FoundFile(s, s, -1, name)
    requires |name| == NAME_LENGTH && 1 <= pages < 0x1_0000
    requires i != -1 && Reserved(s, s', i, ReservedHeader(name, pages, 0))
    ensures Ok(s') && SameViews(s, s') && OpenedContent(s, s', i, name)
    ensures 0 <= i < |s'.files| && s'.files[i].end == 0
  {
    hide Ok, SameViews, Decode, FreshExtent, ByteAt, Has;
    var h := ReservedHeader(name, pages, 0);
    ReservedFlags(name, pages, 0);
    ReservedOk(s, s', i, h);
    FreshHeader(h);
  }

  lemma FoundContent(s: FsState, s1: FsState, i: int, name: Bytes)
    requires Ok(s) && i != -1 && FoundFile(s, s1, i, name) && Ok(s1)
    ensures CachedAs(s1, i, name) && s1.files[i].page in s.disk
    ensures Shaped(s1.disk) && s1.disk == s.disk
    ensures s1.files[i].end >= 0 ==> OpenedContent(s, s1, i, name)
    ensures s1.files[i].end < 0 ==> s1.files[i].end == UNKNOWN_OFFSET && s1.files[i].references == 0
  {
    hide Decode, ByteAt, OpenCount;
    if s1 == s && CachedAs(s, i, name) {
      assert SlotOk(s.disk, s.files[i]);
    }
  }

  lemma SizedContent(s: FsState, s1: FsState, s2: FsState, i: int, name: Bytes)
    requires Ok(s) && i != -1 && FoundFile(s, s1, i, name) && Ok(s1) && SameViews(s, s1)
    requires CachedAs(s1, i, name) && s1.files[i].end == UNKNOWN_OFFSET && s1.files[i].references == 0
    requires s2 == s1.(files := s1.files[i := s1.files[i].(end := EndOf(s1.disk[s1.files[i].page]))])
    ensures Ok(s2) && SameViews(s, s2) && OpenedContent(s, s2, i, name)
  {
    hide Decode, ByteAt, OpenCount, Ok, SameViews, EndOf;
    SizedOk(s1, i, s2.files[i].end);
    SameViewsTrans(s, s1, s2);
  }

  lemma OpenedSlot(s: FsState, s1: FsState, s2: FsState, i: int, name: Bytes)
    requires OpenedContent(s, s1, i, name) && s2 == s1.(fds := s2.fds)
    ensures CachedFile(s2.disk, s2.files[i]) && 0 <= i < |s2.files| && s2.files[i].end >= 0
    ensures OpenedContent(s, s2, i, name)
  {
    assert Content(s2, i) == Content(s1, i);
  }

  /** Opening changes neither what the file holds nor what others see. */
  lemma OpenedViews(s: FsState, s2: FsState, s': FsState, k: int, i: int, name: Bytes)
    requires SameViews(s, s2) && 0 <= k < |s.fds| && !s.fds[k].IsOpen() && |s'.fds| == |s2.fds|
    requires 0 <= i < |s2.files| == |s'.files| && OpenedContent(s, s2, i, name)
    requires s'.disk == s2.disk && s'.files == s2.files[i := s'.files[i]]
    requires s'.files[i].end == s2.files[i].end && s'.files[i].page == s2.files[i].page
    requires s'.files[i].maxPages == s2.files[i].maxPages
    requires IsOpenFd(s', k) && s'.fds[k].file == i
    requires forall l :: 0 <= l < |s2.fds| && l != k ==> SameView(s2, s', l)
    requires SameSharing(s2, s')
    ensures OpenedContent(s, s', i, name)
    ensures |Data(s', k)| == s'.files[i].end
    ensures forall l :: 0 <= l < |s.fds| && l != k ==> SameView(s, s', l)
    ensures SameSharing(s, s')
  {
    hide Decode, ByteAt;
    assert Content(s', i) == Content(s2, i);
    forall l | 0 <= l < |s.fds| && l != k
      ensures SameView(s, s', l)
    {
      assert SameView(s, s2, l) && SameView(s2, s', l);
    }
    forall l, m | IsOpenFd(s, l) && IsOpenFd(s, m) && IsOpenFd(s', l) && IsOpenFd(s', m)
      ensures SameFile(s, l, m) <==> SameFile(s', l, m)
    {
      assert SameView(s, s2, l) && SameView(s, s2, m);
    }
  }

  lemma FoundLog(s: FsState, p: int)
    requires Ok(s) && IsFile(s.disk, p)
    ensures Decode(s.disk[p]).logPage >= 0
    ensures LogGoesToo(s, p, true) ==> Decode(s.disk[p]).logPage in s.disk && Decode(s.disk[p]).logPage != p
  {
    FilesOk(s.disk);
    if IsModifiedFile(s.disk, p) {
      OwnLog(s.disk, p);
    }
  }

  /** Finding a file leaves every open descriptor on the extent it was on. */
  lemma FoundViews(s: FsState, s1: FsState, i: int, name: Bytes)
    requires Ok(s) && i != -1 && FoundFile(s, s1, i, name)
    ensures 0 <= i < |s1.files| && s1.disk == s.disk && |s1.fds| == |s.fds| && Stored(s, s1.files[i].page, name)
    ensures forall k, p :: OnFile(s, k, p) <==> OnFile(s1, k, p)
  {
    hide Decode, FileOk, LogOf, DiskOk, SlotOk;
    if s1 != s {
      FreeUnreferenced(s, i);
      forall k | 0 <= k < |s.fds|
        ensures s.fds[k].IsOpen() ==> s.fds[k].file != i
      {
        Unreferenced(s, i, k);
      }
    }
  }

  lemma RemovedViews(s: FsState, s1: FsState, s': FsState, p: int)
    requires SameViews(s, s1) && |s1.fds| == |s'.fds| && SameSharing(s1, s')
    requires forall k :: OnFile(s, k, p) <==> OnFile(s1, k, p)
    requires forall k :: 0 <= k < |s1.fds| ==> if OnFile(s1, k, p) then !IsOpenFd(s', k) else SameView(s1, s', k)
    ensures SameSharing(s, s')
    ensures forall k :: 0 <= k < |s.fds| ==> if OnFile(s, k, p) then !IsOpenFd(s', k) else SameView(s, s', k)
  {
    hide Data, BlankPast, OnFile;
    forall k | 0 <= k < |s.fds|
      ensures if OnFile(s, k, p) then !IsOpenFd(s', k) else SameView(s, s', k)
    {
      assert SameView(s, s1, k);
    }
    forall k, l | IsOpenFd(s, k) && IsOpenFd(s, l) && IsOpenFd(s', k) && IsOpenFd(s', l)
      ensures SameFile(s, k, l) <==> SameFile(s', k, l)
    {
      assert SameView(s, s1, k) && SameView(s, s1, l);
    }
  }

  /** What create_log needs to know about the file. */
  lemma LogNeeds(s: FsState, i: int)
    requires Ok(s) && 0 <= i < |s.files| && CachedFile(s.disk, s.files[i]) && !s.files[i].modified
    ensures var h := Decode(s.disk[s.files[i].page]);
      && ConfigOk(h) && 1 <= RecordSize(h) && LogSize(h) < 0x8000 && h.logPage == 0 && !h.IsLog()
  {
    FilesOk(s.disk);
    assert SlotOk(s.disk, s.files[i]);
  }

  lemma RefusedTables(s: FsState, s': FsState, h: Header)
    requires Reserved(s, s', -1, h)
    ensures s'.files == s.files && s'.fds == s.fds
  {
  }

  /** A reservation takes a slot nobody uses and leaves every other extent alone. */
  lemma ReservedElsewhere(s: FsState, s1: FsState, li: int, h: Header, i: int)
    requires Ok(s) && li != -1 && Reserved(s, s1, li, h)
    requires 0 <= i < |s.files| && CachedFile(s.disk, s.files[i]) && s.files[i].references > 0
    ensures 0 <= li < |s1.files| == |s.files| && li != i && s1.files[i] == s.files[i] && s1.fds == s.fds
    ensures s1.files[li].references == 0
    ensures s.files[i].page in s1.disk && s1.disk[s.files[i].page] == s.disk[s.files[i].page]
    ensures |s.disk[s.files[i].page]| >= HEADER_SIZE
    ensures s1.files[li].page !in s.disk && s1.files[li].page != s.files[i].page
  {
    hide Decode, FreshExtent;
  }

  lemma UsedStep(log: Bytes, i: nat, n: nat)
    requires i <= n && HEADER_SIZE + 2 * n <= |log|
    ensures Used(log, i, n) == if i == n then i else if Entry(log, i) == 0 then i else Used(log, i + 1, n)
  {
  }

  lemma NextRecordStep(log: Bytes, from: nat, n: nat, limit: nat)
    requires from < n && limit > 0 && HEADER_SIZE + 2 * n <= |log|
    ensures var to := if from + limit <= n then from + limit else n;
      NextRecord(log, from, n, limit) ==
        if to < n then NextRecord(log, to, n, limit)
        else if Used(log, from, to) < to then Used(log, from, to)
        else to - from
  {
  }

  /** With the whole table in one batch the search finds the first unused record. */
  lemma NextIsUsed(log: Bytes, n: nat)
    requires 0 < n <= LOG_TABLE_LIMIT && HEADER_SIZE + 2 * n <= |log|
    ensures NextRecord(log, 0, n, LOG_TABLE_LIMIT) == Used(log, 0, n)
  {
  }

  /** A read of a whole region is not clipped, and stays on the device. */
  lemma WholeRegion(D: Disk, p: int, region: nat)
    requires IsModifiedFile(D, p) && ConfigOk(Decode(D[p]))
    ensures var rs := RecordSize(Decode(D[p]));
      && 1 <= rs <= PAGE_SIZE && Region(Times(region, rs), rs) == region && Within(Times(region, rs), rs) == 0
      && Chunk(Times(region, rs), rs, rs) == rs
  {
    RegionOf(region, 0, RecordSize(Decode(D[p])));
  }

  /** Everything a record needs fits where it goes. */
  lemma AppendSetup(s: FsState, i: int, k: nat, off: nat, d: Bytes)
    requires Ok(s) && 0 <= i < |s.files| && CachedFile(s.disk, s.files[i]) && s.files[i].modified
    requires var p := s.files[i].page;
      && IsModifiedFile(s.disk, p) && FileOk(s.disk, p)
      && HEADER_SIZE + 2 * Records(Decode(s.disk[p])) <= |LogOf(s.disk, p)|
      && k == Used(LogOf(s.disk, p), 0, Records(Decode(s.disk[p]))) < Records(Decode(s.disk[p]))
      && off + |d| + HEADER_SIZE <= |s.disk[p]|
    ensures var p := s.files[i].page; var h := Decode(s.disk[p]); var rs := RecordSize(h);
      && DiskOk(s.disk) && CleanLog(h, LogOf(s.disk, p)) && LogReadable(s.disk, p, k)
      && 1 <= rs && 0 < Records(h) && Region(off, rs) + 1 < 0x1_0000 && Times(Region(off, rs), rs) <= off
      && h.logPage in s.disk && h.logPage != p && LogOf(s.disk, p) == s.disk[h.logPage]
      && HEADER_SIZE + 2 * k + 2 <= |LogOf(s.disk, p)|
      && RecordAt(h, k) == HEADER_SIZE + 2 * Records(h) + Times(k, rs) && RecordAt(h, k) + rs <= |LogOf(s.disk, p)|
  {
    hide Decode, Times, Used, Region, Within;
    var p := s.files[i].page;
    var h := Decode(s.disk[p]);
    SlotCapacity(s, i);
    OwnLog(s.disk, p);
    LogFits(h, LogOf(s.disk, p));
    RecordBounds(h, k);
    RegionSplit(off, RecordSize(h));
  }

  /** Two programming operations append a record. */
  lemma AppendedDisk(D: Disk, p: int, k: nat, region: nat, data: Bytes, D': Disk)
    requires IsModifiedFile(D, p) && FileOk(D, p) && CleanLog(Decode(D[p]), LogOf(D, p))
    requires k < Records(Decode(D[p])) && region + 1 < 0x1_0000 && |data| == RecordSize(Decode(D[p]))
    requires var h := Decode(D[p]); var lp := h.logPage;
      var at := HEADER_SIZE + 2 * Records(h) + Times(k, RecordSize(h));
      && lp in D && LogOf(D, p) == D[lp] && HEADER_SIZE + 2 * k + 2 <= |D[lp]| && at + |data| <= |D[lp]|
      && D' == D[lp := OrInto(D[lp], HEADER_SIZE + 2 * k, WordBytes(region + 1))][
           lp := OrInto(OrInto(D[lp], HEADER_SIZE + 2 * k, WordBytes(region + 1)), at, data)]
    ensures D' == D[Decode(D[p]).logPage := Appended(Decode(D[p]), LogOf(D, p), k, region, data)]
  {
    hide Decode, Times, Used, CleanLog, OrInto;
    LogFits(Decode(D[p]), LogOf(D, p));
  }

  lemma CopyingCanRead(s1: FsState, s: FsState, i: int, k: int, np: int, h: Header, n: int)
    requires Copying(s1, s, i, k, np, h, n)
    ensures CanRead(s, k) && Readable(s, k) && np in s.disk && HEADER_SIZE + |Content(s1, i)| <= |s.disk[np]|
  {
    hide DiskOk, SlotOk, CopyOf, PlainHeader, Content;
    CopyingReads(s1, s, i, k, np, h, n);
  }

  /** What one read of the copying loop brings. */
  lemma CopyingRead(s1: FsState, s: FsState, i: int, k: int, np: int, h: Header, n: int, size: nat, r: int, buf: Bytes)
    requires Copying(s1, s, i, k, np, h, n) && ReadResult(s, k, size, r, buf) && size > 0
    ensures 0 <= r && n + r <= |Content(s1, i)| && buf == Content(s1, i)[n..n + r] && |buf| == r
    ensures r == 0 <==> n == |Content(s1, i)|
    ensures s.fds[k] == Descriptor(n, i, CFS_READ)
  {
    hide DiskOk, SlotOk, DescriptorOk, Content;
    CopyingReads(s1, s, i, k, np, h, n);
  }

  /** The copy is complete. */
  ghost predicate Copied(s: FsState, s3: FsState, i: int, k: int, ni: int, page: int, offset: nat, h: Header) {
    && Ok(s) && 0 <= i < |s.files| && CachedFile(s.disk, s.files[i]) && s.files[i].page == page
    && s.files[i].references > 0
    && 0 <= k < |s.fds| && !s.fds[k].IsOpen() && 0 <= s.files[i].end == offset
    && Loadable(s.files, ni) && ni != i && |s3.files| == |s.files| && !h.IsLog() && FreshFile(h)
    && s3.files == Opened(s, k, i, CFS_READ, 0).files[ni := Slot(0, s3.files[ni].page, h.maxPages, -1, 0, false)]
    && Copying(Opened(s, k, i, CFS_READ, 0), s3, i, k, s3.files[ni].page, h, offset)
  }

  /** What taking over starts from. */
  lemma CopiedParts(s: FsState, s3: FsState, i: int, k: int, ni: int, page: int, offset: nat, h: Header)
    requires Copied(s, s3, i, k, ni, page, offset, h)
    ensures Ok(s) && 0 <= i < |s.files| && 0 <= ni < |s.files| == |s3.files| && ni != i && 0 <= k < |s.fds| == |s3.fds|
    ensures CachedFile(s.disk, s.files[i]) && s.files[i].page == page
    ensures var np := s3.files[ni].page;
      && np !in s.disk && np in s3.disk && s3.disk == s.disk[np := s3.disk[np]] && np != page
      && DiskOk(s3.disk) && IsFile(s.disk, page) && page in s3.disk && s3.disk[page] == s.disk[page]
      && s3.files == s.files[i := s.files[i].(references := s.files[i].references + 1)][
           ni := Slot(0, np, h.maxPages, -1, 0, false)]
      && s3.fds == s.fds[k := Descriptor(s.files[i].end, i, CFS_READ)]
      && s3.files[i].page == page && s.files[i].end == offset
    ensures forall l :: 0 <= l < |s3.fds| && s3.fds[l].IsOpen() ==>
      && 0 <= s3.fds[l].file < |s3.files| && s3.fds[l].file != ni
      && (s3.files[s3.fds[l].file].page == page <==> s3.fds[l].file == i)
    ensures LogGoesToo(s3, page, true) ==>
      Decode(s3.disk[page]).logPage in s3.disk && Decode(s3.disk[page]).logPage != page
  {
    hide Decode, FileOk, LogOf, DiskOk, ByteAt, OpenCount, BlankPast, PlainHeader, Base, ConfigOk, CopyOf, SlotOk;
    hide Content;
    CopyingReads(Opened(s, k, i, CFS_READ, 0), s3, i, k, s3.files[ni].page, h, offset);
    FreeUnreferenced(s, ni);
    forall l | 0 <= l < |s.fds|
      ensures s.fds[l].IsOpen() ==> s.fds[l].file != ni
      ensures DescriptorOk(s.disk, s.files, s.fds[l])
    {
      Unreferenced(s, ni, l);
    }
    assert s3.fds == s.fds[k := Descriptor(s.files[i].end, i, CFS_READ)];
    FilesOk(s.disk);
    FoundLog(s, page);
  }

  /** Removing the old file leaves the copy alone. */
  lemma CopyStays(s: FsState, s4: FsState, s5: FsState, ni: int, page: int, np: int)
    requires Ok(s) && IsFile(s.disk, page) && 0 <= page && np !in s.disk && np in s4.disk
    requires s4.disk == s.disk[np := s4.disk[np]]
    requires DiskOk(s4.disk) && 0 <= ni < |s4.files| && s4.files[ni].page == np && np != page
    requires s5 == Removed(s4, page, true, false)
    ensures |s5.files| == |s4.files| && s5.files[ni] == s4.files[ni] && np in s5.disk && s5.disk[np] == s4.disk[np]
    ensures Decode(s.disk[page]).logPage >= 0
  {
    hide Decode, FileOk, DiskOk, Removed, Ok;
    FoundLog(s, page);
    RemovedParts(s4, page, false);
    OkDisk(s);
    FilesOk(s.disk);
    if IsModifiedFile(s.disk, page) {
      OwnLog(s.disk, page);
    }
  }

  /** The header of the copy, completed with the log configuration. */
  lemma CopyCompleted(s: FsState, s3: FsState, i: int, k: int, ni: int, page: int, offset: nat, h: Header, e: Bytes,
        h3: Header)
      returns (h7: Header)
    requires Copied(s, s3, i, k, ni, page, offset, h) && 0 <= page
    requires var np := s3.files[ni].page; np in s3.disk && e == s3.disk[np]
    requires |e| >= HEADER_SIZE && Decode(e).IsActive() && h.name == Decode(s.disk[page]).name
    requires h3 == Decode(e).(logRecordSize := Decode(s.disk[page]).logRecordSize,
      logRecords := Decode(s.disk[page]).logRecords)
    ensures h3.Fits() && CanOverwrite(Decode(e), h3) && h3.maxPages == Decode(e).maxPages
    ensures !Has(h3.flags, HDR_FLAG_ISOLATED) && !h3.IsObsolete()
    ensures var e7 := OrInto(e, 0, Encode(h3.(flags := h3.flags | HDR_FLAG_VALID)));
      |e7| >= HEADER_SIZE && Decode(e7) == h7 && CanReplace(s, i, ni, k, s3.files[ni].page, e7, h7)
    ensures h7.logRecords == Decode(s.disk[page]).logRecords && h7.logRecordSize == Decode(s.disk[page]).logRecordSize
    ensures h7.maxPages == h.maxPages && h7.name == h.name
  {
    hide Decode, FileOk, LogOf, DiskOk, ByteAt, OpenCount, BlankPast, Base, ConfigOk, CopyOf, SlotOk, Content, Encode;
    hide Has;
    CopiedContent(s, s3, i, k, ni, page, offset, h);
    CopyOfSize(e, h, Content(s, i));
    OkDisk(s);
    FilesOk(s.disk);
    FileConfig(s.disk, page);
    var h4 := h3.(flags := h3.flags | HDR_FLAG_VALID);
    h7 := h4.(flags := h.flags | h4.flags);
    HasSet(h.flags, HDR_FLAG_VALID);
    HasOr(h.flags, h4.flags, HDR_FLAG_MODIFIED);
    HasOr(h.flags, h4.flags, HDR_FLAG_LOG);
    CopyHeader(e, h, Content(s, i), h4);
    SameConfig(Decode(s.disk[page]), h7);
    CopyOfSize(OrInto(e, 0, Encode(h4)), h7, Content(s, i));
  }

  lemma CopiedContent(s: FsState, s3: FsState, i: int, k: int, ni: int, page: int, offset: nat, h: Header)
    requires Copied(s, s3, i, k, ni, page, offset, h)
    ensures var np := s3.files[ni].page; np in s3.disk && CopyOf(s3.disk[np], h, Content(s, i)) && PlainHeader(h)
  {
    hide Decode, FileOk, LogOf, DiskOk, ByteAt, OpenCount, BlankPast, PlainHeader, Base, ConfigOk, CopyOf, SlotOk, Ok;
    var s1 := Opened(s, k, i, CFS_READ, 0);
    assert Content(s1, i) == Content(s, i);
    assert Content(s1, i)[..offset] == Content(s, i);
  }

  lemma FileConfig(D: Disk, p: int)
    requires IsFile(D, p) && FileOk(D, p)
    ensures ConfigOk(Decode(D[p]))
  {
  }

  /** A merge that was refused: the file and its log are where they were. */
  ghost predicate Unmerged(s: FsState, s': FsState, i: int) {
    && 0 <= i < |s.files| == |s'.files| && s'.files[i] == s.files[i]
    && SameViews(s, s') && Extends(s.disk, s'.disk)
    && forall k :: IsOpenFd(s, k) ==> s'.fds[k] == s.fds[k]
  }

  lemma UnmergedRefl(s: FsState, i: int)
    requires 0 <= i < |s.files|
    ensures Unmerged(s, s, i)
  {
    SameViewsRefl(s);
  }

  /** What merge_log finds: a known file with a sensible header. */
  lemma MergeSetup(s: FsState, i: int)
    requires Ok(s) && 0 <= i < |s.files| && CachedFile(s.disk, s.files[i]) && s.files[i].references > 0
    ensures s.files[i].page in s.disk && |s.disk[s.files[i].page]| >= HEADER_SIZE
    ensures var h := Decode(s.disk[s.files[i].page]);
      && KnownAs(s, i, h.name) && |h.name| == NAME_LENGTH && 1 <= h.maxPages == s.files[i].maxPages < 0x8000
      && 0 <= s.files[i].end && (h.logRecordSize > 0 || PAGE_SIZE > 0)
  {
    hide ConfigOk, Used;
    assert SlotOk(s.disk, s.files[i]);
    OkShape(s.disk, s.files[i].page);
  }

  lemma OkShape(D: Disk, p: int)
    requires DiskOk(D) && p in D
    ensures |D[p]| >= HEADER_SIZE && 1 <= Decode(D[p]).maxPages <= PAGE_COUNT
  {
    hide Decode;
    BaseOne();
    if Decode(D[p]).maxPages > PAGE_COUNT {
      BaseStep(PAGE_COUNT, Decode(D[p]).maxPages - PAGE_COUNT);
    }
  }

  /** The merge opens the very slot it is merging. */
  lemma OwnOpening(s: FsState, s1: FsState, k: int, i: int, name: Bytes)
    requires KnownAs(s, i, name) && OpensKnown(s, s1, k, name, CFS_READ)
    ensures if k < 0 then s1 == s else k < |s.fds| == |s1.fds| && s1 == Opened(s, k, i, CFS_READ, s1.fds[k].offset)
  {
    hide KnownAs;
  }

  lemma UnmergedOk(s: FsState, s1: FsState, s2: FsState, k: int, i: int, h: Header)
    requires Ok(s) && 0 <= i < |s.files| && 0 <= k < |s.fds| && !IsOpenFd(s, k) && Ok(s2)
    requires s1 == Opened(s, k, i, CFS_READ, 0) && Reserved(s1, s2, -1, h) && Extends(s1.disk, s2.disk)
    ensures IsOpenFd(s2, k) && s2.files[s2.fds[k].file].references > 0
    ensures Unmerged(s, Closed(s2, k), i)
  {
    hide Decode, FreshExtent, Data, BlankPast;
    assert DescriptorOk(s.disk, s.files, s.fds[k]);
    var s' := Closed(s2, k);
    assert s'.files == s.files;
    var s0 := s.(disk := s2.disk);
    if s2.disk == s.disk {
      SameViewsRefl(s);
    } else {
      var p :| p !in s.disk && s2.disk == s.disk[p := FreshExtent(h)];
      GrownOk(s, p, h);
    }
    assert SameViews(s, s0);
    IdleDescriptor(s0, k, s'.fds[k]);
    assert s'.fds == s.fds[k := s'.fds[k]];
    SameViewsTrans(s, s0, s');
  }

  lemma CopyStarted(s: FsState, s1: FsState, s2: FsState, k: int, i: int, ni: int, h: Header)
    requires Ok(s) && Ok(s1) && 0 <= i < |s.files| && CachedFile(s.disk, s.files[i]) && s.files[i].references > 0
    requires 0 <= k < |s.fds| && s1 == Opened(s, k, i, CFS_READ, 0)
    requires ni != -1 && Reserved(s1, s2, ni, h) && !h.IsLog() && s.files[i].maxPages <= h.maxPages
    ensures 0 <= ni < |s2.files| == |s.files| && Copying(s1, s2, i, k, s2.files[ni].page, h, 0)
    ensures Loadable(s1.files, ni) && FreshFile(h)
    ensures s2.files == s1.files[ni := Slot(0, s2.files[ni].page, h.maxPages, -1, 0, false)]
  {
    hide Copying, Ok;
    CopyingStarts(s1, s2, i, k, ni, h);
  }

  lemma CopyFinished(s: FsState, s1: FsState, s3: FsState, i: int, k: int, ni: int, page: int, offset: nat, h: Header)
    requires Ok(s) && 0 <= i < |s.files| && CachedFile(s.disk, s.files[i]) && s.files[i].references > 0
    requires s.files[i].page == page
    requires 0 <= k < |s.fds| && !IsOpenFd(s, k) && s1 == Opened(s, k, i, CFS_READ, 0)
    requires Loadable(s1.files, ni) && !h.IsLog() && FreshFile(h) && |s3.files| == |s.files|
    requires s3.files == s1.files[ni := Slot(0, s3.files[ni].page, h.maxPages, -1, 0, false)]
    requires offset == |Content(s1, i)| && Copying(s1, s3, i, k, s3.files[ni].page, h, offset)
    ensures Copied(s, s3, i, k, ni, page, offset, h)
  {
    hide CopyOf, PlainHeader, DiskOk, Content;
    assert DescriptorOk(s.disk, s.files, s.fds[k]);
    assert SlotOk(s.disk, s.files[ni]);
  }

  lemma ChunkBound(off: nat, size: nat, rs: nat)
    requires rs > 0 && size > 0
    ensures 0 < Chunk(off, size, rs) <= size && Chunk(off, size, rs) <= rs - Within(off, rs)
  {
  }

  /** What write_log_page finds in the header. */
  lemma LogSetup(s: FsState, i: int)
    requires Ok(s) && 0 <= i < |s.files| && CachedFile(s.disk, s.files[i]) && s.files[i].references > 0
    ensures s.files[i].page in s.disk && |s.disk[s.files[i].page]| >= HEADER_SIZE
    ensures var p := s.files[i].page; var h := Decode(s.disk[p]);
      && RecordSize(h) > 0 && 0 < Records(h) <= LOG_TABLE_LIMIT
      && s.files[i].modified == h.IsModified() && (h.IsModified() <==> IsModifiedFile(s.disk, p)) && FileOk(s.disk, p)
      && (h.IsModified() ==>
            && h.logPage in s.disk && LogOf(s.disk, p) == s.disk[h.logPage]
            && HEADER_SIZE + 2 * Records(h) <= |LogOf(s.disk, p)|
            && (s.files[i].recordCount >= 0 ==> s.files[i].recordCount == Used(LogOf(s.disk, p), 0, Records(h))))
  {
    hide Decode, Times, Used;
    var p := s.files[i].page;
    assert SlotOk(s.disk, s.files[i]);
    FilesOk(s.disk);
    if IsModifiedFile(s.disk, p) {
      OwnLog(s.disk, p);
      LogFits(Decode(s.disk[p]), LogOf(s.disk, p));
    }
  }

  lemma NotCreated(s: FsState, s1: FsState, i: int)
    requires 0 <= i < |s.files| && s1.files == s.files && s1.fds == s.fds && SameViews(s, s1)
    requires Extends(s.disk, s1.disk)
    ensures Unmerged(s, s1, i)
  {
  }

  lemma CreatedSetup(s: FsState, s1: FsState, i: int, lp: int)
    requires Ok(s1) && LogCreated(s, s1, i, lp) && CachedFile(s.disk, s.files[i]) && s.files[i].references > 0
    ensures 0 <= i < |s1.files| && CachedFile(s1.disk, s1.files[i]) && s1.files[i].modified
    ensures s1.files[i].page == s.files[i].page && s1.files[i].references == s.files[i].references
    ensures var p := s.files[i].page; var h := Decode(s1.disk[p]);
      && |s1.disk[p]| == |s.disk[p]| && RecordSize(h) == RecordSize(Decode(s.disk[p])) > 0 && 0 < Records(h)
      && IsModifiedFile(s1.disk, p) && FileOk(s1.disk, p)
      && HEADER_SIZE + 2 * Records(h) <= |LogOf(s1.disk, p)| && Used(LogOf(s1.disk, p), 0, Records(h)) == 0
  {
    hide Decode, Times, Used, LogOf, SameViews, Confined, ByteAt;
    FileConfig(s1.disk, s.files[i].page);
  }

  /** The first free slot, or the last unreferenced one if there is no free one. */
  ghost predicate SlotChoice(F: seq<Slot>, i: int)
    requires 0 <= i < |F|
  {
    if F[i].IsFree() then forall j :: 0 <= j < i ==> !F[j].IsFree()
    else (forall j :: 0 <= j < |F| ==> !F[j].IsFree()) && forall j :: i < j < |F| ==> !Loadable(F, j)
  }

  /** find_file can find a file of this name: it is in the cache, or stored, and a slot can
      be taken for it. */
  ghost predicate Findable(s: FsState, name: Bytes) {
    (exists j :: CachedAs(s, j, name)) || ((exists p :: Stored(s, p, name)) && HasSlot(s.files))
  }

  /** Some slot can be taken. */
  ghost predicate HasSlot(F: seq<Slot>) {
    exists j :: Loadable(F, j)
  }

  /** Some descriptor is free. */
  ghost predicate HasFd(T: seq<Descriptor>) {
    exists k :: 0 <= k < |T| && !T[k].IsOpen()
  }

  lemma NoFd(T: seq<Descriptor>)
    requires forall k :: 0 <= k < |T| ==> T[k].IsOpen()
    ensures !HasFd(T)
  {
  }

  lemma FreeFd(T: seq<Descriptor>, k: int)
    requires 0 <= k < |T| && !T[k].IsOpen()
    ensures HasFd(T)
  {
  }

  lemma InDisk(s: FsState, i: int)
    requires Ok(s) && 0 <= i < |s.files| && CachedFile(s.disk, s.files[i])
    ensures s.disk != map[]
  {
  }

  lemma NotFreeSlot(s: FsState, i: int, name: Bytes)
    requires KnownAs(s, i, name)
    ensures 0 <= i < |s.files| && !s.files[i].IsFree()
  {
    hide Decode;
  }

  /** `pages` is `was`, doubled any number of times. */
  predicate Doubled(was: nat, pages: nat) {
    pages == was || (0 < pages && pages % 2 == 0 && Doubled(was, pages / 2))
  }

  function MergePages(f: Slot, extend: nat): nat {
    if extend == 0 then f.maxPages else 2 * f.maxPages
  }

  /** A slot nobody has open stays one when another slot changes. */
  lemma SpareSlot(F: seq<Slot>, F': seq<Slot>, j: int, i: int)
    requires 0 <= j < |F| == |F'| && j != i && F[j].references == 0
    requires forall l :: 0 <= l < |F| && l != i ==> F'[l] == F[l]
    ensures HasSlot(F')
  {
    assert Loadable(F', j);
  }

  lemma SlotFreed(s: FsState, s': FsState, i: int)
    requires 0 <= i < |s.files| && s' == Removed(s, s.files[i].page, true, true)
    requires LogGoesToo(s, s.files[i].page, true) ==> Decode(s.disk[s.files[i].page]).logPage in s.disk
    ensures HasSlot(s'.files)
  {
    hide Decode, DiskWithout, ClosedAll;
    assert Loadable(s'.files, i);
  }

  lemma SlotsStay(F: seq<Slot>, F': seq<Slot>, i: int)
    requires 0 <= i < |F| == |F'| && F' == F[i := F'[i]]
    requires F'[i].maxPages == F[i].maxPages && F'[i].references == F[i].references
    ensures HasSlot(F) ==> HasSlot(F')
  {
    if HasSlot(F) {
      var j :| Loadable(F, j);
      assert Loadable(F', j);
    }
  }

  /** Opening a file that is open already takes no slot. */
  lemma SlotsAfterOpening(s: FsState, i: int, k: int, flags: bv8, s1: FsState)
    requires 0 <= k < |s.fds| == |s1.fds| && 0 <= i < |s.files| && s.files[i].references > 0 && !s.files[i].IsFree()
    requires s1 == Opened(s, k, i, flags, s1.fds[k].offset)
    ensures HasSlot(s.files) <==> HasSlot(s1.files)
  {
    assert forall j :: Loadable(s.files, j) <==> Loadable(s1.files, j);
  }

  /** Closing one of several descriptors on a file leaves its slot taken. */
  lemma SlotStaysTaken(s: FsState, k: int)
    requires 0 <= k < |s.fds| && 0 <= s.fds[k].file < |s.files| && s.files[s.fds[k].file].references > 1
    ensures HasSlot(Closed(s, k).files) ==> HasSlot(s.files)
  {
    if HasSlot(Closed(s, k).files) {
      var j :| Loadable(Closed(s, k).files, j);
      assert Loadable(s.files, j);
    }
  }

  lemma SlotsAfterClosing(s: FsState, k: int)
    requires 0 <= k < |s.fds| && 0 <= s.fds[k].file < |s.files| && s.files[s.fds[k].file].references > 0
    ensures HasSlot(s.files) ==> HasSlot(Closed(s, k).files)
  {
    if HasSlot(s.files) {
      var j :| Loadable(s.files, j);
      assert Loadable(Closed(s, k).files, j);
    }
  }

  /** A merge leaves the slot of the old file free. */
  lemma MergedSlots(s: FsState, i: int, ni: int, k: int, np: int, e: Bytes, h: Header)
    requires CanReplace(s, i, ni, k, np, e, h)
    ensures |e| >= HEADER_SIZE && HasSlot(Replaced(s, i, ni, k, np, e).files)
  {
    hide Ok, OpenCount, MovedFds, Content;
    assert Loadable(Replaced(s, i, ni, k, np, e).files, i);
  }

  /** What a request for pages and a slot comes to on a packed volume. */
  ghost predicate Supplied(hint: int, pages: nat, F: seq<Slot>, hint': int, ok: bool) {
    if hint + pages < PAGE_COUNT then hint' == hint + pages && (ok <==> HasSlot(F))
    else hint' == hint && !ok
  }

  lemma RefusedWrote(s: FsState, s1: FsState, k: int)
    requires Ok(s) && Ok(s1) && IsOpenFd(s, k) && Unmerged(s, s1, s.fds[k].file)
    ensures Wrote(s, s1, k, []) && IsOpenFd(s1, k) && s1.fds[k] == s.fds[k] && StillMarked(s, s1, k)
    ensures s1.files[s1.fds[k].file] == s.files[s.fds[k].file]
  {
    hide Ok, Wrote, Logged, SameViews;
    UnmergedWrote(s, s1, k);
    WroteOpen(s, s1, k, []);
  }

  /** The log of the file at `p` is full. */
  ghost predicate FullAt(D: Disk, p: int) {
    RecordsAt(D, p) <= Taken(D, p)
  }

  /** The next record of the file at `p` takes `n` of `size` bytes. */
  ghost predicate TakesChunk(D: Disk, p: int, off: nat, size: nat, n: int) {
    RecordSizeAt(D, p) > 0 && n == Chunk(off, size, RecordSizeAt(D, p)) && RecordsAt(D, p) > Taken(D, p)
  }

  /** What the header and the table say about the log, or a new one. */
  lemma LogLevel(s: FsState, i: int, off: nat, size: nat)
    requires Ok(s) && 0 <= i < |s.files| && CachedFile(s.disk, s.files[i]) && s.files[i].references > 0
    ensures var p := s.files[i].page; var h := Decode(s.disk[p]);
      && RecordSizeAt(s.disk, p) == RecordSize(h) > 0
      && (h.IsModified() ==>
            && HEADER_SIZE + 2 * Records(h) <= |LogOf(s.disk, p)|
            && var u := Used(LogOf(s.disk, p), 0, Records(h));
               && (u >= Records(h) ==> FullAt(s.disk, p))
               && (u < Records(h) ==> TakesChunk(s.disk, p, off, size, Chunk(off, size, RecordSize(h)))))
      && (!h.IsModified() ==> TakesChunk(s.disk, p, off, size, Chunk(off, size, RecordSize(h))))
  {
    hide Decode, Times, Used, Ok, Chunk;
    LogSetup(s, i);
  }

  lemma LogNeed(s: FsState, i: int)
    requires Ok(s) && 0 <= i < |s.files| && CachedFile(s.disk, s.files[i]) && s.files[i].references > 0
    ensures var p := s.files[i].page; var h := Decode(s.disk[p]);
      && RecordSize(h) > 0 && s.files[i].maxPages > 0
      && (!h.IsModified() ==> NeedAt(s.disk, s.files[i]) == PageCountFor(LogSize(h)))
      && (h.IsModified() ==>
            && HEADER_SIZE + 2 * Records(h) <= |LogOf(s.disk, p)|
            && NeedAt(s.disk, s.files[i])
                 == if Used(LogOf(s.disk, p), 0, Records(h)) >= Records(h) then s.files[i].maxPages else 0)
  {
    hide Decode, Times, Used, Ok;
    LogSetup(s, i);
  }

  /** What was denied once is refused whenever it is asked for again. */
  lemma DeniedAgain(c: Coffee, pages: nat)
    requires c.vol.Valid()
    ensures c.Denied(pages, false) ==> !c.CanMake(pages)
    ensures c.Denied(pages, true) ==> !c.CanMerge(pages)
  {
    hide Volume.Valid, Stalled, Starved, Strands, Sane, Volume.Alloc, HasSlot, HasFd;
    FlashIsValid(c.vol);
    AllocSane(c.vol);
    StalledEither(c.vol.Alloc(), PAGES_PER_SECTOR, pages);
  }

  /** A refused request leaves the file as full as it was. */
  lemma NeedStays(s: FsState, s1: FsState, i: int)
    requires Ok(s) && Ok(s1) && Unmerged(s, s1, i)
    requires CachedFile(s.disk, s.files[i]) && s.files[i].references > 0
    ensures s1.files[i] == s.files[i] && NeedAt(s1.disk, s1.files[i]) == NeedAt(s.disk, s.files[i])
  {
    hide Decode, Times, Used, Ok, SameViews, NeedAt;
    LogNeed(s, i);
    SameNeed(s, s1, i);
    LogNeed(s1, i);
  }

  lemma SameNeed(s: FsState, s1: FsState, i: int)
    requires Ok(s) && 0 <= i < |s.files| && CachedFile(s.disk, s.files[i]) && Extends(s.disk, s1.disk)
    ensures var p := s.files[i].page;
      s1.disk[p] == s.disk[p] && LogOf(s1.disk, p) == LogOf(s.disk, p) && CachedFile(s1.disk, s.files[i])
  {
    hide Decode, CleanLog, ConfigOk;
    FilesOk(s.disk);
  }

  lemma MarkedNeed(s: FsState, k: int, at: nat)
    requires Ok(s) && IsOpenFd(s, k)
    requires var p := s.files[s.fds[k].file].page; p in s.disk && HEADER_SIZE + at < |s.disk[p]|
    ensures var f := s.files[s.fds[k].file];
      var D' := s.disk[f.page := OrInto(s.disk[f.page], HEADER_SIZE + at, [0xff])];
      NeedAt(D', f) == NeedAt(s.disk, f)
  {
    hide Ok, OrInto, Decode, Confined, ByteAt, Logged, ConfigOk, CleanLog, Used;
    var p := s.files[s.fds[k].file].page;
    OpenInRange(s, k);
    OkDisk(s);
    FilesOk(s.disk);
    BehindHeader(s.disk[p], HEADER_SIZE + at, [0xff]);
    ExtentDisk(s.disk, p, OrInto(s.disk[p], HEADER_SIZE + at, [0xff]));
  }

  /** Moving an end takes neither a slot nor a descriptor. */
  lemma StillSupplied(s: FsState, s1: FsState)
    requires |s1.files| == |s.files| && |s1.fds| == |s.fds|
    requires forall j :: 0 <= j < |s.files| ==>
      s1.files[j].maxPages == s.files[j].maxPages && s1.files[j].references == s.files[j].references
    requires forall k :: 0 <= k < |s.fds| ==> s1.fds[k].flags == s.fds[k].flags
    ensures (HasSlot(s.files) ==> HasSlot(s1.files)) && (HasFd(s.fds) ==> HasFd(s1.fds))
  {
    if HasSlot(s.files) {
      var j :| Loadable(s.files, j);
      assert Loadable(s1.files, j);
    }
    if HasFd(s.fds) {
      var k :| 0 <= k < |s.fds| && !s.fds[k].IsOpen();
      assert !s1.fds[k].IsOpen();
    }
  }

  lemma RefusedStuck(s: FsState, s1: FsState, k: int)
    requires Ok(s) && Ok(s1) && IsOpenFd(s, k) && Unmerged(s, s1, s.fds[k].file)
    requires s.files[s.fds[k].file].modified ==> FullAt(s.disk, FilePage(s, k))
    ensures Stuck(s, s1, k) && 0 <= k < |s1.fds| && s1.fds[k].file == s.fds[k].file
  {
    hide Ok, Wrote, Unmerged, StillMarked, Taken, RecordsAt;
    RefusedWrote(s, s1, k);
  }

  lemma MergedStep(s: FsState, s1: FsState, k: int, ni: int, rest: Bytes)
    requires Ok(s) && Ok(s1) && IsOpenFd(s, k) && MergedInto(s, s1, s.fds[k].file, ni, 0)
    requires s.files[s.fds[k].file].modified && FullAt(s.disk, FilePage(s, k))
    ensures Stepped(s, s1, k, rest, 0, false)
  {
    hide Ok, Wrote, Alone, MergedInto, Taken, RecordsAt, Kept, SameConfigAt;
    MergedWrote(s, s1, k, ni, 0);
    WroteOpen(s, s1, k, []);
    assert rest[..0] == [];
  }

  lemma RecordStep(s: FsState, s1: FsState, k: int, rest: Bytes, n: int, grew: bool)
    requires Ok(s) && Ok(s1) && IsOpenFd(s, k) && 0 < n <= |rest| && 0 <= s.fds[k].offset
    requires LogWritten(s, s1, s.fds[k].file, s.fds[k].offset, rest[..n])
    requires TakesChunk(s.disk, FilePage(s, k), s.fds[k].offset, |rest|, n)
    requires IsOpenFd(s1, k) && (grew <==> s.fds[k].offset + n > s.files[s.fds[k].file].end)
    ensures var s' := Advanced(s1, k, s.fds[k].offset + n); Ok(s') && Stepped(s, s', k, rest, n, grew)
  {
    hide Ok, Wrote, Alone, LogWritten, Taken, RecordsAt, RecordSizeAt, Kept, SameConfigAt, Logged, Data;
    RecordWrote(s, s1, k, rest[..n]);
    OpenSlot(s, k);
  }
}
