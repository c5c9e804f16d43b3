/** Single steps of the file layer on its state, and what they keep. */
module FileSteps {
  import opened Arithmetic
  import opened FlashDevice
  import opened Headers
  import opened Disks
  import opened MicroLogs
  import opened FileStates

  /** A slot that load_file may take. */
  predicate Loadable(F: seq<Slot>, i: int) {
    0 <= i < |F| && (F[i].IsFree() || F[i].references == 0)
  }

  ghost predicate SlotsOk(D: Disk, F: seq<Slot>) {
    forall i :: 0 <= i < |F| ==> SlotOk(D, F[i])
  }

  // ------------------------------------------------------------------- load a slot

  /** An unreferenced slot takes over a file nobody has cached. */
  lemma LoadedOk(s: FsState, i: int, slot: Slot)
    requires Ok(s) && Loadable(s.files, i)
    requires SlotOk(s.disk, slot) && !slot.IsFree() && slot.references == 0
    requires forall j :: 0 <= j < |s.files| && j != i && !s.files[j].IsFree() ==> s.files[j].page != slot.page
    requires CachedFile(s.disk, slot) ==> forall j :: 0 <= j < |s.files| && j != i && CachedFile(s.disk, s.files[j]) ==>
      Decode(s.disk[s.files[j].page]).name != Decode(s.disk[slot.page]).name
    ensures var s' := s.(files := s.files[i := slot]); Ok(s') && SameViews(s, s')
  {
    hide DiskOk, SlotOk, Decode, ByteAt, OpenCount;
    var s' := s.(files := s.files[i := slot]);
    FreeUnreferenced(s, i);
    forall k | 0 <= k < |s.fds|
      ensures DescriptorOk(s'.disk, s'.files, s'.fds[k])
      ensures s.fds[k].IsOpen() ==> s.fds[k].file != i
    {
      Unreferenced(s, i, k);
    }
    assert SameViews(s, s');
  }

  lemma FreeUnreferenced(s: FsState, i: int)
    requires Ok(s) && Loadable(s.files, i)
    ensures s.files[i].references == 0
  {
    assert SlotOk(s.disk, s.files[i]);
  }

  // ------------------------------------------------------------ a new extent appears

  /** A header as reserve builds it. */
  ghost predicate FreshFile(h: Header) {
    && h.Fits() && 1 <= h.maxPages <= PAGE_COUNT
    && h.logPage == 0 && h.logRecords == 0 && h.logRecordSize == 0
    && !h.IsModified()
  }

  /** The default log configuration suits every file. */
  lemma DefaultConfig(h: Header)
    requires h.logRecords == 0 && h.logRecordSize == 0
    ensures ConfigOk(h) && RecordSize(h) == PAGE_SIZE && Records(h) == LOG_SIZE / PAGE_SIZE
  {
    var n := LOG_SIZE / PAGE_SIZE;
    Quotient(LOG_SIZE, PAGE_SIZE);
    DivAtLeastOne(LOG_SIZE, PAGE_SIZE);
    TimesSum(n, 2, PAGE_SIZE);
    TimesIsProduct(n, PAGE_SIZE);
    MulOrder(2, PAGE_SIZE, n);
    hide Times;
    forall o | 0 <= o < Base(PAGE_COUNT)
      ensures Region(o, PAGE_SIZE) + 1 < 0x1_0000
    {
      TimesIsProduct(PAGE_COUNT, PAGE_SIZE);
      RegionBelow(o, PAGE_COUNT, PAGE_SIZE);
    }
  }

  lemma RegionBelow(o: nat, pages: nat, size: nat)
    requires size > 0 && o < pages * size
    ensures Region(o, size) < pages
  {
    Quotient(o, size);
    if o / size >= pages {
      MulOrder(pages, o / size, size);
    }
  }

  ghost predicate Extends(D: Disk, D': Disk) {
    forall p :: p in D ==> p in D' && D'[p] == D[p]
  }

  lemma FreshDiskOk(D: Disk, p: int, h: Header)
    requires DiskOk(D) && p !in D && FreshFile(h)
    ensures var D' := D[p := FreshExtent(h)]; DiskOk(D') && Extends(D, D')
    ensures var D' := D[p := FreshExtent(h)]; forall q :: q in D ==>
      (IsFile(D', q) <==> IsFile(D, q)) && LogOf(D', q) == LogOf(D, q) && (IsFile(D, q) ==> FileOk(D', q))
  {
    hide ConfigOk, CleanLog, Decode, Base;
    var D' := D[p := FreshExtent(h)];
    FreshHeader(h);
    DefaultConfig(h);
    BaseOrder(h.maxPages, PAGE_COUNT);
    forall q | IsFile(D', q)
      ensures FileOk(D', q)
    {
      if q != p {
        assert IsFile(D, q) && FileOk(D, q);
      }
    }
  }

  /** An extent added to the disk goes unnoticed. */
  lemma GrownOk(s: FsState, p: int, h: Header)
    requires Ok(s) && p !in s.disk && FreshFile(h)
    ensures var s' := s.(disk := s.disk[p := FreshExtent(h)]); Ok(s') && SameViews(s, s')
  {
    hide ConfigOk, CleanLog, Decode, Base, FileOk, DiskOk, LogOf, IsFile, OpenCount;
    var D' := s.disk[p := FreshExtent(h)];
    FreshDiskOk(s.disk, p, h);
    ExtendedTables(s, D');
  }

  /** The tables of one disk are good for a disk that has everything it has. */
  lemma ExtendedTables(s: FsState, D': Disk)
    requires Ok(s) && DiskOk(D') && Extends(s.disk, D')
    requires forall q :: q in s.disk ==>
      && (IsFile(D', q) <==> IsFile(s.disk, q)) && LogOf(D', q) == LogOf(s.disk, q)
      && (IsFile(s.disk, q) ==> FileOk(D', q))
    ensures var s' := s.(disk := D'); Ok(s') && SameViews(s, s')
    ensures forall i :: 0 <= i < |s.files| && !s.files[i].IsFree() ==> Content(s.(disk := D'), i) == Content(s, i)
  {
    hide ConfigOk, CleanLog, Decode, Base, DiskOk, LogOf, OpenCount, FileOk, IsFile, Byte, ByteAt, BlankPast;
    var s' := s.(disk := D');
    FilesOk(s.disk);
    forall i | 0 <= i < |s.files|
      ensures SlotOk(D', s.files[i])
      ensures !s.files[i].IsFree() ==> Content(s', i) == Content(s, i)
      ensures !s.files[i].IsFree() ==> (BlankPast(s, i) ==> BlankPast(s', i))
    {
      ExtendedSlot(s.disk, D', s.files[i]);
      if !s.files[i].IsFree() {
        SameBytes(s.disk, D', s.files[i].page);
        BlankPastSame(s, s', i, i);
      }
    }
    forall k | 0 <= k < |s.fds|
      ensures DescriptorOk(D', s.files, s.fds[k])
      ensures SameView(s, s', k)
    {
      assert DescriptorOk(s.disk, s.files, s.fds[k]);
      InOldDisk(s, k);
    }
    assert NamesDistinct(D', s.files) by {
      assert forall i :: 0 <= i < |s.files| && CachedFile(D', s.files[i]) ==> CachedFile(s.disk, s.files[i]) by {
        SlotsInDisk(s);
      }
    }
  }

  lemma BlankPastSame(s: FsState, s': FsState, i: int, j: int)
    requires 0 <= i < |s.files| && 0 <= j < |s'.files| && s.files[i].end <= s'.files[j].end
    requires var p := s.files[i].page;
      p == s'.files[j].page && p in s.disk && p in s'.disk && |s.disk[p]| == |s'.disk[p]|
    requires forall o :: s'.files[j].end <= o ==>
      ByteAt(s'.disk, s.files[i].page, o) == ByteAt(s.disk, s.files[i].page, o)
    ensures BlankPast(s, i) ==> BlankPast(s', j)
  {
  }

  lemma FilesOk(D: Disk)
    requires DiskOk(D)
    ensures forall p :: IsFile(D, p) ==> FileOk(D, p)
  {
  }

  lemma OwnLog(D: Disk, p: int)
    requires IsModifiedFile(D, p) && FileOk(D, p)
    ensures var lp := Decode(D[p]).logPage; lp in D && lp != p && !IsFile(D, lp) && LogOf(D, p) == D[lp]
  {
  }

  lemma SlotsInDisk(s: FsState)
    requires SlotsOk(s.disk, s.files)
    ensures forall i :: 0 <= i < |s.files| && !s.files[i].IsFree() ==> s.files[i].page in s.disk
  {
  }

  lemma InOldDisk(s: FsState, k: int)
    requires 0 <= k < |s.fds| && DescriptorOk(s.disk, s.files, s.fds[k])
    ensures s.fds[k].IsOpen() ==> 0 <= s.fds[k].file < |s.files| && s.files[s.fds[k].file].page in s.disk
  {
  }

  lemma ExtendedSlot(D: Disk, D': Disk, slot: Slot)
    requires SlotOk(D, slot) && DiskOk(D) && DiskOk(D') && Extends(D, D')
    requires forall q :: q in D ==>
      (IsFile(D', q) <==> IsFile(D, q)) && LogOf(D', q) == LogOf(D, q) && (IsFile(D, q) ==> FileOk(D', q))
    ensures SlotOk(D', slot)
    ensures !slot.IsFree() ==> slot.page in D
  {
    hide ConfigOk, CleanLog, Decode, Base, LogOf, ZeroFrom;
  }

  lemma SameBytes(D: Disk, D': Disk, p: int)
    requires p in D && p in D' && D'[p] == D[p] && LogOf(D', p) == LogOf(D, p)
    requires IsFile(D', p) <==> IsFile(D, p)
    requires IsFile(D, p) ==> (FileOk(D, p) <==> FileOk(D', p))
    ensures forall o :: ByteAt(D', p, o) == ByteAt(D, p, o)
  {
    hide ConfigOk, CleanLog, Decode, Base, LogOf, FileOk;
  }

  // ------------------------------------------------------------------- descriptors

  function Opened(s: FsState, k: int, i: int, flags: bv8, offset: int): FsState
    requires 0 <= k < |s.fds| && 0 <= i < |s.files|
  {
    s.(files := s.files[i := s.files[i].(references := s.files[i].references + 1)],
       fds := s.fds[k := Descriptor(offset, i, flags)])
  }

  lemma OpenedOk(s: FsState, k: int, i: int, flags: bv8, offset: int)
    requires Ok(s) && 0 <= k < |s.fds| && !s.fds[k].IsOpen() && flags != COFFEE_FD_FREE
    requires 0 <= i < |s.files| && CachedFile(s.disk, s.files[i]) && 0 <= offset <= s.files[i].end
    ensures var s' := Opened(s, k, i, flags, offset);
      && Ok(s') && IsOpenFd(s', k) && Data(s', k) == Content(s, i)
      && (forall l :: 0 <= l < |s.fds| && l != k ==> SameView(s, s', l))
      && SameSharing(s, s')
  {
    hide DiskOk, Decode, ByteAt, OpenCount, ZeroFrom, FileOk, LogOf, SameView, BlankPast, NameAt;
    var s' := Opened(s, k, i, flags, offset);
    forall j | 0 <= j < |s.files|
      ensures s'.files[j].references == OpenCount(s'.fds, j)
    {
      OpenCountUpdate(s.fds, k, Descriptor(offset, i, flags), j);
    }
    assert SlotOk(s.disk, s.files[i]);
    assert forall l :: 0 <= l < |s.fds| ==> DescriptorOk(s.disk, s.files, s.fds[l]);
    ReferencesOnly(s, s', k, i);
  }

  /** A change to one descriptor and to the references of one slot changes no other view. */
  lemma ReferencesOnly(s: FsState, s': FsState, k: int, i: int)
    requires 0 <= k < |s.fds| == |s'.fds| && 0 <= i < |s.files| && s'.disk == s.disk && |s'.files| == |s.files|
    requires s'.files == s.files[i := s.files[i].(references := s'.files[i].references)]
    requires s'.fds == s.fds[k := s'.fds[k]]
    requires !IsOpenFd(s, k) || !IsOpenFd(s', k)
    ensures forall l :: 0 <= l < |s.fds| && l != k ==> SameView(s, s', l)
    ensures SameSharing(s, s') && forall j :: 0 <= j < |s.files| ==> Content(s', j) == Content(s, j)
  {
    hide ByteAt, NameAt;
    forall l | 0 <= l < |s.fds| && l != k
      ensures SameView(s, s', l)
    {
      if IsOpenFd(s, l) {
        assert s'.files[s.fds[l].file].page == s.files[s.fds[l].file].page;
      }
    }
  }

  /** Opened for nothing, a descriptor stays free, and the reference it counted is never
      given back. */
  lemma OpenedExactly(s: FsState, k: int, i: int, flags: bv8, offset: int)
    requires Ok(s) && 0 <= k < |s.fds| && !s.fds[k].IsOpen()
    requires 0 <= i < |s.files| && CachedFile(s.disk, s.files[i]) && 0 <= offset <= s.files[i].end
    ensures Ok(Opened(s, k, i, flags, offset)) <==> flags != COFFEE_FD_FREE
  {
    hide DiskOk, SlotOk, PagesDistinct, NamesDistinct, DescriptorOk, Decode, OpenCount, CachedFile;
    if flags != COFFEE_FD_FREE {
      OpenedOk(s, k, i, flags, offset);
    } else {
      OpenCountUpdate(s.fds, k, Descriptor(offset, i, flags), i);
      assert Opened(s, k, i, flags, offset).files[i].references != OpenCount(Opened(s, k, i, flags, offset).fds, i);
    }
  }

  function Closed(s: FsState, k: int): FsState
    requires 0 <= k < |s.fds| && 0 <= s.fds[k].file < |s.files| && s.files[s.fds[k].file].references > 0
  {
    var i := s.fds[k].file;
    s.(files := s.files[i := s.files[i].(references := s.files[i].references - 1)],
       fds := s.fds[k := s.fds[k].(flags := COFFEE_FD_FREE, file := -1)])
  }

  lemma ClosedOk(s: FsState, k: int)
    requires Ok(s) && IsOpenFd(s, k)
    ensures s.files[s.fds[k].file].references > 0
    ensures var s' := Closed(s, k);
      && Ok(s') && !s'.fds[k].IsOpen()
      && (forall l :: 0 <= l < |s.fds| && l != k ==> SameView(s, s', l))
      && SameSharing(s, s')
      && (forall i :: 0 <= i < |s.files| ==> Content(s', i) == Content(s, i))
  {
    hide DiskOk, Decode, ByteAt, OpenCount, ZeroFrom, FileOk, LogOf, SameView, BlankPast, NameAt, Content;
    var i := s.fds[k].file;
    OpenCountPositive(s.fds, k, i);
    var s' := Closed(s, k);
    forall j | 0 <= j < |s.files|
      ensures s'.files[j].references == OpenCount(s'.fds, j)
    {
      OpenCountUpdate(s.fds, k, s'.fds[k], j);
    }
    assert SlotOk(s.disk, s.files[i]);
    assert forall l :: 0 <= l < |s.fds| ==> DescriptorOk(s.disk, s.files, s.fds[l]);
    ReferencesOnly(s, s', k, i);
  }

  /** What a closed descriptor holds does not matter. */
  lemma IdleDescriptor(s: FsState, k: int, d: Descriptor)
    requires Ok(s) && 0 <= k < |s.fds| && !s.fds[k].IsOpen() && !d.IsOpen()
    ensures var s' := s.(fds := s.fds[k := d]); Ok(s') && SameViews(s, s')
    ensures forall i :: 0 <= i < |s.files| ==> Content(s.(fds := s.fds[k := d]), i) == Content(s, i)
  {
    hide DiskOk, Decode, ByteAt, OpenCount, ZeroFrom, FileOk, LogOf;
    var s' := s.(fds := s.fds[k := d]);
    forall j | 0 <= j < |s.files|
      ensures s'.files[j].references == OpenCount(s'.fds, j)
    {
      OpenCountUpdate(s.fds, k, d, j);
    }
  }

  /** The size file_end gives an extent: trailing zero bytes do not count. */
  function TrimmedLength(b: Bytes): (n: nat)
    ensures n <= |b|
    ensures n > 0 ==> b[n - 1] != 0
    ensures forall x :: n <= x < |b| ==> b[x] == 0
  {
    if b == [] then 0
    else if b[|b| - 1] != 0 then |b|
    else TrimmedLength(b[..|b| - 1])
  }

  function EndOf(b: Bytes): (n: nat) {
    if TrimmedLength(b) < HEADER_SIZE then 0 else TrimmedLength(b) - HEADER_SIZE
  }

  lemma TrimmedIs(b: Bytes, n: nat)
    requires n <= |b| && (n > 0 ==> b[n - 1] != 0) && forall x :: n <= x < |b| ==> b[x] == 0
    ensures TrimmedLength(b) == n
  {
  }

  /** The size of an extent that is blank behind `n` bytes. */
  lemma EndWithin(e: Bytes, n: nat)
    requires HEADER_SIZE + n <= |e| && ZeroFrom(e, HEADER_SIZE + n)
    ensures EndOf(e) <= n && (EndOf(e) == n <==> n == 0 || e[HEADER_SIZE + n - 1] != 0)
    ensures forall d: Bytes :: |d| == n && e[HEADER_SIZE..HEADER_SIZE + n] == d ==> EndOf(e) == TrimmedLength(d)
  {
    hide TrimmedLength;
    var d := e[HEADER_SIZE..HEADER_SIZE + n];
    var m := TrimmedLength(d);
    forall x | HEADER_SIZE + m <= x < |e|
      ensures e[x] == 0
    {
      if x < HEADER_SIZE + n {
        assert e[x] == d[x - HEADER_SIZE];
      }
    }
    if m > 0 {
      assert e[HEADER_SIZE + m - 1] == d[m - 1];
      TrimmedIs(e, HEADER_SIZE + m);
    }
    assert n > 0 ==> e[HEADER_SIZE + n - 1] == d[n - 1];
  }

  lemma PlainHeld(D: Disk, p: int, d: Bytes)
    requires IsFile(D, p) && !IsModifiedFile(D, p) && HEADER_SIZE + |d| <= |D[p]| && FileOk(D, p)
    requires forall o :: 0 <= o < |d| ==> ByteAt(D, p, o) == d[o]
    ensures D[p][HEADER_SIZE..HEADER_SIZE + |d|] == d
  {
    hide Decode, ConfigOk;
    forall o | 0 <= o < |d|
      ensures D[p][HEADER_SIZE..HEADER_SIZE + |d|][o] == d[o]
    {
      assert ByteAt(D, p, o) == d[o];
    }
  }

  /** Only what lies behind the header counts. */
  lemma SameEnd(e: Bytes, e': Bytes)
    requires |e'| == |e| && forall x :: HEADER_SIZE <= x < |e| ==> e'[x] == e[x]
    ensures EndOf(e') == EndOf(e)
  {
    hide EndOf;
    EndAtLeast(e, e');
    EndAtLeast(e', e);
  }

  lemma EndAtLeast(e: Bytes, e': Bytes)
    requires |e'| == |e| && forall x :: HEADER_SIZE <= x < |e| ==> e'[x] == e[x]
    ensures EndOf(e') <= EndOf(e)
  {
    hide TrimmedLength;
    var m' := TrimmedLength(e');
    if m' > HEADER_SIZE {
      assert e[m' - 1] == e'[m' - 1];
    }
  }

  /** A cached file of unknown size gets the size of its extent. */
  lemma SizedOk(s: FsState, i: int, end: int)
    requires Ok(s) && 0 <= i < |s.files| && CachedFile(s.disk, s.files[i]) && s.files[i].references == 0
    requires end == EndOf(s.disk[s.files[i].page])
    ensures var s' := s.(files := s.files[i := s.files[i].(end := end)]); Ok(s') && SameViews(s, s')
    ensures 0 <= end
  {
    hide DiskOk, Decode, ByteAt, OpenCount, FileOk, LogOf, Base;
    var slot := s.files[i].(end := end);
    assert SlotOk(s.disk, s.files[i]);
    SlotCapacity(s, i);
    assert SlotOk(s.disk, slot);
    LoadedOk(s, i, slot);
  }

  lemma SlotCapacity(s: FsState, i: int)
    requires Ok(s) && 0 <= i < |s.files| && CachedFile(s.disk, s.files[i])
    ensures var p := s.files[i].page;
      p in s.disk && |s.disk[p]| == HEADER_SIZE + Capacity(Decode(s.disk[p])) && 0 <= Capacity(Decode(s.disk[p]))
  {
  }

  /** Nobody has page `p` cached when no cached file has the name of the file there. */
  lemma NotCached(s: FsState, p: int)
    requires Ok(s) && IsFile(s.disk, p)
    requires forall j :: 0 <= j < |s.files| && CachedFile(s.disk, s.files[j]) ==>
      Decode(s.disk[s.files[j].page]).name != Decode(s.disk[p]).name
    ensures forall j :: 0 <= j < |s.files| && !s.files[j].IsFree() ==> s.files[j].page != p
  {
  }

  /** What cfs_open makes of a file that was on the disk before. */
  ghost function StoredContent(s: FsState, p: int): Bytes
    requires p in s.disk
  {
    seq(EndOf(s.disk[p]), o => ByteAt(s.disk, p, o))
  }

  ghost predicate CachedAs(s: FsState, i: int, name: Bytes) {
    0 <= i < |s.files| && CachedFile(s.disk, s.files[i]) && Decode(s.disk[s.files[i].page]).name == name
  }

  ghost predicate Stored(s: FsState, p: int, name: Bytes) {
    IsFile(s.disk, p) && Decode(s.disk[p]).name == name
  }

  /** find_file loads slot `i` with a file from the disk. */
  ghost predicate Loads(s: FsState, s': FsState, i: int, name: Bytes) {
    && Loadable(s.files, i) && |s'.files| == |s.files|
    && (forall j :: !CachedAs(s, j, name))
    && Stored(s, s'.files[i].page, name)
    && s'.files[i] == LoadedSlot(s'.files[i].page, Decode(s.disk[s'.files[i].page]))
    && s' == s.(files := s.files[i := s'.files[i]])
  }

  function LoadedSlot(page: int, h: Header): Slot {
    Slot(UNKNOWN_OFFSET, page, h.maxPages, -1, 0, h.IsModified())
  }

  /** find_file: a cached file, or one loaded from the disk, or none. */
  ghost predicate FoundFile(s: FsState, s': FsState, i: int, name: Bytes) {
    && (i == -1 ==>
          && s' == s && (forall j :: !CachedAs(s, j, name))
          && ((forall p :: !Stored(s, p, name)) || (forall j :: !Loadable(s.files, j))))
    && (i != -1 ==> (s' == s && CachedAs(s, i, name)) || Loads(s, s', i, name))
  }

  lemma LoadsOk(s: FsState, s': FsState, i: int, name: Bytes)
    requires Ok(s) && Loads(s, s', i, name)
    ensures Ok(s') && SameViews(s, s') && CachedAs(s', i, name)
  {
    hide DiskOk, Decode, ByteAt, OpenCount, FileOk, LogOf, Base, Ok;
    var p := s'.files[i].page;
    forall j | 0 <= j < |s.files| && CachedFile(s.disk, s.files[j])
      ensures Decode(s.disk[s.files[j].page]).name != name
    {
      assert !CachedAs(s, j, name);
    }
    NotCached(s, p);
    LoadedSlotOk(s, p);
    LoadedOk(s, i, s'.files[i]);
  }

  lemma LoadedSlotOk(s: FsState, p: int)
    requires Ok(s) && IsFile(s.disk, p)
    ensures SlotOk(s.disk, LoadedSlot(p, Decode(s.disk[p])))
    ensures !LoadedSlot(p, Decode(s.disk[p])).IsFree()
  {
    hide Decode, ConfigOk;
    if Decode(s.disk[p]).maxPages == 0 {
      BaseOne();
    }
  }

  lemma FoundOk(s: FsState, s': FsState, i: int, name: Bytes)
    requires Ok(s) && FoundFile(s, s', i, name)
    ensures Ok(s') && SameViews(s, s')
    ensures i != -1 ==> CachedAs(s', i, name) && CachedFile(s'.disk, s'.files[i])
  {
    hide Ok, SameView, Loads;
    if i != -1 && Loads(s, s', i, name) {
      LoadsOk(s, s', i, name);
    } else {
      SameViewsRefl(s);
    }
  }

  lemma SameViewsRefl(s: FsState)
    ensures SameViews(s, s)
  {
  }

  lemma SameViewsTrans(s: FsState, s1: FsState, s2: FsState)
    requires SameViews(s, s1) && SameViews(s1, s2)
    ensures SameViews(s, s2)
  {
    hide Data;
    forall k | 0 <= k < |s.fds|
      ensures SameView(s, s2, k)
    {
      assert SameView(s, s1, k) && SameView(s1, s2, k);
    }
    forall k, l | IsOpenFd(s, k) && IsOpenFd(s, l) && IsOpenFd(s2, k) && IsOpenFd(s2, l)
      ensures SameFile(s, k, l) <==> SameFile(s2, k, l)
    {
      assert SameView(s, s1, k) && SameView(s, s1, l);
    }
  }

  // ------------------------------------------------------------------------ reserve

  /** What reserve does: a new extent and a slot for it, or neither of them noticed. */
  ghost predicate Reserved(s: FsState, s': FsState, i: int, h: Header) {
    && s'.fds == s.fds
    && (i == -1 ==>
          && s'.files == s.files
          && (|| s'.disk == s.disk
              || (FreshFile(h) && exists p :: p !in s.disk && s'.disk == s.disk[p := FreshExtent(h)])))
    && (i != -1 ==>
          && FreshFile(h) && Loadable(s.files, i)
          && |s'.files| == |s.files| && s'.files[i].page !in s.disk
          && s'.disk == s.disk[s'.files[i].page := FreshExtent(h)]
          && s'.files == s.files[i := Slot(0, s'.files[i].page, h.maxPages, -1, 0, false)])
  }

  function ReservedHeader(name: Bytes, pages: nat, flags: bv8): Header {
    Header(0, 0, 0, pages, 0, HDR_FLAG_ALLOCATED | flags | HDR_FLAG_VALID, name)
  }

  lemma ReservedFlags(name: Bytes, pages: nat, flags: bv8)
    requires |name| == NAME_LENGTH && 1 <= pages < 0x1_0000
    requires flags == 0 || flags == HDR_FLAG_LOG
    ensures var f := HDR_FLAG_ALLOCATED | flags;
      !Has(f, HDR_FLAG_OBSOLETE) && !Has(f, HDR_FLAG_ISOLATED) && Has(f, HDR_FLAG_ALLOCATED)
        && !Has(f, HDR_FLAG_MODIFIED)
    ensures var h := ReservedHeader(name, pages, flags);
      && h.Fits() && !h.IsModified() && (h.IsLog() <==> flags == HDR_FLAG_LOG)
      && (pages <= PAGE_COUNT ==> FreshFile(h))
  {
  }

  lemma NotReserved(s: FsState, s': FsState, h: Header)
    requires Ok(s) && Reserved(s, s', -1, h)
    ensures Ok(s') && SameViews(s, s') && Extends(s.disk, s'.disk)
  {
    hide Ok, SameViews, FreshExtent;
    if s'.disk == s.disk {
      SameViewsRefl(s);
    } else {
      var p :| p !in s.disk && s'.disk == s.disk[p := FreshExtent(h)];
      GrownOk(s, p, h);
    }
  }

  /** A reserved file is empty, and new unless another cached file has its name. */
  lemma ReservedOk(s: FsState, s': FsState, i: int, h: Header)
    requires Ok(s) && i != -1 && Reserved(s, s', i, h)
    requires h.IsLog() || forall j :: !CachedAs(s, j, h.name)
    ensures Ok(s') && SameViews(s, s') && Extends(s.disk, s'.disk)
    ensures !h.IsLog() ==> CachedFile(s'.disk, s'.files[i])
    ensures Content(s', i) == []
  {
    hide Ok, SameViews, FreshExtent, Decode, ByteAt;
    var p := s'.files[i].page;
    var s1 := s.(disk := s'.disk);
    GrownOk(s, p, h);
    FreshHeader(h);
    FreshSlotOk(s', i, p, h);
    NewPageNotCached(s, s1, p);
    NamesStay(s, s1, h.name);
    LoadedOk(s1, i, s'.files[i]);
    SameViewsTrans(s, s1, s');
  }

  lemma FreshSlotOk(s': FsState, i: int, p: int, h: Header)
    requires FreshFile(h) && p in s'.disk && s'.disk[p] == FreshExtent(h)
    requires 0 <= i < |s'.files| && s'.files[i] == Slot(0, p, h.maxPages, -1, 0, false)
    ensures SlotOk(s'.disk, s'.files[i]) && Decode(s'.disk[p]) == h && (IsFile(s'.disk, p) <==> !h.IsLog())
  {
    hide Decode, Base;
    FreshHeader(h);
    BaseOrder(1, h.maxPages);
    BaseOne();
  }

  lemma NewPageNotCached(s: FsState, s1: FsState, p: int)
    requires Ok(s) && p !in s.disk && s1 == s.(disk := s1.disk)
    ensures forall j :: 0 <= j < |s.files| && !s.files[j].IsFree() ==> s.files[j].page != p
  {
    SlotsInDisk(s);
  }

  lemma NamesStay(s: FsState, s1: FsState, name: Bytes)
    requires Ok(s) && s1 == s.(disk := s1.disk) && Extends(s.disk, s1.disk)
    ensures (forall j :: !CachedAs(s, j, name)) ==>
      forall j :: 0 <= j < |s.files| && CachedFile(s1.disk, s1.files[j]) ==>
        Decode(s1.disk[s1.files[j].page]).name != name
  {
    hide Decode, Content;
    SlotsInDisk(s);
    if forall j :: !CachedAs(s, j, name) {
      forall j | 0 <= j < |s.files| && CachedFile(s1.disk, s1.files[j])
        ensures Decode(s1.disk[s1.files[j].page]).name != name
      {
        assert !CachedAs(s, j, name);
      }
    }
  }

  // --------------------------------------------------------------------------- seek

  /** Seeking inside the extent only moves the descriptor and may grow the file with the
      bytes that are there already. */
  lemma SoughtOk(s: FsState, k: int, to: int)
    requires Ok(s) && IsOpenFd(s, k) && 0 <= to
    ensures var i := s.fds[k].file; var end := if s.files[i].end < to then to else s.files[i].end;
      var s' := s.(files := s.files[i := s.files[i].(end := end)], fds := s.fds[k := s.fds[k].(offset := to)]);
      && IsFile(s.disk, s.files[i].page)
      && (to <= Capacity(Decode(s.disk[s.files[i].page])) ==> Ok(s'))
      && (to > Capacity(Decode(s.disk[s.files[i].page])) ==> !Ok(s'))
  {
    hide DiskOk, Decode, ByteAt, OpenCount, FileOk, LogOf;
    var i := s.fds[k].file;
    var slot := s.files[i];
    var end := if slot.end < to then to else slot.end;
    var s' := s.(files := s.files[i := slot.(end := end)], fds := s.fds[k := s.fds[k].(offset := to)]);
    assert SlotOk(s.disk, slot) && DescriptorOk(s.disk, s.files, s.fds[k]);
    if to <= Capacity(Decode(s.disk[slot.page])) {
      assert SlotOk(s.disk, s'.files[i]);
      forall l | 0 <= l < |s.fds|
        ensures DescriptorOk(s.disk, s'.files, s'.fds[l])
      {
        assert DescriptorOk(s.disk, s.files, s.fds[l]);
      }
      forall j | 0 <= j < |s.files|
        ensures s'.files[j].references == OpenCount(s'.fds, j)
      {
        OpenCountUpdate(s.fds, k, s'.fds[k], j);
      }
    } else {
      assert !SlotOk(s.disk, s'.files[i]);
    }
  }

  function Zeros(n: int): Bytes {
    seq(if n < 0 then 0 else n, _ => 0)
  }

  lemma SoughtContent(s: FsState, i: int, end: int)
    requires Ok(s) && 0 <= i < |s.files| && CachedFile(s.disk, s.files[i])
    requires 0 <= s.files[i].end <= end <= Capacity(Decode(s.disk[s.files[i].page]))
    requires BlankPast(s, i)
    ensures var s' := s.(files := s.files[i := s.files[i].(end := end)]);
      Content(s', i) == Content(s, i) + Zeros(end - s.files[i].end) && BlankPast(s', i)
  {
    hide DiskOk, Decode, ByteAt, OpenCount, FileOk, LogOf, Base;
    SlotCapacity(s, i);
  }

  /** A file without a log is blank behind its end. */
  lemma PlainIsBlankPast(s: FsState, i: int)
    requires Ok(s) && 0 <= i < |s.files| && CachedFile(s.disk, s.files[i]) && !s.files[i].modified
    requires 0 <= s.files[i].end
    ensures BlankPast(s, i)
  {
    hide DiskOk, Decode, FileOk, LogOf, Base;
    assert SlotOk(s.disk, s.files[i]);
  }
}
