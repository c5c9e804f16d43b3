/** Writing through a descriptor, seen as an operation on flat files. */
module FileWrites {
  import opened FlashDevice
  import opened Headers
  import opened MicroLogs
  import opened FileStates
  import opened FileSteps
  import opened FileTouches
  import opened FileLogs
  import opened FileMerges

  ghost function FilePage(s: FsState, k: int): int
    requires IsOpenFd(s, k)
  {
    s.files[s.fds[k].file].page
  }

  /** What descriptor `l` sees when `d` is written through descriptor `k`: the new bytes
      if the two share the file, and nothing at all otherwise. */
  ghost predicate Sees(s: FsState, s': FsState, k: int, l: int, d: Bytes)
    requires IsOpenFd(s, k) && 0 <= s.fds[k].offset <= |Data(s, k)|
  {
    && (IsOpenFd(s, l) <==> IsOpenFd(s', l))
    && (IsOpenFd(s, l) ==>
          && s'.fds[l].flags == s.fds[l].flags
          && s'.fds[l].offset == s.fds[l].offset + (if l == k then |d| else 0)
          && Data(s', l) == (if SameFile(s, k, l) then Overlay(Data(s, k), s.fds[k].offset, d) else Data(s, l))
          && NameOf(s', l) == NameOf(s, l)
          && (BlankPast(s, s.fds[l].file) ==> BlankPast(s', s'.fds[l].file)))
  }

  /** `d` was written at the offset of descriptor `k`, and the offset moved behind it.
      Only the file's own extents were written. */
  ghost predicate Wrote(s: FsState, s': FsState, k: int, d: Bytes) {
    && IsOpenFd(s, k) && IsOpenFd(s', k) && |s'.fds| == |s.fds|
    && 0 <= s.fds[k].offset <= |Data(s, k)|
    && (forall l :: 0 <= l < |s.fds| ==> Sees(s, s', k, l, d))
    && SameSharing(s, s')
    && Confined(s.disk, FilePage(s, k), s'.disk, FilePage(s', k))
  }

  /** No other file appeared, and the others' slots and sizes in the cache are as they
      were, where they are still there. */
  ghost predicate Alone(s: FsState, s': FsState, k: int) {
    IsOpenFd(s, k) && IsOpenFd(s', k) && OthersRest(s, FilePage(s, k), s', FilePage(s', k))
  }

  lemma AloneRefl(s: FsState, k: int)
    requires Ok(s) && IsOpenFd(s, k)
    ensures Alone(s, s, k)
  {
    hide Ok, OthersRest;
    OpenSlot(s, k);
    OkDisk(s);
    OthersRestRefl(s, FilePage(s, k));
  }

  lemma AloneTrans(s: FsState, s1: FsState, s2: FsState, k: int, a: Bytes, b: Bytes)
    requires Wrote(s, s1, k, a) && Wrote(s1, s2, k, b) && Alone(s, s1, k) && Alone(s1, s2, k)
    ensures Alone(s, s2, k)
  {
    hide Sees, SameSharing, Confined, OthersRest;
    OthersRestTrans(s, FilePage(s, k), s1, FilePage(s1, k), s2, FilePage(s2, k));
  }

  /** Moving the offset and the end of the file itself disturbs nobody. */
  lemma AdvancedAlone(s: FsState, s1: FsState, k: int, to: int)
    requires IsOpenFd(s, k) && IsOpenFd(s1, k) && FilePage(s1, k) == FilePage(s, k)
    requires OthersRest(s, FilePage(s, k), s1, FilePage(s, k))
    ensures Alone(s, Advanced(s1, k, to), k)
  {
    var s' := Advanced(s1, k, to);
    forall i | 0 <= i < |s'.files| && Foreign(s.disk, FilePage(s, k), s'.files[i].page)
      ensures Rests(s, s', i)
    {
      assert Rests(s, s1, i);
    }
  }

  lemma OverlayNothing(s: Bytes, off: nat)
    requires off <= |s|
    ensures Overlay(s, off, []) == s
  {
  }

  lemma OverlayTwice(s: Bytes, off: nat, a: Bytes, b: Bytes)
    requires off <= |s|
    ensures Overlay(Overlay(s, off, a), off + |a|, b) == Overlay(s, off, a + b)
  {
    var l, r := Overlay(Overlay(s, off, a), off + |a|, b), Overlay(s, off, a + b);
    assert |l| == |r|;
    forall x | 0 <= x < |l|
      ensures l[x] == r[x]
    {
    }
  }

  /** What nobody notices writes nothing. */
  lemma WroteNothing(s: FsState, s': FsState, k: int)
    requires SameViews(s, s') && IsOpenFd(s, k) && 0 <= s.fds[k].offset <= |Data(s, k)|
    requires IsOpenFd(s', k) && Confined(s.disk, FilePage(s, k), s'.disk, FilePage(s', k))
    ensures Wrote(s, s', k, [])
  {
    hide BlankPast, Content;
    forall l | 0 <= l < |s.fds|
      ensures Sees(s, s', k, l, [])
    {
      assert SameView(s, s', l);
      OverlayNothing(Data(s, k), s.fds[k].offset);
    }
  }

  lemma {:induction false} WroteTrans(s: FsState, s1: FsState, s2: FsState, k: int, a: Bytes, b: Bytes)
    requires Wrote(s, s1, k, a) && Wrote(s1, s2, k, b)
    ensures Wrote(s, s2, k, a + b)
  {
    hide BlankPast, Content, Overlay, Confined;
    ConfinedTrans(s.disk, FilePage(s, k), s1.disk, FilePage(s1, k), s2.disk, FilePage(s2, k));
    OverlayTwice(Data(s, k), s.fds[k].offset, a, b);
    assert Sees(s, s1, k, k, a) && Sees(s1, s2, k, k, b);
    forall l | 0 <= l < |s.fds|
      ensures Sees(s, s2, k, l, a + b)
    {
      assert Sees(s, s1, k, l, a) && Sees(s1, s2, k, l, b);
    }
    forall l, m | IsOpenFd(s, l) && IsOpenFd(s, m) && IsOpenFd(s2, l) && IsOpenFd(s2, m)
      ensures SameFile(s, l, m) <==> SameFile(s2, l, m)
    {
      assert Sees(s, s1, k, l, a) && Sees(s, s1, k, m, a);
    }
  }

  // --------------------------------------------------------- the extent and the log

  /** The size file_end would find for the file behind descriptor `k`. */
  ghost function Kept(s: FsState, k: int): nat
    requires IsOpenFd(s, k)
  {
    if FilePage(s, k) in s.disk then EndOf(s.disk[FilePage(s, k)]) else 0
  }

  /** How many records there still is room for in the log, or in a new one. */
  ghost function FreeRecords(s: FsState, k: int): int
    requires IsOpenFd(s, k)
  {
    RecordsAt(s.disk, FilePage(s, k)) - Taken(s.disk, FilePage(s, k))
  }

  ghost function RecordSizeOf(s: FsState, k: int): nat
    requires IsOpenFd(s, k)
  {
    RecordSizeAt(s.disk, FilePage(s, k))
  }

  /** How many bytes fit into that room from the offset of descriptor `k` on: a record
      each for as many regions. */
  ghost function RoomBytes(s: FsState, k: int): int
    requires IsOpenFd(s, k)
  {
    var rs, off := RecordSizeOf(s, k), s.fds[k].offset;
    if rs == 0 || off < 0 || FreeRecords(s, k) <= 0 then 0
    else Times(Region(off, rs) + FreeRecords(s, k), rs) - off
  }

  ghost predicate SameLogConfig(s: FsState, s': FsState, k: int) {
    IsOpenFd(s, k) && IsOpenFd(s', k) && SameConfigAt(s.disk, FilePage(s, k), s'.disk, FilePage(s', k))
  }

  /** Without a log the extent alone says what the file holds. */
  lemma PlainKept(s: FsState, k: int)
    requires Ok(s) && IsOpenFd(s, k) && !s.files[s.fds[k].file].modified
    ensures Kept(s, k) == TrimmedLength(Data(s, k)) && Taken(s.disk, FilePage(s, k)) == 0
  {
    hide Ok, ByteAt, EndOf, TrimmedLength, Decode, FileOk;
    OpenSlot(s, k);
    OpenSlotOk(s, k);
    var p := FilePage(s, k);
    forall o | 0 <= o < |Data(s, k)|
      ensures ByteAt(s.disk, p, o) == Data(s, k)[o]
    {
    }
    PlainHeld(s.disk, p, Data(s, k));
    EndWithin(s.disk[p], |Data(s, k)|);
  }

  // ------------------------------------------------------------------- one write

  function Later(a: int, b: int): int {
    if a < b then b else a
  }

  /** The file behind descriptor `k` holds `d` at its offset, which moves behind it. */
  ghost function Advanced(s: FsState, k: int, to: int): FsState
    requires IsOpenFd(s, k)
  {
    var i := s.fds[k].file;
    s.(files := s.files[i := s.files[i].(end := Later(s.files[i].end, to))], fds := s.fds[k := s.fds[k].(offset := to)])
  }

  lemma WroteBytes(s: FsState, s1: FsState, k: int, d: Bytes)
    requires Ok(s) && IsOpenFd(s, k) && |s1.files| == |s.files| && s1.fds == s.fds
    requires var i, off := s.fds[k].file, s.fds[k].offset; var p := s.files[i].page;
      && s1.files[i].page == p && s1.files[i].end == s.files[i].end
      && p in s.disk && p in s1.disk && |s1.disk[p]| == |s.disk[p]| && 0 <= off
      && off + |d| + HEADER_SIZE <= |s.disk[p]|
      && BytesWritten(s.disk, s1.disk, p, off, d) && Confined(s.disk, p, s1.disk, p)
      && NameAt(s1.disk, p) == NameAt(s.disk, p)
      && forall l :: IsOpenFd(s, l) && s.fds[l].file != i ==> SameView(s, s1, l)
    ensures Wrote(s, Advanced(s1, k, s.fds[k].offset + |d|), k, d)
  {
    hide DiskOk, SlotOk, ByteAt, Confined, OpenCount, BlankPast, NameAt;
    var i, off := s.fds[k].file, s.fds[k].offset;
    var s' := Advanced(s1, k, off + |d|);
    OpenSlot(s, k);
    WrittenContent(s, s', i, off, d);
    forall l | 0 <= l < |s.fds|
      ensures Sees(s, s', k, l, d)
    {
      if IsOpenFd(s, l) && s.fds[l].file != i {
        assert SameView(s, s1, l);
        SameBlank(s1, s', s.fds[l].file);
      }
    }
  }

  lemma WrittenContent(s: FsState, s': FsState, i: int, off: nat, d: Bytes)
    requires 0 <= i < |s.files| == |s'.files| && 0 <= off <= s.files[i].end
    requires s'.files[i].page == s.files[i].page && s'.files[i].end == Later(s.files[i].end, off + |d|)
    requires var p := s.files[i].page;
      && p in s.disk && p in s'.disk && |s'.disk[p]| == |s.disk[p]| && off + |d| + HEADER_SIZE <= |s.disk[p]|
      && s.files[i].end + HEADER_SIZE <= |s.disk[p]|
      && BytesWritten(s.disk, s'.disk, p, off, d)
    ensures Content(s', i) == Overlay(Content(s, i), off, d)
    ensures BlankPast(s, i) ==> BlankPast(s', i)
  {
    hide ByteAt;
    var l, r := Content(s', i), Overlay(Content(s, i), off, d);
    assert |l| == |r|;
    forall o | 0 <= o < |l|
      ensures l[o] == r[o]
    {
    }
  }

  /** Moving the offset, and the end with it, keeps the tables in order. */
  lemma AdvancedOk(s: FsState, k: int, to: int)
    requires Ok(s) && IsOpenFd(s, k) && 0 <= to
    requires FilePage(s, k) in s.disk && HEADER_SIZE + to <= |s.disk[FilePage(s, k)]|
    requires s.files[s.fds[k].file].modified || to <= s.files[s.fds[k].file].end
    ensures Ok(Advanced(s, k, to))
  {
    hide DiskOk, Decode, ByteAt, OpenCount, FileOk, LogOf;
    OpenSlot(s, k);
    SlotCapacity(s, s.fds[k].file);
    SoughtOk(s, k, to);
  }

  lemma OpenSlot(s: FsState, k: int)
    requires Ok(s) && IsOpenFd(s, k)
    ensures var i := s.fds[k].file;
      && CachedFile(s.disk, s.files[i]) && 0 <= s.fds[k].offset <= s.files[i].end && s.files[i].references > 0
      && FilePage(s, k) in s.disk
      && HEADER_SIZE + s.files[i].end <= |s.disk[FilePage(s, k)]| == Base(s.files[i].maxPages)
      && |Data(s, k)| == s.files[i].end
      && (s.files[i].modified <==> IsModifiedFile(s.disk, FilePage(s, k)))
      && FileOk(s.disk, FilePage(s, k))
  {
    hide Decode, ByteAt, OpenCount;
    assert DescriptorOk(s.disk, s.files, s.fds[k]);
    assert SlotOk(s.disk, s.files[s.fds[k].file]);
    OpenCountPositive(s.fds, k, s.fds[k].file);
  }

  // -------------------------------------------------------------- a record was written

  lemma RecordWrote(s: FsState, s1: FsState, k: int, d: Bytes)
    requires Ok(s) && Ok(s1) && IsOpenFd(s, k) && 0 <= s.fds[k].offset
    requires LogWritten(s, s1, s.fds[k].file, s.fds[k].offset, d)
    ensures var s' := Advanced(s1, k, s.fds[k].offset + |d|); var i := s.fds[k].file;
      && Ok(s') && Wrote(s, s', k, d) && Alone(s, s', k) && s'.fds[k].file == i
      && Kept(s', k) == Kept(s, k) && SameLogConfig(s, s', k) && FreeRecords(s', k) == FreeRecords(s, k) - 1
      && s'.files[i].modified && s'.files[i].maxPages == s.files[i].maxPages
      && Logged(s'.disk, FilePage(s', k), s.fds[k].offset + |d| - 1)
  {
    hide Ok, Wrote, ByteAt, Confined, OthersRest, BytesWritten, Logged, BlankPast, Content, EndOf, RecordsAt, Taken;
    hide RecordSizeAt;
    WroteBytes(s, s1, k, d);
    AdvancedOk(s1, k, s.fds[k].offset + |d|);
    AdvancedAlone(s, s1, k, s.fds[k].offset + |d|);
  }

  // --------------------------------------------------------- a merge, or nothing at all

  lemma MergedWrote(s: FsState, s1: FsState, k: int, ni: int, extend: nat)
    requires Ok(s) && Ok(s1) && IsOpenFd(s, k) && MergedInto(s, s1, s.fds[k].file, ni, extend)
    ensures Wrote(s, s1, k, []) && Alone(s, s1, k) && s1.fds[k].file == ni && s1.fds[k].offset == s.fds[k].offset
    ensures s1.fds[k].flags == s.fds[k].flags
    ensures !s1.files[ni].modified && s1.files[ni].end == s.files[s.fds[k].file].end
    ensures Kept(s1, k) == TrimmedLength(Data(s, k)) && SameLogConfig(s, s1, k)
    ensures s1.files[ni].maxPages ==
      if extend == 0 then s.files[s.fds[k].file].maxPages else 2 * s.files[s.fds[k].file].maxPages
    ensures s1.files[ni].maxPages <= PAGE_COUNT && s.files[s.fds[k].file].maxPages >= 1
  {
    hide Ok, Content, BlankPast, Confined, OthersRest, Decode, ZeroFrom, EndOf, TrimmedLength, SameConfigAt;
    OpenSlot(s, k);
    SameFields(s.disk, FilePage(s, k), s1.disk, s1.files[ni].page);
    assert SameView(s, s1, k);
    WroteNothing(s, s1, k);
  }

  lemma UnmergedWrote(s: FsState, s1: FsState, k: int)
    requires Ok(s) && Ok(s1) && IsOpenFd(s, k)
    requires |s1.files| == |s.files| && s1.files[s.fds[k].file] == s.files[s.fds[k].file]
    requires SameViews(s, s1) && Extends(s.disk, s1.disk) && forall l :: IsOpenFd(s, l) ==> s1.fds[l] == s.fds[l]
    ensures Wrote(s, s1, k, []) && s1.fds[k] == s.fds[k]
    ensures forall o :: Logged(s.disk, FilePage(s, k), o) ==> Logged(s1.disk, FilePage(s1, k), o)
  {
    hide Ok, Content, BlankPast, Decode, ZeroFrom, Newest, Records, RecordSize;
    OpenSlot(s, k);
    OpenSlot(s1, k);
    var p := FilePage(s, k);
    ExtendedConfined(s.disk, s1.disk, p);
    WroteNothing(s, s1, k);
  }

  lemma ExtendedConfined(D: Disk, D': Disk, p: int)
    requires Extends(D, D') && IsFile(D, p) && FileOk(D, p) && IsFile(D', p)
    ensures Confined(D, p, D', p) && LogOf(D', p) == LogOf(D, p)
  {
    hide Decode, ConfigOk, CleanLog;
  }

  // ----------------------------------------------------------- writing in the extent

  /** A file slot after its extent was programmed behind the header. */
  lemma ExtentSlotOk(D: Disk, D': Disk, f: Slot, f': Slot)
    requires SlotOk(D, f) && CachedFile(D, f) && FileOk(D, f.page)
    requires IsFile(D', f.page) && FileOk(D', f.page) && |D'[f.page]| == |D[f.page]|
    requires Decode(D'[f.page]) == Decode(D[f.page]) && LogOf(D', f.page) == LogOf(D, f.page)
    requires f' == f.(end := f'.end) && 0 <= f.end <= f'.end && HEADER_SIZE + f'.end <= |D[f.page]| == Base(f.maxPages)
    requires ZeroFrom(D'[f.page], HEADER_SIZE + f'.end)
    ensures SlotOk(D', f')
  {
    hide Decode, Base, ConfigOk, CleanLog, Used;
  }

  /** Programming the blank part behind the end appends. */
  lemma PlainWrote(s: FsState, s1: FsState, k: int, d: Bytes)
    requires Ok(s) && IsOpenFd(s, k) && 0 <= s.fds[k].offset && FilePage(s, k) in s.disk
    requires var f := s.files[s.fds[k].file]; !f.modified && f.end <= s.fds[k].offset
    requires HEADER_SIZE + s.fds[k].offset + |d| <= |s.disk[FilePage(s, k)]|
    requires s1 == s.(
      disk := s.disk[FilePage(s, k) := OrInto(s.disk[FilePage(s, k)], HEADER_SIZE + s.fds[k].offset, d)])
    ensures var s' := Advanced(s1, k, s.fds[k].offset + |d|); Ok(s') && Wrote(s, s', k, d) && Alone(s, s', k)
  {
    hide Ok, Wrote, ByteAt, Confined, OthersRest, BlankPast, Content, Decode, ConfigOk, CleanLog, Base, DiskOk;
    hide FileOk, LogOf, SlotOk;
    var i, off, p := s.fds[k].file, s.fds[k].offset, FilePage(s, k);
    var ext := s.disk[p];
    var ext' := s1.disk[p];
    var f := s.files[i];
    var f' := f.(end := Later(f.end, off + |d|));
    OpenSlot(s, k);
    OkDisk(s);
    PlainBlank(s, k);
    OrIntoBlank(ext, HEADER_SIZE + off, d);
    assert ext'[..HEADER_SIZE] == ext[..HEADER_SIZE];
    ExtentDisk(s.disk, p, ext');
    ExtentSlotOk(s.disk, s1.disk, f, f');
    TouchedOk(s, s1.disk, i, f');
    var s2 := FsState(s1.disk, s.files[i := f'], s.fds);
    AdvancedOk(s2, k, off + |d|);
    assert Advanced(s2, k, off + |d|) == Advanced(s1, k, off + |d|);
    PlainBytes(s.disk, s1.disk, p, off, d);
    TouchedOthers(s, s2, s1, i);
    WroteBytes(s, s1, k, d);
    TouchedRest(s, s1, i);
    AdvancedAlone(s, s1, k, off + |d|);
  }

  lemma PlainBlank(s: FsState, k: int)
    requires Ok(s) && IsOpenFd(s, k) && !s.files[s.fds[k].file].modified
    ensures FilePage(s, k) in s.disk && ZeroFrom(s.disk[FilePage(s, k)], HEADER_SIZE + s.files[s.fds[k].file].end)
    ensures SlotOk(s.disk, s.files[s.fds[k].file])
  {
    assert DescriptorOk(s.disk, s.files, s.fds[k]);
    assert SlotOk(s.disk, s.files[s.fds[k].file]);
  }

  lemma PlainBytes(D: Disk, D': Disk, p: int, off: nat, d: Bytes)
    requires IsFile(D, p) && FileOk(D, p) && !IsModifiedFile(D, p) && off + |d| + HEADER_SIZE <= |D[p]|
    requires IsFile(D', p) && FileOk(D', p) && !IsModifiedFile(D', p) && |D'[p]| == |D[p]|
    requires D'[p][HEADER_SIZE + off..HEADER_SIZE + off + |d|] == d
    requires forall x :: 0 <= x < |D[p]| && !(HEADER_SIZE + off <= x < HEADER_SIZE + off + |d|) ==> D'[p][x] == D[p][x]
    ensures BytesWritten(D, D', p, off, d)
  {
    hide Decode, FileOk, LogOf;
    forall o | 0 <= o && HEADER_SIZE + o < |D[p]|
      ensures ByteAt(D', p, o) == if off <= o < off + |d| then d[o - off] else ByteAt(D, p, o)
    {
      if off <= o < off + |d| {
        assert D'[p][HEADER_SIZE + o] == D'[p][HEADER_SIZE + off..HEADER_SIZE + off + |d|][o - off];
      }
    }
  }

  /** The end of a file does not matter to the views of the others. */
  lemma TouchedOthers(s: FsState, s2: FsState, s1: FsState, i: int)
    requires 0 <= i < |s.files| == |s2.files| && s1 == s.(disk := s2.disk) && s2.fds == s.fds
    requires s2.files == s.files[i := s2.files[i]]
    requires forall l :: IsOpenFd(s, l) && s.fds[l].file != i ==> SameView(s, s2, l)
    ensures forall l :: IsOpenFd(s, l) && s.fds[l].file != i ==> SameView(s, s1, l)
  {
    hide ByteAt;
    forall l | IsOpenFd(s, l) && s.fds[l].file != i
      ensures SameView(s, s1, l)
    {
      assert SameView(s, s2, l);
      SameBlank(s2, s1, s.fds[l].file);
    }
  }

  // -------------------------------------------------------------- the dummy end marker

  lemma BehindHeader(ext: Bytes, off: nat, d: Bytes)
    requires HEADER_SIZE <= off && off + |d| <= |ext|
    ensures OrInto(ext, off, d)[..HEADER_SIZE] == ext[..HEADER_SIZE] && |OrInto(ext, off, d)| == |ext|
    ensures forall x :: 0 <= x < |ext| && !(off <= x < off + |d|) ==> OrInto(ext, off, d)[x] == ext[x]
  {
  }

  /** The marker lies before the end, and is there whatever it is programmed over. At the
      very end it is what file_end finds. */
  lemma MarkerBlank(ext: Bytes, at: nat, end: int)
    requires at < end && HEADER_SIZE + at < |ext| && ZeroFrom(ext, HEADER_SIZE + end)
    ensures ZeroFrom(OrInto(ext, HEADER_SIZE + at, [0xff]), HEADER_SIZE + end)
    ensures OrInto(ext, HEADER_SIZE + at, [0xff])[HEADER_SIZE + at] == 0xff
    ensures end == at + 1 ==> EndOf(OrInto(ext, HEADER_SIZE + at, [0xff])) == end
  {
    hide EndOf;
    OrFull(ext[HEADER_SIZE + at]);
    if end == at + 1 {
      EndWithin(OrInto(ext, HEADER_SIZE + at, [0xff]), end);
    }
  }

  /** The marker in the extent is invisible when the log has a record over it. */
  lemma MarkedLogged(s: FsState, s1: FsState, k: int, at: nat)
    requires Ok(s) && IsOpenFd(s, k) && FilePage(s, k) in s.disk && HEADER_SIZE + at < |s.disk[FilePage(s, k)]|
    requires at < s.files[s.fds[k].file].end && s.files[s.fds[k].file].modified && Logged(s.disk, FilePage(s, k), at)
    requires s1 == s.(disk := s.disk[FilePage(s, k) := OrInto(s.disk[FilePage(s, k)], HEADER_SIZE + at, [0xff])])
    ensures Ok(s1) && Wrote(s, s1, k, []) && Alone(s, s1, k)
    ensures at + 1 == s.files[s.fds[k].file].end ==> Kept(s1, k) == at + 1
  {
    hide Ok, Wrote, ByteAt, Confined, OthersRest, BlankPast, Content, Decode, ConfigOk, CleanLog, Base, DiskOk;
    hide FileOk, LogOf, SlotOk, Logged, OrInto, ZeroFrom, SameView, EndOf;
    var i, p := s.fds[k].file, FilePage(s, k);
    var ext, ext' := s.disk[p], s1.disk[p];
    OpenSlot(s, k);
    OkDisk(s);
    BehindHeader(ext, HEADER_SIZE + at, [0xff]);
    ExtentDisk(s.disk, p, ext');
    OpenSlotOk(s, k);
    MarkerBlank(ext, at, s.files[i].end);
    ExtentSlotOk(s.disk, s1.disk, s.files[i], s.files[i]);
    TouchedOk(s, s1.disk, i, s.files[i]);
    assert s1 == FsState(s1.disk, s.files[i := s.files[i]], s.fds);
    forall o
      ensures ByteAt(s1.disk, p, o) == ByteAt(s.disk, p, o)
    {
      OutsideExtent(s.disk, s1.disk, p, o);
    }
    SameBytesViews(s, s1, i);
    TouchedRest(s, s1, i);
    WroteNothing(s, s1, k);
  }

  lemma OpenSlotOk(s: FsState, k: int)
    requires Ok(s) && IsOpenFd(s, k)
    ensures var f := s.files[s.fds[k].file];
      SlotOk(s.disk, f) && f.page in s.disk && ZeroFrom(s.disk[f.page], HEADER_SIZE + f.end)
  {
    assert DescriptorOk(s.disk, s.files, s.fds[k]);
    assert SlotOk(s.disk, s.files[s.fds[k].file]);
  }

  lemma OutsideExtent(D: Disk, D': Disk, p: int, o: int)
    requires IsFile(D, p) && IsFile(D', p) && |D'[p]| == |D[p]|
    ensures !(0 <= o && HEADER_SIZE + o < |D[p]|) ==> ByteAt(D, p, o) == ByteAt(D', p, o) == 0
  {
  }

  /** `d` with its last byte overwritten by the marker. */
  function Spoiled(d: Bytes): (r: Bytes)
    requires |d| > 0
    ensures |r| == |d|
  {
    d[|d| - 1 := 0xff]
  }

  lemma OrFull(b: bv8)
    ensures b | 0xff == 0xff
  {
  }

  /** Without a log the marker destroys the last byte of the file. */
  lemma MarkedPlain(s: FsState, s1: FsState, k: int, at: nat)
    requires Ok(s) && IsOpenFd(s, k) && FilePage(s, k) in s.disk && HEADER_SIZE + at < |s.disk[FilePage(s, k)]|
    requires !s.files[s.fds[k].file].modified && at < s.files[s.fds[k].file].end
    requires s1 == s.(disk := s.disk[FilePage(s, k) := OrInto(s.disk[FilePage(s, k)], HEADER_SIZE + at, [0xff])])
    ensures Ok(s1) && |s1.fds| == |s.fds| && s1.fds == s.fds && s1.files == s.files
    ensures at < |Data(s, k)| && Content(s1, s.fds[k].file) == Data(s, k)[at := 0xff]
    ensures BlankPast(s1, s.fds[k].file) && NameOf(s1, k) == NameOf(s, k)
    ensures forall l :: IsOpenFd(s, l) && s.fds[l].file != s.fds[k].file ==> SameView(s, s1, l)
    ensures Alone(s, s1, k)
    ensures Confined(s.disk, FilePage(s, k), s1.disk, FilePage(s, k))
  {
    hide Ok, ByteAt, Confined, OthersRest, BlankPast, Decode, ConfigOk, CleanLog, Base, DiskOk, FileOk, LogOf, SlotOk;
    hide OrInto, ZeroFrom, SameView, EndOf;
    var i, p := s.fds[k].file, FilePage(s, k);
    var ext, ext' := s.disk[p], s1.disk[p];
    OpenSlot(s, k);
    OkDisk(s);
    PlainBlank(s, k);
    BehindHeader(ext, HEADER_SIZE + at, [0xff]);
    MarkerBlank(ext, at, s.files[i].end);
    ExtentDisk(s.disk, p, ext');
    ExtentSlotOk(s.disk, s1.disk, s.files[i], s.files[i]);
    TouchedOk(s, s1.disk, i, s.files[i]);
    assert s1 == FsState(s1.disk, s.files[i := s.files[i]], s.fds);
    assert Content(s1, i) == Content(s, i)[at := 0xff];
    TouchedRest(s, s1, i);
    PlainSlotBlank(s1, k);
  }

  lemma PlainSlotBlank(s: FsState, k: int)
    requires Ok(s) && IsOpenFd(s, k) && !s.files[s.fds[k].file].modified
    ensures BlankPast(s, s.fds[k].file)
  {
    OpenSlot(s, k);
    PlainIsBlankPast(s, s.fds[k].file);
  }

  lemma SpoiledWrote(s0: FsState, s: FsState, s1: FsState, k: int, d: Bytes)
    requires Wrote(s0, s, k, d) && |d| > 0 && s1.fds == s.fds && s1.files == s.files
    requires var at := s0.fds[k].offset + |d| - 1;
      at < |Data(s, k)| && Content(s1, s.fds[k].file) == Data(s, k)[at := 0xff]
    requires BlankPast(s1, s.fds[k].file) && NameOf(s1, k) == NameOf(s, k)
    requires forall l :: IsOpenFd(s, l) && s.fds[l].file != s.fds[k].file ==> SameView(s, s1, l)
    requires Confined(s.disk, FilePage(s, k), s1.disk, FilePage(s, k))
    ensures Wrote(s0, s1, k, Spoiled(d))
  {
    hide BlankPast, Content, Confined;
    ConfinedTrans(s0.disk, FilePage(s0, k), s.disk, FilePage(s, k), s1.disk, FilePage(s1, k));
    assert Sees(s0, s, k, k, d);
    OverlaySpoiled(Data(s0, k), s0.fds[k].offset, d);
    forall l | 0 <= l < |s0.fds|
      ensures Sees(s0, s1, k, l, Spoiled(d))
    {
      assert Sees(s0, s, k, l, d);
      if IsOpenFd(s, l) && s.fds[l].file != s.fds[k].file {
        assert SameView(s, s1, l);
      }
    }
    forall l, m | IsOpenFd(s0, l) && IsOpenFd(s0, m) && IsOpenFd(s1, l) && IsOpenFd(s1, m)
      ensures SameFile(s0, l, m) <==> SameFile(s1, l, m)
    {
      assert Sees(s0, s, k, l, d) && Sees(s0, s, k, m, d);
    }
  }

  lemma OverlaySpoiled(s: Bytes, off: nat, d: Bytes)
    requires off <= |s| && |d| > 0
    ensures Overlay(s, off, d)[off + |d| - 1 := 0xff] == Overlay(s, off, Spoiled(d))
  {
    var l, r := Overlay(s, off, d)[off + |d| - 1 := 0xff], Overlay(s, off, Spoiled(d));
    assert |l| == |r|;
    forall x | 0 <= x < |l|
      ensures l[x] == r[x]
    {
    }
  }
}
