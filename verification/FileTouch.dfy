/** Writing to one file: what it leaves alone. */
module FileTouches {
  import opened FlashDevice
  import opened Headers
  import opened MicroLogs
  import opened FileStates
  import opened FileSteps

  /** An extent keeps its size, its name and its kind. */
  ghost predicate SameShape(D: Disk, D': Disk, q: int)
    requires q in D && |D[q]| >= HEADER_SIZE
  {
    && q in D' && |D'[q]| == |D[q]|
    && Decode(D'[q]).maxPages == Decode(D[q]).maxPages
    && Decode(D'[q]).name == Decode(D[q]).name
    && (IsFile(D', q) <==> IsFile(D, q))
  }

  /** The file at `q` and its log are as they were. */
  ghost predicate SameFileAt(D: Disk, D': Disk, q: int) {
    && q in D && q in D' && D'[q] == D[q] && LogOf(D', q) == LogOf(D, q)
    && IsFile(D', q) && FileOk(D', q)
  }

  /** Of all files only the one at `p` may differ. */
  ghost predicate OnlyFile(D: Disk, D': Disk, p: int) {
    && D'.Keys == D.Keys
    && (forall q :: q in D && |D[q]| >= HEADER_SIZE ==> SameShape(D, D', q))
    && (forall q :: IsFile(D, q) && q != p ==> SameFileAt(D, D', q))
  }

  lemma TouchedSlotOk(D: Disk, D': Disk, p: int, f: Slot)
    requires DiskOk(D) && DiskOk(D') && OnlyFile(D, D', p) && SlotOk(D, f)
    ensures CachedFile(D', f) <==> CachedFile(D, f)
    ensures CachedFile(D, f) ==> Decode(D'[f.page]).name == Decode(D[f.page]).name
    ensures f.IsFree() || f.page != p ==> SlotOk(D', f)
    ensures CachedFile(D, f) && f.page != p ==> forall o :: ByteAt(D', f.page, o) == ByteAt(D, f.page, o)
    ensures CachedFile(D, f) ==> f.page in D && f.page in D' && |D'[f.page]| == |D[f.page]|
  {
    hide ConfigOk, CleanLog, Decode, Base, LogOf, ZeroFrom, FileOk, Used, Byte, DiskOk;
    FilesOk(D);
    FilesOk(D');
    if CachedFile(D, f) {
      assert SameShape(D, D', f.page);
      if f.page != p {
        assert SameFileAt(D, D', f.page);
      }
    } else if !f.IsFree() {
      assert SameShape(D, D', f.page);
    }
  }

  /** The tables after a write to the file in slot `i`. */
  lemma TouchedOk(s: FsState, D': Disk, i: int, f: Slot)
    requires Ok(s) && 0 <= i < |s.files| && CachedFile(s.disk, s.files[i])
    requires DiskOk(D') && OnlyFile(s.disk, D', s.files[i].page)
    requires SlotOk(D', f) && f.page == s.files[i].page && f.maxPages == s.files[i].maxPages
    requires f.references == s.files[i].references && s.files[i].end <= f.end
    ensures var s' := FsState(D', s.files[i := f], s.fds);
      && Ok(s')
      && (forall k :: 0 <= k < |s.fds| ==> (IsOpenFd(s', k) <==> IsOpenFd(s, k)) && s'.fds[k] == s.fds[k])
      && (forall k :: IsOpenFd(s, k) && s.fds[k].file != i ==> SameView(s, s', k))
      && SameSharing(s, s')
  {
    hide DiskOk, Decode, ByteAt, OpenCount, FileOk, LogOf, SlotOk, OnlyFile, BlankPast, IsFile;
    var s' := FsState(D', s.files[i := f], s.fds);
    var p := s.files[i].page;
    forall j | 0 <= j < |s.files|
      ensures SlotOk(D', s'.files[j])
      ensures CachedFile(D', s'.files[j]) <==> CachedFile(s.disk, s.files[j])
      ensures CachedFile(s.disk, s.files[j]) ==>
        s.files[j].page in s.disk && s.files[j].page in D'
          && |D'[s.files[j].page]| == |s.disk[s.files[j].page]| >= HEADER_SIZE
      ensures CachedFile(s.disk, s.files[j]) ==>
        Decode(D'[s.files[j].page]).name == Decode(s.disk[s.files[j].page]).name
      ensures CachedFile(s.disk, s.files[j]) && j != i ==>
        forall o :: ByteAt(D', s.files[j].page, o) == ByteAt(s.disk, s.files[j].page, o)
    {
      TouchedSlotOk(s.disk, D', p, s.files[j]);
      CachedExtent(s.disk, s.files[j]);
    }
    forall k | 0 <= k < |s.fds|
      ensures DescriptorOk(D', s'.files, s.fds[k])
      ensures IsOpenFd(s, k) && s.fds[k].file != i ==> SameView(s, s', k)
    {
      assert DescriptorOk(s.disk, s.files, s.fds[k]);
      if s.fds[k].IsOpen() && s.fds[k].file != i {
        BlankPastSame(s, s', s.fds[k].file, s.fds[k].file);
      }
    }
  }

  lemma CachedExtent(D: Disk, f: Slot)
    requires SlotOk(D, f)
    ensures CachedFile(D, f) ==> f.page in D && |D[f.page]| >= HEADER_SIZE
  {
  }
}
