/** Removing extents: what remove_by_page does to the state of the file layer. */
module FileRemovals {
  import opened FlashDevice
  import opened Headers
  import opened MicroLogs
  import opened FileStates
  import opened FileSteps

  function ClearedSlot(f: Slot, page: int): Slot {
    if f.page == page then f.(page := NO_PAGE, references := 0, maxPages := 0) else f
  }

  function ClearedSlots(F: seq<Slot>, page: int): (r: seq<Slot>)
    ensures |r| == |F|
  {
    seq(|F|, i requires 0 <= i < |F| => ClearedSlot(F[i], page))
  }

  predicate RefersTo(F: seq<Slot>, d: Descriptor, page: int) {
    0 <= d.file < |F| && F[d.file].page == page
  }

  function ClosedOn(F: seq<Slot>, d: Descriptor, page: int): Descriptor {
    if RefersTo(F, d, page) then d.(flags := COFFEE_FD_FREE) else d
  }

  function ClosedAll(F: seq<Slot>, T: seq<Descriptor>, page: int): (r: seq<Descriptor>)
    ensures |r| == |T|
  {
    seq(|T|, k requires 0 <= k < |T| => ClosedOn(F, T[k], page))
  }

  /** remove_by_page for one extent. */
  function WithoutExtent(s: FsState, page: int, closeFds: bool): FsState {
    FsState(
      s.disk - {page},
      ClearedSlots(s.files, page),
      if closeFds then ClosedAll(s.files, s.fds, page) else s.fds)
  }

  ghost predicate LogGoesToo(s: FsState, page: int, removeLog: bool) {
    removeLog && page in s.disk && |s.disk[page]| >= HEADER_SIZE && Decode(s.disk[page]).IsModified()
  }

  /** remove_by_page, log included. */
  ghost function Removed(s: FsState, page: int, removeLog: bool, closeFds: bool): FsState {
    if LogGoesToo(s, page, removeLog)
    then WithoutExtent(WithoutExtent(s, Decode(s.disk[page]).logPage, false), page, closeFds)
    else WithoutExtent(s, page, closeFds)
  }

  // -------------------------------------------------------------------- the disk

  /** The disk without a file and its log. */
  ghost function DiskWithout(D: Disk, p: int): Disk
    requires IsFile(D, p)
  {
    if IsModifiedFile(D, p) then D - {Decode(D[p]).logPage} - {p} else D - {p}
  }

  /** Every other file keeps its extent and its log. */
  lemma WithoutFileOk(D: Disk, p: int)
    requires DiskOk(D) && IsFile(D, p)
    ensures var D' := DiskWithout(D, p);
      && DiskOk(D')
      && forall q :: IsFile(D, q) && q != p ==>
           IsFile(D', q) && D'[q] == D[q] && LogOf(D', q) == LogOf(D, q) && FileOk(D', q)
  {
    hide ConfigOk, CleanLog, Decode, Base;
    var D' := DiskWithout(D, p);
    forall q | IsFile(D, q) && q != p
      ensures IsFile(D', q) && LogOf(D', q) == LogOf(D, q) && FileOk(D', q)
    {
      assert FileOk(D, q) && FileOk(D, p);
    }
  }

  // ------------------------------------------------------------------- the tables

  /** Nobody has a file open whose descriptors were all closed. */
  lemma {:induction false} NoneLeft(F: seq<Slot>, T: seq<Descriptor>, page: int, i: int)
    requires 0 <= i < |F| && F[i].page == page
    ensures OpenCount(ClosedAll(F, T, page), i) == 0
  {
    if T != [] {
      var n := |T| - 1;
      assert ClosedAll(F, T, page)[..n] == ClosedAll(F, T[..n], page);
      NoneLeft(F, T[..n], page, i);
    }
  }

  lemma {:induction false} OthersLeft(F: seq<Slot>, T: seq<Descriptor>, page: int, i: int)
    requires 0 <= i < |F| && F[i].page != page
    ensures OpenCount(ClosedAll(F, T, page), i) == OpenCount(T, i)
  {
    if T != [] {
      var n := |T| - 1;
      assert ClosedAll(F, T, page)[..n] == ClosedAll(F, T[..n], page);
      OthersLeft(F, T[..n], page, i);
    }
  }

  lemma ClearedTwice(F: seq<Slot>, log: int, p: int)
    requires log != NO_PAGE && p != NO_PAGE && log != p
    ensures var F' := ClearedSlots(ClearedSlots(F, log), p);
      && |F'| == |F|
      && forall i :: 0 <= i < |F| ==>
           F'[i] ==
             if F[i].page == log || F[i].page == p then F[i].(page := NO_PAGE, references := 0, maxPages := 0)
             else F[i]
    ensures forall T :: ClosedAll(ClearedSlots(F, log), T, p) == ClosedAll(F, T, p)
  {
    forall T
      ensures ClosedAll(ClearedSlots(F, log), T, p) == ClosedAll(F, T, p)
    {
      assert forall k :: 0 <= k < |T| ==> ClosedOn(ClearedSlots(F, log), T[k], p) == ClosedOn(F, T[k], p);
    }
  }

  /** The slots of a removed file and of its log are given up. */
  ghost predicate GivenUp(D: Disk, f: Slot, p: int)
    requires IsFile(D, p)
  {
    f.page == p || (IsModifiedFile(D, p) && f.page == Decode(D[p]).logPage)
  }

  ghost function SlotsWithout(D: Disk, F: seq<Slot>, p: int): (r: seq<Slot>)
    requires IsFile(D, p)
    ensures |r| == |F|
  {
    seq(|F|, i requires 0 <= i < |F| =>
      if GivenUp(D, F[i], p) then F[i].(page := NO_PAGE, references := 0, maxPages := 0) else F[i])
  }

  lemma RemovedParts(s: FsState, p: int, closeFds: bool)
    requires DiskOk(s.disk) && IsFile(s.disk, p) && p != NO_PAGE
    requires IsModifiedFile(s.disk, p) ==> Decode(s.disk[p]).logPage != NO_PAGE
    ensures Removed(s, p, true, closeFds) == FsState(
      DiskWithout(s.disk, p),
      SlotsWithout(s.disk, s.files, p),
      if closeFds then ClosedAll(s.files, s.fds, p) else s.fds)
  {
    hide DiskOk, Decode, FileOk, ClosedAll;
    FilesOk(s.disk);
    var r := Removed(s, p, true, closeFds);
    if IsModifiedFile(s.disk, p) {
      assert Decode(s.disk[p]).logPage != p by { OwnLog(s.disk, p); }
      ClearedTwice(s.files, Decode(s.disk[p]).logPage, p);
    }
    assert r.files == SlotsWithout(s.disk, s.files, p);
  }

  // ---------------------------------------------------------------------- removing

  /** A slot that is not given up stays as good as it was. */
  lemma KeptSlotOk(D: Disk, f: Slot, p: int)
    requires DiskOk(D) && IsFile(D, p) && SlotOk(D, f) && !GivenUp(D, f, p)
    ensures SlotOk(DiskWithout(D, p), f)
    ensures CachedFile(DiskWithout(D, p), f) <==> CachedFile(D, f)
    ensures !f.IsFree() ==> f.page in D && f.page in DiskWithout(D, p) && DiskWithout(D, p)[f.page] == D[f.page]
    ensures CachedFile(D, f) ==> forall o :: ByteAt(DiskWithout(D, p), f.page, o) == ByteAt(D, f.page, o)
  {
    hide DiskOk, Decode, Used, FileOk, LogOf, Byte, CleanLog, ConfigOk;
    WithoutFileOk(D, p);
    FilesOk(D);
  }

  ghost predicate OnFile(s: FsState, k: int, p: int) {
    IsOpenFd(s, k) && s.files[s.fds[k].file].page == p
  }

  /** A descriptor after its file or another one was removed. */
  lemma RemovedDescriptor(s: FsState, s': FsState, p: int, k: int)
    requires DiskOk(s.disk) && IsFile(s.disk, p) && 0 <= k < |s.fds|
    requires SlotsOk(s.disk, s.files) && DescriptorOk(s.disk, s.files, s.fds[k])
    requires s' == FsState(DiskWithout(s.disk, p), SlotsWithout(s.disk, s.files, p), ClosedAll(s.files, s.fds, p))
    ensures DescriptorOk(s'.disk, s'.files, s'.fds[k])
    ensures if OnFile(s, k, p) then !IsOpenFd(s', k) else SameView(s, s', k)
    ensures IsOpenFd(s', k) ==> IsOpenFd(s, k) && s'.fds[k].file == s.fds[k].file
  {
    hide DiskOk, Decode, FileOk, LogOf, ByteAt, FileSlotOk, DiskWithout, SlotOk, BlankPast, IsModifiedFile;
    if s.fds[k].IsOpen() && !OnFile(s, k, p) {
      var i := s.fds[k].file;
      FilesOk(s.disk);
      assert !GivenUp(s.disk, s.files[i], p) by {
        if IsModifiedFile(s.disk, p) {
          OwnLog(s.disk, p);
        }
      }
      assert SlotOk(s.disk, s.files[i]);
      KeptSlotOk(s.disk, s.files[i], p);
      BlankPastSame(s, s', i, i);
    }
  }

  /** Removing a file closes its descriptors; nobody else notices. */
  lemma RemovedOk(s: FsState, p: int)
    requires Ok(s) && IsFile(s.disk, p) && p != NO_PAGE
    requires IsModifiedFile(s.disk, p) ==> Decode(s.disk[p]).logPage != NO_PAGE
    ensures var s' := Removed(s, p, true, true);
      && Ok(s') && s'.disk == DiskWithout(s.disk, p) && |s'.fds| == |s.fds|
      && (forall k :: 0 <= k < |s.fds| ==> if OnFile(s, k, p) then !IsOpenFd(s', k) else SameView(s, s', k))
      && SameSharing(s, s')
  {
    hide DiskOk, Decode, FileOk, LogOf, OpenCount, FileSlotOk, DiskWithout, ClosedAll, Removed, IsModifiedFile;
    hide SameView;
    var s' := Removed(s, p, true, true);
    RemovedParts(s, p, true);
    WithoutFileOk(s.disk, p);
    FilesOk(s.disk);
    forall i | 0 <= i < |s.files|
      ensures SlotOk(s'.disk, s'.files[i])
      ensures CachedFile(s'.disk, s'.files[i]) ==>
        CachedFile(s.disk, s.files[i]) && s'.disk[s.files[i].page] == s.disk[s.files[i].page]
      ensures !s'.files[i].IsFree() ==> s'.files[i] == s.files[i]
      ensures s'.files[i].references == OpenCount(s'.fds, i)
    {
      if !GivenUp(s.disk, s.files[i], p) {
        KeptSlotOk(s.disk, s.files[i], p);
        OthersLeft(s.files, s.fds, p, i);
      } else if s.files[i].page == p {
        NoneLeft(s.files, s.fds, p, i);
      } else {
        OwnLog(s.disk, p);
        OthersLeft(s.files, s.fds, p, i);
      }
    }
    forall k | 0 <= k < |s.fds|
      ensures DescriptorOk(s'.disk, s'.files, s'.fds[k])
      ensures if OnFile(s, k, p) then !IsOpenFd(s', k) else SameView(s, s', k)
      ensures IsOpenFd(s', k) ==> IsOpenFd(s, k) && s'.fds[k].file == s.fds[k].file
    {
      RemovedDescriptor(s, s', p, k);
    }
  }
}
