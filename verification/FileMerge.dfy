/** Merging a file with its log: a fresh extent takes over. */
module FileMerges {
  import opened FlashDevice
  import opened Headers
  import opened Disks
  import opened MicroLogs
  import opened FileStates
  import opened FileSteps
  import opened FileRemovals
  import opened FileLogs

  // ------------------------------------------------------------------- a new extent

  /** An extent with header `h` that holds `d` and is blank behind it. */
  ghost predicate CopyOf(e: Bytes, h: Header, d: Bytes) {
    && |e| == Base(h.maxPages) && HEADER_SIZE + |d| <= |e|
    && Decode(e) == h
    && e[HEADER_SIZE..HEADER_SIZE + |d|] == d
    && ZeroFrom(e, HEADER_SIZE + |d|)
  }

  /** The header of a file without a log. */
  ghost predicate PlainHeader(h: Header) {
    && 1 <= h.maxPages <= PAGE_COUNT
    && h.logPage == 0 && !h.IsModified() && !h.IsLog() && ConfigOk(h)
  }

  lemma CopyStarts(h: Header)
    requires FreshFile(h)
    ensures CopyOf(FreshExtent(h), h, []) && (!h.IsLog() ==> PlainHeader(h))
  {
    hide Decode, FreshExtent, Base, ConfigOk;
    FreshHeader(h);
    DefaultConfig(h);
    var e := FreshExtent(h);
    assert forall x :: HEADER_SIZE <= x < |e| ==> e[x] == e[HEADER_SIZE..][x - HEADER_SIZE];
    assert |e| == Base(h.maxPages);
  }

  lemma CopyStep(e: Bytes, h: Header, d: Bytes, b: Bytes)
    requires CopyOf(e, h, d) && HEADER_SIZE + |d| + |b| <= |e|
    ensures CopyOf(OrInto(e, HEADER_SIZE + |d|, b), h, d + b)
  {
    hide Decode, Base;
    OrIntoBlank(e, HEADER_SIZE + |d|, b);
    KeepsHeader(e, HEADER_SIZE + |d|, b);
  }

  /** Writing the header again leaves the rest alone. */
  lemma CopyHeader(e: Bytes, h: Header, d: Bytes, h2: Header)
    requires CopyOf(e, h, d) && h2.Fits() && CanOverwrite(h, h2) && h2.maxPages == h.maxPages
    ensures CopyOf(OrInto(e, 0, Encode(h2)), h2.(flags := h.flags | h2.flags), d)
  {
    hide Decode, Base, Encode;
    HeaderOr(e, h2);
    var e' := OrInto(e, 0, Encode(h2));
    assert forall x :: HEADER_SIZE <= x < |e| ==> e'[x] == e[x];
  }

  /** A plain file more on the disk. */
  lemma NewFileOk(D: Disk, p: int, e: Bytes, h: Header, d: Bytes)
    requires DiskOk(D) && p !in D && PlainHeader(h) && CopyOf(e, h, d)
    ensures var D' := D[p := e];
      && DiskOk(D') && Extends(D, D') && IsFile(D', p) && !IsModifiedFile(D', p) && FileOk(D', p)
      && (forall q :: q in D ==>
            (IsFile(D', q) <==> IsFile(D, q)) && LogOf(D', q) == LogOf(D, q) && (IsFile(D, q) ==> FileOk(D', q)))
      && (forall o :: 0 <= o < |d| ==> ByteAt(D', p, o) == d[o])
  {
    hide ConfigOk, CleanLog, Decode, Base;
    var D' := D[p := e];
    BaseOrder(h.maxPages, PAGE_COUNT);
    forall q | IsFile(D', q)
      ensures FileOk(D', q)
    {
      if q != p {
        assert IsFile(D, q) && FileOk(D, q);
      }
    }
    forall o | 0 <= o < |d|
      ensures ByteAt(D', p, o) == d[o]
    {
      assert e[HEADER_SIZE + o] == e[HEADER_SIZE..HEADER_SIZE + |d|][o];
    }
  }

  /** A file slot can still be read when the disk has more extents. */
  lemma GrownReadable(s: FsState, D': Disk, i: int)
    requires Ok(s) && DiskOk(D') && Extends(s.disk, D')
    requires forall q :: q in s.disk ==>
      && (IsFile(D', q) <==> IsFile(s.disk, q)) && LogOf(D', q) == LogOf(s.disk, q)
      && (IsFile(s.disk, q) ==> FileOk(D', q))
    requires 0 <= i < |s.files| && CachedFile(s.disk, s.files[i])
    ensures SlotOk(D', s.files[i]) && CachedFile(D', s.files[i])
    ensures forall o :: ByteAt(D', s.files[i].page, o) == ByteAt(s.disk, s.files[i].page, o)
  {
    hide ConfigOk, CleanLog, Decode, Base, LogOf, FileOk, DiskOk, Byte, ByteAt;
    FilesOk(s.disk);
    ExtendedSlot(s.disk, D', s.files[i]);
    SameBytes(s.disk, D', s.files[i].page);
  }

  // ------------------------------------------------------------------ the descriptors

  function MovedFd(d: Descriptor, i: int, ni: int): Descriptor {
    if d.IsOpen() && d.file == i then d.(file := ni) else d
  }

  function MovedFds(T: seq<Descriptor>, i: int, ni: int): (r: seq<Descriptor>)
    ensures |r| == |T|
  {
    seq(|T|, k requires 0 <= k < |T| => MovedFd(T[k], i, ni))
  }

  /** Descriptors that refer to slot `j` in both tables. */
  lemma {:induction false} SameCount(T: seq<Descriptor>, T': seq<Descriptor>, j: int)
    requires |T| == |T'|
    requires forall k :: 0 <= k < |T| ==> (T[k].IsOpen() && T[k].file == j <==> T'[k].IsOpen() && T'[k].file == j)
    ensures OpenCount(T, j) == OpenCount(T', j)
  {
    if T != [] {
      var n := |T| - 1;
      SameCount(T[..n], T'[..n], j);
    }
  }

  lemma {:induction false} MovedCount(T: seq<Descriptor>, i: int, ni: int)
    requires i != ni && forall k :: 0 <= k < |T| && T[k].IsOpen() ==> T[k].file != ni
    ensures OpenCount(MovedFds(T, i, ni), ni) == OpenCount(T, i)
  {
    if T != [] {
      var n := |T| - 1;
      assert MovedFds(T, i, ni)[..n] == MovedFds(T[..n], i, ni);
      MovedCount(T[..n], i, ni);
    }
  }

  // ------------------------------------------------------------------- the new state

  /** The state when the copy has replaced the file in slot `i` and its log, just before
      the merge closes its own descriptor `k`. */
  ghost function Replaced(s: FsState, i: int, ni: int, k: int, np: int, e: Bytes): FsState
    requires 0 <= i < |s.files| && 0 <= ni < |s.files| && IsFile(s.disk, s.files[i].page) && 0 <= k < |s.fds|
    requires |e| >= HEADER_SIZE
  {
    var p := s.files[i].page;
    var T := MovedFds(s.fds[k := Descriptor(s.files[i].end, i, CFS_READ)], i, ni);
    FsState(
      DiskWithout(s.disk, p)[np := e],
      SlotsWithout(s.disk, s.files, p)[ni := Slot(s.files[i].end, np, Decode(e).maxPages, -1, OpenCount(T, ni), false)],
      T)
  }

  /** What merging needs: an open file, a slot nobody uses, a closed descriptor, and a
      copy of the file where nothing is. */
  ghost predicate CanReplace(s: FsState, i: int, ni: int, k: int, np: int, e: Bytes, h: Header) {
    && Ok(s) && 0 <= i < |s.files| && CachedFile(s.disk, s.files[i]) && s.files[i].references > 0
    && s.files[i].page >= 0
    && Loadable(s.files, ni) && ni != i && 0 <= k < |s.fds| && !s.fds[k].IsOpen()
    && np !in s.disk && 0 <= s.files[i].end
    && CopyOf(e, h, Content(s, i)) && PlainHeader(h) && h.name == Decode(s.disk[s.files[i].page]).name
  }

  /** Without the old file: the state the copy is put into. */
  lemma Cleared(s: FsState, i: int, ni: int, k: int, np: int, e: Bytes, h: Header)
    requires CanReplace(s, i, ni, k, np, e, h)
    ensures var p := s.files[i].page;
      var r := FsState(DiskWithout(s.disk, p), SlotsWithout(s.disk, s.files, p), ClosedAll(s.files, s.fds, p));
      && Ok(r) && np !in r.disk && Loadable(r.files, ni)
      && (forall j :: !CachedAs(r, j, h.name))
      && (forall l :: 0 <= l < |s.fds| ==> if OnFile(s, l, p) then !IsOpenFd(r, l) else SameView(s, r, l))
      && SameSharing(s, r)
  {
    hide Decode, FileOk, LogOf, DiskOk, ByteAt, OpenCount, BlankPast, SameView, SameSharing, Removed, Ok, ClosedAll;
    hide CopyOf, PlainHeader, SlotOk;
    var p := s.files[i].page;
    OkFiles(s, p);
    RemovedParts(s, p, true);
    RemovedOk(s, p);
    NameGone(s, i);
  }

  lemma OkFiles(s: FsState, p: int)
    requires Ok(s) && IsFile(s.disk, p)
    ensures DiskOk(s.disk)
    ensures Decode(s.disk[p]).logPage >= 0
  {
  }

  /** With the old file its name is gone from the cache. */
  lemma NameGone(s: FsState, i: int)
    requires Ok(s) && 0 <= i < |s.files| && CachedFile(s.disk, s.files[i])
    ensures var p := s.files[i].page;
      var r := FsState(DiskWithout(s.disk, p), SlotsWithout(s.disk, s.files, p), ClosedAll(s.files, s.fds, p));
      forall j :: !CachedAs(r, j, Decode(s.disk[p]).name)
  {
    hide Decode, FileOk, LogOf, DiskOk, ByteAt, OpenCount, BlankPast, ClosedAll;
    var p := s.files[i].page;
    var r := FsState(DiskWithout(s.disk, p), SlotsWithout(s.disk, s.files, p), ClosedAll(s.files, s.fds, p));
    forall j | 0 <= j < |r.files| && CachedFile(r.disk, r.files[j])
      ensures Decode(r.disk[r.files[j].page]).name != Decode(s.disk[p]).name
    {
      assert r.files[j] == s.files[j] && !GivenUp(s.disk, s.files[j], p);
      KeptSlotOk(s.disk, s.files[j], p);
    }
  }

  /** The copy as a cached file nobody has open yet. */
  lemma Added(r: FsState, ni: int, np: int, e: Bytes, h: Header, d: Bytes)
    requires Ok(r) && np !in r.disk && Loadable(r.files, ni)
    requires forall j :: !CachedAs(r, j, h.name)
    requires CopyOf(e, h, d) && PlainHeader(h)
    ensures var s' := FsState(r.disk[np := e], r.files[ni := Slot(|d|, np, h.maxPages, -1, 0, false)], r.fds);
      && Ok(s') && SameViews(r, s') && Content(s', ni) == d
      && CachedFile(s'.disk, s'.files[ni]) && IsFile(s'.disk, np) && !IsModifiedFile(s'.disk, np)
      && (forall q :: q in r.disk ==>
           s'.disk[q] == r.disk[q] && (IsModifiedFile(s'.disk, q) <==> IsModifiedFile(r.disk, q)))
  {
    hide Decode, FileOk, LogOf, DiskOk, ByteAt, OpenCount, Ok, SameViews, CopyOf, PlainHeader;
    var slot := Slot(|d|, np, h.maxPages, -1, 0, false);
    var s1 := r.(disk := r.disk[np := e]);
    var s' := s1.(files := s1.files[ni := slot]);
    OkDisk(r);
    NewFileOk(r.disk, np, e, h, d);
    ExtendedTables(r, s1.disk);
    NewPageNotCached(r, s1, np);
    NamesStay(r, s1, h.name);
    CopySlotOk(s1.disk, np, e, h, d);
    LoadedOk(s1, ni, slot);
    SameViewsTrans(r, s1, s');
  }

  lemma OkDisk(s: FsState)
    requires Ok(s)
    ensures DiskOk(s.disk) && SlotsOk(s.disk, s.files)
  {
  }

  lemma CopySlotOk(D: Disk, np: int, e: Bytes, h: Header, d: Bytes)
    requires np in D && D[np] == e && CopyOf(e, h, d) && PlainHeader(h)
    ensures var slot := Slot(|d|, np, h.maxPages, -1, 0, false);
      SlotOk(D, slot) && !slot.IsFree() && CachedFile(D, slot) && Decode(D[np]).name == h.name
  {
    hide Decode, Base, ConfigOk;
  }

  /** Descriptor `k` of `T'` is as it was, or was closed and is now open on slot `ni`. */
  ghost predicate Reopens(s: FsState, T': seq<Descriptor>, ni: int, k: int)
    requires 0 <= k < |s.fds| == |T'| && 0 <= ni < |s.files|
  {
    || (T'[k].IsOpen() && !s.fds[k].IsOpen() && T'[k].file == ni && 0 <= T'[k].offset <= s.files[ni].end)
    || (!T'[k].IsOpen() && !s.fds[k].IsOpen())
    || T'[k] == s.fds[k]
  }

  /** The state with the descriptors of `T'`. */
  function WithFds(s: FsState, T': seq<Descriptor>, ni: int): FsState
    requires 0 <= ni < |s.files|
  {
    FsState(s.disk, s.files[ni := s.files[ni].(references := OpenCount(T', ni))], T')
  }

  lemma Reopened(s: FsState, T': seq<Descriptor>, ni: int)
    requires Ok(s) && 0 <= ni < |s.files| && CachedFile(s.disk, s.files[ni]) && s.files[ni].references == 0
    requires 0 <= s.files[ni].end
    requires |T'| == |s.fds| && forall k :: 0 <= k < |T'| ==> Reopens(s, T', ni, k)
    ensures var s' := WithFds(s, T', ni);
      && Ok(s')
      && (forall k :: 0 <= k < |T'| && !(T'[k].IsOpen() && T'[k].file == ni) ==> SameView(s, s', k))
      && (forall k :: 0 <= k < |T'| && T'[k].IsOpen() && T'[k].file == ni ==>
           !s.fds[k].IsOpen() && IsOpenFd(s', k) && Data(s', k) == Content(s, ni))
      && SameSharing(s, s')
  {
    hide Decode, FileOk, LogOf, DiskOk, ByteAt, OpenCount, BlankPast, SlotOk, SameView, Content;
    var s' := WithFds(s, T', ni);
    forall k | 0 <= k < |T'|
      ensures s.fds[k].IsOpen() ==> s.fds[k].file != ni && T'[k] == s.fds[k]
      ensures T'[k].IsOpen() && !s.fds[k].IsOpen() ==> T'[k].file == ni
      ensures DescriptorOk(s'.disk, s'.files, T'[k])
      ensures !(T'[k].IsOpen() && T'[k].file == ni) ==> SameView(s, s', k)
      ensures T'[k].IsOpen() && T'[k].file == ni ==>
        !s.fds[k].IsOpen() && IsOpenFd(s', k) && Data(s', k) == Content(s, ni)
    {
      Unreferenced(s, ni, k);
      assert Reopens(s, T', ni, k) && DescriptorOk(s.disk, s.files, s.fds[k]);
      ReopenedView(s, T', ni, k);
    }
    forall j | 0 <= j < |s.files|
      ensures s'.files[j].references == OpenCount(T', j)
      ensures SlotOk(s'.disk, s'.files[j])
    {
      assert SlotOk(s.disk, s.files[j]);
      if j != ni {
        SameCount(s.fds, T', j);
      } else {
        ReferencedSlot(s.disk, s.files[j], OpenCount(T', j));
      }
    }
  }

  lemma ReferencedSlot(D: Disk, f: Slot, n: nat)
    requires SlotOk(D, f) && CachedFile(D, f) && 0 <= f.end
    ensures SlotOk(D, f.(references := n))
  {
  }

  lemma ReopenedView(s: FsState, T': seq<Descriptor>, ni: int, k: int)
    requires 0 <= ni < |s.files| && |T'| == |s.fds| && 0 <= k < |T'| && Reopens(s, T', ni, k)
    requires s.fds[k].IsOpen() ==> 0 <= s.fds[k].file < |s.files| && s.fds[k].file != ni && T'[k] == s.fds[k]
    ensures var s' := WithFds(s, T', ni);
      && (!(T'[k].IsOpen() && T'[k].file == ni) ==> SameView(s, s', k))
      && (T'[k].IsOpen() && T'[k].file == ni ==> !s.fds[k].IsOpen() && IsOpenFd(s', k) && Data(s', k) == Content(s, ni))
  {
    hide ByteAt;
    if T'[k].IsOpen() {
      SameBlank(s, WithFds(s, T', ni), T'[k].file);
    }
  }

  lemma SameBlank(s: FsState, s': FsState, j: int)
    requires 0 <= j < |s.files| == |s'.files| && s'.disk == s.disk
    requires s'.files[j].page == s.files[j].page && s'.files[j].end == s.files[j].end
    ensures BlankPast(s, j) ==> BlankPast(s', j)
    ensures Content(s', j) == Content(s, j)
  {
  }

  // ---------------------------------------------------------------------- the merge

  ghost predicate OnSlot(s: FsState, k: int, i: int) {
    IsOpenFd(s, k) && s.fds[k].file == i
  }

  /** The descriptors after the move, seen from the state without the old file. */
  lemma MovedReopens(s: FsState, sB: FsState, i: int, ni: int, k: int, l: int)
    requires Ok(s) && 0 <= i < |s.files| && CachedFile(s.disk, s.files[i]) && 0 <= s.files[i].end
    requires 0 <= k < |s.fds| && !s.fds[k].IsOpen() && 0 <= l < |s.fds|
    requires sB.fds == ClosedAll(s.files, s.fds, s.files[i].page)
    requires 0 <= ni < |sB.files| && sB.files[ni].end == s.files[i].end
    ensures var T := MovedFds(s.fds[k := Descriptor(s.files[i].end, i, CFS_READ)], i, ni);
      && Reopens(sB, T, ni, l)
      && (OnFile(s, l, s.files[i].page) <==> OnSlot(s, l, i))
      && (s.fds[l].IsOpen() ==> IsOpenFd(s, l))
      && (T[l].IsOpen() <==> s.fds[l].IsOpen() || l == k)
      && (s.fds[l].IsOpen() ==> T[l] == if s.fds[l].file == i then s.fds[l].(file := ni) else s.fds[l])
      && T[k] == Descriptor(s.files[i].end, ni, CFS_READ)
  {
    hide Decode, FileOk, LogOf, DiskOk, ByteAt, OpenCount, SlotOk;
    assert DescriptorOk(s.disk, s.files, s.fds[l]);
  }

  /** The copy in the place of the old file: whoever had that open now has the copy
      open, and nobody notices. */
  lemma ReplacedOk(s: FsState, i: int, ni: int, k: int, np: int, e: Bytes, h: Header)
    requires CanReplace(s, i, ni, k, np, e, h)
    ensures var s' := Replaced(s, i, ni, k, np, e);
      && Ok(s') && OnSlot(s', k, ni) && CachedFile(s'.disk, s'.files[ni])
      && (forall l :: 0 <= l < |s.fds| && l != k ==> SameView(s, s', l))
      && (forall l :: IsOpenFd(s, l) ==> s'.fds[l] == if s.fds[l].file == i then s.fds[l].(file := ni) else s.fds[l])
      && Confined(s.disk, s.files[i].page, s'.disk, np)
      && Content(s', ni) == Content(s, i)
  {
    hide Decode, FileOk, LogOf, DiskOk, ByteAt, OpenCount, BlankPast, SlotOk, SameView, Content, CopyOf, PlainHeader;
    hide ClosedAll, Ok, MovedFds, SameSharing, Reopens, SlotsWithout;
    var p := s.files[i].page;
    var d := Content(s, i);
    var r := FsState(DiskWithout(s.disk, p), SlotsWithout(s.disk, s.files, p), ClosedAll(s.files, s.fds, p));
    Cleared(s, i, ni, k, np, e, h);
    Added(r, ni, np, e, h, d);
    CopySize(s, i, e, h);
    var sB := FsState(r.disk[np := e], r.files[ni := Slot(|d|, np, h.maxPages, -1, 0, false)], r.fds);
    var T := MovedFds(s.fds[k := Descriptor(s.files[i].end, i, CFS_READ)], i, ni);
    forall l | 0 <= l < |s.fds|
      ensures Reopens(sB, T, ni, l)
    {
      MovedReopens(s, sB, i, ni, k, l);
    }
    Reopened(sB, T, ni);
    var s' := Replaced(s, i, ni, k, np, e);
    assert s' == WithFds(sB, T, ni);
    MovedReopens(s, sB, i, ni, k, k);
    SameBlank(sB, s', ni);
    assert s'.fds == T && s'.files == sB.files[ni := sB.files[ni].(references := OpenCount(T, ni))];
    forall l | 0 <= l < |s.fds|
      ensures l != k ==> SameView(s, s', l)
      ensures IsOpenFd(s, l) ==> s'.fds[l] == if s.fds[l].file == i then s.fds[l].(file := ni) else s.fds[l]
    {
      MovedReopens(s, sB, i, ni, k, l);
      if l != k {
        ReplacedView(s, r, sB, s', i, ni, l);
      }
    }
    ReplacedConfined(s.disk, p, s'.disk, np, e);
  }

  lemma CopySize(s: FsState, i: int, e: Bytes, h: Header)
    requires 0 <= i < |s.files| && 0 <= s.files[i].end && CopyOf(e, h, Content(s, i)) && PlainHeader(h)
    ensures |e| >= HEADER_SIZE && Decode(e) == h && |Content(s, i)| == s.files[i].end && h.maxPages <= PAGE_COUNT
  {
  }

  lemma ReplacedConfined(D: Disk, p: int, D': Disk, np: int, e: Bytes)
    requires IsFile(D, p) && np !in D && D' == DiskWithout(D, p)[np := e] && !IsModifiedFile(D', np)
    ensures Confined(D, p, D', np)
  {
    hide Decode;
  }

  lemma ReplacedView(s: FsState, r: FsState, sB: FsState, s': FsState, i: int, ni: int, l: int)
    requires 0 <= l < |s.fds| && |r.fds| == |sB.fds| == |s'.fds| == |s.fds| && 0 <= i < |s.files|
    requires 0 <= ni < |s'.files|
    requires if OnSlot(s, l, i) then !IsOpenFd(r, l) else SameView(s, r, l)
    requires SameViews(r, sB)
    requires !(s'.fds[l].IsOpen() && s'.fds[l].file == ni) ==> SameView(sB, s', l)
    requires s'.fds[l].IsOpen() <==> s.fds[l].IsOpen()
    requires s.fds[l].IsOpen() ==> s'.fds[l] == if s.fds[l].file == i then s.fds[l].(file := ni) else s.fds[l]
    requires s'.fds[l].IsOpen() && s'.fds[l].file == ni ==> !sB.fds[l].IsOpen() && IsOpenFd(s', l)
    requires Content(s', ni) == Content(s, i) && NameAt(s'.disk, s'.files[ni].page) == NameAt(s.disk, s.files[i].page)
    requires Ok(s') && CachedFile(s'.disk, s'.files[ni]) && !s'.files[ni].modified && 0 <= s'.files[ni].end
    requires s.fds[l].IsOpen() ==> IsOpenFd(s, l)
    ensures SameView(s, s', l)
  {
    hide Ok, Content, BlankPast;
    assert SameView(r, sB, l);
    PlainIsBlankPast(s', ni);
  }

  /** The file of slot `i` moved, with every descriptor on it, to slot `ni`, and lost its
      log. Nobody notices. */
  ghost predicate MergedInto(s: FsState, s': FsState, i: int, ni: int, extend: nat) {
    && 0 <= i < |s.files| && 0 <= ni < |s'.files| && SameViews(s, s')
    && (forall l :: IsOpenFd(s, l) ==> s'.fds[l] == if s.fds[l].file == i then s.fds[l].(file := ni) else s.fds[l])
    && CachedFile(s'.disk, s'.files[ni]) && Content(s', ni) == Content(s, i)
    && var f, f' := s.files[i], s'.files[ni];
       && !f'.modified && f'.end == f.end && f'.references == f.references && f'.recordCount == -1
       && f'.maxPages == (if extend == 0 then f.maxPages else 2 * f.maxPages) <= PAGE_COUNT
       && IsFile(s.disk, f.page) && IsFile(s'.disk, f'.page) && ZeroFrom(s'.disk[f'.page], HEADER_SIZE + f'.end)
       && Decode(s'.disk[f'.page]).logRecords == Decode(s.disk[f.page]).logRecords
       && Decode(s'.disk[f'.page]).logRecordSize == Decode(s.disk[f.page]).logRecordSize
       && Decode(s'.disk[f'.page]).name == Decode(s.disk[f.page]).name
       && Confined(s.disk, f.page, s'.disk, f'.page) && OthersRest(s, f.page, s', f'.page)
       && EndOf(s'.disk[f'.page]) == TrimmedLength(Content(s, i))
  }

  /** The header of the copy: the size of the request, the configuration of the old file. */
  ghost predicate CopiedHeader(h: Header, was: Header, extend: nat) {
    && h.name == was.name && h.logRecords == was.logRecords && h.logRecordSize == was.logRecordSize
    && h.maxPages == if extend == 0 then was.maxPages else 2 * was.maxPages
  }

  lemma MergedOk(s: FsState, i: int, ni: int, k: int, np: int, e: Bytes, h: Header, extend: nat)
    requires CanReplace(s, i, ni, k, np, e, h) && CopiedHeader(h, Decode(s.disk[s.files[i].page]), extend)
    ensures var s1 := Replaced(s, i, ni, k, np, e);
      && Ok(s1) && IsOpenFd(s1, k) && s1.fds[k].file == ni && s1.files[ni].references > 0
      && Ok(Closed(s1, k)) && MergedInto(s, Closed(s1, k), i, ni, extend)
  {
    hide Decode, FileOk, LogOf, DiskOk, ByteAt, OpenCount, BlankPast, SlotOk, SameView, Content, PlainHeader;
    hide ClosedAll, SameSharing, Ok, SlotsWithout, ZeroFrom, Closed, OthersRest,
      EndOf, TrimmedLength;
    var s1 := Replaced(s, i, ni, k, np, e);
    ReplacedOk(s, i, ni, k, np, e, h);
    ClosedOk(s1, k);
    ClosedParts(s1, k);
    var s' := Closed(s1, k);
    MergedCount(s, s1, i, ni, k);
    MergedViews(s, s1, s', i, ni, k);
    OldSlot(s, i);
    MergedRest(s, s', i, ni, k, np, e);
    CopySize(s, i, e, h);
    CopyBlank(e, h, Content(s, i), s.files[i].end);
  }

  /** The merge gives the old file and its log up, and takes a slot for the copy. */
  lemma MergedRest(s: FsState, s': FsState, i: int, ni: int, k: int, np: int, e: Bytes)
    requires 0 <= i < |s.files| && 0 <= ni < |s.files| && IsFile(s.disk, s.files[i].page) && 0 <= k < |s.fds|
    requires |e| >= HEADER_SIZE
    requires np !in s.disk && |s'.files| == |s.files| && s'.disk == Replaced(s, i, ni, k, np, e).disk
    requires s'.files == Replaced(s, i, ni, k, np, e).files[ni := s'.files[ni]] && s'.files[ni].page == np
    ensures OthersRest(s, s.files[i].page, s', np)
  {
    hide Decode, MovedFds, OpenCount;
  }

  lemma ClosedParts(s: FsState, k: int)
    requires 0 <= k < |s.fds| && 0 <= s.fds[k].file < |s.files| && s.files[s.fds[k].file].references > 0
    ensures var s' := Closed(s, k); var j := s.fds[k].file;
      && s'.disk == s.disk && |s'.files| == |s.files| && |s'.fds| == |s.fds|
      && s'.files == s.files[j := s.files[j].(references := s.files[j].references - 1)]
      && (forall l :: 0 <= l < |s.fds| && l != k ==> s'.fds[l] == s.fds[l])
  {
  }

  lemma OldSlot(s: FsState, i: int)
    requires Ok(s) && 0 <= i < |s.files| && CachedFile(s.disk, s.files[i])
    ensures IsFile(s.disk, s.files[i].page) && Decode(s.disk[s.files[i].page]).maxPages == s.files[i].maxPages
  {
    assert SlotOk(s.disk, s.files[i]);
  }

  lemma CopyBlank(e: Bytes, h: Header, d: Bytes, end: int)
    requires CopyOf(e, h, d) && |d| == end
    ensures ZeroFrom(e, HEADER_SIZE + end) && EndOf(e) == TrimmedLength(d)
  {
    hide EndOf, TrimmedLength, Decode;
    EndWithin(e, end);
  }

  /** The copy has the descriptors of the old file and the one of the merge itself. */
  lemma MergedCount(s: FsState, s1: FsState, i: int, ni: int, k: int)
    requires Ok(s) && 0 <= i < |s.files| && 0 <= ni < |s.files| && i != ni && Loadable(s.files, ni)
    requires 0 <= k < |s.fds| && !s.fds[k].IsOpen() && 0 <= ni < |s1.files|
    requires s1.fds == MovedFds(s.fds[k := Descriptor(s.files[i].end, i, CFS_READ)], i, ni)
    requires s1.files[ni].references == OpenCount(s1.fds, ni)
    ensures s1.files[ni].references == s.files[i].references + 1
    ensures forall l :: IsOpenFd(s, l) ==> s.fds[l].file != ni
  {
    hide DiskOk, SlotOk, DescriptorOk, OpenCount, MovedFds;
    FreeUnreferenced(s, ni);
    var T := s.fds[k := Descriptor(s.files[i].end, i, CFS_READ)];
    forall l | 0 <= l < |s.fds|
      ensures s.fds[l].IsOpen() ==> s.fds[l].file != ni
    {
      Unreferenced(s, ni, l);
    }
    MovedCount(T, i, ni);
    OpenCountUpdate(s.fds, k, Descriptor(s.files[i].end, i, CFS_READ), i);
  }

  lemma MergedViews(s: FsState, s1: FsState, s': FsState, i: int, ni: int, k: int)
    requires |s.fds| == |s1.fds| == |s'.fds| && 0 <= k < |s.fds| && !s.fds[k].IsOpen() && !s'.fds[k].IsOpen()
    requires forall l :: 0 <= l < |s.fds| && l != k ==>
      SameView(s, s1, l) && SameView(s1, s', l) && s'.fds[l] == s1.fds[l]
    requires forall l :: IsOpenFd(s, l) ==>
      s.fds[l].file != ni && s1.fds[l] == if s.fds[l].file == i then s.fds[l].(file := ni) else s.fds[l]
    ensures SameViews(s, s')
    ensures forall l :: IsOpenFd(s, l) ==> s'.fds[l] == if s.fds[l].file == i then s.fds[l].(file := ni) else s.fds[l]
  {
    hide Data, BlankPast;
    forall l | 0 <= l < |s.fds|
      ensures SameView(s, s', l)
    {
      if l != k {
        assert SameView(s, s1, l) && SameView(s1, s', l);
      }
    }
  }

  // ------------------------------------------------------------------- while copying

  /** The merge has copied `n` bytes of the file in slot `i` to the extent at `np`. `s1`
      is the state in which it had opened descriptor `k`. */
  ghost predicate Copying(s1: FsState, s: FsState, i: int, k: int, np: int, h: Header, n: int) {
    && Ok(s1) && 0 <= i < |s1.files| == |s.files| && CachedFile(s1.disk, s1.files[i])
    && 0 <= n <= |Content(s1, i)| == s1.files[i].end
    && np !in s1.disk && np in s.disk && s.disk == s1.disk[np := s.disk[np]]
    && CopyOf(s.disk[np], h, Content(s1, i)[..n]) && PlainHeader(h) && HEADER_SIZE + s1.files[i].end <= |s.disk[np]|
    && s.files[i] == s1.files[i]
    && 0 <= k < |s1.fds| && s.fds == s1.fds[k := Descriptor(n, i, CFS_READ)]
  }

  lemma CopyingStarts(s1: FsState, s: FsState, i: int, k: int, ni: int, h: Header)
    requires Ok(s1) && 0 <= i < |s1.files| && CachedFile(s1.disk, s1.files[i]) && s1.files[i].references > 0
    requires 0 <= k < |s1.fds| && s1.fds[k] == Descriptor(0, i, CFS_READ)
    requires ni != -1 && Reserved(s1, s, ni, h) && !h.IsLog() && s1.files[i].maxPages <= h.maxPages
    ensures 0 <= ni < |s.files| && ni != i && Copying(s1, s, i, k, s.files[ni].page, h, 0)
  {
    hide Decode, FileOk, LogOf, DiskOk, ByteAt, OpenCount, BlankPast, PlainHeader, Base, ConfigOk, CopyOf;
    CopyStarts(h);
    assert SlotOk(s1.disk, s1.files[i]);
    assert s.fds == s1.fds[k := Descriptor(0, i, CFS_READ)];
    SlotCapacity(s1, i);
    BaseOrder(s1.files[i].maxPages, h.maxPages);
    assert Content(s1, i)[..0] == [];
  }

  /** In the middle of the copy the old file reads as it always did. */
  lemma CopyingReads(s1: FsState, s: FsState, i: int, k: int, np: int, h: Header, n: int)
    requires Copying(s1, s, i, k, np, h, n)
    ensures DiskOk(s.disk) && SlotOk(s.disk, s.files[i]) && DescriptorOk(s.disk, s.files, s.fds[k])
    ensures IsOpenFd(s, k) && Data(s, k) == Content(s1, i) && s.fds[k] == Descriptor(n, i, CFS_READ)
    ensures |Content(s1, i)| == s.files[i].end
  {
    hide Decode, FileOk, LogOf, DiskOk, ByteAt, OpenCount, BlankPast, PlainHeader, Base, ConfigOk, CopyOf, SlotOk;
    var e := s.disk[np];
    OkDisk(s1);
    NewFileOk(s1.disk, np, e, h, Content(s1, i)[..n]);
    GrownReadable(s1, s.disk, i);
  }

  lemma CopyingStep(s1: FsState, s: FsState, s': FsState, i: int, k: int, np: int, h: Header, n: int, b: Bytes)
    requires Copying(s1, s, i, k, np, h, n) && n + |b| <= |Content(s1, i)| && b == Content(s1, i)[n..n + |b|]
    requires s' == FsState(s.disk[np := OrInto(s.disk[np], HEADER_SIZE + n, b)], s.files,
      s.fds[k := Descriptor(n + |b|, i, CFS_READ)])
    ensures Copying(s1, s', i, k, np, h, n + |b|)
  {
    hide Decode, FileOk, LogOf, DiskOk, ByteAt, OpenCount, BlankPast, PlainHeader, Base, ConfigOk, CopyOf, SlotOk, Ok;
    hide Content;
    CopyOfSize(s.disk[np], h, Content(s1, i)[..n]);
    CopyStep(s.disk[np], h, Content(s1, i)[..n], b);
    assert Content(s1, i)[..n] + b == Content(s1, i)[..n + |b|];
    assert s.fds[k := Descriptor(n + |b|, i, CFS_READ)] == s1.fds[k := Descriptor(n + |b|, i, CFS_READ)];
    assert s'.disk == s1.disk[np := s'.disk[np]];
  }

  lemma CopyOfSize(e: Bytes, h: Header, d: Bytes)
    requires CopyOf(e, h, d)
    ensures |e| >= HEADER_SIZE + |d| && |e| == Base(h.maxPages) && Decode(e) == h
  {
  }

  // ----------------------------------------------------------------- the copy is done

  /** Moving the descriptors, removing the old file and completing the header of the
      copy add up to replacing one by the other. */
  lemma TakenOver(s: FsState, s3: FsState, s7: FsState, i: int, ni: int, k: int, np: int, e7: Bytes, h: Header)
    requires Ok(s) && 0 <= i < |s.files| && CachedFile(s.disk, s.files[i]) && 0 <= s.files[i].end
    requires s.files[i].page != NO_PAGE
    requires Decode(s.disk[s.files[i].page]).logPage != NO_PAGE
    requires 0 <= ni < |s.files| && ni != i && 0 <= k < |s.fds| && np !in s.disk && np in s3.disk && |e7| >= HEADER_SIZE
    requires s3.disk == s.disk[np := s3.disk[np]] && DiskOk(s3.disk) && np != NO_PAGE
    requires s3.files == s.files[i := s.files[i].(references := s.files[i].references + 1)][
      ni := Slot(0, np, Decode(e7).maxPages, -1, 0, false)]
    requires s3.fds == s.fds[k := Descriptor(s.files[i].end, i, CFS_READ)]
    requires var T := MovedFds(s3.fds, i, ni);
      var s4 := FsState(s3.disk, s3.files[ni := s3.files[ni].(references := OpenCount(T, ni))], T);
      var s5 := Removed(s4, s.files[i].page, true, false);
      && np in s5.disk && |s5.files| == |s.files|
      && s7 == FsState(
           s5.disk[np := e7], s5.files[ni := s5.files[ni].(modified := false, end := s.files[i].end)], s5.fds)
    ensures s7 == Replaced(s, i, ni, k, np, e7)
  {
    hide Decode, FileOk, LogOf, DiskOk, ByteAt, OpenCount, BlankPast, Base, SlotOk, Ok, MovedFds, Removed;
    var p := s.files[i].page;
    var T := MovedFds(s3.fds, i, ni);
    var s4 := FsState(s3.disk, s3.files[ni := s3.files[ni].(references := OpenCount(T, ni))], T);
    RemovedParts(s4, p, false);
    OkDisk(s);
    FilesOk(s.disk);
    if IsModifiedFile(s.disk, p) {
      OwnLog(s.disk, p);
    }
    assert s7.disk == DiskWithout(s.disk, p)[np := e7];
    var F := SlotsWithout(s.disk, s.files, p);
    forall j | 0 <= j < |s.files| && j != ni
      ensures s7.files[j] == F[j]
    {
      assert GivenUp(s4.disk, s4.files[j], p) <==> GivenUp(s.disk, s.files[j], p);
    }
    assert !GivenUp(s4.disk, s4.files[ni], p);
    assert s7.files == F[ni := Slot(s.files[i].end, np, Decode(e7).maxPages, -1, OpenCount(T, ni), false)];
  }
}
