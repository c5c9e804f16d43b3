/** The writing loop of cfs_write: what its turns add up to, and when the end marker
    does harm. */
module WriteLoops {
  import opened FlashDevice
  import opened MicroLogs
  import opened FileStates
  import opened FileSteps
  import opened FileLogs
  import opened FileWrites

  // ------------------------------------------------------------------- one turn

  lemma SelfWrote(s: FsState, k: int)
    requires Ok(s) && IsOpenFd(s, k)
    ensures Wrote(s, s, k, [])
  {
    hide Ok, Data, Confined, BlankPast;
    OpenSlot(s, k);
    SameViewsRefl(s);
    ConfinedRefl(s.disk, FilePage(s, k));
    WroteNothing(s, s, k);
  }

  lemma WroteOn(s: FsState, s1: FsState, s2: FsState, k: int, d: Bytes)
    requires Wrote(s, s1, k, d) && Wrote(s1, s2, k, [])
    ensures Wrote(s, s2, k, d) && IsOpenFd(s2, k)
  {
    WroteTrans(s, s1, s2, k, d, []);
    assert d + [] == d;
  }

  lemma ConfinedRefl(D: Disk, p: int)
    ensures Confined(D, p, D, p)
  {
  }

  /** The file has kept its records: a marker that was hidden still is. */
  ghost predicate StillMarked(s: FsState, s': FsState, k: int)
    requires IsOpenFd(s, k) && IsOpenFd(s', k)
  {
    && s'.files[s'.fds[k].file] == s.files[s.fds[k].file]
    && forall o :: Logged(s.disk, FilePage(s, k), o) ==> Logged(s'.disk, FilePage(s', k), o)
  }

  lemma WroteOpen(s: FsState, s1: FsState, k: int, d: Bytes)
    requires Wrote(s, s1, k, d)
    ensures IsOpenFd(s, k) && IsOpenFd(s1, k) && |s1.fds| == |s.fds|
    ensures 0 <= s.fds[k].offset <= |Data(s, k)| && s1.fds[k].offset == s.fds[k].offset + |d|
    ensures s1.fds[k].flags == s.fds[k].flags
    ensures |Data(s1, k)| == Later(|Data(s, k)|, s.fds[k].offset + |d|)
  {
    assert Sees(s, s1, k, k, d);
  }

  lemma RecordFds(s: FsState, s1: FsState, i: int, off: nat, d: Bytes)
    requires LogWritten(s, s1, i, off, d)
    ensures s1.fds == s.fds && |s1.files| == |s.files| && s1.files[i].end == s.files[i].end
    ensures s1.files[i].maxPages == s.files[i].maxPages
  {
  }

  /** If the end marker is due, a file with a log has a record over the place. */
  ghost predicate MarkHidden(s: FsState, k: int, needed: bool) {
    && IsOpenFd(s, k)
    && (needed && s.files[s.fds[k].file].modified ==>
         s.fds[k].offset > 0 && Logged(s.disk, FilePage(s, k), s.fds[k].offset - 1))
  }

  lemma StillHidden(s: FsState, s1: FsState, k: int, needed: bool)
    requires MarkHidden(s, k, needed) && IsOpenFd(s1, k) && StillMarked(s, s1, k) && s1.fds[k].offset == s.fds[k].offset
    ensures MarkHidden(s1, k, needed)
    ensures s1.files[s1.fds[k].file] == s.files[s.fds[k].file]
  {
    hide Logged;
  }

  /** A file that has no log and is written at its end gets no log. */
  ghost predicate Appends(s: FsState, s': FsState, k: int) {
    && IsOpenFd(s, k) && IsOpenFd(s', k)
    && (!s.files[s.fds[k].file].modified && s.fds[k].offset == s.files[s.fds[k].file].end ==>
         !s'.files[s'.fds[k].file].modified)
  }

  /** FD_VALID and FD_WRITABLE */
  ghost predicate Writable(s: FsState, k: int) {
    0 <= k < |s.fds| && s.fds[k].IsOpen() && s.fds[k].IsWritable()
  }

  /** A change that is not seen as a write of its own can still follow one. */
  lemma AloneOn(s: FsState, s1: FsState, s2: FsState, k: int, d: Bytes)
    requires Wrote(s, s1, k, d) && IsOpenFd(s1, k) && IsOpenFd(s2, k)
    requires Alone(s1, s2, k) && Confined(s1.disk, FilePage(s1, k), s2.disk, FilePage(s2, k))
    ensures Alone(s, s1, k) ==> Alone(s, s2, k)
  {
    hide Sees, SameSharing, Confined, OthersRest;
    if Alone(s, s1, k) {
      OthersRestTrans(s, FilePage(s, k), s1, FilePage(s1, k), s2, FilePage(s2, k));
    }
  }

  lemma AloneOver(s: FsState, s1: FsState, s2: FsState, k: int, d: Bytes, b: Bytes)
    requires Wrote(s, s1, k, d) && Wrote(s1, s2, k, b)
    ensures Alone(s, s1, k) && Alone(s1, s2, k) ==> Alone(s, s2, k)
  {
    hide Alone, Wrote;
    if Alone(s, s1, k) && Alone(s1, s2, k) {
      AloneTrans(s, s1, s2, k, d, b);
    }
  }

  /** One turn of the loop: `n` bytes of `rest` as a record of the log, or, with `n` zero,
      a merge of a full log. */
  ghost predicate Stepped(s: FsState, s': FsState, k: int, rest: Bytes, n: int, grew: bool) {
    && IsOpenFd(s, k) && IsOpenFd(s', k) && 0 <= n <= |rest|
    && Wrote(s, s', k, rest[..n]) && Alone(s, s', k) && SameLogConfig(s, s', k)
    && var f, f' := s.files[s.fds[k].file], s'.files[s'.fds[k].file];
       && f'.maxPages == f.maxPages
       && (grew <==> s.fds[k].offset + n > |Data(s, k)|)
       && if n == 0 then
            f.modified && !f'.modified && FreeRecords(s, k) <= 0 && Kept(s', k) == TrimmedLength(Data(s, k))
          else
            && f'.modified && 0 < s'.fds[k].offset && Logged(s'.disk, FilePage(s', k), s'.fds[k].offset - 1)
            && RecordSizeOf(s, k) > 0 && n == Chunk(s.fds[k].offset, |rest|, RecordSizeOf(s, k))
            && Kept(s', k) == Kept(s, k) && FreeRecords(s, k) > 0 && FreeRecords(s', k) == FreeRecords(s, k) - 1
  }

  // ------------------------------------------------------------------ the whole loop

  /** What the extent is worth to file_end: nothing was merged, or the last merge wrote
      it when `v` bytes had been written. */
  ghost predicate KeptSince(s: FsState, s1: FsState, k: int, buf: Bytes, w: nat)
    requires IsOpenFd(s, k) && IsOpenFd(s1, k) && w <= |buf| && 0 <= s.fds[k].offset <= |Data(s, k)|
  {
    || Kept(s1, k) == Kept(s, k)
    || exists v :: 0 <= v <= w && MergedAt(s, s1, k, buf, v) && (v == w ==> !s1.files[s1.fds[k].file].modified)
  }

  ghost predicate MergedAt(s: FsState, s1: FsState, k: int, buf: Bytes, v: nat)
    requires IsOpenFd(s, k) && IsOpenFd(s1, k) && v <= |buf| && 0 <= s.fds[k].offset <= |Data(s, k)|
  {
    Kept(s1, k) == TrimmedLength(Overlay(Data(s, k), s.fds[k].offset, buf[..v]))
  }

  /** Nothing was merged, as there was room in the log for more than was written. */
  ghost predicate RoomLeft(s: FsState, s1: FsState, k: int, len: nat, w: nat)
    requires IsOpenFd(s, k) && IsOpenFd(s1, k)
  {
    && (w > 0 ==> s1.files[s1.fds[k].file].modified)
    && (w == len || RoomBytes(s1, k) + w == RoomBytes(s, k))
  }

  /** The loop has written `w` bytes of `buf`. */
  ghost predicate Writing(s: FsState, s1: FsState, k: int, buf: Bytes, w: int, marked: bool) {
    && 0 <= w <= |buf| && IsOpenFd(s, k) && IsOpenFd(s1, k)
    && Wrote(s, s1, k, buf[..w]) && Alone(s, s1, k) && SameLogConfig(s, s1, k)
    && 0 <= s.fds[k].offset <= |Data(s, k)| && s1.fds[k].offset == s.fds[k].offset + w
    && s1.files[s1.fds[k].file].maxPages == s.files[s.fds[k].file].maxPages
    && (marked <==> s.fds[k].offset + w > |Data(s, k)|) && MarkHidden(s1, k, marked)
    && (0 < w == |buf| ==> s1.files[s1.fds[k].file].modified)
    && KeptSince(s, s1, k, buf, w)
    && (|buf| <= RoomBytes(s, k) ==> RoomLeft(s, s1, k, |buf|, w))
  }

  lemma WritingStarts(s: FsState, k: int, buf: Bytes)
    requires Ok(s) && IsOpenFd(s, k)
    ensures Writing(s, s, k, buf, 0, false)
  {
    hide Ok, Wrote, Alone, Kept, Data;
    SelfWrote(s, k);
    AloneRefl(s, k);
    WroteOpen(s, s, k, []);
    assert buf[..0] == [];
  }

  lemma WritingStep(s: FsState, s1: FsState, s2: FsState, k: int, buf: Bytes, w: int, marked: bool, n: int, grew: bool)
    requires Writing(s, s1, k, buf, w, marked) && w < |buf| && Stepped(s1, s2, k, buf[w..], n, grew)
    ensures Writing(s, s2, k, buf, w + n, marked || grew)
    ensures n == 0 ==> RoomBytes(s, k) < |buf|
  {
    hide Wrote, Alone, Kept, Data, Logged, RecordSizeAt, RecordsAt, RoomBytes, KeptSince;
    var rest := buf[w..];
    WroteOpen(s, s1, k, buf[..w]);
    WroteOpen(s1, s2, k, rest[..n]);
    WroteTrans(s, s1, s2, k, buf[..w], rest[..n]);
    AloneOver(s, s1, s2, k, buf[..w], rest[..n]);
    assert buf[..w] + rest[..n] == buf[..w + n];
    KeptOn(s, s1, s2, k, buf, w, n, grew);
    RoomOn(s1, s2, k, rest, n, grew);
  }

  lemma KeptOn(s: FsState, s1: FsState, s2: FsState, k: int, buf: Bytes, w: int, n: int, grew: bool)
    requires 0 <= w < |buf| && IsOpenFd(s, k) && Wrote(s, s1, k, buf[..w]) && 0 <= s.fds[k].offset <= |Data(s, k)|
    requires Stepped(s1, s2, k, buf[w..], n, grew) && KeptSince(s, s1, k, buf, w)
    ensures KeptSince(s, s2, k, buf, w + n)
  {
    hide Alone, Kept, Logged, SameLogConfig, RoomBytes, Overlay, TrimmedLength, Content;
    if n == 0 {
      assert Sees(s, s1, k, k, buf[..w]);
      assert MergedAt(s, s2, k, buf, w);
    } else if Kept(s1, k) != Kept(s, k) {
      var v :| 0 <= v <= w && MergedAt(s, s1, k, buf, v);
      assert MergedAt(s, s2, k, buf, v);
    }
  }

  /** A record takes the room it fills, and the last one perhaps more. */
  lemma RoomOn(s: FsState, s': FsState, k: int, rest: Bytes, n: int, grew: bool)
    requires Stepped(s, s', k, rest, n, grew) && |rest| > 0 && 0 <= s.fds[k].offset
    requires s'.fds[k].offset == s.fds[k].offset + n
    ensures n == 0 ==> RoomBytes(s, k) == 0
    ensures n > 0 ==> n <= RoomBytes(s, k)
    ensures 0 < n < |rest| ==> RoomBytes(s', k) + n == RoomBytes(s, k)
  {
    hide Wrote, Alone, Kept, Logged, RecordsAt, Taken, RecordSizeAt, Data;
    if n > 0 {
      var rs, off := RecordSizeOf(s, k), s.fds[k].offset;
      RoomAhead(s, k);
      if n < |rest| {
        NextRegion(off, n, rs);
        assert RecordSizeOf(s', k) == rs;
      }
    }
  }

  /** There is room to the end of the region at least, and none only in a full log. */
  lemma RoomAhead(s: FsState, k: int)
    requires IsOpenFd(s, k) && 0 <= s.fds[k].offset && RecordSizeOf(s, k) > 0
    ensures FreeRecords(s, k) > 0 ==>
      RoomBytes(s, k) >= RecordSizeOf(s, k) - Within(s.fds[k].offset, RecordSizeOf(s, k))
    ensures RoomBytes(s, k) > 0 <==> FreeRecords(s, k) > 0
  {
    hide RecordsAt, Taken, RecordSizeAt;
    var rs, off := RecordSizeOf(s, k), s.fds[k].offset;
    RegionSplit(off, rs);
    if FreeRecords(s, k) > 0 {
      TimesStep(Region(off, rs), rs);
      TimesAdd(Region(off, rs) + 1, FreeRecords(s, k) - 1, rs);
    }
  }

  /** A chunk that is cut short ends its region. */
  lemma NextRegion(off: nat, n: nat, rs: nat)
    requires rs > 0 && n == rs - Within(off, rs)
    ensures Region(off + n, rs) == Region(off, rs) + 1 && Times(Region(off + n, rs), rs) == off + n
  {
    RegionSplit(off, rs);
    TimesStep(Region(off, rs), rs);
    RegionOf(Region(off, rs) + 1, 0, rs);
  }

  lemma TimesStep(q: nat, n: nat)
    ensures Times(q + 1, n) == Times(q, n) + n
  {
  }

  lemma WritingParts(s: FsState, s1: FsState, k: int, buf: Bytes, w: int, marked: bool)
    requires Ok(s1) && Writing(s, s1, k, buf, w, marked)
    ensures 0 <= w <= |buf| && IsOpenFd(s1, k)
    ensures |buf| + s.fds[k].offset + HEADER_SIZE <= Base(s.files[s.fds[k].file].maxPages) ==>
      |buf[w..]| + s1.fds[k].offset + HEADER_SIZE <= Base(s1.files[s1.fds[k].file].maxPages)
  {
    hide Ok, Wrote, Alone, MarkHidden, KeptSince, RoomLeft, Base;
  }

  lemma SteppedParts(s: FsState, s1: FsState, k: int, rest: Bytes, n: int, grew: bool)
    requires Stepped(s, s1, k, rest, n, grew)
    ensures 0 <= n <= |rest| && IsOpenFd(s, k) && IsOpenFd(s1, k)
    ensures n == 0 ==> s.files[s.fds[k].file].modified && !s1.files[s1.fds[k].file].modified
  {
    hide Wrote, Alone, Logged, Kept, SameLogConfig;
  }

  // -------------------------------------------------------------- when it gets stuck

  /** A refused turn: a merge of a full log, or a new log, could not be had. */
  ghost predicate Stuck(s: FsState, s': FsState, k: int) {
    && IsOpenFd(s, k) && IsOpenFd(s', k) && Wrote(s, s', k, []) && s'.fds[k] == s.fds[k]
    && StillMarked(s, s', k)
    && (s.files[s.fds[k].file].modified ==> FreeRecords(s, k) <= 0)
  }

  /** The loop is over after `w` bytes, and the end marker is due or not. */
  ghost predicate Marked(s: FsState, s1: FsState, k: int, buf: Bytes, w: int, marked: bool) {
    && 0 <= w <= |buf| && IsOpenFd(s, k) && IsOpenFd(s1, k)
    && Wrote(s, s1, k, buf[..w]) && 0 <= s.fds[k].offset <= |Data(s, k)|
    && (marked <==> s.fds[k].offset + w > |Data(s, k)|) && MarkHidden(s1, k, marked)
    && (w < |buf| ==> w > 0 && RoomBytes(s, k) < |buf|)
    && (w == |buf| ==> Alone(s, s1, k) && KeptSince(s, s1, k, buf, w))
    && (0 < w == |buf| ==> s1.files[s1.fds[k].file].modified)
  }

  lemma WritingMarked(s: FsState, s1: FsState, k: int, buf: Bytes, marked: bool)
    requires Writing(s, s1, k, buf, |buf|, marked)
    ensures Marked(s, s1, k, buf, |buf|, marked)
  {
    hide Wrote, Alone, MarkHidden, KeptSince, RoomLeft, SameLogConfig, RoomBytes;
  }

  lemma WritingStuck(s: FsState, s1: FsState, s2: FsState, k: int, buf: Bytes, w: int, marked: bool)
    requires Writing(s, s1, k, buf, w, marked) && w < |buf| && Stuck(s1, s2, k)
    ensures IsOpenFd(s2, k) && (w > 0 ==> Marked(s, s2, k, buf, w, marked)) && (w == 0 ==> Wrote(s, s2, k, []))
  {
    hide Wrote, Alone, Kept, KeptSince, SameLogConfig, Logged;
    WroteOn(s, s1, s2, k, buf[..w]);
    StillHidden(s1, s2, k, marked);
    assert w == 0 ==> buf[..w] == [];
  }

  /** What a write leaves in the file: a prefix of the request, all of it unless an
      extent was refused half-way. If the refusal left a grown file without a log, the
      end marker takes the place of the last byte. */
  ghost predicate WriteOutcome(s: FsState, s': FsState, k: int, buf: Bytes, stored: Bytes)
    requires IsOpenFd(s, k) && IsOpenFd(s', k)
  {
    && |stored| <= |buf|
    && var n := |stored|;
       var spoiled := 0 < n < |buf| && s.fds[k].offset + n > |Data(s, k)| && !s'.files[s'.fds[k].file].modified;
       stored == if spoiled then Spoiled(buf[..n]) else buf[..n]
  }

  /** After a whole write, what file_end would find in the extent of a file with a log. */
  ghost predicate KeptAfter(s: FsState, s': FsState, k: int, buf: Bytes) {
    && IsOpenFd(s, k) && IsOpenFd(s', k) && 0 <= s.fds[k].offset <= |Data(s, k)|
    && (s'.files[s'.fds[k].file].modified ==>
          if |Data(s', k)| > |Data(s, k)| then Kept(s', k) == |Data(s', k)|
          else Kept(s', k) == Kept(s, k) || exists v :: 0 <= v < |buf| && MergedAt(s, s', k, buf, v))
  }

  ghost predicate LoopOutcome(s: FsState, s': FsState, k: int, buf: Bytes, stored: Bytes) {
    && IsOpenFd(s, k) && IsOpenFd(s', k) && Wrote(s, s', k, stored) && WriteOutcome(s, s', k, buf, stored)
    && (|stored| == |buf| ==> Alone(s, s', k) && KeptAfter(s, s', k, buf))
    && (|buf| <= RoomBytes(s, k) ==> stored == buf)
  }

  lemma MarkedWithin(s: FsState, s1: FsState, k: int, buf: Bytes, w: int, marked: bool)
    requires Marked(s, s1, k, buf, w, marked)
    ensures 0 <= w <= |buf| && IsOpenFd(s, k) && IsOpenFd(s1, k) && (marked ==> w > 0)
  {
    hide Wrote, Alone, KeptSince, MarkHidden, RoomBytes, Data;
  }

  lemma MarkedParts(s: FsState, s1: FsState, k: int, buf: Bytes, w: int)
    requires Ok(s1) && Marked(s, s1, k, buf, w, true)
    ensures 0 < w <= |buf| && IsOpenFd(s, k) && IsOpenFd(s1, k) && Wrote(s, s1, k, buf[..w])
    ensures s.fds[k].offset + w == s1.fds[k].offset == s1.files[s1.fds[k].file].end
    ensures s1.files[s1.fds[k].file].modified ==> Logged(s1.disk, FilePage(s1, k), s1.fds[k].offset - 1)
  {
    hide Ok, Wrote, Alone, KeptSince, Logged, Data, RoomBytes;
    WroteOpen(s, s1, k, buf[..w]);
    OpenSlot(s1, k);
  }

  lemma UnmarkedOutcome(s: FsState, s1: FsState, k: int, buf: Bytes, w: int)
    requires Marked(s, s1, k, buf, w, false)
    ensures LoopOutcome(s, s1, k, buf, buf[..w])
  {
    hide Wrote, Alone, Kept, MarkHidden, RoomBytes, Data, Content;
    WroteOpen(s, s1, k, buf[..w]);
    assert buf[..|buf|] == buf;
    if w == |buf| {
      KeptUngrown(s, s1, k, buf);
    }
  }

  lemma KeptUngrown(s: FsState, s1: FsState, k: int, buf: Bytes)
    requires IsOpenFd(s, k) && IsOpenFd(s1, k) && 0 <= s.fds[k].offset <= |Data(s, k)| && |Data(s1, k)| <= |Data(s, k)|
    requires KeptSince(s, s1, k, buf, |buf|)
    ensures KeptAfter(s, s1, k, buf)
  {
    hide Kept, Data, Overlay, TrimmedLength;
  }

  lemma MarkedOutcome(s: FsState, s1: FsState, s2: FsState, k: int, buf: Bytes, w: int, stored: Bytes)
    requires Marked(s, s1, k, buf, w, true) && w > 0
    requires s2.files == s1.files && s2.fds == s1.fds && Wrote(s, s2, k, stored)
    requires (Alone(s, s1, k) ==> Alone(s, s2, k))
    requires s1.files[s1.fds[k].file].modified ==> Kept(s2, k) == s1.fds[k].offset
    requires stored == if s1.files[s1.fds[k].file].modified then buf[..w] else Spoiled(buf[..w])
    ensures LoopOutcome(s, s2, k, buf, stored)
  {
    hide Wrote, Alone, Kept, MarkHidden, KeptSince, RoomBytes, Data, Content;
    WroteOpen(s, s1, k, buf[..w]);
    WroteOpen(s, s2, k, stored);
    assert buf[..|buf|] == buf;
  }

  // ------------------------------------------------------------------ the whole write

  /** The file with `buf` programmed behind its end. */
  ghost function PlainlyWritten(s: FsState, k: int, buf: Bytes): FsState
    requires IsOpenFd(s, k) && FilePage(s, k) in s.disk && 0 <= s.fds[k].offset
    requires HEADER_SIZE + s.fds[k].offset + |buf| <= |s.disk[FilePage(s, k)]|
  {
    var p, off := FilePage(s, k), s.fds[k].offset;
    Advanced(s.(disk := s.disk[p := OrInto(s.disk[p], HEADER_SIZE + off, buf)]), k, off + |buf|)
  }

  /** No larger extent is needed. */
  ghost predicate FitsExtent(s: FsState, k: int, len: nat)
    requires IsOpenFd(s, k)
  {
    len + s.fds[k].offset + HEADER_SIZE <= Base(s.files[s.fds[k].file].maxPages)
  }

  /** How much the log, or the log of a larger extent, can take from the offset on. */
  ghost function LogRoom(s: FsState, k: int, len: nat): int
    requires IsOpenFd(s, k)
  {
    if FitsExtent(s, k, len) then RoomBytes(s, k)
    else
      var rs, off := RecordSizeOf(s, k), s.fds[k].offset;
      if rs == 0 || off < 0 || RecordsAt(s.disk, FilePage(s, k)) == 0 then 0
      else Times(Region(off, rs) + RecordsAt(s.disk, FilePage(s, k)), rs) - off
  }

  /** Writes that the end marker never harms: those that do not grow the file, those that
      append to a file that has no log or loses it to a larger extent, and those for
      which one log is enough. */
  ghost predicate Unharmed(s: FsState, k: int, len: nat) {
    IsOpenFd(s, k) ==>
      var f := s.files[s.fds[k].file];
      || s.fds[k].offset + len <= |Data(s, k)|
      || (s.fds[k].offset == f.end && (!f.modified || !FitsExtent(s, k, len)))
      || len <= LogRoom(s, k, len)
  }

  /** What cfs_write answers and leaves: `stored` was written, all of `buf` or a prefix, or
      nothing; and only a write that can be harmed has its last byte spoiled. */
  ghost predicate Answered(s: FsState, s': FsState, k: int, buf: Bytes, r: int, stored: Bytes) {
    && IsOpenFd(s, k) && IsOpenFd(s', k)
    && Wrote(s, s', k, stored) && WriteOutcome(s, s', k, buf, stored)
    && (r == -1 || r == |buf|) && (r == -1 ==> stored == [])
    && (Unharmed(s, k, |buf|) ==> stored == buf[..|stored|])
    && (r != -1 && |stored| == |buf| ==> Alone(s, s', k) && Appends(s, s', k) && KeptAfter(s, s', k, buf))
  }

  lemma StoredNothing(s: FsState, s1: FsState, k: int, buf: Bytes)
    requires Wrote(s, s1, k, [])
    ensures Answered(s, s1, k, buf, -1, [])
  {
    hide Unharmed;
    assert [] == buf[..0];
  }

  lemma SameConfigOn(s: FsState, s1: FsState, s2: FsState, k: int)
    requires s1 == s || SameLogConfig(s, s1, k)
    requires SameLogConfig(s1, s2, k)
    ensures SameLogConfig(s, s2, k)
  {
    hide RecordSizeAt, RecordsAt;
  }

  /** A larger extent comes without a log, with room for all the records of a new one. */
  lemma FreshRoom(s: FsState, s1: FsState, k: int, len: nat)
    requires Ok(s1) && IsOpenFd(s, k) && !FitsExtent(s, k, len) && SameLogConfig(s, s1, k)
    requires !s1.files[s1.fds[k].file].modified && s1.fds[k].offset == s.fds[k].offset
    ensures RoomBytes(s1, k) == LogRoom(s, k, len)
  {
    hide Ok, RecordSizeAt, RecordsAt, Taken, FitsExtent;
    PlainKept(s1, k);
  }

  /** The file as ExtendFile leaves it. */
  ghost predicate Extended(s: FsState, s1: FsState, k: int, len: nat) {
    && Wrote(s, s1, k, []) && Alone(s, s1, k) && IsOpenFd(s, k) && IsOpenFd(s1, k)
    && (FitsExtent(s, k, len) ==> s1 == s)
    && (!FitsExtent(s, k, len) ==> !s1.files[s1.fds[k].file].modified && SameLogConfig(s, s1, k))
  }

  lemma LoggedAfter(s: FsState, s1: FsState, s2: FsState, k: int, buf: Bytes, stored: Bytes)
    requires Ok(s) && Ok(s1) && Extended(s, s1, k, |buf|) && LoopOutcome(s1, s2, k, buf, stored)
    requires s1.files[s1.fds[k].file].modified || s1.fds[k].offset < s1.files[s1.fds[k].file].end
    ensures Answered(s, s2, k, buf, |buf|, stored)
  {
    hide Ok, Wrote, Alone, Kept, Data, RoomBytes, LogRoom, FitsExtent, SameLogConfig, Content;
    WroteOpen(s, s1, k, []);
    WroteOpen(s1, s2, k, stored);
    WroteTrans(s, s1, s2, k, [], stored);
    assert [] + stored == stored && buf[..|buf|] == buf;
    AloneOver(s, s1, s2, k, [], stored);
    OpenSlot(s, k);
    OpenSlot(s1, k);
    if !FitsExtent(s, k, |buf|) {
      FreshRoom(s, s1, k, |buf|);
      GrowsBeyond(s, k, |buf|);
    } else {
      assert LogRoom(s, k, |buf|) == RoomBytes(s, k) by { RoomThatFits(s, k, |buf|); }
    }
  }

  lemma RoomThatFits(s: FsState, k: int, len: nat)
    requires IsOpenFd(s, k) && FitsExtent(s, k, len)
    ensures LogRoom(s, k, len) == RoomBytes(s, k)
  {
    hide RoomBytes, FitsExtent;
  }

  /** A write that does not fit the extent grows the file. */
  lemma GrowsBeyond(s: FsState, k: int, len: nat)
    requires Ok(s) && IsOpenFd(s, k) && !FitsExtent(s, k, len)
    ensures s.fds[k].offset + len > |Data(s, k)|
  {
    hide Ok, Base;
    OpenSlot(s, k);
  }

  lemma PlainAfter(s: FsState, s1: FsState, s2: FsState, k: int, buf: Bytes)
    requires Ok(s) && Ok(s1) && Extended(s, s1, k, |buf|) && Wrote(s1, s2, k, buf) && Alone(s1, s2, k)
    requires IsOpenFd(s2, k) && !s2.files[s2.fds[k].file].modified
    ensures Answered(s, s2, k, buf, |buf|, buf)
  {
    hide Ok, Alone, Kept, Data, FitsExtent, SameLogConfig, Wrote;
    WroteOpen(s, s1, k, []);
    WroteTrans(s, s1, s2, k, [], buf);
    assert [] + buf == buf && buf[..|buf|] == buf;
    AloneOver(s, s1, s2, k, [], buf);
  }
}
