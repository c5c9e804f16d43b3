/** Where a write through the log ends on a packed volume, foretold from the state before
    it: in full, cut short, or with its last byte spoiled. */
module WriteFates {
  import opened FlashDevice
  import opened MicroLogs
  import opened FileStates
  import opened FileLogs
  import opened FileWrites
  import opened WriteLoops

  /** The pages of a log for the file at `p`. */
  ghost function LogPagesAt(D: Disk, p: int): nat {
    PageCountFor(Times(RecordsAt(D, p), 2 + RecordSizeAt(D, p)))
  }

  /** What the next record of the file in slot `f` needs: a log, a larger one, or nothing. */
  ghost function NeedAt(D: Disk, f: Slot): nat {
    if !f.modified then LogPagesAt(D, f.page)
    else if RecordsAt(D, f.page) <= Taken(D, f.page) then f.maxPages
    else 0
  }

  ghost function LogPages(s: FsState, k: int): nat
    requires IsOpenFd(s, k)
  {
    LogPagesAt(s.disk, FilePage(s, k))
  }

  ghost function MaxPages(s: FsState, k: int): nat
    requires IsOpenFd(s, k)
  {
    s.files[s.fds[k].file].maxPages
  }

  ghost predicate HasLog(s: FsState, k: int)
    requires IsOpenFd(s, k)
  {
    s.files[s.fds[k].file].modified
  }

  ghost function Need(s: FsState, k: int): nat
    requires IsOpenFd(s, k)
  {
    NeedAt(s.disk, s.files[s.fds[k].file])
  }

  /** A request for `need` pages behind the hint `h`, if there is any need. */
  ghost predicate Affords(h: int, need: nat) {
    need == 0 || h + need < PAGE_COUNT
  }

  // ----------------------------------------------------------------------- the fate

  datatype Fate = Refused | Whole | Cut(count: int) | Harmed(count: int)

  /** The hint behind the log that the write begins with. */
  ghost function WithLog(s: FsState, h: int, k: int): int
    requires IsOpenFd(s, k)
  {
    if HasLog(s, k) then h else h + LogPages(s, k)
  }

  /** What fits into a log that is still empty, at a region's beginning. */
  ghost function NextRoom(s: FsState, k: int): nat
    requires IsOpenFd(s, k)
  {
    Times(RecordsAt(s.disk, FilePage(s, k)), RecordSizeOf(s, k))
  }

  /** The first log takes what there is room for. Then a merge needs an extent, and the
      rest of the write a second log. If that cannot be had, the end marker is put into
      the new extent; and if the file has grown, it spoils the last byte. */
  ghost function FateOf(s: FsState, h: int, k: int, len: nat): Fate
    requires IsOpenFd(s, k)
  {
    var room, a := RoomBytes(s, k), WithLog(s, h, k);
    var b := a + MaxPages(s, k);
    if !HasLog(s, k) && a >= PAGE_COUNT then Refused
    else if len <= room then Whole
    else if b >= PAGE_COUNT then Cut(room)
    else if b + LogPages(s, k) < PAGE_COUNT then Whole
    else if s.fds[k].offset + room > |Data(s, k)| then Harmed(room)
    else Cut(room)
  }

  /** The writes that can be foretold: there is some room in the log, or no log yet, and
      two logs are enough. */
  ghost predicate Foreseeable(s: FsState, k: int, len: nat) {
    IsOpenFd(s, k) && 0 < RoomBytes(s, k) && 0 < len <= RoomBytes(s, k) + NextRoom(s, k)
  }

  ghost predicate Fulfils(fate: Fate, buf: Bytes, r: int, stored: Bytes) {
    match fate
    case Refused => r == -1 && stored == []
    case Whole => r == |buf| && stored == buf
    case Cut(n) => r == |buf| && 0 < n < |buf| && stored == buf[..n]
    case Harmed(n) => r == |buf| && 0 < n < |buf| && stored == Spoiled(buf[..n])
  }

  // ------------------------------------------------------------------------ the loop

  /** Where the loop stands: before the first log, in it, between two logs, or in the
      second. */
  ghost predicate Cycle(s: FsState, h0: int, k: int, len: nat, s1: FsState, h1: int, w: int) {
    && IsOpenFd(s, k) && IsOpenFd(s1, k) && 0 <= w <= len && 0 <= s.fds[k].offset
    && Foreseeable(s, k, len) && SameLogConfig(s, s1, k) && MaxPages(s1, k) == MaxPages(s, k)
    && s1.fds[k].offset == s.fds[k].offset + w
    && var room, a, b := RoomBytes(s, k), WithLog(s, h0, k), WithLog(s, h0, k) + MaxPages(s, k);
       var left := RoomBytes(s1, k);
       || (w == 0 && h1 == h0 && left == room && (HasLog(s1, k) <==> HasLog(s, k)))
       || (HasLog(s1, k) && 0 < w <= room && h1 == a && (HasLog(s, k) || a < PAGE_COUNT)
            && (w == len || left + w == room))
       || (!HasLog(s1, k) && w == room < len && h1 == b < PAGE_COUNT && (HasLog(s, k) || a < PAGE_COUNT)
            && left == NextRoom(s, k))
       || (HasLog(s1, k) && room < w && h1 == b + LogPages(s, k) < PAGE_COUNT && (HasLog(s, k) || a < PAGE_COUNT)
           && b < PAGE_COUNT && (w == len || left + w == room + NextRoom(s, k)))
  }

  lemma SameNeeds(s: FsState, s1: FsState, k: int)
    requires SameLogConfig(s, s1, k)
    ensures LogPages(s1, k) == LogPages(s, k) && NextRoom(s1, k) == NextRoom(s, k)
    ensures RecordSizeOf(s1, k) == RecordSizeOf(s, k)
    ensures LogPages(s, k) >= 1
  {
    hide RecordSizeAt, RecordsAt, Times, PageCountFor;
  }

  lemma CycleStarts(s: FsState, h0: int, k: int, len: nat)
    requires Ok(s) && Foreseeable(s, k, len)
    ensures Cycle(s, h0, k, len, s, h0, 0)
  {
    hide Ok, RecordSizeAt, RecordsAt, RoomBytes, NextRoom;
    OpenSlot(s, k);
  }

  /** One more turn. */
  lemma CycleStep(s: FsState, h0: int, k: int, buf: Bytes, s1: FsState, h1: int, w: int, s2: FsState, h2: int, n: int,
        grew: bool)
    requires Ok(s2) && Cycle(s, h0, k, |buf|, s1, h1, w) && w < |buf| && Stepped(s1, s2, k, buf[w..], n, grew)
    requires Affords(h1, Need(s1, k)) && h2 == h1 + Need(s1, k)
    ensures Cycle(s, h0, k, |buf|, s2, h2, w + n)
  {
    hide Wrote, Alone, Kept, Data, Logged, RoomBytes, NextRoom, LogPagesAt, RecordSizeAt, RecordsAt, Taken, Ok;
    SteppedOffset(s1, s2, k, buf[w..], n, grew);
    RoomOn(s1, s2, k, buf[w..], n, grew);
    SameNeeds(s, s1, k);
    SameNeeds(s1, s2, k);
    SameConfigOn(s, s1, s2, k);
    RoomMeansRecords(s, k);
    NeedIs(s1, k);
    SomePages(s2, k);
    if n == 0 {
      assert w == RoomBytes(s, k);
      FreshAtBoundary(s, s2, k);
    }
  }

  lemma SomePages(s: FsState, k: int)
    requires Ok(s) && IsOpenFd(s, k)
    ensures MaxPages(s, k) > 0
  {
    hide Ok;
    OpenSlot(s, k);
  }

  lemma RoomMeansRecords(s: FsState, k: int)
    requires IsOpenFd(s, k) && RoomBytes(s, k) > 0
    ensures RecordSizeOf(s, k) > 0
  {
  }

  /** A full log ends with a region, and an empty one has room for as many regions as it
      has records. */
  lemma FreshAtBoundary(s: FsState, s2: FsState, k: int)
    requires IsOpenFd(s, k) && RoomBytes(s, k) > 0 && SameLogConfig(s, s2, k) && Ok(s2) && !HasLog(s2, k)
    requires 0 <= s.fds[k].offset && s2.fds[k].offset == s.fds[k].offset + RoomBytes(s, k)
    ensures RoomBytes(s2, k) == NextRoom(s, k)
  {
    hide RecordSizeAt, RecordsAt, Taken, Ok;
    PlainKept(s2, k);
    var rs, q := RecordSizeOf(s, k), Region(s.fds[k].offset, RecordSizeOf(s, k)) + FreeRecords(s, k);
    RegionOf(q, 0, rs);
    TimesAdd(q, RecordsAt(s.disk, FilePage(s, k)), rs);
  }

  lemma SteppedOffset(s: FsState, s1: FsState, k: int, rest: Bytes, n: int, grew: bool)
    requires Stepped(s, s1, k, rest, n, grew)
    ensures s1.fds[k].offset == s.fds[k].offset + n && 0 <= s.fds[k].offset
  {
    hide Alone, Kept, Logged, Data;
    WroteOpen(s, s1, k, rest[..n]);
  }

  /** What is needed, by the room that is left. */
  lemma NeedIs(s: FsState, k: int)
    requires IsOpenFd(s, k) && 0 <= s.fds[k].offset && RecordSizeOf(s, k) > 0
    ensures !HasLog(s, k) ==> Need(s, k) == LogPages(s, k)
    ensures HasLog(s, k) && RoomBytes(s, k) > 0 ==> Need(s, k) == 0
    ensures HasLog(s, k) && RoomBytes(s, k) <= 0 ==> Need(s, k) == MaxPages(s, k)
  {
    hide RecordSizeAt, RecordsAt, Taken, LogPagesAt;
    RoomAhead(s, k);
  }

  // ------------------------------------------------------------------- how it ends

  /** The whole of it was written. */
  lemma CycleDone(s: FsState, h0: int, k: int, buf: Bytes, s1: FsState, h1: int)
    requires Cycle(s, h0, k, |buf|, s1, h1, |buf|)
    ensures FateOf(s, h0, k, |buf|) == Whole
  {
    hide RoomBytes, NextRoom, LogPagesAt, RecordSizeAt, RecordsAt, Data, SameLogConfig;
  }

  /** A turn could not be paid for. */
  lemma CycleStuck(s: FsState, h0: int, k: int, len: nat, s1: FsState, h1: int, w: int)
    requires Ok(s1) && Cycle(s, h0, k, len, s1, h1, w) && w < len && !Affords(h1, Need(s1, k))
    ensures w == 0 ==> FateOf(s, h0, k, len) == Refused
    ensures w > 0 ==> 0 < w < len
    ensures w > 0 && (HasLog(s1, k) || s.fds[k].offset + w <= |Data(s, k)|) ==> FateOf(s, h0, k, len) == Cut(w)
    ensures w > 0 && !HasLog(s1, k) && s.fds[k].offset + w > |Data(s, k)| ==> FateOf(s, h0, k, len) == Harmed(w)
  {
    hide RoomBytes, NextRoom, LogPagesAt, RecordSizeAt, RecordsAt, Data, Taken, Ok;
    SameNeeds(s, s1, k);
    RoomMeansRecords(s, k);
    NeedIs(s1, k);
  }

  /** The loop is over after `w` bytes. */
  ghost function Ending(s: FsState, s1: FsState, k: int, len: nat, w: int): Fate
    requires IsOpenFd(s, k) && IsOpenFd(s1, k)
  {
    if w >= len then Whole
    else if s.fds[k].offset + w > |Data(s, k)| && !HasLog(s1, k) then Harmed(w)
    else Cut(w)
  }

  lemma StuckEnding(s: FsState, h0: int, k: int, len: nat, s1: FsState, h1: int, s2: FsState, w: int)
    requires Ok(s1) && Cycle(s, h0, k, len, s1, h1, w) && w < len && !Affords(h1, Need(s1, k)) && Stuck(s1, s2, k)
    ensures FateOf(s, h0, k, len) == if w == 0 then Refused else Ending(s, s2, k, len, w)
  {
    hide RoomBytes, NextRoom, LogPagesAt, RecordSizeAt, RecordsAt, Data, Taken, Ok, FateOf, Wrote, Logged;
    CycleStuck(s, h0, k, len, s1, h1, w);
  }

  lemma EndingMet(s: FsState, s1: FsState, k: int, buf: Bytes, w: int, marked: bool, stored: Bytes)
    requires Marked(s, s1, k, buf, w, marked) && |buf| > 0
    requires 0 < w || !marked
    requires stored == if marked && !HasLog(s1, k) then Spoiled(buf[..w]) else buf[..w]
    ensures Fulfils(Ending(s, s1, k, |buf|, w), buf, |buf|, stored)
  {
    hide RoomBytes, Data, Wrote, Alone, KeptSince, MarkHidden;
    assert buf[..|buf|] == buf;
  }

  lemma RefusedMet(fate: Fate, buf: Bytes)
    ensures fate == Refused ==> Fulfils(fate, buf, -1, [])
  {
  }

  lemma WholeEnding(s: FsState, s1: FsState, k: int, len: nat)
    requires IsOpenFd(s, k) && IsOpenFd(s1, k)
    ensures Ending(s, s1, k, len, len) == Whole
  {
  }

  lemma SomeBytes(s: FsState, k: int, len: nat)
    requires Foreseeable(s, k, len)
    ensures len > 0
  {
  }

  // ------------------------------------------------------------- which way it goes

  /** The branch of cfs_write that goes through the log, in the extent as it is. */
  ghost predicate ThroughLog(s: FsState, k: int, len: nat) {
    && Writable(s, k) && IsOpenFd(s, k) && FitsExtent(s, k, len)
    && (HasLog(s, k) || s.fds[k].offset < s.files[s.fds[k].file].end)
  }

  /** The other one. */
  ghost predicate JustAppends(s: FsState, k: int, len: nat) {
    && Writable(s, k) && IsOpenFd(s, k) && FitsExtent(s, k, len)
    && !HasLog(s, k) && 0 <= s.fds[k].offset && s.fds[k].offset >= s.files[s.fds[k].file].end
    && FilePage(s, k) in s.disk && HEADER_SIZE + s.fds[k].offset + len <= |s.disk[FilePage(s, k)]|
  }
}
