/** Two runs on a small device: one ends with a byte destroyed by the end marker, the
    other reads the header of somebody else's file. */
module Witnesses {
  import opened FlashDevice
  import opened Headers
  import opened Disks
  import opened MicroLogs
  import opened Volumes
  import opened FileStates
  import opened FileSteps
  import opened FileLogs
  import opened FileMerges
  import opened FileWrites
  import opened WriteLoops
  import opened WriteFates
  import opened CoffeeFiles
  import opened SeekOverruns

  /** One sector of eight pages, two pages for a new file, and one record in a log. */
  function Tiny(): (g: GeometryData)
    ensures g.Valid()
  {
    TimesIsProduct(1, 8);
    Geometry(16, 8, 1, 1, 16, 1, 20, 3, 3)
  }

  lemma TinySizes()
    requires G == Tiny()
    ensures PAGE_SIZE == 16 && SECTOR_COUNT == 1 && PAGE_COUNT == 8 && NAME_LENGTH == 1 && HEADER_SIZE == 11
    ensures LOG_SIZE == 16 && DYN_SIZE == 20 && MAX_OPEN_FILES == 3 && FD_SET_SIZE == 3
    ensures PageCountFor(DYN_SIZE) == 2 && PageCountFor(18) == 2
    ensures Base(2) == 32
  {
    TimesIsProduct(1, 8);
    TimesIsProduct(2, 16);
  }

  const READ_WRITE: bv8 := CFS_READ | CFS_WRITE

  /** A small file without a log, as its only writer sees it. */
  ghost predicate Small(s: FsState, k: int, data: Bytes, offset: int) {
    && IsOpenFd(s, k) && s.fds[k].flags == READ_WRITE && s.fds[k].offset == offset
    && Data(s, k) == data && !HasLog(s, k) && MaxPages(s, k) == 2
    && RecordSizeOf(s, k) == 16 && RecordsAt(s.disk, FilePage(s, k)) == 1
  }

  // ----------------------------------------------------------------- the first file

  lemma NewSmall(s0: FsState, s: FsState, k: int, name: Bytes)
    requires G == Tiny() && Ok(s) && IsOpenFd(s, k) && s.fds[k].flags == READ_WRITE && s.fds[k].offset == 0
    requires OpenedAside(s0, s, s.fds[k].file) && OpenedContent(s0, s, s.fds[k].file, name) && NewFile(s, s.fds[k].file)
    requires FilePage(s, k) !in s0.disk
    ensures Small(s, k, [], 0) && NameAt(s.disk, FilePage(s, k)) == name
    ensures s.disk.Keys == s0.disk.Keys + {FilePage(s, k)}
  {
    hide Ok, Decode, ByteAt, Extends, Times;
    TinySizes();
    OneRecord();
  }

  lemma OneRecord()
    requires G == Tiny()
    ensures LOG_SIZE / PAGE_SIZE == 1
  {
  }

  /** Nobody else has anything open. */
  lemma RestFree(s0: FsState, s: FsState, k: int)
    requires Ok(s) && IsOpenFd(s, k) && |s.fds| == |s0.fds| && OpenedAside(s0, s, s.fds[k].file)
    requires forall l :: 0 <= l < |s0.fds| ==> !s0.fds[l].IsOpen()
    requires forall i :: 0 <= i < |s0.files| ==> s0.files[i].IsFree()
    requires forall l :: 0 <= l < |s.fds| && l != k ==> SameView(s0, s, l)
    ensures forall l :: 0 <= l < |s.fds| && l != k ==> !s.fds[l].IsOpen()
    ensures forall i :: 0 <= i < |s.files| && i != s.fds[k].file ==> s.files[i].IsFree()
  {
    hide Ok, Data, BlankPast;
    forall l | 0 <= l < |s.fds| && l != k
      ensures !s.fds[l].IsOpen()
    {
      assert SameView(s0, s, l);
      if s.fds[l].IsOpen() {
        OpenInRange(s, l);
      }
    }
  }

  /** A formatted device with one new file on its first pages, open for both ways. */
  method FirstFile(name: Bytes) returns (fs: Coffee, fd: int)
    requires G == Tiny() && |name| == NAME_LENGTH
    ensures fresh(fs) && fresh(fs.vol) && fresh(fs.vol.flash.cells) && fresh(fs.files) && fresh(fs.fds)
    ensures fs.Valid() && fs.Ready() && fs.vol.nextFree == 2 && fs.strandings == 0
    ensures Small(fs.Fs(), fd, [], 0) && FilePage(fs.Fs(), fd) == 0
    ensures fs.vol.Disk().Keys == {0} && NameAt(fs.vol.Disk(), 0) == name
    ensures forall l :: 0 <= l < fs.fds.Length && l != fd ==> !fs.fds[l].IsOpen()
    ensures forall i :: 0 <= i < fs.files.Length && i != fs.fds[fd].file ==> fs.files[i].IsFree()
  {
    hide Volume.Valid, Volume.Disk, Volume.Packs, Ok, SameView, SameViews, SameSharing, OpenedAside, OpenedContent;
    hide NewFile;
    hide OpensKnown, IsKnown, KnownAs, NotFound, Decode, Base;
    TinySizes();
    fs := new Coffee();
    ghost var s0 := fs.Fs();
    assert HasSlot(s0.files) by { assert Loadable(s0.files, 0); }
    FreeFd(s0.fds, 0);
    assert Creates(s0, name, READ_WRITE, 0);
    fd := fs.CfsOpen(name, READ_WRITE);
    ghost var s := fs.Fs();
    NewSmall(s0, s, fd, name);
    RestFree(s0, s, fd);
    FreeFd(s.fds, if fd == 0 then 1 else 0);
    assert Loadable(s.files, if s.fds[fd].file == 0 then 1 else 0);
  }

  // ------------------------------------------------------------------- a spoiled byte

  /** The first write appends. */
  lemma FirstWrite(s: FsState, k: int, buf: Bytes)
    requires G == Tiny() && Ok(s) && Small(s, k, [], 0) && |buf| == 15
    ensures JustAppends(s, k, |buf|) && Unharmed(s, k, |buf|)
  {
    hide Ok, Data, RecordSizeAt, RecordsAt, LogRoom;
    TinySizes();
    OpenSlot(s, k);
  }

  lemma FirstWritten(s: FsState, k: int, buf: Bytes, r: int, stored: Bytes)
    requires G == Tiny() && Ok(s) && Small(s, k, [], 0) && |buf| == 15 && JustAppends(s, k, |buf|)
    requires Unharmed(s, k, |buf|)
    requires Ok(PlainlyWritten(s, k, buf)) && Answered(s, PlainlyWritten(s, k, buf), k, buf, r, stored)
    ensures Small(PlainlyWritten(s, k, buf), k, buf, 15)
    ensures StillOpen(s, PlainlyWritten(s, k, buf))
  {
    hide Ok, Data, SameSharing, Confined, Decode, Alone, Unharmed, WriteOutcome, KeptAfter;
    var s' := PlainlyWritten(s, k, buf);
    TinySizes();
    WroteOpen(s, s', k, stored);
    assert buf[..15] == buf;
    assert Sees(s, s', k, k, stored);
    assert Overlay([], 0, buf) == buf;
    SameHeader(s.disk[FilePage(s, k)], HEADER_SIZE, buf);
  }

  /** Slots and descriptors are taken as they were. */
  ghost predicate StillOpen(s: FsState, s': FsState) {
    && |s'.files| == |s.files| && |s'.fds| == |s.fds|
    && (forall j :: 0 <= j < |s.files| ==>
          s'.files[j].maxPages == s.files[j].maxPages && s'.files[j].references == s.files[j].references)
    && forall l :: 0 <= l < |s.fds| ==> s'.fds[l].flags == s.fds[l].flags
  }

  lemma SameHeader(ext: Bytes, at: nat, data: Bytes)
    requires HEADER_SIZE <= at && at + |data| <= |ext|
    ensures Decode(OrInto(ext, at, data)) == Decode(ext)
  {
    hide Decode;
    assert OrInto(ext, at, data)[..HEADER_SIZE] == ext[..HEADER_SIZE];
    DecodePrefix(ext, ext[..HEADER_SIZE]);
    DecodePrefix(OrInto(ext, at, data), ext[..HEADER_SIZE]);
  }

  /** A seek inside the file moves nothing but the descriptor. */
  lemma SoughtSmall(s: FsState, k: int, data: Bytes, offset: int, to: int)
    requires Ok(s) && IsOpenFd(s, k) && Data(s, k) == data && s.fds[k].offset == offset && 0 <= to <= |data|
    ensures var s' := Sought(s, k, to);
      && s' == s.(fds := s.fds[k := s.fds[k].(offset := to)]) && IsOpenFd(s', k) && Data(s', k) == data
      && StillOpen(s, s') && to + HEADER_SIZE <= Base(s.files[s.fds[k].file].maxPages)
      && (Small(s, k, data, offset) ==> Small(s', k, data, to))
  {
    hide Ok, ByteAt, Base, RecordSizeAt, RecordsAt;
    OpenSlot(s, k);
  }

  /** The second write: two bytes fit into the one record of the log. The merge takes the
      pages that a second log would need. */
  lemma SecondFate(s: FsState, k: int, data: Bytes, len: nat)
    requires G == Tiny() && Ok(s) && Small(s, k, data, 14) && |data| == 15 && len == 4
    ensures ThroughLog(s, k, len) && Foreseeable(s, k, len) && FateOf(s, 2, k, len) == Harmed(2)
  {
    hide Ok, Data, RecordSizeAt, RecordsAt, Taken;
    TinySizes();
    OpenSlot(s, k);
    PlainKept(s, k);
    assert Times(1, 16) == 16 && Times(1, 18) == 18 by { TimesIsProduct(1, 16); TimesIsProduct(1, 18); }
    assert Region(14, 16) == 0;
  }

  lemma StillReady(s: FsState, s': FsState)
    requires StillOpen(s, s')
    ensures (HasSlot(s.files) ==> HasSlot(s'.files)) && (HasFd(s.fds) ==> HasFd(s'.fds))
  {
    StillSupplied(s, s');
  }

  lemma SmallParts(s: FsState, k: int, data: Bytes, offset: int)
    requires Small(s, k, data, offset)
    ensures IsOpenFd(s, k) && Data(s, k) == data && s.fds[k].offset == offset && s.fds[k].flags == READ_WRITE
    ensures Writable(s, k)
  {
  }

  lemma SecondWritten(s: FsState, s': FsState, k: int, data: Bytes, buf: Bytes, r: int, stored: Bytes)
    requires Small(s, k, data, 14) && |data| == 15 && |buf| == 4
    requires Answered(s, s', k, buf, r, stored) && Fulfils(Harmed(2), buf, r, stored)
    ensures r == 4 && IsOpenFd(s', k) && s'.fds[k].offset == 16 && s'.fds[k].flags == READ_WRITE
    ensures Data(s', k) == data[..14] + [buf[0], 0xff]
  {
    hide Data, Decode, Alone, Unharmed, WriteOutcome, KeptAfter, RecordSizeAt, RecordsAt;
    WroteOpen(s, s', k, stored);
    assert Sees(s, s', k, k, stored);
    assert stored == [buf[0], 0xff];
  }

  lemma ReadBack(s: FsState, s1: FsState, k: int, data: Bytes, r: int, back: Bytes)
    requires Ok(s) && IsOpenFd(s, k) && Data(s, k) == data && |data| <= 100 && s1 == Sought(s, k, 0) && IsOpenFd(s1, k)
    requires Data(s1, k) == data && ReadResult(s1, k, 100, r, back)
    ensures r == |data| && back == data
  {
    hide Ok, ByteAt;
    OpenSlot(s, k);
  }

  /** Four bytes are written over the last one of a file of fifteen: the call answers that
      all four were written, two are missing, and the second is not what was written. No
      request was withheld. */
  method HarmedRun(name: Bytes, first: Bytes, second: Bytes)
      returns (r: int, got: int, back: Bytes, ghost withheld: nat)
    requires G == Tiny() && |name| == NAME_LENGTH && |first| == 15 && |second| == 4
    ensures r == 4 && got == 16 && back == first[..14] + [second[0], 0xff] && withheld == 0
  {
    hide Volume.Valid, Volume.Disk, Volume.Packs, Ok, Small, Unharmed, JustAppends, ThroughLog, Foreseeable, FateOf;
    hide Answered;
    hide PlainlyWritten, CanRead, Overruns, ReadResult, Data, Sought, Base, HasSlot, HasFd, StillOpen;
    var fs, fd := FirstFile(name);
    ghost var s0 := fs.Fs();
    FirstWrite(s0, fd, first);
    var w, stored0 := fs.CfsWrite(fd, first);
    FirstWritten(s0, fd, first, w, stored0);
    ghost var s1 := fs.Fs();
    StillReady(s0, s1);
    SmallParts(s1, fd, first, 15);
    SoughtSmall(s1, fd, first, 15, 14);
    var to := fs.CfsSeek(fd, 14, SeekSet);
    ghost var s2 := fs.Fs();
    StillReady(s1, s2);
    SecondFate(s2, fd, first, |second|);
    ghost var stored;
    r, stored := fs.CfsWrite(fd, second);
    ghost var s3 := fs.Fs();
    SecondWritten(s2, s3, fd, first, second, r, stored);
    SoughtSmall(s3, fd, first[..14] + [second[0], 0xff], 16, 0);
    to := fs.CfsSeek(fd, 0, SeekSet);
    ghost var s4 := fs.Fs();
    OpenInRange(s4, fd);
    got, back := fs.CfsRead(fd, 100);
    ReadBack(s3, s4, fd, first[..14] + [second[0], 0xff], got, back);
    withheld := fs.strandings;
  }

  // ------------------------------------------------------------------ a foreign header

  /** The file is opened a second time. */
  lemma OpenedTwice(s: FsState, s1: FsState, a: int, b: int, name: Bytes)
    requires Ok(s) && Ok(s1) && Small(s, a, [], 0) && b != a && FilePage(s, a) in s.disk
    requires NameAt(s.disk, FilePage(s, a)) == name
    requires 0 <= b < |s.fds| == |s1.fds| && OpensKnown(s, s1, b, name, CFS_READ) && s1.fds[b].offset == 0
    ensures IsOpenFd(s1, a) && IsOpenFd(s1, b) && SameFile(s1, a, b) && s1.disk == s.disk
    ensures Small(s1, a, [], 0) && FilePage(s1, a) == FilePage(s, a) && s1.fds[b].flags == CFS_READ
    ensures forall l :: 0 <= l < |s.fds| && l != b ==> s1.fds[l] == s.fds[l]
    ensures HasSlot(s.files) ==> HasSlot(s1.files)
  {
    hide Ok, Decode, ByteAt, RecordSizeAt, RecordsAt;
    OpenSlot(s, a);
    assert KnownAs(s, s.fds[a].file, name);
    SlotsAfterOpening(s, s.fds[a].file, b, CFS_READ, s1);
  }

  lemma KnownSmall(s: FsState, a: int, name: Bytes)
    requires Ok(s) && IsOpenFd(s, a) && NameAt(s.disk, FilePage(s, a)) == name
    ensures IsKnown(s, name)
  {
    hide Ok, Decode, ByteAt;
    OpenSlot(s, a);
    assert KnownAs(s, s.fds[a].file, name);
  }

  /** One file on the disk, so that another one can be made. */
  lemma OnlyOne(s: FsState, name: Bytes, other: Bytes)
    requires G == Tiny() && s.disk.Keys == {0} && NameAt(s.disk, 0) == name && name != other
    ensures Creates(s, other, READ_WRITE, 2)
  {
    hide Decode;
    TinySizes();
    forall p
      ensures !Stored(s, p, other)
    {
      assert p in s.disk ==> p in s.disk.Keys;
    }
  }

  /** Another file is made on the pages behind the first one, which stays as it was. */
  lemma OpenedBehind(s: FsState, s1: FsState, a: int, b: int, c: int, name: Bytes, other: Bytes)
    requires G == Tiny() && Ok(s) && Ok(s1) && Small(s, a, [], 0) && IsOpenFd(s, b) && SameFile(s, a, b)
    requires name != other
    requires s.fds[b].flags == CFS_READ && s.fds[b].offset == 0 && FilePage(s, a) == 0
    requires s.disk.Keys == {0} && NameAt(s.disk, 0) == name && a != c && b != c && IsOpenFd(s1, c)
    requires FilePage(s1, c) == 2
    requires OpenedAside(s, s1, s1.fds[c].file) && OpenedContent(s, s1, s1.fds[c].file, other)
    requires SameView(s, s1, a) && SameView(s, s1, b) && SameSharing(s, s1)
    ensures Plain(s1, a) && Plain(s1, b) && SameFile(s1, a, b) && Readable(s1, b)
    ensures s1.fds[b].offset == 0 && s1.files[s1.fds[a].file].end == 0
    ensures FilePage(s1, b) == 0 && PageBehind(s1, b) == 2 && 2 in s1.disk && MaxPages(s1, a) == 2
    ensures NameAt(s1.disk, 2) == other
  {
    hide Ok, Decode, BlankPast, RecordSizeAt, RecordsAt, ByteAt;
    OpenSlot(s, a);
    OpenSlot(s1, a);
    OpenSlot(s1, b);
    assert s1.disk.Keys == {0, 2};
    assert FilePage(s1, a) in s1.disk.Keys;
    SlotMaxPages(s, a);
    SlotMaxPages(s1, a);
  }

  lemma SlotMaxPages(s: FsState, k: int)
    requires Ok(s) && IsOpenFd(s, k)
    ensures var f := s.files[s.fds[k].file];
      f.page in s.disk && |s.disk[f.page]| >= HEADER_SIZE && f.maxPages == Decode(s.disk[f.page]).maxPages
      && f.modified == Decode(s.disk[f.page]).IsModified()
  {
    hide Decode, OpenCount, ByteAt;
    OpenInRange(s, k);
    assert SlotOk(s.disk, s.files[s.fds[k].file]);
  }

  /** What lies at the end of the long slice. */
  lemma ForeignName(v: Volume, s: FsState, k: int, buf: Bytes)
    requires G == Tiny() && v.Valid() && s.disk == v.Disk() && Shaped(s.disk) && IsOpenFd(s, k)
    requires FilePage(s, k) == 0 && PageBehind(s, k) == 2 && 0 in s.disk && 2 in s.disk && MaxPages(s, k) == 2
    requires |s.disk[0]| == Base(2) && FromOverlong(s, v.Mem(), k, 0, buf) && |buf| == 32
    ensures buf[31..] == NameAt(s.disk, 2)
  {
    hide Decode, Volume.Valid, Volume.Disk, Volume.Mem, Base;
    TinySizes();
    HeaderBehind(v, s, k);
    NameBytes(s.disk[2]);
  }

  lemma NameBytes(e: Bytes)
    requires |e| >= HEADER_SIZE
    ensures Decode(e).name == e[10..HEADER_SIZE]
  {
  }

  /** An empty file is open twice, and another file lies behind it. A seek through one
      descriptor to the size of the extent, and the other descriptor reads thirty-two
      bytes of the empty file, the last one of which is the name of the other file. */
  method LeakRun(name: Bytes, other: Bytes) returns (got: int, buf: Bytes)
    requires G == Tiny() && |name| == |other| == NAME_LENGTH && name != other
    ensures got == |buf| == 32 && buf[31..] == other
  {
    hide Volume.Valid, Volume.Disk, Volume.Packs, Volume.Mem, Ok, Small, SameView, SameViews, SameSharing;
    hide OpenedAside, OpenedContent;
    hide NewFile, OpensKnown, IsKnown, Creates, KnownAs, NotFound, Decode, Base, FromOverlong, HasSlot;
    TinySizes();
    var fs, a := FirstFile(name);
    ghost var s0 := fs.Fs();
    SmallParts(s0, a, [], 0);
    KnownSmall(s0, a, name);
    var b := fs.CfsOpen(name, CFS_READ);
    ghost var s1 := fs.Fs();
    OpenedTwice(s0, s1, a, b, name);
    FreeFd(s1.fds, if a != 0 && b != 0 then 0 else if a != 1 && b != 1 then 1 else 2);
    OnlyOne(s1, name, other);
    var c := fs.CfsOpen(other, READ_WRITE);
    ghost var s2 := fs.Fs();
    OpenedBehind(s1, s2, a, b, c, name, other);
    OpenSlot(s2, a);
    got, buf := SeekThenRead(fs, a, 32, b, 100);
    OkDisk(s2);
    ForeignName(fs.vol, s2, b, buf);
  }
}
