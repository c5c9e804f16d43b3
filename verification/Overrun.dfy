/** What cfs_seek's check costs: it compares with the size of the extent and forgets the
    header, so the end of a file can be moved up to one header behind its extent. */
module SeekOverruns {
  import opened FlashDevice
  import opened Headers
  import opened MicroLogs
  import opened Disks
  import opened Volumes
  import opened FileStates
  import opened FileSteps
  import opened FileWrites
  import opened CoffeeFiles

  ghost predicate Plain(s: FsState, k: int) {
    IsOpenFd(s, k) && !s.files[s.fds[k].file].modified
  }

  /** How many bytes of data the extent behind descriptor `k` holds. */
  ghost function Room(s: FsState, k: int): int
    requires IsOpenFd(s, k)
  {
    Base(s.files[s.fds[k].file].maxPages) - HEADER_SIZE
  }

  /** Where descriptor `b` stands after a seek to `to` through descriptor `a`. */
  ghost function Standing(s: FsState, a: int, to: int, b: int): int
    requires IsOpenFd(s, b)
  {
    if a == b then to else s.fds[b].offset
  }

  /** The end of the file after it. */
  ghost function EndAfter(s: FsState, a: int, to: int): int
    requires IsOpenFd(s, a)
  {
    Later(s.files[s.fds[a].file].end, to)
  }

  /** The first page behind the extent of descriptor `k`'s file. */
  ghost function PageBehind(s: FsState, k: int): int
    requires IsOpenFd(s, k)
  {
    FilePage(s, k) + s.files[s.fds[k].file].maxPages
  }

  /** The extent together with as many bytes of the page behind it as a header has. */
  ghost function Overlong(s: FsState, m: Bytes, k: int): (r: Bytes)
    requires IsOpenFd(s, k) && FilePage(s, k) in s.disk && 0 <= FilePage(s, k)
    requires Base(PageBehind(s, k)) + HEADER_SIZE <= |m|
    ensures |r| == |s.disk[FilePage(s, k)]| + HEADER_SIZE
  {
    s.disk[FilePage(s, k)] + m[Base(PageBehind(s, k))..Base(PageBehind(s, k)) + HEADER_SIZE]
  }

  /** Every descriptor on the file can still be read, one way or the other. */
  lemma SoughtReadable(s: FsState, a: int, to: int, b: int)
    requires Ok(s) && Plain(s, a) && Plain(s, b) && SameFile(s, a, b)
    requires 0 <= to <= Base(s.files[s.fds[a].file].maxPages)
    ensures var s' := Sought(s, a, to);
      && Plain(s', b) && s'.fds[b].flags == s.fds[b].flags && s'.fds[b].offset == Standing(s, a, to, b)
      && s'.files[s'.fds[b].file].end == EndAfter(s, a, to) && s'.fds[b].file == s.fds[b].file
      && if EndAfter(s, a, to) <= Room(s, a) then CanRead(s', b) else Overruns(s', b)
  {
    hide Ok, Decode, Base, ByteAt;
    OpenSlot(s, a);
    OpenSlot(s, b);
    OpenMaxPages(s, a);
    SoughtOk(s, a, to);
    if EndAfter(s, a, to) <= Room(s, a) {
      OpenInRange(Sought(s, a, to), b);
    }
  }

  /** A slice of the device that starts in an extent. */
  lemma RawSlice(m: Bytes, base: nat, ext: Bytes, off: nat, buf: Bytes)
    requires base + |ext| + HEADER_SIZE <= |m| && ext == m[base..base + |ext|] && off + |buf| <= |ext| + HEADER_SIZE
    requires buf == m[base + off..base + off + |buf|]
    ensures buf == (ext + m[base + |ext|..base + |ext| + HEADER_SIZE])[off..off + |buf|]
  {
    var long := ext + m[base + |ext|..base + |ext| + HEADER_SIZE];
    Joined(m, base, |ext|, HEADER_SIZE);
    SubSlice(m, base, |long|, off, |buf|);
  }

  lemma Joined(m: Bytes, base: nat, a: nat, b: nat)
    requires base + a + b <= |m|
    ensures m[base..base + a] + m[base + a..base + a + b] == m[base..base + a + b]
  {
  }

  lemma SubSlice(m: Bytes, base: nat, len: nat, off: nat, n: nat)
    requires base + len <= |m| && off + n <= len
    ensures m[base..base + len][off..off + n] == m[base + off..base + off + n]
  {
    var whole := m[base..base + len];
    var l, r := whole[off..off + n], m[base + off..base + off + n];
    forall i | 0 <= i < |l|
      ensures l[i] == r[i]
    {
    }
  }

  /** What a read of `size` bytes at `off` may return: a slice of the extent with what is
      behind it. */
  ghost predicate FromOverlong(s: FsState, m: Bytes, k: int, off: int, buf: Bytes) {
    && IsOpenFd(s, k) && FilePage(s, k) in s.disk && 0 <= FilePage(s, k) && 0 <= off
    && Base(PageBehind(s, k)) + HEADER_SIZE <= |m| && off + |buf| <= |s.disk[FilePage(s, k)]|
    && buf == Overlong(s, m, k)[HEADER_SIZE + off..HEADER_SIZE + off + |buf|]
  }

  /** The page behind the extent is on the device. */
  lemma BehindExtent(v: Volume, s: FsState, k: int)
    requires v.Valid() && s.disk == v.Disk() && IsOpenFd(s, k) && FilePage(s, k) in s.disk
    requires |s.disk[FilePage(s, k)]| == Base(s.files[s.fds[k].file].maxPages)
    ensures 0 <= FilePage(s, k) && Base(FilePage(s, k)) + |s.disk[FilePage(s, k)]| == Base(PageBehind(s, k))
    ensures Base(PageBehind(s, k)) + HEADER_SIZE <= |v.Mem()|
    ensures s.disk[FilePage(s, k)] == v.Mem()[Base(FilePage(s, k))..Base(PageBehind(s, k))]
  {
    hide Base, Volume.Valid, Volume.Disk, Volume.Mem;
    ExtentBytes(v, FilePage(s, k));
    BaseStep(FilePage(s, k), s.files[s.fds[k].file].maxPages);
  }

  lemma SameOverlong(s: FsState, s1: FsState, m: Bytes, k: int)
    requires IsOpenFd(s, k) && IsOpenFd(s1, k) && s1.disk == s.disk && FilePage(s, k) in s.disk && 0 <= FilePage(s, k)
    requires FilePage(s1, k) == FilePage(s, k) && PageBehind(s1, k) == PageBehind(s, k)
    requires Base(PageBehind(s, k)) + HEADER_SIZE <= |m|
    ensures Overlong(s1, m, k) == Overlong(s, m, k)
  {
  }

  /** A raw read stays on the page behind the extent. */
  lemma RawParts(v: Volume, s: FsState, k: int, size: nat, r: int, buf: Bytes)
    requires v.flash.Valid() && CoffeeFiles.Overruns(s, k) && RawResult(s, v.Mem(), k, size, r, buf)
    ensures FilePage(s, k) in s.disk && s.fds[k].offset + r <= s.files[s.fds[k].file].end <= |s.disk[FilePage(s, k)]|
    ensures r == ReadSize(s, k, size) == |buf|
  {
    hide Base, Volume.Mem;
  }

  lemma RawOverlong(v: Volume, s: FsState, k: int, size: nat, r: int, buf: Bytes)
    requires v.Valid() && v.flash.Valid() && s.disk == v.Disk() && IsOpenFd(s, k) && FilePage(s, k) in s.disk
    requires |s.disk[FilePage(s, k)]| == Base(s.files[s.fds[k].file].maxPages)
    requires RawResult(s, v.Mem(), k, size, r, buf) && s.fds[k].offset + r <= |s.disk[FilePage(s, k)]|
    ensures FromOverlong(s, v.Mem(), k, s.fds[k].offset, buf) && r == |buf|
  {
    hide Base, Volume.Valid, Volume.Disk, Volume.Mem;
    BehindExtent(v, s, k);
    RawSlice(v.Mem(), Base(FilePage(s, k)), s.disk[FilePage(s, k)], HEADER_SIZE + s.fds[k].offset, buf);
  }

  lemma OwnOverlong(v: Volume, s: FsState, k: int, size: nat, r: int, buf: Bytes)
    requires v.Valid() && s.disk == v.Disk() && Plain(s, k) && CanRead(s, k) && ReadResult(s, k, size, r, buf)
    ensures FromOverlong(s, v.Mem(), k, s.fds[k].offset, buf) && r == |buf|
  {
    hide Base, Volume.Valid, Volume.Disk, Volume.Mem;
    OpenFile(s, k);
    BehindExtent(v, s, k);
    PlainBytesRead(s, k, r);
  }

  /** Without a log the file is what its extent holds. */
  lemma PlainBytesRead(s: FsState, k: int, r: nat)
    requires Plain(s, k) && CanRead(s, k) && 0 <= s.fds[k].offset && s.fds[k].offset + r <= |Data(s, k)|
    ensures FilePage(s, k) in s.disk && HEADER_SIZE + s.fds[k].offset + r <= |s.disk[FilePage(s, k)]|
    ensures Data(s, k)[s.fds[k].offset..s.fds[k].offset + r]
      == s.disk[FilePage(s, k)][HEADER_SIZE + s.fds[k].offset..HEADER_SIZE + s.fds[k].offset + r]
  {
    hide Base;
    OpenFile(s, k);
  }

  /** If another extent starts on that page, the bytes are its header. */
  lemma HeaderBehind(v: Volume, s: FsState, k: int)
    requires v.Valid() && s.disk == v.Disk() && IsOpenFd(s, k) && FilePage(s, k) in s.disk && 0 <= FilePage(s, k)
    requires PageBehind(s, k) in s.disk && Base(PageBehind(s, k)) + HEADER_SIZE <= |v.Mem()|
    requires |s.disk[PageBehind(s, k)]| >= HEADER_SIZE
    ensures Overlong(s, v.Mem(), k) == s.disk[FilePage(s, k)] + s.disk[PageBehind(s, k)][..HEADER_SIZE]
  {
    hide Base;
    ExtentBytes(v, PageBehind(s, k));
  }

  lemma ExtentBytes(v: Volume, p: int)
    requires v.Valid() && p in v.Disk()
    ensures 0 <= p && Base(p) + |v.Disk()[p]| + PAGE_SIZE <= |v.Mem()|
    ensures v.Disk()[p] == v.Mem()[Base(p)..Base(p) + |v.Disk()[p]|]
  {
    hide Base, Sound, DiskOf;
    PageOnDisk(v.Mem(), p);
  }

  /** What descriptor `b` reads after a seek through descriptor `a` on the same file: the
      bytes of the extent and, exactly if the seek went behind the extent and the read
      reaches so far, bytes of the page behind it. */
  method SeekThenRead(fs: Coffee, a: int, to: int, b: int, size: nat) returns (r: int, buf: Bytes)
    requires fs.Valid() && Plain(fs.Fs(), a) && Readable(fs.Fs(), b) && Plain(fs.Fs(), b) && SameFile(fs.Fs(), a, b)
    requires 0 <= to <= Base(fs.files[fs.fds[a].file].maxPages)
    modifies fs.files, fs.fds
    ensures fs.vol.Valid() && fs.vol.Disk() == old(fs.vol.Disk())
    ensures var left := EndAfter(old(fs.Fs()), a, to) - Standing(old(fs.Fs()), a, to, b);
      r == |buf| == if size > left then left else size
    ensures FromOverlong(old(fs.Fs()), fs.vol.Mem(), b, Standing(old(fs.Fs()), a, to, b), buf)
    ensures var o := Standing(old(fs.Fs()), a, to, b);
      r > 0 && o + r > Room(old(fs.Fs()), b) <==>
        a != b && to > Room(old(fs.Fs()), b) && o + size > Room(old(fs.Fs()), b)
  {
    hide Volume.Valid, Volume.Disk, Volume.Mem, Ok, Base, CanRead, CoffeeFiles.Overruns, Data, Content, Overlong;
    hide FromOverlong, RawResult;
    hide ReadResult;
    ghost var s := fs.Fs();
    OpenSlot(s, a);
    OpenSlot(s, b);
    SoughtReadable(s, a, to, b);
    var sought := fs.CfsSeek(a, to, SeekSet);
    ghost var s1 := fs.Fs();
    r, buf := fs.CfsRead(b, size);
    FlashIsValid(fs.vol);
    ReadAfterSeek(fs.vol, s, a, to, b, s1, size, r, buf);
  }

  lemma ReadAfterSeek(v: Volume, s: FsState, a: int, to: int, b: int, s1: FsState, size: nat, r: int, buf: Bytes)
    requires v.Valid() && v.flash.Valid() && s.disk == v.Disk() && Ok(s) && Plain(s, a) && Plain(s, b)
    requires SameFile(s, a, b)
    requires 0 <= to <= Base(s.files[s.fds[a].file].maxPages) && s1 == Sought(s, a, to)
    requires CanRead(s1, b) ==> ReadResult(s1, b, size, r, buf)
    requires CoffeeFiles.Overruns(s1, b) ==> RawResult(s1, v.Mem(), b, size, r, buf)
    ensures var left := EndAfter(s, a, to) - Standing(s, a, to, b); r == |buf| == if size > left then left else size
    ensures FromOverlong(s, v.Mem(), b, Standing(s, a, to, b), buf)
    ensures var o := Standing(s, a, to, b);
      r > 0 && o + r > Room(s, b) <==> a != b && to > Room(s, b) && o + size > Room(s, b)
  {
    hide Volume.Valid, Volume.Disk, Volume.Mem, Ok, Base, CanRead, CoffeeFiles.Overruns, Data, Overlong, RawResult;
    OpenSlot(s, a);
    OpenSlot(s, b);
    SoughtReadable(s, a, to, b);
    if CanRead(s1, b) {
      OwnOverlong(v, s1, b, size, r, buf);
    } else {
      RawParts(v, s1, b, size, r, buf);
      RawOverlong(v, s1, b, size, r, buf);
    }
    assert Overlong(s1, v.Mem(), b) == Overlong(s, v.Mem(), b) by { SameOverlong(s, s1, v.Mem(), b); }
  }

  /** The two states agree on the file behind descriptor `k`, its log included, and on the
      descriptor. */
  ghost predicate SameOwn(s: FsState, t: FsState, k: int) {
    && IsOpenFd(s, k) && IsOpenFd(t, k) && t.fds[k].file == s.fds[k].file
    && t.files[t.fds[k].file] == s.files[s.fds[k].file]
    && FilePage(s, k) in s.disk && FilePage(s, k) in t.disk
    && t.disk[FilePage(s, k)] == s.disk[FilePage(s, k)]
    && LogOf(t.disk, FilePage(s, k)) == LogOf(s.disk, FilePage(s, k))
  }

  /** As long as no seek goes behind the extent, what can be read of a file, with or
      without a log, comes from its own two extents alone. */
  lemma OwnBytesOnly(s: FsState, t: FsState, a: int, to: int, b: int)
    requires Ok(s) && Ok(t) && SameOwn(s, t, a) && SameOwn(s, t, b) && SameFile(s, a, b)
    requires 0 <= to <= Room(s, a)
    ensures Ok(Sought(s, a, to)) && Ok(Sought(t, a, to)) && IsOpenFd(Sought(s, a, to), b)
    ensures IsOpenFd(Sought(t, a, to), b)
    ensures Data(Sought(s, a, to), b) == Data(Sought(t, a, to), b)
  {
    hide Ok, Decode, Base, FileOk, LogOf, CleanLog, Byte;
    OpenMaxPages(s, a);
    OpenMaxPages(t, a);
    SoughtOk(s, a, to);
    SoughtOk(t, a, to);
    OpenSlot(Sought(s, a, to), b);
    OpenSlot(Sought(t, a, to), b);
  }
}
