/** The state of the file layer: the live extents, the table of cached files and the
    table of descriptors, and what they mean as flat files. */
module FileStates {
  import opened FlashDevice
  import opened Headers
  import opened MicroLogs

  const CFS_READ: bv8 := 0x1
  const CFS_WRITE: bv8 := 0x2
  const CFS_APPEND: bv8 := 0x4
  const COFFEE_FD_FREE: bv8 := 0x0

  const UNKNOWN_OFFSET: int := -1
  const NO_PAGE: int := -1

  /** struct file; `modified` is its one flag. */
  datatype Slot = Slot(
    end: int,
    page: int,
    maxPages: nat,
    recordCount: int,
    references: nat,
    modified: bool)
  {
    /** FILE_FREE */
    predicate IsFree() { maxPages == 0 }
  }

  /** struct file_desc; `file` is an index into the table of files, or -1 for NULL. */
  datatype Descriptor = Descriptor(offset: int, file: int, flags: bv8) {
    predicate IsOpen() { flags != COFFEE_FD_FREE }
    predicate IsReadable() { flags & CFS_READ != 0 }
    predicate IsWritable() { flags & CFS_WRITE != 0 }
  }

  /** CFS_SEEK_SET, CFS_SEEK_END and CFS_SEEK_CUR */
  datatype SeekFrom = SeekSet | SeekEnd | SeekCur

  datatype FsState = FsState(disk: Disk, files: seq<Slot>, fds: seq<Descriptor>)

  // ------------------------------------------------------------------- the disk

  /** Every extent carries a header that gives its size. */
  ghost predicate Shaped(D: Disk) {
    forall p :: p in D ==>
      |D[p]| >= HEADER_SIZE && |D[p]| == Base(Decode(D[p]).maxPages) <= Base(PAGE_COUNT)
  }

  ghost predicate IsFile(D: Disk, p: int) {
    p in D && |D[p]| >= HEADER_SIZE && !Decode(D[p]).IsLog()
  }

  ghost predicate IsModifiedFile(D: Disk, p: int) {
    IsFile(D, p) && Decode(D[p]).IsModified()
  }

  /** The log extent of a file, empty when it has none. */
  ghost function LogOf(D: Disk, p: int): Bytes {
    if IsModifiedFile(D, p) && Decode(D[p]).logPage in D then D[Decode(D[p]).logPage] else []
  }

  ghost predicate FileOk(D: Disk, p: int)
    requires IsFile(D, p)
  {
    var h := Decode(D[p]);
    && ConfigOk(h)
    && (!h.IsModified() ==> h.logPage == 0)
    && (h.IsModified() ==>
          && h.logPage in D && h.logPage != p && !IsFile(D, h.logPage)
          && CleanLog(h, D[h.logPage]))
  }

  ghost predicate DiskOk(D: Disk) {
    && Shaped(D)
    && (forall p :: IsFile(D, p) ==> FileOk(D, p))
    && (forall p, q :: IsModifiedFile(D, p) && IsModifiedFile(D, q) && p != q ==>
          Decode(D[p]).logPage != Decode(D[q]).logPage)
  }

  /** The byte a reader of the file at `p` sees at offset `o`. */
  ghost function ByteAt(D: Disk, p: int, o: int): bv8 {
    if IsFile(D, p) && FileOk(D, p) && 0 <= o && HEADER_SIZE + o < |D[p]|
    then Byte(D[p], LogOf(D, p), o)
    else 0
  }

  // ------------------------------------------------------------------ the tables

  ghost predicate ZeroFrom(b: Bytes, at: int) {
    forall x :: at <= x < |b| && 0 <= x ==> b[x] == 0
  }

  /** A cached file agrees with its extent. Its size may be unknown while nobody has it
      open. The extent is blank behind the end of the file, whatever its log holds. */
  ghost predicate FileSlotOk(D: Disk, s: Slot)
    requires IsFile(D, s.page)
  {
    var h := Decode(D[s.page]);
    && s.modified == h.IsModified()
    && (s.recordCount == -1 ||
          (h.IsModified() && FileOk(D, s.page) && s.recordCount == Used(LogOf(D, s.page), 0, Records(h))))
    && (|| (s.end == UNKNOWN_OFFSET && s.references == 0)
        || (0 <= s.end <= Capacity(h) && ZeroFrom(D[s.page], HEADER_SIZE + s.end)))
  }

  ghost predicate SlotOk(D: Disk, s: Slot) {
    && (s.IsFree() ==> s.references == 0)
    && (!s.IsFree() ==>
          && s.page in D && |D[s.page]| >= HEADER_SIZE && Decode(D[s.page]).maxPages == s.maxPages
          && (if IsFile(D, s.page) then FileSlotOk(D, s) else s.references == 0))
  }

  ghost predicate DescriptorOk(D: Disk, F: seq<Slot>, d: Descriptor) {
    d.IsOpen() ==>
      && 0 <= d.file < |F|
      && !F[d.file].IsFree() && IsFile(D, F[d.file].page)
      && 0 <= d.offset <= F[d.file].end
  }

  /** How many open descriptors refer to slot `i`. */
  function OpenCount(T: seq<Descriptor>, i: int): nat {
    if T == [] then 0
    else OpenCount(T[..|T| - 1], i) + if T[|T| - 1].IsOpen() && T[|T| - 1].file == i then 1 else 0
  }

  /** No page is cached twice. */
  ghost predicate PagesDistinct(F: seq<Slot>) {
    forall i, j :: 0 <= i < j < |F| && !F[i].IsFree() && !F[j].IsFree() ==> F[i].page != F[j].page
  }

  /** No name is cached twice, logs aside. */
  ghost predicate NamesDistinct(D: Disk, F: seq<Slot>) {
    forall i, j :: 0 <= i < j < |F| && CachedFile(D, F[i]) && CachedFile(D, F[j]) ==>
      Decode(D[F[i].page]).name != Decode(D[F[j].page]).name
  }

  ghost predicate CachedFile(D: Disk, s: Slot) {
    !s.IsFree() && IsFile(D, s.page)
  }

  ghost predicate References(F: seq<Slot>, T: seq<Descriptor>) {
    forall i :: 0 <= i < |F| ==> F[i].references == OpenCount(T, i)
  }

  /** What holds between calls. */
  ghost predicate Ok(s: FsState) {
    && DiskOk(s.disk)
    && (forall i :: 0 <= i < |s.files| ==> SlotOk(s.disk, s.files[i]))
    && PagesDistinct(s.files)
    && NamesDistinct(s.disk, s.files)
    && (forall k :: 0 <= k < |s.fds| ==> DescriptorOk(s.disk, s.files, s.fds[k]))
    && References(s.files, s.fds)
  }

  // --------------------------------------------------------------------- meaning

  /** A cached file as a flat byte sequence. */
  ghost function Content(s: FsState, i: int): Bytes
    requires 0 <= i < |s.files|
  {
    seq(if s.files[i].end < 0 then 0 else s.files[i].end, o => ByteAt(s.disk, s.files[i].page, o))
  }

  /** Behind its end the file reads as zeros, as far as its extent goes. */
  ghost predicate BlankPast(s: FsState, i: int)
    requires 0 <= i < |s.files|
  {
    forall o :: s.files[i].end <= o && s.files[i].page in s.disk && HEADER_SIZE + o < |s.disk[s.files[i].page]| ==>
      ByteAt(s.disk, s.files[i].page, o) == 0
  }

  predicate IsOpenFd(s: FsState, k: int) {
    0 <= k < |s.fds| && s.fds[k].IsOpen() && 0 <= s.fds[k].file < |s.files|
  }

  /** The file behind an open descriptor. */
  ghost function Data(s: FsState, k: int): Bytes
    requires IsOpenFd(s, k)
  {
    Content(s, s.fds[k].file)
  }

  ghost function NameAt(D: Disk, p: int): Bytes {
    if p in D && |D[p]| >= HEADER_SIZE then Decode(D[p]).name else []
  }

  /** The name of the file behind an open descriptor. */
  ghost function NameOf(s: FsState, k: int): Bytes
    requires IsOpenFd(s, k)
  {
    NameAt(s.disk, s.files[s.fds[k].file].page)
  }

  ghost predicate SameFile(s: FsState, k: int, l: int)
    requires IsOpenFd(s, k) && IsOpenFd(s, l)
  {
    s.fds[k].file == s.fds[l].file
  }

  /** Descriptor `k` stands where it stood, on a file with the same name and content, and still
      nothing behind the end if there was nothing. */
  ghost predicate SameView(s: FsState, s': FsState, k: int) {
    && (IsOpenFd(s, k) <==> IsOpenFd(s', k))
    && (IsOpenFd(s, k) ==>
          && s'.fds[k].offset == s.fds[k].offset && s'.fds[k].flags == s.fds[k].flags
          && Data(s', k) == Data(s, k) && NameOf(s', k) == NameOf(s, k)
          && (BlankPast(s, s.fds[k].file) ==> BlankPast(s', s'.fds[k].file)))
  }

  /** No descriptor notices a difference. */
  ghost predicate SameViews(s: FsState, s': FsState) {
    && |s.fds| == |s'.fds|
    && (forall k :: 0 <= k < |s.fds| ==> SameView(s, s', k))
    && SameSharing(s, s')
  }

  /** Which descriptors share a file has not changed. */
  ghost predicate SameSharing(s: FsState, s': FsState) {
    forall k, l :: IsOpenFd(s, k) && IsOpenFd(s, l) && IsOpenFd(s', k) && IsOpenFd(s', l) ==>
      (SameFile(s, k, l) <==> SameFile(s', k, l))
  }

  // ------------------------------------------------------------------- counting

  lemma {:induction false} OpenCountUpdate(T: seq<Descriptor>, k: int, d: Descriptor, i: int)
    requires 0 <= k < |T|
    ensures OpenCount(T[k := d], i)
      == OpenCount(T, i)
        - (if T[k].IsOpen() && T[k].file == i then 1 else 0)
        + (if d.IsOpen() && d.file == i then 1 else 0)
  {
    var n := |T| - 1;
    if k < n {
      assert T[k := d][..n] == T[..n][k := d];
      OpenCountUpdate(T[..n], k, d, i);
    } else {
      assert T[k := d][..n] == T[..n];
    }
  }

  lemma {:induction false} OpenCountPositive(T: seq<Descriptor>, k: int, i: int)
    requires 0 <= k < |T| && T[k].IsOpen() && T[k].file == i
    ensures OpenCount(T, i) > 0
  {
    if k < |T| - 1 {
      OpenCountPositive(T[..|T| - 1], k, i);
    }
  }

  /** An unreferenced slot has no open descriptor. */
  lemma Unreferenced(s: FsState, i: int, k: int)
    requires References(s.files, s.fds) && 0 <= i < |s.files| && s.files[i].references == 0 && 0 <= k < |s.fds|
    ensures !(s.fds[k].IsOpen() && s.fds[k].file == i)
  {
    if s.fds[k].IsOpen() && s.fds[k].file == i {
      OpenCountPositive(s.fds, k, i);
    }
  }
}
