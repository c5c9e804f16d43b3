/** The file layer stands for flat files: the relation, and what each operation does to
    it. */
module FlatViews {
  import opened FlashDevice
  import opened Headers
  import opened MicroLogs
  import opened FileStates
  import opened FileSteps
  import opened FileRemovals
  import opened FileLogs
  import opened FileMerges
  import opened FileWrites
  import opened WriteLoops
  import opened CoffeeFiles
  import opened FlatFiles

  // ------------------------------------------------------------------ the relation

  /** Slot `i` has the extent at `p` and knows its size. */
  predicate Sizes(F: seq<Slot>, i: int, p: int) {
    0 <= i < |F| && !F[i].IsFree() && F[i].page == p && F[i].end >= 0
  }

  ghost predicate SizeKnown(F: seq<Slot>, p: int) {
    exists i :: Sizes(F, i, p)
  }

  /** From `n` on the file at `p` reads as zeros. */
  ghost predicate ClearFrom(D: Disk, p: int, n: int) {
    forall o :: n <= o ==> ByteAt(D, p, o) == 0
  }

  /** The extent at `p`, with its log, holds the file `f`. */
  ghost predicate Holds(D: Disk, F: seq<Slot>, p: int, f: FlatFile) {
    && IsFile(D, p) && HEADER_SIZE + |f.data| <= |D[p]|
    && (forall o :: 0 <= o < |f.data| ==> ByteAt(D, p, o) == f.data[o])
    && ZeroFrom(D[p], HEADER_SIZE + |f.data|)
    && (f.clean <==> ClearFrom(D, p, |f.data|))
    && (f.plain <==> !IsModifiedFile(D, p))
    && f.kept == EndOf(D[p])
    && (f.sized <==> SizeKnown(F, p))
    && (forall i :: Sizes(F, i, p) ==> F[i].end == |f.data|)
  }

  ghost predicate Named(D: Disk, p: int, n: Bytes) {
    IsFile(D, p) && NameAt(D, p) == n
  }

  ghost predicate NamesUnique(D: Disk) {
    forall n, p, q :: Named(D, p, n) && Named(D, q, n) ==> p == q
  }

  /** Exactly these files are on the disk, under their names and as the cache sees them. */
  ghost predicate FilesStand(D: Disk, F: seq<Slot>, files: map<Bytes, FlatFile>) {
    && (forall n, p :: Named(D, p, n) ==> n in files && Holds(D, F, p, files[n]))
    && (forall n :: n in files ==> exists p :: Named(D, p, n))
    && NamesUnique(D)
  }

  ghost function HandleAt(s: FsState, k: int): Handle {
    if IsOpenFd(s, k) && s.fds[k].offset >= 0 then Handle(NameOf(s, k), s.fds[k].offset, s.fds[k].flags) else Unused
  }

  /** The file layer stands for the flat files `A`. */
  ghost predicate Stands(s: FsState, A: FlatFs) {
    && |A.handles| == |s.fds| && (forall k :: 0 <= k < |A.handles| ==> A.handles[k] == HandleAt(s, k))
    && FilesStand(s.disk, s.files, A.files)
  }

  lemma StandsForNothing(s: FsState)
    requires s.disk == map[] && forall k :: 0 <= k < |s.fds| ==> !s.fds[k].IsOpen()
    ensures Stands(s, NoFiles(|s.fds|)) && WellFormed(NoFiles(|s.fds|))
  {
  }

  /** An open file and its slot. */
  lemma OpenHolds(s: FsState, files: map<Bytes, FlatFile>, k: int)
    requires Ok(s) && FilesStand(s.disk, s.files, files) && IsOpenFd(s, k)
    ensures IsFile(s.disk, FilePage(s, k)) && NameOf(s, k) in files && 0 <= s.fds[k].offset <= |Data(s, k)|
    ensures var f := files[NameOf(s, k)];
      && Holds(s.disk, s.files, FilePage(s, k), f)
      && f.sized && |f.data| == s.files[s.fds[k].file].end
      && (f.plain <==> !s.files[s.fds[k].file].modified) && f.kept == Kept(s, k)
      && Sizes(s.files, s.fds[k].file, FilePage(s, k))
  {
    hide Ok, NameAt, ByteAt, ZeroFrom, Base, NamesUnique, FileOk, EndOf, ClearFrom;
    OpenSlot(s, k);
    assert Named(s.disk, FilePage(s, k), NameOf(s, k));
    assert Sizes(s.files, s.fds[k].file, FilePage(s, k));
  }

  /** What its descriptors see of it. */
  lemma OpenData(s: FsState, files: map<Bytes, FlatFile>, k: int)
    requires Ok(s) && FilesStand(s.disk, s.files, files) && IsOpenFd(s, k)
    ensures NameOf(s, k) in files && Named(s.disk, FilePage(s, k), NameOf(s, k))
    ensures files[NameOf(s, k)].data == Data(s, k) && (files[NameOf(s, k)].clean <==> BlankPast(s, s.fds[k].file))
  {
    hide Ok, ByteAt, NameAt, FilesStand, ZeroFrom, IsModifiedFile, EndOf;
    OpenHolds(s, files, k);
    BlankIsClear(s, s.fds[k].file);
  }

  lemma BlankIsClear(s: FsState, i: int)
    requires 0 <= i < |s.files| && s.files[i].end >= 0
    ensures BlankPast(s, i) <==> ClearFrom(s.disk, s.files[i].page, s.files[i].end)
  {
    hide FileOk, Byte;
    forall o | !(s.files[i].page in s.disk && HEADER_SIZE + o < |s.disk[s.files[i].page]|)
      ensures ByteAt(s.disk, s.files[i].page, o) == 0
    {
    }
  }

  /** The file behind an open descriptor, on both sides. */
  lemma OpenView(s: FsState, A: FlatFs, k: int)
    requires Ok(s) && Stands(s, A) && IsOpenFd(s, k)
    ensures IsHandle(A, k) && A.handles[k] == Handle(NameOf(s, k), s.fds[k].offset, s.fds[k].flags)
    ensures A.handles[k].offset <= |Data(s, k)| && NameOf(s, k) in A.files && IsFile(s.disk, FilePage(s, k))
    ensures var f := A.files[NameOf(s, k)];
      && Holds(s.disk, s.files, FilePage(s, k), f)
      && f.sized && f.data == Data(s, k) && |f.data| == s.files[s.fds[k].file].end
      && (f.clean <==> BlankPast(s, s.fds[k].file))
      && (f.plain <==> !s.files[s.fds[k].file].modified) && f.kept == Kept(s, k)
  {
    hide Ok, NameOf, NameAt, Holds, FilesStand, BlankPast, Content, EndOf;
    OpenHolds(s, A.files, k);
    OpenData(s, A.files, k);
  }

  /** An open file, as its descriptors and its extent say. */
  ghost function FlatAt(s: FsState, k: int): FlatFile
    requires IsOpenFd(s, k)
  {
    FlatFile(Data(s, k), BlankPast(s, s.fds[k].file), true, !s.files[s.fds[k].file].modified, Kept(s, k))
  }

  lemma SlotHolds(s: FsState, k: int)
    requires Ok(s) && IsOpenFd(s, k)
    ensures Holds(s.disk, s.files, FilePage(s, k), FlatAt(s, k)) && Named(s.disk, FilePage(s, k), NameOf(s, k))
  {
    hide Ok, NameAt, Base, FileOk, EndOf, ClearFrom;
    var i, p := s.fds[k].file, FilePage(s, k);
    OpenSlot(s, k);
    OpenSlotOk(s, k);
    assert Sizes(s.files, i, p);
    assert forall j :: Sizes(s.files, j, p) ==> j == i by { OnePage(s, i); }
    BlankIsClear(s, i);
    forall o | 0 <= o < |Data(s, k)|
      ensures ByteAt(s.disk, p, o) == Data(s, k)[o]
    {
    }
  }

  /** What is held makes sense as a flat file. */
  lemma HoldsSensible(s: FsState, p: int, f: FlatFile)
    requires Ok(s) && Holds(s.disk, s.files, p, f)
    ensures Sensible(f)
  {
    hide Ok, EndOf, TrimmedLength, ByteAt, Decode, FileOk, SizeKnown, Sizes;
    OkDisk(s);
    FilesOk(s.disk);
    EndWithin(s.disk[p], |f.data|);
    if f.plain {
      PlainHeld(s.disk, p, f.data);
      PlainClear(s.disk, p, |f.data|);
    }
  }

  lemma PlainClear(D: Disk, p: int, n: nat)
    requires IsFile(D, p) && !IsModifiedFile(D, p) && ZeroFrom(D[p], HEADER_SIZE + n)
    ensures ClearFrom(D, p, n)
  {
    hide Decode, FileOk;
  }

  lemma OnePage(s: FsState, i: int)
    requires Ok(s) && 0 <= i < |s.files| && !s.files[i].IsFree()
    ensures forall j :: Sizes(s.files, j, s.files[i].page) ==> j == i
  {
    hide DiskOk, SlotOk, NamesDistinct, DescriptorOk, References;
  }

  lemma StandsWellFormed(s: FsState, A: FlatFs)
    requires Ok(s) && Stands(s, A)
    ensures WellFormed(A)
  {
    hide Ok, NameOf, Holds, FilesStand, Sensible;
    forall n | n in A.files
      ensures Sensible(A.files[n])
    {
      FileSensible(s, A.files, n);
    }
    forall k | 0 <= k < |A.handles| && IsHandle(A, k)
      ensures A.handles[k].name in A.files && A.files[A.handles[k].name].sized
      ensures A.handles[k].offset <= |A.files[A.handles[k].name].data|
    {
      OpenView(s, A, k);
    }
  }

  lemma FileSensible(s: FsState, files: map<Bytes, FlatFile>, n: Bytes)
    requires Ok(s) && FilesStand(s.disk, s.files, files) && n in files
    ensures Sensible(files[n])
  {
    hide Ok, Holds, Sensible, Named;
    var p :| Named(s.disk, p, n);
    HoldsSensible(s, p, files[n]);
  }

  lemma NoView(s: FsState, A: FlatFs, k: int)
    requires Ok(s) && Stands(s, A)
    ensures IsHandle(A, k) <==> IsOpenFd(s, k)
  {
    hide Ok, NameOf, Holds, FilesStand;
    if IsOpenFd(s, k) {
      OpenView(s, A, k);
    }
  }

  // ------------------------------------------------------------------------ frames

  /** The file at `p` and its log are as they were, and so is its slot, if it still has
      one. */
  ghost predicate Untouched(D: Disk, F: seq<Slot>, D': Disk, F': seq<Slot>, p: int) {
    && IsFile(D, p) && IsFile(D', p) && D'[p] == D[p]
    && (forall o :: ByteAt(D', p, o) == ByteAt(D, p, o))
    && (forall i :: Sizes(F', i, p) ==> Sizes(F, i, p) && F'[i].end == F[i].end)
  }

  lemma HoldsOn(D: Disk, F: seq<Slot>, D': Disk, F': seq<Slot>, p: int, f: FlatFile)
    requires Holds(D, F, p, f) && Untouched(D, F, D', F', p)
    ensures Holds(D', F', p, f.(sized := SizeKnown(F', p))) && Fades(f, f.(sized := SizeKnown(F', p)))
  {
    hide ByteAt, ZeroFrom, EndOf;
  }

  ghost predicate NameSized(D: Disk, F: seq<Slot>, n: Bytes) {
    exists p :: Named(D, p, n) && SizeKnown(F, p)
  }

  lemma NameSizedAt(D: Disk, F: seq<Slot>, p: int, n: Bytes)
    requires NamesUnique(D) && Named(D, p, n)
    ensures NameSized(D, F, n) <==> SizeKnown(F, p)
  {
    hide NameAt, Sizes;
  }

  ghost predicate OnlyNamed(D: Disk, p: int, name: Bytes) {
    Named(D, p, name) && forall q :: Named(D, q, name) ==> q == p
  }

  /** The files of `files` but for `name`, with the sizes that are still in the cache. */
  ghost predicate FadedTo(files: map<Bytes, FlatFile>, D': Disk, F': seq<Slot>, files': map<Bytes, FlatFile>,
        name: Bytes) {
    && files'.Keys - {name} == files.Keys - {name}
    && forall n :: n in files && n != name ==> n in files' && files'[n] == files[n].(sized := NameSized(D', F', n))
  }

  /** Only the file called `name` changed, appeared or went. */
  lemma OneChanges(D: Disk, F: seq<Slot>, files: map<Bytes, FlatFile>, D': Disk, F': seq<Slot>,
        files': map<Bytes, FlatFile>, name: Bytes, p': int)
    requires FilesStand(D, F, files) && FadedTo(files, D', F', files', name)
    requires forall n, q :: n != name && Named(D', q, n) ==> Named(D, q, n) && Untouched(D, F, D', F', q)
    requires forall n, q :: n != name && Named(D, q, n) ==> Named(D', q, n)
    requires if name in files' then OnlyNamed(D', p', name) && Holds(D', F', p', files'[name])
             else forall q :: !Named(D', q, name)
    ensures FilesStand(D', F', files')
    ensures forall n :: n in files && n != name ==> n in files' && Fades(files[n], files'[n])
  {
    hide Holds, NameAt, Untouched;
    forall n, p, q | Named(D', p, n) && Named(D', q, n)
      ensures p == q
    {
      if n != name {
        assert Named(D, p, n) && Named(D, q, n);
      }
    }
    forall n, p | Named(D', p, n)
      ensures n in files' && Holds(D', F', p, files'[n])
      ensures n in files && n != name ==> Fades(files[n], files'[n])
    {
      if n != name {
        assert Named(D, p, n);
        HoldsOn(D, F, D', F', p, files[n]);
        NameSizedAt(D', F', p, n);
      }
    }
    forall n | n in files'
      ensures exists p :: Named(D', p, n)
      ensures n != name ==> Fades(files[n], files'[n])
    {
      if n != name {
        assert n in files'.Keys - {name};
        var p :| Named(D, p, n);
        assert Named(D', p, n);
      }
    }
  }

  ghost function FadedFiles(files: map<Bytes, FlatFile>, D': Disk, F': seq<Slot>, name: Bytes): map<Bytes, FlatFile> {
    map n | n in files.Keys && n != name :: files[n].(sized := NameSized(D', F', n))
  }

  lemma FadedFilesTo(files: map<Bytes, FlatFile>, D': Disk, F': seq<Slot>, name: Bytes, f: FlatFile)
    ensures var r := FadedFiles(files, D', F', name);
      && name !in r && FadedTo(files, D', F', r, name)
      && FadedTo(files, D', F', r[name := f], name) && r[name := f].Keys == files.Keys + {name}
  {
    hide NameSized;
  }

  // ------------------------------------------------------------ reading and closing

  lemma ReadStands(s: FsState, A: FlatFs, k: int, size: nat, r: int, buf: Bytes) returns (A': FlatFs)
    requires Ok(s) && Stands(s, A) && WellFormed(A) && Readable(s, k) && ReadResult(s, k, size, r, buf)
    ensures Reads(A, k, size, Got(buf), A')
    ensures Stands(s.(fds := s.fds[k := s.fds[k].(offset := s.fds[k].offset + r)]), A')
  {
    hide Ok, NameOf, Holds, Stands, Content, WellFormed, Kept, EndOf, BlankPast;
    OpenView(s, A, k);
    A' := A.(handles := A.handles[k := Handle(NameOf(s, k), s.fds[k].offset + r, s.fds[k].flags)]);
    MovedStands(s, A, k, s.fds[k].offset + r);
  }

  /** A descriptor moves. */
  lemma MovedStands(s: FsState, A: FlatFs, k: int, to: nat)
    requires Stands(s, A) && IsOpenFd(s, k)
    ensures |A.handles| == |s.fds|
    ensures Stands(s.(fds := s.fds[k := s.fds[k].(offset := to)]),
                   A.(handles := A.handles[k := Handle(NameOf(s, k), to, s.fds[k].flags)]))
  {
    hide NameAt, FilesStand;
  }

  // ------------------------------------------------------------------------- writing

  /** What is neither the written file nor its log. */
  lemma ForeignUntouched(s: FsState, s': FsState, p: int, p': int, q: int)
    requires DiskOk(s.disk) && DiskOk(s'.disk) && Confined(s.disk, p, s'.disk, p') && OthersRest(s, p, s', p')
    requires IsFile(s.disk, p) && IsFile(s.disk, q) && q != p
    ensures IsFile(s'.disk, q) && Foreign(s.disk, p, q) && Untouched(s.disk, s.files, s'.disk, s'.files, q)
    ensures NameAt(s'.disk, q) == NameAt(s.disk, q)
  {
    hide Decode, ConfigOk, CleanLog, ByteAt, Byte;
    FilesOk(s.disk);
    FilesOk(s'.disk);
    if IsModifiedFile(s.disk, q) {
      OwnLog(s.disk, q);
      assert Foreign(s.disk, p, Decode(s.disk[q]).logPage);
    }
    SameBytes(s.disk, s'.disk, q);
    forall i | Sizes(s'.files, i, q)
      ensures Sizes(s.files, i, q) && s'.files[i].end == s.files[i].end
    {
      assert Rests(s, s', i);
    }
  }

  /** The file behind descriptor `k` after it was changed. */
  ghost function Written(s: FsState, s': FsState, files: map<Bytes, FlatFile>, k: int): (r: map<Bytes, FlatFile>)
    requires IsOpenFd(s, k) && IsOpenFd(s', k)
  {
    FadedFiles(files, s'.disk, s'.files, NameOf(s, k))[NameOf(s, k) := FlatAt(s', k)]
  }

  /** A change to the file called `name` and its log leaves the others alone. */
  lemma OthersNamed(s: FsState, s': FsState, p: int, p': int, name: Bytes)
    requires DiskOk(s.disk) && DiskOk(s'.disk) && Confined(s.disk, p, s'.disk, p') && OthersRest(s, p, s', p')
    requires NamesUnique(s.disk) && Named(s.disk, p, name) && Named(s'.disk, p', name)
    ensures OnlyNamed(s'.disk, p', name)
    ensures forall n, q :: n != name && Named(s'.disk, q, n) ==>
      Named(s.disk, q, n) && Untouched(s.disk, s.files, s'.disk, s'.files, q)
    ensures forall n, q :: n != name && Named(s.disk, q, n) ==> Named(s'.disk, q, n)
  {
    hide DiskOk, Untouched, Decode, Rests;
    forall n, q | Named(s'.disk, q, n) && q != p'
      ensures n != name && Named(s.disk, q, n) && Untouched(s.disk, s.files, s'.disk, s'.files, q)
    {
      assert Foreign(s.disk, p, q);
      assert Named(s.disk, q, n);
      ForeignUntouched(s, s', p, p', q);
    }
    forall n, q | n != name && Named(s.disk, q, n)
      ensures Named(s'.disk, q, n)
    {
      ForeignUntouched(s, s', p, p', q);
    }
  }

  lemma WrittenStand(s: FsState, s': FsState, files: map<Bytes, FlatFile>, k: int, d: Bytes)
    requires Ok(s) && Ok(s') && FilesStand(s.disk, s.files, files)
    requires Wrote(s, s', k, d) && Alone(s, s', k)
    ensures FilesStand(s'.disk, s'.files, Written(s, s', files, k))
    ensures forall n :: n in files && n != NameOf(s, k) ==>
      n in Written(s, s', files, k) && Fades(files[n], Written(s, s', files, k)[n])
  {
    hide Ok, NameAt, Holds, Untouched, Confined, OthersRest, Overlay, SameSharing, Data, BlankPast, FadedTo;
    hide FadedFiles, OnlyNamed, Named;
    var p, p', name, files' := FilePage(s, k), FilePage(s', k), NameOf(s, k), Written(s, s', files, k);
    OkDisk(s);
    OkDisk(s');
    OpenHolds(s, files, k);
    OpenData(s, files, k);
    assert Sees(s, s', k, k, d);
    SlotHolds(s', k);
    OthersNamed(s, s', p, p', name);
    FadedFilesTo(files, s'.disk, s'.files, name, FlatAt(s', k));
    OneChanges(s.disk, s.files, files, s'.disk, s'.files, files', name, p');
  }

  /** The flat file behind descriptor `k` after a whole write. */
  lemma RewrittenFile(s: FsState, s': FsState, k: int, d: Bytes)
    requires Ok(s) && Ok(s') && Wrote(s, s', k, d) && Appends(s, s', k) && KeptAfter(s, s', k, d)
    ensures 0 <= s.fds[k].offset <= |FlatAt(s, k).data| && Rewritten(FlatAt(s, k), s.fds[k].offset, d, FlatAt(s', k))
  {
    hide Ok, Holds, Confined, SameSharing, Content, BlankPast, Overlay, Kept, Sensible, TrimmedLength, NameOf;
    assert Sees(s, s', k, k, d);
    OpenSlot(s, k);
    SlotHolds(s', k);
    HoldsSensible(s', FilePage(s', k), FlatAt(s', k));
  }

  lemma OpenFlat(s: FsState, A: FlatFs, k: int)
    requires Ok(s) && Stands(s, A) && IsOpenFd(s, k)
    ensures IsHandle(A, k) && A.handles[k] == Handle(NameOf(s, k), s.fds[k].offset, s.fds[k].flags)
    ensures NameOf(s, k) in A.files && A.files[NameOf(s, k)] == FlatAt(s, k)
  {
    hide Ok, NameOf, Holds, FilesStand, BlankPast, Content, Kept;
    OpenView(s, A, k);
  }

  lemma WriteStands(s: FsState, s': FsState, A: FlatFs, k: int, d: Bytes) returns (A': FlatFs)
    requires Ok(s) && Ok(s') && Stands(s, A) && WellFormed(A)
    requires Writable(s, k) && Wrote(s, s', k, d) && Alone(s, s', k) && Appends(s, s', k) && KeptAfter(s, s', k, d)
    ensures Writes(A, k, d, Put(|d|), A') && Stands(s', A')
  {
    hide Ok, NameAt, Holds, FilesStand, Confined, OthersRest, SameSharing, Content, BlankPast, FadedFiles, Overlay;
    hide Rewritten, Kept, KeptAfter, Sensible;
    OpenFlat(s, A, k);
    WrittenStand(s, s', A.files, k, d);
    RewrittenFile(s, s', k, d);
    FadedFilesTo(A.files, s'.disk, s'.files, NameOf(s, k), FlatAt(s', k));
    var h := Handle(NameOf(s, k), s.fds[k].offset + |d|, s.fds[k].flags);
    A' := FlatFs(A.handles[k := h], Written(s, s', A.files, k));
    forall l | 0 <= l < |s.fds|
      ensures A'.handles[l] == HandleAt(s', l)
    {
      assert Sees(s, s', k, l, d);
    }
  }

  // ------------------------------------------------------------------ slots that change

  ghost predicate SameSize(F: seq<Slot>, F': seq<Slot>, p: int) {
    forall i :: (Sizes(F', i, p) <==> Sizes(F, i, p)) && (Sizes(F', i, p) ==> F'[i].end == F[i].end)
  }

  /** Only the slot of the file at `p` changed. */
  lemma SlotChanges(D: Disk, F: seq<Slot>, F': seq<Slot>, files: map<Bytes, FlatFile>, name: Bytes, p: int,
        f': FlatFile)
    requires FilesStand(D, F, files) && Named(D, p, name) && Holds(D, F', p, f')
    requires forall q :: q != p ==> SameSize(F, F', q)
    ensures FilesStand(D, F', files[name := f'])
  {
    hide ByteAt, ZeroFrom, NameAt, IsFile, IsModifiedFile, EndOf, ClearFrom;
    forall n, q | Named(D, q, n)
      ensures Holds(D, F', q, files[name := f'][n])
    {
      if q != p {
        assert SameSize(F, F', q);
        assert Holds(D, F, q, files[n]);
      }
    }
  }

  /** No slot has another extent or another size. */
  lemma NoSlotChanges(D: Disk, F: seq<Slot>, F': seq<Slot>, files: map<Bytes, FlatFile>)
    requires FilesStand(D, F, files) && forall q :: SameSize(F, F', q)
    ensures FilesStand(D, F', files)
  {
    hide ByteAt, ZeroFrom, NameAt, IsFile, IsModifiedFile, EndOf, ClearFrom;
    forall n, q | Named(D, q, n)
      ensures Holds(D, F', q, files[n])
    {
      assert SameSize(F, F', q) && Holds(D, F, q, files[n]);
    }
  }

  lemma CloseStands(s: FsState, A: FlatFs, k: int)
    requires Ok(s) && Stands(s, A) && IsOpenFd(s, k) && s.files[s.fds[k].file].references > 0
    ensures IsHandle(A, k) && Stands(Closed(s, k), A.(handles := A.handles[k := Unused]))
  {
    hide Ok, NameAt, FilesStand;
    OpenView(s, A, k);
    forall q
      ensures SameSize(s.files, Closed(s, k).files, q)
    {
    }
    NoSlotChanges(s.disk, s.files, Closed(s, k).files, A.files);
  }

  // -------------------------------------------------------------------------- seeking

  lemma SeekStands(s: FsState, A: FlatFs, k: int, offset: int, whence: SeekFrom) returns (A': FlatFs)
    requires Ok(s) && Stands(s, A) && WellFormed(A) && IsOpenFd(s, k)
    requires var to := SeekTarget(s, k, offset, whence);
      0 <= to && to + HEADER_SIZE <= Base(s.files[s.fds[k].file].maxPages)
    ensures var to := SeekTarget(s, k, offset, whence);
      Seeks(A, k, offset, whence, At(to), A') && Stands(Sought(s, k, to), A')
  {
    hide Ok, NameAt, Holds, FilesStand, Base, BlankPast, Content, Stretched, Kept;
    OpenFlat(s, A, k);
    OpenView(s, A, k);
    var to := SeekTarget(s, k, offset, whence);
    var s' := Sought(s, k, to);
    var name := NameOf(s, k);
    SoughtOk(s, k, to);
    OpenMaxPages(s, k);
    OpenHolds(s, A.files, k);
    SoughtFile(s, k, to);
    SlotHolds(s', k);
    forall q | q != FilePage(s, k)
      ensures SameSize(s.files, s'.files, q)
    {
    }
    SlotChanges(s.disk, s.files, s'.files, A.files, name, FilePage(s, k), FlatAt(s', k));
    A' := FlatFs(A.handles[k := Handle(name, to, s.fds[k].flags)], A.files[name := FlatAt(s', k)]);
  }

  lemma SoughtFile(s: FsState, k: int, to: nat)
    requires Ok(s) && IsOpenFd(s, k) && to + HEADER_SIZE <= Base(s.files[s.fds[k].file].maxPages)
    ensures Stretched(FlatAt(s, k), to, FlatAt(Sought(s, k, to), k))
  {
    hide Ok, ByteAt, Base, EndOf;
    var s', i := Sought(s, k, to), s.fds[k].file;
    OpenSlot(s, k);
    OpenMaxPages(s, k);
    if BlankPast(s, i) && to > s.files[i].end {
      SoughtContent(s, i, to);
    }
  }

  // -------------------------------------------------------------------------- opening

  /** What cfs_open answered, and how it left the file layer. */
  ghost predicate Opening(s: FsState, s': FsState, fd: int, name: Bytes, flags: bv8) {
    && 0 <= fd < |s.fds| == |s'.fds| && !IsOpenFd(s, fd) && IsOpenFd(s', fd)
    && (forall k :: 0 <= k < fd ==> s.fds[k].IsOpen())
    && OpenedAside(s, s', s'.fds[fd].file) && OpenedContent(s, s', s'.fds[fd].file, name)
    && OpensKnown(s, s', fd, name, flags) && s'.fds[fd].flags == flags
    && s'.fds[fd].offset == (if flags & CFS_APPEND != 0 then |Data(s', fd)| else 0)
    && (forall k :: 0 <= k < |s.fds| && k != fd ==> SameView(s, s', k))
    && (Findable(s, name) || flags & (CFS_READ | CFS_WRITE) != CFS_READ)
  }

  /** What can be found exists. */
  lemma FindableExists(s: FsState, files: map<Bytes, FlatFile>, name: Bytes)
    requires FilesStand(s.disk, s.files, files) && Findable(s, name)
    ensures name in files
  {
    hide Decode, Holds;
    if j :| CachedAs(s, j, name) {
      assert Named(s.disk, s.files[j].page, name);
    } else {
      var p :| Stored(s, p, name);
      assert Named(s.disk, p, name);
    }
  }

  /** A file that was looked up again is what its extent kept of it. */
  lemma ReloadedPrefix(s: FsState, p: int, f: FlatFile)
    requires Ok(s) && p in s.disk && Holds(s.disk, s.files, p, f)
    ensures f.kept <= |f.data| && StoredContent(s, p) == f.data[..f.kept]
    ensures ClearFrom(s.disk, p, f.kept) <==> f.clean && AllZeros(f.data[f.kept..])
  {
    hide Decode, EndOf, TrimmedLength, ZeroFrom, ByteAt, Ok, FileOk, SizeKnown, Sizes, ClearFrom;
    EndWithin(s.disk[p], |f.data|);
    if ClearFrom(s.disk, p, f.kept) {
      ClearTail(s.disk, p, f.data, f.kept);
    } else if f.clean && AllZeros(f.data[f.kept..]) {
      TailClear(s.disk, p, f.data, f.kept);
    }
  }

  lemma ClearTail(D: Disk, p: int, d: Bytes, n: nat)
    requires n <= |d| && (forall o :: 0 <= o < |d| ==> ByteAt(D, p, o) == d[o]) && ClearFrom(D, p, n)
    ensures ClearFrom(D, p, |d|) && AllZeros(d[n..])
  {
    hide ByteAt;
    forall i | 0 <= i < |d[n..]|
      ensures d[n..][i] == 0
    {
      assert ByteAt(D, p, n + i) == d[n + i];
    }
  }

  lemma TailClear(D: Disk, p: int, d: Bytes, n: nat)
    requires n <= |d| && (forall o :: 0 <= o < |d| ==> ByteAt(D, p, o) == d[o])
    requires ClearFrom(D, p, |d|) && AllZeros(d[n..])
    ensures ClearFrom(D, p, n)
  {
    hide ByteAt;
    forall o | n <= o < |d|
      ensures ByteAt(D, p, o) == 0
    {
      assert d[n..][o - n] == d[o];
    }
  }

  /** It is what it was exactly when its last byte is not zero in the extent, whatever the
      log says. */
  lemma ReloadedExactly(s: FsState, p: int, f: FlatFile)
    requires Ok(s) && p in s.disk && Holds(s.disk, s.files, p, f)
    ensures StoredContent(s, p) == f.data <==> f.data == [] || s.disk[p][HEADER_SIZE + |f.data| - 1] != 0
  {
    hide Decode, EndOf, ZeroFrom, ByteAt, Ok, SizeKnown, Sizes;
    EndWithin(s.disk[p], |f.data|);
    ReloadedPrefix(s, p, f);
  }

  /** The opened file, when its size was not in the cache. */
  lemma ReopenedFile(s: FsState, s': FsState, fd: int, name: Bytes, flags: bv8, f: FlatFile)
    requires Ok(s) && Ok(s') && Opening(s, s', fd, name, flags)
    requires var p := FilePage(s', fd); p in s.disk && Holds(s.disk, s.files, p, f) && !f.sized
    ensures f.kept <= |f.data| && Resumed(f) == FlatAt(s', fd)
  {
    hide Ok, Decode, ByteAt, ZeroFrom, OpensKnown, SameView, OpenCount, AllZeros, EndOf;
    var i, p := s'.fds[fd].file, FilePage(s', fd);
    ReloadedPrefix(s, p, f);
    assert !Sizes(s.files, i, p);
    OpenSlot(s', fd);
    BlankIsClear(s', i);
  }

  lemma OpenedName(s: FsState, s': FsState, fd: int, name: Bytes, flags: bv8)
    requires Opening(s, s', fd, name, flags)
    ensures NameOf(s', fd) == name
    ensures forall p :: p !in s.disk && p == FilePage(s', fd) ==> forall q :: !Named(s.disk, q, name)
    ensures FilePage(s', fd) in s.disk ==> Named(s.disk, FilePage(s', fd), name)
  {
    hide Decode, OpensKnown, SameView, Content, BlankPast;
    forall q
      ensures Named(s.disk, q, name) <==> Stored(s, q, name)
    {
    }
  }

  /** A file whose size is in the cache is known to cfs_open. */
  lemma SizedIsKnown(s: FsState, files: map<Bytes, FlatFile>, name: Bytes) returns (i: int)
    requires FilesStand(s.disk, s.files, files) && name in files && files[name].sized
    ensures 0 <= i < |s.files| && KnownAs(s, i, name) && Named(s.disk, s.files[i].page, name)
    ensures s.files[i].end == |files[name].data|
  {
    hide Decode, ByteAt, ZeroFrom, IsModifiedFile, NamesUnique;
    var p :| Named(s.disk, p, name);
    assert Holds(s.disk, s.files, p, files[name]);
    i :| Sizes(s.files, i, p);
  }

  lemma UnsizedIsUnknown(s: FsState, files: map<Bytes, FlatFile>, name: Bytes)
    requires Ok(s) && FilesStand(s.disk, s.files, files) && forall i :: !KnownAs(s, i, name)
    ensures name in files ==> !files[name].sized
  {
    hide KnownAs, Ok, FilesStand;
    if name in files && files[name].sized {
      var i := SizedIsKnown(s, files, name);
    }
  }

  lemma OpenHandles(s: FsState, s': FsState, H: seq<Handle>, fd: int, name: Bytes, flags: bv8)
    requires Ok(s') && Opening(s, s', fd, name, flags) && |H| == |s.fds|
    requires forall k :: 0 <= k < |H| ==> H[k] == HandleAt(s, k)
    ensures 0 <= fd < |H| == |s'.fds| && IsOpenFd(s', fd)
    ensures var H' := H[fd := Handle(name, if flags & CFS_APPEND != 0 then |Data(s', fd)| else 0, flags)];
      forall k :: 0 <= k < |H| ==> H'[k] == HandleAt(s', k)
  {
    hide Ok, NameAt, OpensKnown, OpenedContent, OpenedAside, Content, BlankPast;
    OpenedName(s, s', fd, name, flags);
    forall k | 0 <= k < |H| && k != fd
      ensures HandleAt(s', k) == H[k]
    {
      assert SameView(s, s', k);
    }
  }

  /** Opening a file whose size is in the cache. */
  lemma KnownOpenStands(s: FsState, s': FsState, A: FlatFs, fd: int, name: Bytes, flags: bv8)
    requires Ok(s) && Ok(s') && Stands(s, A) && Opening(s, s', fd, name, flags)
    requires name in A.files && A.files[name].sized
    ensures FilesStand(s'.disk, s'.files, A.files) && Data(s', fd) == A.files[name].data
  {
    hide Ok, NameAt, FilesStand, OpenedContent, OpenedAside, Content, BlankPast, KnownAs, Decode, SameView;
    var i := SizedIsKnown(s, A.files, name);
    assert s' == Opened(s, fd, i, flags, s'.fds[fd].offset);
    forall q
      ensures SameSize(s.files, s'.files, q)
    {
    }
    NoSlotChanges(s.disk, s.files, s'.files, A.files);
    OpenedName(s, s', fd, name, flags);
    OpenData(s', A.files, fd);
  }

  /** Opening puts one extent in one slot. */
  lemma OpenOthers(s: FsState, s': FsState, fd: int, name: Bytes, flags: bv8, files: map<Bytes, FlatFile>)
    requires Ok(s) && Ok(s') && FilesStand(s.disk, s.files, files) && Opening(s, s', fd, name, flags)
    ensures OnlyNamed(s'.disk, FilePage(s', fd), name)
    ensures forall n, q :: n != name && Named(s'.disk, q, n) ==>
      Named(s.disk, q, n) && Untouched(s.disk, s.files, s'.disk, s'.files, q)
    ensures forall n, q :: n != name && Named(s.disk, q, n) ==> Named(s'.disk, q, n)
  {
    hide Ok, Decode, OpensKnown, OpenedContent, SameView, Content, BlankPast, ByteAt, Holds;
    var p := FilePage(s', fd);
    OpenedName(s, s', fd, name, flags);
    OpenSlot(s', fd);
    OkDisk(s);
    OkDisk(s');
    forall n, q | Named(s'.disk, q, n) && q != p
      ensures n != name && Named(s.disk, q, n) && Untouched(s.disk, s.files, s'.disk, s'.files, q)
    {
      assert q in s.disk && s'.disk[q] == s.disk[q];
      assert Named(s.disk, q, n);
      OldUntouched(s, s', q);
    }
  }

  lemma OldUntouched(s: FsState, s': FsState, q: int)
    requires DiskOk(s.disk) && DiskOk(s'.disk) && Extends(s.disk, s'.disk) && IsFile(s.disk, q)
    requires forall i :: Sizes(s'.files, i, q) ==> Sizes(s.files, i, q) && s'.files[i].end == s.files[i].end
    ensures Untouched(s.disk, s.files, s'.disk, s'.files, q)
  {
    hide Decode, ConfigOk, CleanLog, ByteAt;
    FilesOk(s.disk);
    FilesOk(s'.disk);
    SameBytes(s.disk, s'.disk, q);
  }

  /** The opened extent is an old one exactly when there was a file of this name. */
  lemma WhichPage(s: FsState, s': FsState, files: map<Bytes, FlatFile>, fd: int, name: Bytes, flags: bv8)
    requires FilesStand(s.disk, s.files, files) && Opening(s, s', fd, name, flags)
    ensures NameOf(s', fd) == name && (name in files <==> FilePage(s', fd) in s.disk)
    ensures name in files ==> Holds(s.disk, s.files, FilePage(s', fd), files[name])
  {
    hide NameAt, Holds, Opening, NamesUnique;
    assert 0 <= fd < |s'.fds| && IsOpenFd(s', fd) by { OpenedShape(s, s', fd, name, flags); }
    OpenedName(s, s', fd, name, flags);
  }

  lemma OpenedShape(s: FsState, s': FsState, fd: int, name: Bytes, flags: bv8)
    requires Opening(s, s', fd, name, flags)
    ensures 0 <= fd < |s.fds| == |s'.fds| && !IsOpenFd(s, fd) && IsOpenFd(s', fd)
    ensures Findable(s, name) || flags & (CFS_READ | CFS_WRITE) != CFS_READ
  {
    hide OpenedAside, OpenedContent, OpensKnown, SameView, Findable;
  }

  lemma NewlyOpened(s: FsState, s': FsState, files: map<Bytes, FlatFile>, fd: int, name: Bytes, flags: bv8)
      returns (files': map<Bytes, FlatFile>)
    requires Ok(s) && Ok(s') && FilesStand(s.disk, s.files, files) && Opening(s, s', fd, name, flags)
    requires name in files ==> !files[name].sized
    ensures 0 <= fd < |s'.fds| && IsOpenFd(s', fd)
    ensures FilesStand(s'.disk, s'.files, files') && files'.Keys == files.Keys + {name}
    ensures files'[name] == FlatAt(s', fd)
    ensures name in files ==> files[name].kept <= |files[name].data| && files'[name] == Resumed(files[name])
    ensures name !in files ==> files'[name] == FlatFile([], true, true, true, 0)
    ensures forall n :: n in files && n != name ==> n in files' && Fades(files[n], files'[n])
  {
    hide Ok, NameAt, Resumed, FadedFiles, Holds, FlatAt, FadedTo, OnlyNamed, Untouched, Opening, FilesStand, NameOf;
    OpenedShape(s, s', fd, name, flags);
    WhichPage(s, s', files, fd, name, flags);
    if name in files {
      ReopenedFile(s, s', fd, name, flags, files[name]);
    } else {
      CreatedFlat(s, s', fd, name, flags);
    }
    SlotHolds(s', fd);
    OpenOthers(s, s', fd, name, flags, files);
    FadedFilesTo(files, s'.disk, s'.files, name, FlatAt(s', fd));
    files' := FadedFiles(files, s'.disk, s'.files, name)[name := FlatAt(s', fd)];
    OneChanges(s.disk, s.files, files, s'.disk, s'.files, files', name, FilePage(s', fd));
  }

  lemma LowestUnused(s: FsState, s': FsState, A: FlatFs, fd: int, name: Bytes, flags: bv8)
    requires Ok(s) && Stands(s, A) && Opening(s, s', fd, name, flags)
    ensures 0 <= fd < |A.handles| && !IsHandle(A, fd) && forall k :: 0 <= k < fd ==> IsHandle(A, k)
  {
    hide Ok, NameOf, FilesStand, OpenedAside, OpenedContent, OpensKnown, SameView;
    NoView(s, A, fd);
    forall k | 0 <= k < fd
      ensures IsHandle(A, k)
    {
      OpenInRange(s, k);
      NoView(s, A, k);
    }
  }

  lemma OpenStands(s: FsState, s': FsState, A: FlatFs, fd: int, name: Bytes, flags: bv8) returns (A': FlatFs)
    requires Ok(s) && Ok(s') && Stands(s, A) && Opening(s, s', fd, name, flags)
    ensures WellFormed(A) && fd >= 0 && Opens(A, name, flags, Fd(fd), A') && Stands(s', A')
  {
    hide Ok, NameAt, FilesStand, Opening, FadedFiles, Holds, Data, HandleAt, AllZeros, Kept, Findable;
    OpenedShape(s, s', fd, name, flags);
    StandsWellFormed(s, A);
    if Findable(s, name) {
      FindableExists(s, A.files, name);
    }
    var files' := A.files;
    if name in A.files && A.files[name].sized {
      KnownOpenStands(s, s', A, fd, name, flags);
      assert A.files.Keys + {name} == A.files.Keys;
    } else {
      files' := NewlyOpened(s, s', A.files, fd, name, flags);
    }
    A' := FlatFs(A.handles[fd := Handle(name, if flags & CFS_APPEND != 0 then |files'[name].data| else 0, flags)],
      files');
    OpenHandles(s, s', A.handles, fd, name, flags);
    LowestUnused(s, s', A, fd, name, flags);
  }

  lemma CreatedFlat(s: FsState, s': FsState, fd: int, name: Bytes, flags: bv8)
    requires Ok(s') && Opening(s, s', fd, name, flags) && FilePage(s', fd) !in s.disk
    ensures FlatAt(s', fd) == FlatFile([], true, true, true, 0)
  {
    hide Ok, Decode, OpensKnown, SameView, BlankPast, ByteAt, EndOf;
    PlainSlotBlank(s', fd);
    PlainKept(s', fd);
  }

  // ------------------------------------------------------------------------- removing

  /** What cfs_remove did. */
  ghost predicate Removing(s: FsState, s': FsState, page: int, name: Bytes) {
    && Stored(s, page, name) && s'.disk == DiskWithout(s.disk, page)
    && |s'.fds| == |s.fds| && |s'.files| == |s.files|
    && (forall j :: 0 <= j < |s'.files| ==> Rests(s, s', j))
    && (forall k :: 0 <= k < |s.fds| ==> if OnFile(s, k, page) then !IsOpenFd(s', k) else SameView(s, s', k))
  }

  lemma RemoveOthers(s: FsState, s': FsState, page: int, name: Bytes)
    requires Ok(s) && NamesUnique(s.disk) && Removing(s, s', page, name)
    ensures forall q :: !Named(s'.disk, q, name)
    ensures forall n, q :: n != name && Named(s'.disk, q, n) ==>
      Named(s.disk, q, n) && Untouched(s.disk, s.files, s'.disk, s'.files, q)
    ensures forall n, q :: n != name && Named(s.disk, q, n) ==> Named(s'.disk, q, n)
  {
    hide Ok, Decode, ByteAt, DiskOk, FileOk, LogOf, SameView;
    OkDisk(s);
    WithoutFileOk(s.disk, page);
    FilesOk(s.disk);
    assert Named(s.disk, page, name);
    forall n, q | Named(s'.disk, q, n)
      ensures n != name && Named(s.disk, q, n) && Untouched(s.disk, s.files, s'.disk, s'.files, q)
    {
      assert Named(s.disk, q, n);
      SameBytes(s.disk, s'.disk, q);
      forall i | Sizes(s'.files, i, q)
        ensures Sizes(s.files, i, q) && s'.files[i].end == s.files[i].end
      {
        assert Rests(s, s', i);
      }
    }
  }

  lemma RemoveStands(s: FsState, s': FsState, A: FlatFs, page: int, name: Bytes) returns (A': FlatFs)
    requires Ok(s) && Ok(s') && Stands(s, A) && Removing(s, s', page, name)
    ensures Removes(A, name, Done, A') && Stands(s', A')
  {
    hide Ok, NameAt, Holds, Untouched, FadedFiles, FadedTo, DiskWithout, Rests, Stored;
    assert Named(s.disk, page, name) by { RemovedName(s, s', page, name); }
    RemoveOthers(s, s', page, name);
    var files' := FadedFiles(A.files, s'.disk, s'.files, name);
    FadedFilesTo(A.files, s'.disk, s'.files, name, FlatFile([], true, true, true, 0));
    FadedKeys(A.files, s'.disk, s'.files, name);
    OneChanges(s.disk, s.files, A.files, s'.disk, s'.files, files', name, page);
    A' := FlatFs(seq(|A.handles|, k requires 0 <= k < |A.handles| => Dropped(A.handles[k], name)), files');
    forall k | 0 <= k < |A.handles|
      ensures A'.handles[k] == HandleAt(s', k)
    {
      RemovedHandle(s, s', page, name, k);
    }
  }

  lemma FadedKeys(files: map<Bytes, FlatFile>, D': Disk, F': seq<Slot>, name: Bytes)
    ensures FadedFiles(files, D', F', name).Keys == files.Keys - {name}
  {
    hide NameSized;
  }

  lemma RemovedName(s: FsState, s': FsState, page: int, name: Bytes)
    requires Removing(s, s', page, name)
    ensures Named(s.disk, page, name)
  {
    hide Decode;
  }

  lemma RemovedHandle(s: FsState, s': FsState, page: int, name: Bytes, k: int)
    requires Ok(s) && NamesUnique(s.disk) && Removing(s, s', page, name) && 0 <= k < |s.fds|
    ensures HandleAt(s', k) == Dropped(HandleAt(s, k), name)
  {
    hide Ok, Decode, Rests, Content, BlankPast, DiskWithout;
    if IsOpenFd(s, k) {
      OpenSlot(s, k);
      assert Named(s.disk, page, name) && Named(s.disk, FilePage(s, k), NameOf(s, k));
    } else {
      assert SameView(s, s', k);
    }
  }

  // ------------------------------------------------------------------ a full cache

  lemma {:induction false} SomeOpen(T: seq<Descriptor>, i: int) returns (k: nat)
    requires OpenCount(T, i) > 0
    ensures k < |T| && T[k].IsOpen() && T[k].file == i
  {
    var n := |T| - 1;
    if T[n].IsOpen() && T[n].file == i {
      k := n;
    } else {
      k := SomeOpen(T[..n], i);
    }
  }

  /** The names behind the first `n` slots. */
  ghost function SlotNames(D: Disk, F: seq<Slot>, n: nat): set<Bytes>
    requires n <= |F|
  {
    set j | 0 <= j < n :: NameAt(D, F[j].page)
  }

  lemma {:induction false} SlotNamesCount(D: Disk, F: seq<Slot>, n: nat)
    requires n <= |F| && forall i, j :: 0 <= i < j < n ==> NameAt(D, F[i].page) != NameAt(D, F[j].page)
    ensures |SlotNames(D, F, n)| == n
  {
    hide NameAt;
    if n > 0 {
      SlotNamesCount(D, F, n - 1);
      assert SlotNames(D, F, n) == SlotNames(D, F, n - 1) + {NameAt(D, F[n - 1].page)};
    } else {
      assert SlotNames(D, F, 0) == {};
    }
  }

  /** If no slot can be taken, each has an open file. */
  lemma EachOpen(s: FsState, j: nat) returns (k: nat)
    requires Ok(s) && j < |s.files| && !Loadable(s.files, j)
    ensures IsOpenFd(s, k) && s.fds[k].file == j && CachedFile(s.disk, s.files[j])
  {
    hide DiskOk, OpenCount, Decode;
    k := SomeOpen(s.fds, j);
    OpenInRange(s, k);
  }

  lemma NotLoadableCrowded(s: FsState, A: FlatFs)
    requires Ok(s) && Stands(s, A) && |s.files| == MAX_OPEN_FILES && forall j :: !Loadable(s.files, j)
    ensures Crowded(A)
  {
    hide Ok, NameAt, FilesStand, Loadable;
    forall i, j | 0 <= i < j < |s.files|
      ensures NameAt(s.disk, s.files[i].page) != NameAt(s.disk, s.files[j].page)
    {
      DistinctNames(s, i, j);
    }
    SlotNamesCount(s.disk, s.files, |s.files|);
    var names := SlotNames(s.disk, s.files, |s.files|);
    forall n | n in names
      ensures n in OpenNames(A)
    {
      var j :| 0 <= j < |s.files| && n == NameAt(s.disk, s.files[j].page);
      var k := EachOpen(s, j);
      OpenFlat(s, A, k);
    }
    forall n | n in OpenNames(A)
      ensures n in names
    {
      var k :| 0 <= k < |A.handles| && IsHandle(A, k) && A.handles[k].name == n;
      NoView(s, A, k);
      assert n == NameAt(s.disk, s.files[s.fds[k].file].page);
    }
    assert names == OpenNames(A);
  }

  lemma DistinctNames(s: FsState, i: nat, j: nat)
    requires Ok(s) && i < j < |s.files| && !Loadable(s.files, i) && !Loadable(s.files, j)
    ensures NameAt(s.disk, s.files[i].page) != NameAt(s.disk, s.files[j].page)
  {
    hide DiskOk, OpenCount, Decode;
    var k := EachOpen(s, i);
    var l := EachOpen(s, j);
  }

  /** A file of this name is not found only if its size is not in the cache and the cache
      is full of open files. */
  lemma NotFoundFlat(s: FsState, A: FlatFs, name: Bytes)
    requires Ok(s) && Stands(s, A) && |s.files| == MAX_OPEN_FILES && NotFound(s, name)
    requires forall j :: !KnownAs(s, j, name)
    ensures name in A.files ==> !A.files[name].sized && Crowded(A)
  {
    hide Ok, KnownAs, Holds, NameAt, Crowded, HandleAt, NamesUnique;
    UnsizedIsUnknown(s, A.files, name);
    if name in A.files {
      var p :| Named(s.disk, p, name);
      NamedIsStored(s, p, name);
      NotLoadableCrowded(s, A);
    }
  }

  lemma NamedIsStored(s: FsState, p: int, name: Bytes)
    requires Named(s.disk, p, name)
    ensures Stored(s, p, name)
  {
  }
}
