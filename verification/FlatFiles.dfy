/** What the file operations are for: byte sequences by name, and descriptors on them. */
module FlatFiles {
  import opened FlashDevice
  import opened MicroLogs
  import opened FileStates
  import opened FileSteps
  import opened FileWrites

  datatype Handle = Unused | Handle(name: Bytes, offset: nat, flags: bv8)

  /** A file by its content. `clean`: nothing lies behind its end. `sized`: its size is
      in the cache. `plain`: it has no log. `kept`: how much of it is found again without
      the cache. */
  datatype FlatFile = FlatFile(data: Bytes, clean: bool, sized: bool, plain: bool, kept: nat)

  datatype FlatFs = FlatFs(handles: seq<Handle>, files: map<Bytes, FlatFile>)

  datatype Op =
    | Open(name: Bytes, flags: bv8)
    | Close(fd: int)
    | Read(fd: int, size: nat)
    | Write(fd: int, data: Bytes)
    | Seek(fd: int, offset: int, whence: SeekFrom)
    | Remove(name: Bytes)

  datatype Outcome = Failed | Done | Fd(fd: nat) | Got(data: Bytes) | Put(count: nat) | At(offset: nat)

  predicate IsHandle(A: FlatFs, k: int) {
    0 <= k < |A.handles| && A.handles[k].Handle?
  }

  /** Without a log a file is found again but for trailing zeros. */
  predicate Sensible(f: FlatFile) {
    f.kept <= |f.data| && (f.plain ==> f.clean && f.kept == TrimmedLength(f.data))
  }

  predicate WellFormed(A: FlatFs) {
    && (forall n :: n in A.files ==> Sensible(A.files[n]))
    && (forall k :: 0 <= k < |A.handles| && IsHandle(A, k) ==>
          && A.handles[k].name in A.files
          && A.files[A.handles[k].name].sized
          && A.handles[k].offset <= |A.files[A.handles[k].name].data|)
  }

  function OpenNames(A: FlatFs): set<Bytes> {
    set k | 0 <= k < |A.handles| && IsHandle(A, k) :: A.handles[k].name
  }

  /** As many files are open as the cache has slots. */
  predicate Crowded(A: FlatFs) {
    |OpenNames(A)| == MAX_OPEN_FILES
  }

  function FileOf(A: FlatFs, k: int): FlatFile
    requires WellFormed(A) && IsHandle(A, k)
  {
    A.files[A.handles[k].name]
  }

  /** A file that nothing happens to may drop out of the cache. */
  predicate Fades(f: FlatFile, f': FlatFile) {
    f' == f.(sized := f'.sized) && (f'.sized ==> f.sized)
  }

  predicate OthersFade(A: FlatFs, A': FlatFs, name: Bytes) {
    forall n :: n in A.files && n != name ==> n in A'.files && Fades(A.files[n], A'.files[n])
  }

  // ------------------------------------------------------------- reading and writing

  predicate Reads(A: FlatFs, k: int, size: nat, out: Outcome, A': FlatFs)
    requires WellFormed(A)
  {
    if !IsHandle(A, k) || A.handles[k].flags & CFS_READ == 0 then out == Failed && A' == A
    else
      var h, b := A.handles[k], FileOf(A, k).data;
      var n := if h.offset + size > |b| then |b| - h.offset else size;
      out == Got(b[h.offset..h.offset + n]) && A' == A.(handles := A.handles[k := h.(offset := h.offset + n)])
  }

  /** `d` over the file at `off`. What the cache is not needed for is all of it if the
      file has grown; else it is what it was, or what a merge wrote out after some of the
      bytes. */
  predicate Rewritten(f: FlatFile, off: nat, d: Bytes, f': FlatFile)
    requires off <= |f.data|
  {
    && f'.data == Overlay(f.data, off, d) && f'.sized
    && (f.clean ==> f'.clean)
    && (f.plain && off == |f.data| ==> f'.plain)
    && Sensible(f')
    && (!f'.plain ==>
          if |f'.data| > |f.data| then f'.kept == |f'.data|
          else f'.kept == f.kept || exists v :: 0 <= v < |d| && f'.kept == TrimmedLength(Overlay(f.data, off, d[..v])))
  }

  predicate Writes(A: FlatFs, k: int, d: Bytes, out: Outcome, A': FlatFs)
    requires WellFormed(A)
  {
    if !IsHandle(A, k) || A.handles[k].flags & CFS_WRITE == 0 then out == Failed && A' == A
    else
      var h := A.handles[k];
      && out == Put(|d|)
      && A'.handles == A.handles[k := h.(offset := h.offset + |d|)]
      && A'.files.Keys == A.files.Keys
      && Rewritten(FileOf(A, k), h.offset, d, A'.files[h.name])
      && OthersFade(A, A', h.name)
  }

  function Target(A: FlatFs, k: int, offset: int, whence: SeekFrom): int
    requires WellFormed(A) && IsHandle(A, k)
  {
    match whence
    case SeekSet => offset
    case SeekEnd => |FileOf(A, k).data| + offset
    case SeekCur => A.handles[k].offset + offset
  }

  /** A seek behind the end makes the file longer, with zeros if it was clean. */
  predicate Stretched(f: FlatFile, to: nat, f': FlatFile) {
    && f' == f.(data := f'.data, clean := f'.clean)
    && |f'.data| == Later(|f.data|, to) && f'.data[..|f.data|] == f.data
    && (to <= |f.data| ==> f' == f)
    && (f.clean ==> f'.clean && f'.data == f.data + Zeros(to - |f.data|))
  }

  predicate Seeks(A: FlatFs, k: int, offset: int, whence: SeekFrom, out: Outcome, A': FlatFs)
    requires WellFormed(A)
  {
    if !IsHandle(A, k) || Target(A, k, offset, whence) < 0 then out == Failed && A' == A
    else
      var h, to := A.handles[k], Target(A, k, offset, whence);
      && out == At(to)
      && A'.handles == A.handles[k := h.(offset := to)]
      && h.name in A'.files && A'.files == A.files[h.name := A'.files[h.name]]
      && Stretched(FileOf(A, k), to, A'.files[h.name])
  }

  // ------------------------------------------------------- opening, closing, removing

  predicate AllZeros(b: Bytes) {
    forall i :: 0 <= i < |b| ==> b[i] == 0
  }

  /** A file that is opened again, after its size had to be found out. */
  function Resumed(f: FlatFile): FlatFile
    requires f.kept <= |f.data|
  {
    if f.sized then f
    else FlatFile(f.data[..f.kept], f.clean && AllZeros(f.data[f.kept..]), true, f.plain, f.kept)
  }

  /** Opening yields the lowest free descriptor. It fails if there is no such file and it
      is only to be read, or if its size is not in the cache and every slot there is
      taken by an open file. */
  predicate Opens(A: FlatFs, name: Bytes, flags: bv8, out: Outcome, A': FlatFs)
    requires WellFormed(A)
  {
    match out
    case Failed =>
      && A' == A && flags & (CFS_READ | CFS_WRITE) == CFS_READ
      && (name in A.files ==> !A.files[name].sized && Crowded(A))
    case Fd(fd) =>
      && fd < |A.handles| && !IsHandle(A, fd) && (forall k :: 0 <= k < fd ==> IsHandle(A, k))
      && (name !in A.files ==> flags & (CFS_READ | CFS_WRITE) != CFS_READ)
      && A'.files.Keys == A.files.Keys + {name}
      && A'.handles == A.handles[
           fd := Handle(name, if flags & CFS_APPEND != 0 then |A'.files[name].data| else 0, flags)]
      && A'.files[name] == (if name in A.files then Resumed(A.files[name]) else FlatFile([], true, true, true, 0))
      && (if name in A.files && A.files[name].sized then A'.files == A.files else OthersFade(A, A', name))
    case _ => false
  }

  predicate Closes(A: FlatFs, k: int, out: Outcome, A': FlatFs) {
    out == Done && A' == if IsHandle(A, k) then A.(handles := A.handles[k := Unused]) else A
  }

  function Dropped(h: Handle, name: Bytes): Handle {
    if h.Handle? && h.name == name then Unused else h
  }

  predicate Removes(A: FlatFs, name: Bytes, out: Outcome, A': FlatFs) {
    match out
    case Failed => A' == A && (name in A.files ==> !A.files[name].sized && Crowded(A))
    case Done =>
      && name in A.files && A'.files.Keys == A.files.Keys - {name} && OthersFade(A, A', name)
      && A'.handles == seq(|A.handles|, k requires 0 <= k < |A.handles| => Dropped(A.handles[k], name))
    case _ => false
  }

  // -------------------------------------------------------------------------- runs

  /** `op` may answer `out` and turn the files `A` into `A'`. */
  predicate Step(A: FlatFs, op: Op, out: Outcome, A': FlatFs)
    requires WellFormed(A)
  {
    match op
    case Open(name, flags) => Opens(A, name, flags, out, A')
    case Close(fd) => Closes(A, fd, out, A')
    case Read(fd, size) => Reads(A, fd, size, out, A')
    case Write(fd, data) => Writes(A, fd, data, out, A')
    case Seek(fd, offset, whence) => Seeks(A, fd, offset, whence, out, A')
    case Remove(name) => Removes(A, name, out, A')
  }

  /** The answers `outs` to the operations are those of the flat files in `trace`. */
  predicate Explains(trace: seq<FlatFs>, ops: seq<Op>, outs: seq<Outcome>) {
    && |trace| == |outs| + 1 && |outs| <= |ops|
    && (forall n :: 0 <= n < |trace| ==> WellFormed(trace[n]))
    && (forall n :: 0 <= n < |outs| ==> Step(trace[n], ops[n], outs[n], trace[n + 1]))
  }

  /** No descriptors, no files. */
  function NoFiles(n: nat): FlatFs {
    FlatFs(seq(n, _ => Unused), map[])
  }

  // ------------------------------------------------------------- what a file can lose

  /** Neither writes, seeks in nor removes the file called `name`. */
  predicate Spares(A: FlatFs, op: Op, name: Bytes) {
    match op
    case Write(fd, _) => !IsHandle(A, fd) || A.handles[fd].name != name
    case Seek(fd, _, _) => !IsHandle(A, fd) || A.handles[fd].name != name
    case Remove(n) => n != name
    case _ => true
  }

  /** All of the file is left, or what is found again without the cache. */
  predicate Remains(f: FlatFile, f': FlatFile)
    requires f.kept <= |f.data|
  {
    f'.plain == f.plain && f'.kept == f.kept && (f'.data == f.data || f'.data == f.data[..f.kept])
  }

  lemma StepRemains(A: FlatFs, op: Op, out: Outcome, A': FlatFs, name: Bytes)
    requires WellFormed(A) && Step(A, op, out, A') && Spares(A, op, name) && name in A.files
    ensures name in A'.files && Remains(A.files[name], A'.files[name])
    ensures A.files[name].sized && A'.files[name].sized ==> A'.files[name].data == A.files[name].data
  {
    hide TrimmedLength, Rewritten, AllZeros, Crowded, OpenNames, Sensible;
    assert A.files[name].kept <= |A.files[name].data| by { KeptWithin(A, name); }
  }

  lemma KeptWithin(A: FlatFs, name: Bytes)
    requires WellFormed(A) && name in A.files
    ensures A.files[name].kept <= |A.files[name].data|
  {
  }

  /** Through any run that spares it, a file keeps all of its content, or exactly what is
      found again without the cache. */
  lemma {:induction false} RunRemains(trace: seq<FlatFs>, ops: seq<Op>, outs: seq<Outcome>, name: Bytes)
    requires Explains(trace, ops, outs) && name in trace[0].files
    requires forall n :: 0 <= n < |outs| ==> Spares(trace[n], ops[n], name)
    ensures name in trace[|outs|].files && trace[0].files[name].kept <= |trace[0].files[name].data|
    ensures Remains(trace[0].files[name], trace[|outs|].files[name])
  {
    hide Step, Spares, WellFormed;
    KeptWithin(trace[0], name);
    if |outs| > 0 {
      var m := |outs| - 1;
      assert Explains(trace[..m + 1], ops, outs[..m]);
      RunRemains(trace[..m + 1], ops, outs[..m], name);
      StepRemains(trace[m], ops[m], outs[m], trace[m + 1], name);
    }
  }

  /** A file whose size stays in the cache keeps all of its content: closed and opened
      again, it reads as before. */
  lemma {:induction false} RunKeeps(trace: seq<FlatFs>, ops: seq<Op>, outs: seq<Outcome>, name: Bytes)
    requires Explains(trace, ops, outs) && name in trace[0].files
    requires forall n :: 0 <= n < |outs| ==> Spares(trace[n], ops[n], name)
    requires forall n :: 0 <= n < |trace| && name in trace[n].files ==> trace[n].files[name].sized
    ensures name in trace[|outs|].files && trace[|outs|].files[name].data == trace[0].files[name].data
  {
    hide Step, Spares, WellFormed;
    if |outs| > 0 {
      var m := |outs| - 1;
      assert Explains(trace[..m + 1], ops, outs[..m]);
      RunKeeps(trace[..m + 1], ops, outs[..m], name);
      StepRemains(trace[m], ops[m], outs[m], trace[m + 1], name);
    }
  }
}
