/** Whole runs of the file operations, against flat files. */
module Sessions {
  import opened FlashDevice
  import opened FileStates
  import opened FileSteps
  import opened FileRemovals
  import opened FileLogs
  import opened FileWrites
  import opened Volumes
  import opened WriteLoops
  import opened CoffeeFiles
  import opened FlatFiles
  import opened FlatViews

  /** Names have the length of the field in the header; a descriptor is opened for
      something. */
  predicate Asks(op: Op) {
    op.Open? ==> |op.name| == NAME_LENGTH && op.flags != COFFEE_FD_FREE
  }

  /** A seek that leaves no room for the header in the extent. */
  ghost predicate SeeksTooFar(s: FsState, op: Op) {
    && op.Seek? && IsOpenFd(s, op.fd)
    && var to := SeekTarget(s, op.fd, op.offset, op.whence);
       && 0 <= to && to + HEADER_SIZE > Base(s.files[s.fds[op.fd].file].maxPages)
  }

  /** The operation was answered as flat files may answer it. */
  ghost predicate Follows(s: FsState, s': FsState, A: FlatFs, op: Op, out: Outcome, A': FlatFs) {
    Stands(s, A) ==> WellFormed(A) && Step(A, op, out, A') && Stands(s', A')
  }

  // ---------------------------------------------------------------- one operation

  method PerformRead(c: Coffee, op: Op, ghost A: FlatFs) returns (out: Outcome, ghost A': FlatFs)
    requires c.Valid() && op.Read?
    modifies c.fds
    ensures c.Valid() && Follows(old(c.Fs()), c.Fs(), A, op, out, A')
  {
    hide Ok, Stands, Reads, ReadResult, CanRead, WellFormed, Volume.Valid, Volume.Disk;
    ghost var s, k := c.Fs(), op.fd;
    if 0 <= k < c.fds.Length {
      AnyRead(s, k);
    }
    var r, buf := c.CfsRead(op.fd, op.size);
    out := if r < 0 then Failed else Got(buf);
    A' := A;
    if Readable(s, k) {
      ReadKeeps(s, k, op.size, r, buf);
      assert c.Fs() == s.(fds := s.fds[k := s.fds[k].(offset := s.fds[k].offset + r)]);
      if Stands(s, A) {
        StandsWellFormed(s, A);
        A' := ReadStands(s, A, k, op.size, r, buf);
      }
    } else {
      assert c.Fs() == s;
      if Stands(s, A) {
        NotReadable(s, A, k, op.size);
      }
    }
  }

  lemma AnyRead(s: FsState, k: int)
    requires Ok(s) && 0 <= k < |s.fds|
    ensures CanRead(s, k)
  {
  }

  lemma ReadKeeps(s: FsState, k: int, size: nat, r: int, buf: Bytes)
    requires Ok(s) && Readable(s, k) && ReadResult(s, k, size, r, buf)
    ensures r >= 0 && IsOpenFd(s, k) && Ok(s.(fds := s.fds[k := s.fds[k].(offset := s.fds[k].offset + r)]))
  {
    hide Ok, Content;
    OpenSlot(s, k);
    AdvancedOk(s, k, s.fds[k].offset + r);
    assert Advanced(s, k, s.fds[k].offset + r) == s.(fds := s.fds[k := s.fds[k].(offset := s.fds[k].offset + r)]);
  }

  lemma NotReadable(s: FsState, A: FlatFs, k: int, size: nat)
    requires Ok(s) && Stands(s, A) && !Readable(s, k)
    ensures WellFormed(A) && Reads(A, k, size, Failed, A)
  {
    hide Ok, FilesStand, NameOf;
    StandsWellFormed(s, A);
    NoView(s, A, k);
  }

  lemma NotWritable(s: FsState, A: FlatFs, k: int, data: Bytes)
    requires Ok(s) && Stands(s, A) && !Writable(s, k)
    ensures WellFormed(A) && Writes(A, k, data, Failed, A)
  {
    hide Ok, FilesStand, NameOf;
    StandsWellFormed(s, A);
    NoView(s, A, k);
  }

  method PerformWrite(c: Coffee, op: Op, ghost A: FlatFs) returns (out: Outcome, ghost A': FlatFs)
    requires c.Valid() && op.Write?
    modifies c.vol, c.vol.flash.cells, c.files, c.fds, c`shortages, c`strandings
    ensures c.Valid() && c.Refusals() >= old(c.Refusals())
    ensures c.Refusals() == old(c.Refusals()) ==> Follows(old(c.Fs()), c.Fs(), A, op, out, A')
  {
    hide Ok, Stands, Writes, Answered, WellFormed, Volume.Valid, Volume.Disk;
    ghost var s, k := c.Fs(), op.fd;
    var r, stored := c.CfsWrite(op.fd, op.data);
    out := if r < 0 then Failed else Put(r);
    A' := A;
    if c.Refusals() == old(c.Refusals()) && Stands(s, A) {
      if Writable(s, k) {
        WholeWrite(s, c.Fs(), k, op.data, r, stored);
        StandsWellFormed(s, A);
        A' := WriteStands(s, c.Fs(), A, k, op.data);
      } else {
        NotWritable(s, A, k, op.data);
      }
    }
  }

  lemma WholeWrite(s: FsState, s': FsState, k: int, data: Bytes, r: int, stored: Bytes)
    requires Answered(s, s', k, data, r, stored) && r != -1 && |stored| >= |data|
    ensures r == |data| && Wrote(s, s', k, data) && Alone(s, s', k) && Appends(s, s', k) && KeptAfter(s, s', k, data)
  {
    hide Wrote, Alone, Appends, KeptAfter, Unharmed;
    assert data[..|data|] == data;
  }

  method PerformSeek(c: Coffee, op: Op, ghost A: FlatFs) returns (out: Outcome, ghost A': FlatFs)
    requires c.Valid() && op.Seek? && !SeeksTooFar(c.Fs(), op)
    modifies c.files, c.fds
    ensures c.Valid() && Follows(old(c.Fs()), c.Fs(), A, op, out, A')
  {
    hide Ok, Stands, Seeks, Base, WellFormed, SeekTarget, Sought, Volume.Valid, Volume.Disk;
    ghost var s := c.Fs();
    var r := c.CfsSeek(op.fd, op.offset, op.whence);
    out := if r < 0 then Failed else At(r);
    A' := A;
    ghost var to := SeekTarget(s, op.fd, op.offset, op.whence);
    if IsOpenFd(s, op.fd) && 0 <= to {
      if Stands(s, A) {
        StandsWellFormed(s, A);
        A' := SeekStands(s, A, op.fd, op.offset, op.whence);
      }
    } else if Stands(s, A) {
      NoSeek(s, A, op.fd, op.offset, op.whence);
    }
  }

  lemma NoSeek(s: FsState, A: FlatFs, k: int, offset: int, whence: SeekFrom)
    requires Ok(s) && Stands(s, A) && !(IsOpenFd(s, k) && 0 <= SeekTarget(s, k, offset, whence))
    ensures WellFormed(A) && Seeks(A, k, offset, whence, Failed, A)
  {
    hide Ok, Stands, NameOf, Stretched, Holds;
    StandsWellFormed(s, A);
    NoView(s, A, k);
    if IsOpenFd(s, k) {
      OpenView(s, A, k);
    }
  }

  method PerformOpen(c: Coffee, op: Op, ghost A: FlatFs) returns (out: Outcome, ghost A': FlatFs)
    requires c.Valid() && op.Open? && Asks(op)
    modifies c.vol, c.vol.flash.cells, c.files, c.fds, c`shortages, c`strandings
    ensures c.Valid() && c.Refusals() >= old(c.Refusals())
    ensures c.Refusals() == old(c.Refusals()) ==> Follows(old(c.Fs()), c.Fs(), A, op, out, A')
  {
    hide Ok, Stands, Opens, WellFormed, OpenedAside, OpenedContent, OpensKnown, SameView, SameViews, SameSharing;
    hide KnownAs, Content, Volume.Valid, Volume.Disk;
    ghost var s := c.Fs();
    var fd := c.CfsOpen(op.name, op.flags);
    out := if fd < 0 then Failed else Fd(fd);
    A' := A;
    if c.Refusals() == old(c.Refusals()) && Stands(s, A) {
      StandsWellFormed(s, A);
      if fd < 0 {
        NotOpened(s, c.Fs(), A, op.name, op.flags);
      } else {
        A' := OpenStands(s, c.Fs(), A, fd, op.name, op.flags);
      }
    }
  }

  /** Nobody notices a file that was not opened. */
  lemma NotOpened(s: FsState, s': FsState, A: FlatFs, name: Bytes, flags: bv8)
    requires Ok(s) && Stands(s, A) && SameViews(s, s') && s'.disk == s.disk && s'.files == s.files
    requires |s.files| == MAX_OPEN_FILES && NotFound(s, name) && forall j :: !KnownAs(s, j, name)
    requires flags & (CFS_READ | CFS_WRITE) == CFS_READ
    ensures WellFormed(A) && Opens(A, name, flags, Failed, A) && Stands(s', A)
  {
    hide Ok, KnownAs, FilesStand, Content, BlankPast, NameAt, Crowded;
    StandsWellFormed(s, A);
    NotFoundFlat(s, A, name);
    forall k | 0 <= k < |A.handles|
      ensures A.handles[k] == HandleAt(s', k)
    {
      assert SameView(s, s', k);
    }
  }

  method PerformClose(c: Coffee, op: Op, ghost A: FlatFs) returns (out: Outcome, ghost A': FlatFs)
    requires c.Valid() && op.Close?
    modifies c.files, c.fds
    ensures c.Valid() && Follows(old(c.Fs()), c.Fs(), A, op, out, A')
  {
    hide Ok, Stands, WellFormed, OpenCount, SameView, Volume.Valid, Volume.Disk;
    ghost var s, k := c.Fs(), op.fd;
    c.CfsClose(op.fd);
    out := Done;
    A' := A;
    if Stands(s, A) {
      StandsWellFormed(s, A);
      NoView(s, A, k);
      if IsOpenFd(s, k) {
        ClosedCount(s, k);
        CloseStands(s, A, k);
        A' := A.(handles := A.handles[k := Unused]);
      }
    }
  }

  method PerformRemove(c: Coffee, op: Op, ghost A: FlatFs) returns (out: Outcome, ghost A': FlatFs)
    requires c.Valid() && op.Remove?
    modifies c.vol, c.vol.flash.cells, c.files, c.fds
    ensures c.Valid() && Follows(old(c.Fs()), c.Fs(), A, op, out, A')
  {
    hide Ok, Stands, Removes, WellFormed, DiskWithout, SameView, SameSharing, OnFile, Rests, KnownAs, CachedAs;
    hide Volume.Valid, Volume.Disk;
    ghost var s := c.Fs();
    var r, page := c.CfsRemove(op.name);
    out := if r < 0 then Failed else Done;
    A' := A;
    if Stands(s, A) {
      StandsWellFormed(s, A);
      if r < 0 {
        NotRemoved(s, A, op.name);
      } else {
        A' := RemoveStands(s, c.Fs(), A, page, op.name);
      }
    }
  }

  lemma NotRemoved(s: FsState, A: FlatFs, name: Bytes)
    requires Ok(s) && Stands(s, A) && |s.files| == MAX_OPEN_FILES && NotFound(s, name)
    requires forall j :: !CachedAs(s, j, name)
    ensures Removes(A, name, Failed, A)
  {
    hide Ok, CachedAs, Stands, Crowded;
    assert forall j :: KnownAs(s, j, name) ==> CachedAs(s, j, name);
    NotFoundFlat(s, A, name);
  }

  /** One operation on the real file layer. */
  method Perform(c: Coffee, op: Op, ghost A: FlatFs) returns (out: Outcome, ghost A': FlatFs)
    requires c.Valid() && Asks(op) && !SeeksTooFar(c.Fs(), op)
    modifies c.vol, c.vol.flash.cells, c.files, c.fds, c`shortages, c`strandings
    ensures c.Valid() && c.Refusals() >= old(c.Refusals())
    ensures c.Refusals() == old(c.Refusals()) ==> Follows(old(c.Fs()), c.Fs(), A, op, out, A')
  {
    hide *;
    match op
    case Open(_, _) => out, A' := PerformOpen(c, op, A);
    case Close(_) => out, A' := PerformClose(c, op, A);
    case Read(_, _) => out, A' := PerformRead(c, op, A);
    case Write(_, _) => out, A' := PerformWrite(c, op, A);
    case Seek(_, _, _) => out, A' := PerformSeek(c, op, A);
    case Remove(_) => out, A' := PerformRemove(c, op, A);
  }

  /** Whether a seek leaves no room for the header. */
  method TooFar(c: Coffee, op: Op) returns (far: bool)
    requires c.Valid()
    ensures far == SeeksTooFar(c.Fs(), op)
  {
    hide Ok, Base, Volume.Valid, Volume.Disk;
    if !op.Seek? || !(0 <= op.fd < c.fds.Length) || !c.fds[op.fd].IsOpen() {
      return false;
    }
    OpenInRange(c.Fs(), op.fd);
    var to :=
      match op.whence
      case SeekSet => op.offset
      case SeekEnd => c.files[c.fds[op.fd].file].end + op.offset
      case SeekCur => c.fds[op.fd].offset + op.offset;
    far := 0 <= to && to + HEADER_SIZE > Base(c.files[c.fds[op.fd].file].maxPages);
  }

  // --------------------------------------------------------------------- whole runs

  lemma ExplainsMore(trace: seq<FlatFs>, ops: seq<Op>, outs: seq<Outcome>, out: Outcome, A': FlatFs)
    requires Explains(trace, ops, outs) && |outs| < |ops| && WellFormed(A')
    requires Step(trace[|outs|], ops[|outs|], out, A')
    ensures Explains(trace + [A'], ops, outs + [out])
  {
    hide Step, WellFormed;
    var t := trace + [A'];
    forall n | 0 <= n < |outs| + 1
      ensures WellFormed(t[n]) && Step(t[n], ops[n], (outs + [out])[n], t[n + 1])
    {
      if n < |outs| {
        assert t[n] == trace[n] && t[n + 1] == trace[n + 1];
      }
    }
  }

  /** Every run of the file operations gives what flat files give, up to a seek beyond
      the extent, as long as no request for an extent, a slot or a descriptor is
      refused. */
  method Replay(c: Coffee, ops: seq<Op>, ghost A: FlatFs) returns (outs: seq<Outcome>, ghost trace: seq<FlatFs>)
    requires c.Valid() && Stands(c.Fs(), A) && forall n :: 0 <= n < |ops| ==> Asks(ops[n])
    modifies c.vol, c.vol.flash.cells, c.files, c.fds, c`shortages, c`strandings
    ensures c.Valid() && c.Refusals() >= old(c.Refusals()) && |outs| <= |ops|
    ensures |outs| < |ops| ==> SeeksTooFar(c.Fs(), ops[|outs|])
    ensures c.Refusals() == old(c.Refusals()) ==>
      Explains(trace, ops, outs) && trace[0] == A && Stands(c.Fs(), trace[|outs|])
  {
    hide Ok, Stands, Step, SeeksTooFar, WellFormed, Volume.Valid, Volume.Disk;
    outs, trace := [], [A];
    StandsWellFormed(c.Fs(), A);
    while |outs| < |ops|
      invariant c.Valid() && |outs| <= |ops| && c.Refusals() >= old(c.Refusals())
      invariant |trace| == |outs| + 1 && trace[0] == A
      invariant c.Refusals() == old(c.Refusals()) ==> Explains(trace, ops, outs) && Stands(c.Fs(), trace[|outs|])
      decreases |ops| - |outs|
    {
      var far := TooFar(c, ops[|outs|]);
      if far {
        break;
      }
      var out; ghost var A';
      out, A' := Perform(c, ops[|outs|], trace[|outs|]);
      if c.Refusals() == old(c.Refusals()) {
        StandsWellFormed(c.Fs(), A');
        ExplainsMore(trace, ops, outs, out, A');
      }
      outs, trace := outs + [out], trace + [A'];
    }
  }

  /** A run from a formatted device starts with no files at all. */
  method RunFormatted(ops: seq<Op>) returns (c: Coffee, outs: seq<Outcome>, ghost trace: seq<FlatFs>)
    requires forall n :: 0 <= n < |ops| ==> Asks(ops[n])
    ensures c.Valid() && |outs| <= |ops| && (|outs| < |ops| ==> SeeksTooFar(c.Fs(), ops[|outs|]))
    ensures c.Refusals() == 0 ==>
      Explains(trace, ops, outs) && trace[0] == NoFiles(c.fds.Length) && Stands(c.Fs(), trace[|outs|])
  {
    hide Ok, Stands, SeeksTooFar, Explains, Volume.Valid, Volume.Disk;
    c := new Coffee();
    StandsForNothing(c.Fs());
    outs, trace := Replay(c, ops, NoFiles(c.fds.Length));
  }
}
