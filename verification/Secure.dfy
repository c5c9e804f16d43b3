/** The front end with a back end of byte sequences behind it. */
module SecureFiles {
  import opened FlashDevice
  import opened ByteValues
  import opened FileStates
  import opened FlatFiles
  import opened CallEffects
  import AC = AccessControl

  /** Who may do what, and the files themselves. */
  datatype Secure = Secure(acl: AC.Acl, flat: FlatFs)

  /** TO_PUBLIC_STR */
  function Public(name: AC.Name): Bytes {
    [ToByte(name)] + seq(NAME_LENGTH - 1, _ => 0)
  }

  lemma PublicInjective(a: AC.Name, b: AC.Name)
    ensures Public(a) == Public(b) ==> a == b
  {
    hide ToByte, ToNat;
    ByteRoundTrip(a);
    ByteRoundTrip(b);
    assert Public(a)[0] == ToByte(a) && Public(b)[0] == ToByte(b);
  }

  /** What the front end opens everything with. */
  const READ_WRITE: bv8 := CFS_READ | CFS_WRITE

  function WhenceOf(origin: int): AC.Option<SeekFrom> {
    if origin == 0 then AC.Some(SeekSet)
    else if origin == 1 then AC.Some(SeekCur)
    else if origin == 2 then AC.Some(SeekEnd)
    else AC.None
  }

  // ---------------------------------------------------------------- one request

  /** The number that an outcome is reported with, and the character for a read. */
  predicate Reported(out: Outcome, answer: int, read: AC.Octet) {
    match out
    case Failed => answer == -1
    case Done => answer == 0
    case Fd(fd) => answer == fd
    case Got(b) => answer == |b| && (b != [] ==> b[0] == ToByte(read))
    case Put(n) => answer == n
    case At(o) => answer == o
  }

  ghost predicate Performs(A: FlatFs, op: Op, answer: int, read: AC.Octet, A': FlatFs)
    requires WellFormed(A)
  {
    exists out :: Step(A, op, out, A') && Reported(out, answer, read) && WellFormed(A')
  }

  /** The back end does what it is asked for. The name and the size of a file are public;
      the size says nothing to this back end. */
  ghost predicate Obeys(A: FlatFs, r: AC.Request, answer: int, read: AC.Octet, A': FlatFs)
    requires WellFormed(A)
  {
    match r
    case Opened(name, size) => Performs(A, Open(Public(name), READ_WRITE), answer, read, A')
    case Closed(fd) => Step(A, Close(fd), Done, A') && WellFormed(A')
    case Read(fd) => Performs(A, Read(fd, 1), answer, read, A')
    case Written(fd, c) => Performs(A, Write(fd, [ToByte(c)]), answer, read, A')
    case Sought(fd, offset, origin) =>
      if WhenceOf(origin).None? then A' == A && answer == -1
      else Performs(A, Seek(fd, offset, WhenceOf(origin).value), answer, read, A')
    case Deleted(name) => Performs(A, Remove(Public(name)), answer, read, A')
  }

  /** All the requests of a call, one after the other; `answer` and `read` belong to the
      one that is not a close. */
  ghost predicate Obeyed(A: FlatFs, rs: seq<AC.Request>, answer: int, read: AC.Octet, A': FlatFs)
    requires WellFormed(A)
    decreases |rs|
  {
    if rs == [] then A' == A
    else exists M :: WellFormed(M) && Obeys(A, rs[0], answer, read, M) && Obeyed(M, rs[1..], answer, read, A')
  }

  function AnswerOf(i: AC.Invocation): int {
    match i
    case SfsOpen(_, _, _, _, answer) => answer
    case SfsRemove(_, _, answer) => answer
    case SfsGetc(_, _, answer, _) => answer
    case SfsPutc(_, _, _, answer) => answer
    case SfsSeek(_, _, _, _, answer) => answer
    case _ => 0
  }

  function ReadOf(i: AC.Invocation): AC.Octet {
    if i.SfsGetc? then i.read else 0
  }

  /** A call: the front end decides and answers, and the back end obeys. */
  ghost predicate Call(S: Secure, i: AC.Invocation, result: int, S': Secure)
    requires WellFormed(S.flat)
  {
    && AC.Serve(S.acl, i).acl == S'.acl && AC.Serve(S.acl, i).result == result
    && Obeyed(S.flat, AC.Serve(S.acl, i).requests, AnswerOf(i), ReadOf(i), S'.flat)
    && WellFormed(S'.flat)
  }

  // --------------------------------------------------------------- the two together

  /** Every descriptor of the front end is open behind it, on the file of that name, for
      both ways. */
  ghost predicate Linked(S: Secure) {
    && AC.Inv(S.acl) && WellFormed(S.flat)
    && forall fd :: InCache(S.acl, fd) && S.acl.fds[fd].Some? ==>
         && IsHandle(S.flat, fd) && S.flat.handles[fd].flags == READ_WRITE
         && S.flat.handles[fd].name == Public(S.acl.fds[fd].value.name)
  }

  // Calls with one request, with none, and the two others.

  lemma One(A: FlatFs, r: AC.Request, answer: int, read: AC.Octet, A': FlatFs)
    requires WellFormed(A) && Obeyed(A, [r], answer, read, A')
    ensures Obeys(A, r, answer, read, A')
  {
    hide Obeys, WellFormed;
    var M :| WellFormed(M) && Obeys(A, r, answer, read, M) && Obeyed(M, [r][1..], answer, read, A');
  }

  /** An open that was answered with a descriptor out of range. */
  lemma OpenedInVain(A: FlatFs, r: AC.Request, fd: int, answer: int, read: AC.Octet, A': FlatFs) returns (M: FlatFs)
    requires WellFormed(A) && Obeyed(A, [r, AC.Closed(fd)], answer, read, A')
    ensures WellFormed(M) && Obeys(A, r, answer, read, M) && Step(M, Close(fd), Done, A')
  {
    hide WellFormed, Step, Performs;
    M :| WellFormed(M) && Obeys(A, r, answer, read, M) && Obeyed(M, [r, AC.Closed(fd)][1..], answer, read, A');
    assert [r, AC.Closed(fd)][1..] == [AC.Closed(fd)];
    One(M, AC.Closed(fd), answer, read, A');
  }

  /** Nothing but closes. */
  lemma {:induction false} AllClosed(A: FlatFs, rs: seq<AC.Request>, answer: int, read: AC.Octet, A': FlatFs)
    requires WellFormed(A) && Obeyed(A, rs, answer, read, A') && forall r :: r in rs ==> r.Closed?
    ensures A'.files == A.files && |A'.handles| == |A.handles|
    ensures forall k :: 0 <= k < |A.handles| && AC.Closed(k) !in rs ==> A'.handles[k] == A.handles[k]
    decreases |rs|
  {
    hide WellFormed;
    if rs != [] {
      assert rs[0].Closed?;
      var M :| WellFormed(M) && Obeys(A, rs[0], answer, read, M) && Obeyed(M, rs[1..], answer, read, A');
      AllClosed(M, rs[1..], answer, read, A');
      forall k | 0 <= k < |A.handles| && AC.Closed(k) !in rs
        ensures A'.handles[k] == A.handles[k]
      {
        assert rs[0] != AC.Closed(k);
      }
    }
  }

  /** What is behind a name that was not touched. */
  predicate Untouched(A: FlatFs, A': FlatFs, b: Bytes) {
    (b in A.files <==> b in A'.files) && (b in A.files ==> A'.files[b].data == A.files[b].data)
  }

  lemma FadesUntouched(A: FlatFs, A': FlatFs, name: Bytes, b: Bytes)
    requires OthersFade(A, A', name) && A'.files.Keys == A.files.Keys + {name} && b != name
    ensures Untouched(A, A', b)
  {
    assert b in A'.files.Keys <==> b in A.files.Keys;
  }

  // ------------------------------------------------------------------- one by one

  /** The lowest free descriptor of the back end, on the file of this name. */
  lemma OpenedBehind(A: FlatFs, name: AC.Name, answer: int, read: AC.Octet, A': FlatFs)
    requires WellFormed(A) && Performs(A, Open(Public(name), READ_WRITE), answer, read, A')
    ensures answer < 0 ==> answer == -1 && A' == A
    ensures answer >= 0 ==>
      && answer < |A.handles| == |A'.handles| && !IsHandle(A, answer)
      && IsHandle(A', answer) && A'.handles[answer].name == Public(name) && A'.handles[answer].flags == READ_WRITE
      && (forall k :: 0 <= k < |A.handles| && k != answer ==> A'.handles[k] == A.handles[k])
      && (forall b :: b != Public(name) ==> Untouched(A, A', b))
      && Public(name) in A'.files
      && (Public(name) !in A.files ==> A'.files[Public(name)].data == [])
      && (Public(name) in A.files ==>
            || A'.files[Public(name)].data == A.files[Public(name)].data
            || (A.files[Public(name)].kept <= |A.files[Public(name)].data|
                && A'.files[Public(name)].data == A.files[Public(name)].data[..A.files[Public(name)].kept]))
  {
    hide WellFormed, Crowded, Public, AllZeros;
    var out :| Step(A, Open(Public(name), READ_WRITE), out, A') && Reported(out, answer, read) && WellFormed(A');
    if out.Fd? {
      forall b | b != Public(name)
        ensures Untouched(A, A', b)
      {
        if OthersFade(A, A', Public(name)) {
          FadesUntouched(A, A', Public(name), b);
        }
      }
      if Public(name) in A.files {
        KeptWithin(A, Public(name));
      }
    }
  }

  lemma ReadBehind(A: FlatFs, fd: int, answer: int, read: AC.Octet, A': FlatFs)
    requires WellFormed(A) && Performs(A, Read(fd, 1), answer, read, A')
    requires IsHandle(A, fd) && A.handles[fd].flags == READ_WRITE
    ensures var h, d := A.handles[fd], FileOf(A, fd).data;
      && h.offset <= |d| && A' == A.(handles := A.handles[fd := h.(offset := h.offset + answer)])
      && if h.offset < |d| then answer == 1 && ToByte(read) == d[h.offset] else answer == 0
  {
    var out :| Step(A, Read(fd, 1), out, A') && Reported(out, answer, read) && WellFormed(A');
  }

  lemma WrittenBehind(A: FlatFs, fd: int, c: AC.Octet, answer: int, read: AC.Octet, A': FlatFs)
    requires WellFormed(A) && Performs(A, Write(fd, [ToByte(c)]), answer, read, A')
    requires IsHandle(A, fd) && A.handles[fd].flags == READ_WRITE
    ensures var h, d := A.handles[fd], FileOf(A, fd).data;
      && answer == 1 && A'.handles == A.handles[fd := h.(offset := h.offset + 1)]
      && h.name in A.files && h.name in A'.files && h.offset <= |d|
      && A'.files[h.name].data == d[..h.offset] + [ToByte(c)] + if h.offset + 1 < |d| then d[h.offset + 1..] else []
    ensures forall b :: b != A.handles[fd].name ==> Untouched(A, A', b)
  {
    hide Sensible, ToByte;
    var name := A.handles[fd].name;
    var out :| Step(A, Write(fd, [ToByte(c)]), out, A') && Reported(out, answer, read) && WellFormed(A');
    assert A'.files.Keys == A.files.Keys + {name};
    forall b | b != name
      ensures Untouched(A, A', b)
    {
      FadesUntouched(A, A', name, b);
    }
  }

  lemma SoughtBehind(A: FlatFs, fd: int, offset: int, whence: SeekFrom, answer: int, read: AC.Octet, A': FlatFs)
    requires WellFormed(A) && Performs(A, Seek(fd, offset, whence), answer, read, A') && IsHandle(A, fd)
    ensures var h, d := A.handles[fd], FileOf(A, fd).data;
      if answer < 0 then answer == -1 && A' == A
      else
        && answer == Target(A, fd, offset, whence) && A'.handles == A.handles[fd := h.(offset := answer)]
        && h.name in A'.files && |d| <= |A'.files[h.name].data| && A'.files[h.name].data[..|d|] == d
        && (answer <= |d| ==> A'.files == A.files)
    ensures Target(A, fd, offset, whence) >= 0 ==> answer >= 0
    ensures forall b :: b != A.handles[fd].name ==> Untouched(A, A', b)
  {
    hide Sensible;
    var out :| Step(A, Seek(fd, offset, whence), out, A') && Reported(out, answer, read) && WellFormed(A');
  }

  lemma RemovedBehind(A: FlatFs, name: Bytes, answer: int, read: AC.Octet, A': FlatFs)
    requires WellFormed(A) && Performs(A, Remove(name), answer, read, A')
    ensures |A'.handles| == |A.handles|
    ensures forall k :: 0 <= k < |A.handles| && !(IsHandle(A, k) && A.handles[k].name == name) ==>
      A'.handles[k] == A.handles[k]
    ensures forall b :: b != name ==> Untouched(A, A', b)
    ensures name in A'.files ==> A' == A
  {
    hide Sensible, Crowded;
    var out :| Step(A, Remove(name), out, A') && Reported(out, answer, read) && WellFormed(A');
    if out.Done? {
      forall b | b != name
        ensures Untouched(A, A', b)
      {
        assert b in A'.files.Keys <==> b in A.files.Keys;
      }
    }
  }

  // ------------------------------------------------------------------- whole calls

  lemma Behind(S: Secure, fd: int)
    requires Linked(S) && InCache(S.acl, fd) && S.acl.fds[fd].Some?
    ensures IsHandle(S.flat, fd) && S.flat.handles[fd].flags == READ_WRITE
    ensures S.flat.handles[fd].name == Public(S.acl.fds[fd].value.name)
  {
    hide WellFormed, AC.Inv;
  }

  /** The back end never answers an open with a descriptor that is in use. */
  lemma AnswersAreFresh(S: Secure, i: AC.Invocation, result: int, S': Secure)
    requires Linked(S) && Call(S, i, result, S') && i.SfsOpen? && MayOpen(S.acl, i.caller, i.name, i.flags, i.size)
    ensures InCache(S.acl, i.answer) ==> S.acl.fds[i.answer].None?
  {
    hide WellFormed, AC.Inv, AC.Grants, Step, Performs;
    if InCache(S.acl, i.answer) {
      One(S.flat, AC.Opened(i.name, i.size), i.answer, 0, S'.flat);
      OpenedBehind(S.flat, i.name, i.answer, 0, S'.flat);
    }
  }

  /** The two stay linked over every call. */
  lemma CallKeepsLinked(S: Secure, i: AC.Invocation, result: int, S': Secure)
    requires Linked(S) && Call(S, i, result, S')
    ensures Linked(S')
  {
    hide WellFormed, AC.Inv, AC.Grants, Step, Performs, Obeyed;
    AC.ServeKeeps(S.acl, i);
    forall fd | InCache(S'.acl, fd) && S'.acl.fds[fd].Some?
      ensures IsHandle(S'.flat, fd) && S'.flat.handles[fd].flags == READ_WRITE
      ensures S'.flat.handles[fd].name == Public(S'.acl.fds[fd].value.name)
    {
      StaysBehind(S, i, result, S', fd);
    }
  }

  /** What one descriptor of the front end has behind it afterwards. */
  lemma StaysBehind(S: Secure, i: AC.Invocation, result: int, S': Secure, fd: int)
    requires Linked(S) && Call(S, i, result, S') && InCache(S'.acl, fd) && S'.acl.fds[fd].Some?
    ensures IsHandle(S'.flat, fd) && S'.flat.handles[fd].flags == READ_WRITE
    ensures S'.flat.handles[fd].name == Public(S'.acl.fds[fd].value.name)
  {
    hide WellFormed, AC.Grants, Step, Performs, Obeys;
    match i
    case SfsOpen(_, _, _, _, _) => OpenStaysBehind(S, i, result, S', fd);
    case SfsClose(_, _) => CloseStaysBehind(S, i, result, S', fd);
    case SfsRemove(_, _, _) => RemoveStaysBehind(S, i, result, S', fd);
    case SfsChmod(_, _, _, _) => ChmodStaysBehind(S, i, result, S', fd);
    case SfsAttest(_, _, _) => Behind(S, fd);
    case _ => UseStaysBehind(S, i, result, S', fd);
  }

  lemma OpenStaysBehind(S: Secure, i: AC.Invocation, result: int, S': Secure, fd: int)
    requires Linked(S) && Call(S, i, result, S') && InCache(S'.acl, fd) && S'.acl.fds[fd].Some? && i.SfsOpen?
    ensures IsHandle(S'.flat, fd) && S'.flat.handles[fd].flags == READ_WRITE
    ensures S'.flat.handles[fd].name == Public(S'.acl.fds[fd].value.name)
  {
    hide WellFormed, AC.Grants, Performs;
    if S.acl.fds[fd].Some? {
      Behind(S, fd);
    }
    if MayOpen(S.acl, i.caller, i.name, i.flags, i.size) {
      AnswersAreFresh(S, i, result, S');
      if InCache(S.acl, i.answer) {
        One(S.flat, AC.Opened(i.name, i.size), i.answer, 0, S'.flat);
        OpenedBehind(S.flat, i.name, i.answer, 0, S'.flat);
      } else {
        var M := OpenedInVain(S.flat, AC.Opened(i.name, i.size), i.answer, i.answer, 0, S'.flat);
        OpenedBehind(S.flat, i.name, i.answer, 0, M);
      }
    }
  }

  lemma CloseStaysBehind(S: Secure, i: AC.Invocation, result: int, S': Secure, fd: int)
    requires Linked(S) && Call(S, i, result, S') && InCache(S'.acl, fd) && S'.acl.fds[fd].Some? && i.SfsClose?
    ensures IsHandle(S'.flat, fd) && S'.flat.handles[fd].flags == READ_WRITE
    ensures S'.flat.handles[fd].name == Public(S'.acl.fds[fd].value.name)
  {
    hide WellFormed, AC.Grants, Performs;
    Behind(S, fd);
    if AC.Owns(S.acl, i.caller, i.fd) {
      One(S.flat, AC.Closed(i.fd), 0, 0, S'.flat);
    }
  }

  lemma RemoveStaysBehind(S: Secure, i: AC.Invocation, result: int, S': Secure, fd: int)
    requires Linked(S) && Call(S, i, result, S') && InCache(S'.acl, fd) && S'.acl.fds[fd].Some? && i.SfsRemove?
    ensures IsHandle(S'.flat, fd) && S'.flat.handles[fd].flags == READ_WRITE
    ensures S'.flat.handles[fd].name == Public(S'.acl.fds[fd].value.name)
  {
    hide WellFormed, AC.Grants, Performs, Step, AC.Inv, Public;
    Behind(S, fd);
    PublicInjective(i.name, S.acl.fds[fd].value.name);
    if MayRemove(S.acl, i.caller, i.name) {
      One(S.flat, AC.Deleted(i.name), i.answer, 0, S'.flat);
      RemovedBehind(S.flat, Public(i.name), i.answer, 0, S'.flat);
    }
  }

  lemma ChmodStaysBehind(S: Secure, i: AC.Invocation, result: int, S': Secure, fd: int)
    requires Linked(S) && Call(S, i, result, S') && InCache(S'.acl, fd) && S'.acl.fds[fd].Some? && i.SfsChmod?
    ensures IsHandle(S'.flat, fd) && S'.flat.handles[fd].flags == READ_WRITE
    ensures S'.flat.handles[fd].name == Public(S'.acl.fds[fd].value.name)
  {
    hide WellFormed, AC.Grants, Performs, Step, Obeyed, AC.Serve;
    SameCache(S.acl, i);
    DescriptorsExactly(S.acl, i, fd);
    RequestsExactly(S.acl, i);
    Behind(S, fd);
    var rs := AC.Serve(S.acl, i).requests;
    assert forall r :: r in rs ==> r.Closed?;
    AllClosed(S.flat, rs, 0, 0, S'.flat);
  }

  lemma SameCache(s: AC.Acl, i: AC.Invocation)
    requires AC.Inv(s)
    ensures |AC.Serve(s, i).acl.fds| == |s.fds|
  {
    AC.ServeKeeps(s, i);
    hide AC.Serve;
  }

  lemma UseStaysBehind(S: Secure, i: AC.Invocation, result: int, S': Secure, fd: int)
    requires Linked(S) && Call(S, i, result, S') && InCache(S'.acl, fd) && S'.acl.fds[fd].Some?
    requires i.SfsGetc? || i.SfsPutc? || i.SfsSeek?
    ensures IsHandle(S'.flat, fd) && S'.flat.handles[fd].flags == READ_WRITE
    ensures S'.flat.handles[fd].name == Public(S'.acl.fds[fd].value.name)
  {
    hide WellFormed, AC.Grants, Performs, Step, AC.Inv, Public;
    Behind(S, fd);
    if i.SfsGetc? && AC.MayUse(S.acl, i.caller, i.fd, AC.SFS_READ) {
      Behind(S, i.fd);
      One(S.flat, AC.Read(i.fd), i.answer, i.read, S'.flat);
      ReadBehind(S.flat, i.fd, i.answer, i.read, S'.flat);
    } else if i.SfsPutc? && AC.MayUse(S.acl, i.caller, i.fd, AC.SFS_WRITE) {
      Behind(S, i.fd);
      One(S.flat, AC.Written(i.fd, i.c), i.answer, 0, S'.flat);
      WrittenBehind(S.flat, i.fd, i.c, i.answer, 0, S'.flat);
    } else if i.SfsSeek? && AC.Owns(S.acl, i.caller, i.fd) {
      Behind(S, i.fd);
      One(S.flat, AC.Sought(i.fd, i.offset, i.origin), i.answer, 0, S'.flat);
      if WhenceOf(i.origin).Some? {
        SoughtBehind(S.flat, i.fd, i.offset, WhenceOf(i.origin).value, i.answer, 0, S'.flat);
      }
    }
  }

  // -------------------------------------------------------------------- what it is for

  /** A module that may write and read writes a character, seeks back to where it stood,
      and reads: it gets the character it wrote. */
  lemma PutSeekGet(S0: Secure, S1: Secure, S2: Secure, S3: Secure, caller: AC.ModuleId, fd: int, c: AC.Octet,
        put: int, sought: int, got: int, x: AC.Octet, r1: int, r2: int, r3: int)
    requires Linked(S0) && AC.MayUse(S0.acl, caller, fd, AC.SFS_WRITE) && AC.MayUse(S0.acl, caller, fd, AC.SFS_READ)
    requires IsHandle(S0.flat, fd)
    requires Call(S0, AC.SfsPutc(caller, fd, c, put), r1, S1)
    requires Linked(S1) && Call(S1, AC.SfsSeek(caller, fd, S0.flat.handles[fd].offset, 0, sought), r2, S2)
    requires Linked(S2) && Call(S2, AC.SfsGetc(caller, fd, got, x), r3, S3)
    ensures r1 == AC.CharOf(c) && r2 == S0.flat.handles[fd].offset && r3 == AC.CharOf(c)
  {
    hide WellFormed, AC.Grants, Performs, Step, AC.Inv, Public, ToByte;
    Behind(S0, fd);
    One(S0.flat, AC.Written(fd, c), put, 0, S1.flat);
    WrittenBehind(S0.flat, fd, c, put, 0, S1.flat);
    Behind(S1, fd);
    One(S1.flat, AC.Sought(fd, S0.flat.handles[fd].offset, 0), sought, 0, S2.flat);
    SoughtBehind(S1.flat, fd, S0.flat.handles[fd].offset, SeekSet, sought, 0, S2.flat);
    Behind(S2, fd);
    One(S2.flat, AC.Read(fd), got, x, S3.flat);
    ReadBehind(S2.flat, fd, got, x, S3.flat);
    hide ToNat;
    ByteRoundTrip(c);
    ByteRoundTrip(x);
  }

  /** The name of the file behind a descriptor that the caller may use. */
  predicate Through(S: Secure, caller: AC.ModuleId, fd: int, want: AC.Flags, name: Bytes) {
    AC.MayUse(S.acl, caller, fd, want) && Public(S.acl.fds[fd].value.name) == name
  }

  /** How a call may change the file called `b`: a writer puts one character where its
      descriptor stands; the owner of a descriptor moves behind the end, and what was
      there stays; somebody who may opens it, and finds what its extent kept, or makes it;
      a holder of SFS_ROOT removes it. */
  ghost predicate Changes(S: Secure, i: AC.Invocation, S': Secure, b: Bytes)
    requires Linked(S)
  {
    match i
    case SfsPutc(caller, fd, c, _) =>
      && Through(S, caller, fd, AC.SFS_WRITE, b) && IsHandle(S.flat, fd) && b in S.flat.files && b in S'.flat.files
      && var o, d := S.flat.handles[fd].offset, S.flat.files[b].data;
         && o <= |d|
         && S'.flat.files[b].data == d[..o] + [ToByte(c)] + if o + 1 < |d| then d[o + 1..] else []
    case SfsSeek(caller, fd, _, _, _) =>
      && Through(S, caller, fd, AC.SFS_NIL, b) && b in S.flat.files && b in S'.flat.files
      && S.flat.files[b].data <= S'.flat.files[b].data
    case SfsOpen(caller, name, flags, size, _) =>
      && MayOpen(S.acl, caller, name, flags, size) && Public(name) == b && b in S'.flat.files
      && if b in S.flat.files then S'.flat.files[b].data <= S.flat.files[b].data else S'.flat.files[b].data == []
    case SfsRemove(caller, name, _) => MayRemove(S.acl, caller, name) && Public(name) == b
    case _ => false
  }

  /** Integrity: over any call, every file is what it was, or one of these changed it. */
  lemma OnlyWritersWrite(S: Secure, i: AC.Invocation, result: int, S': Secure, b: Bytes)
    requires Linked(S) && Call(S, i, result, S')
    ensures Untouched(S.flat, S'.flat, b) || Changes(S, i, S', b)
  {
    hide WellFormed, AC.Grants, AC.Inv, Performs, Step, Public, ToByte;
    match i
    case SfsGetc(caller, fd, answer, read) =>
      if AC.MayUse(S.acl, caller, fd, AC.SFS_READ) {
        Behind(S, fd);
        One(S.flat, AC.Read(fd), answer, read, S'.flat);
        ReadBehind(S.flat, fd, answer, read, S'.flat);
      }
    case SfsPutc(caller, fd, c, answer) =>
      if AC.MayUse(S.acl, caller, fd, AC.SFS_WRITE) {
        Behind(S, fd);
        One(S.flat, AC.Written(fd, c), answer, 0, S'.flat);
        WrittenBehind(S.flat, fd, c, answer, 0, S'.flat);
      }
    case SfsSeek(caller, fd, offset, origin, answer) => OnlyStretches(S, i, result, S', b);
    case SfsOpen(caller, name, flags, size, answer) => OnlyFinds(S, i, result, S', b);
    case SfsRemove(caller, name, answer) =>
      if MayRemove(S.acl, caller, name) {
        One(S.flat, AC.Deleted(name), answer, 0, S'.flat);
        RemovedBehind(S.flat, Public(name), answer, 0, S'.flat);
      }
    case SfsClose(caller, fd) =>
      if AC.Owns(S.acl, caller, fd) {
        One(S.flat, AC.Closed(fd), 0, 0, S'.flat);
        ClosedBehind(S.flat, fd, S'.flat);
      }
    case SfsChmod(caller, name, id, newFlags) =>
      RequestsExactly(S.acl, i);
      AllClosed(S.flat, AC.Serve(S.acl, i).requests, 0, 0, S'.flat);
    case SfsAttest(_, _, _) =>
  }

  lemma ClosedBehind(A: FlatFs, fd: int, A': FlatFs)
    requires WellFormed(A) && Step(A, Close(fd), Done, A')
    ensures A'.files == A.files
  {
  }

  lemma OnlyStretches(S: Secure, i: AC.Invocation, result: int, S': Secure, b: Bytes)
    requires Linked(S) && Call(S, i, result, S') && i.SfsSeek?
    ensures Untouched(S.flat, S'.flat, b) || Changes(S, i, S', b)
  {
    hide WellFormed, AC.Inv, Performs, Step, Public;
    if AC.Owns(S.acl, i.caller, i.fd) {
      Behind(S, i.fd);
      NothingIsGranted(S.acl, i.caller, i.fd);
      One(S.flat, AC.Sought(i.fd, i.offset, i.origin), i.answer, 0, S'.flat);
      if WhenceOf(i.origin).Some? {
        SoughtBehind(S.flat, i.fd, i.offset, WhenceOf(i.origin).value, i.answer, 0, S'.flat);
        HasFile(S.flat, i.fd);
      }
    }
  }

  lemma HasFile(A: FlatFs, fd: int)
    requires WellFormed(A) && IsHandle(A, fd)
    ensures A.handles[fd].name in A.files
  {
  }

  /** To own a descriptor is to hold no flags at all on its file, at least. */
  lemma NothingIsGranted(s: AC.Acl, caller: AC.ModuleId, fd: int)
    requires AC.Inv(s) && AC.Owns(s, caller, fd)
    ensures AC.MayUse(s, caller, fd, AC.SFS_NIL)
  {
  }

  lemma OnlyFinds(S: Secure, i: AC.Invocation, result: int, S': Secure, b: Bytes)
    requires Linked(S) && Call(S, i, result, S') && i.SfsOpen?
    ensures Untouched(S.flat, S'.flat, b) || Changes(S, i, S', b)
  {
    hide WellFormed, AC.Grants, AC.Inv, Performs, Public;
    if MayOpen(S.acl, i.caller, i.name, i.flags, i.size) {
      if InCache(S.acl, i.answer) {
        One(S.flat, AC.Opened(i.name, i.size), i.answer, 0, S'.flat);
        OpenedBehind(S.flat, i.name, i.answer, 0, S'.flat);
      } else {
        var M := OpenedInVain(S.flat, AC.Opened(i.name, i.size), i.answer, i.answer, 0, S'.flat);
        OpenedBehind(S.flat, i.name, i.answer, 0, M);
        ClosedBehind(M, i.answer, S'.flat);
        assert S'.flat.files == M.files;
        if i.answer < 0 {
          assert Untouched(S.flat, S'.flat, b);
        } else if b != Public(i.name) {
          assert Untouched(S.flat, M, b);
          assert Untouched(S.flat, S'.flat, b);
        } else {
          assert Changes(S, i, S', b);
        }
      }
    }
  }

  lemma NothingYet(n: nat)
    ensures Linked(Secure(AC.Empty(), NoFiles(n)))
  {
    AC.EmptyInv();
  }

  /** The calls `calls`, with the answers `rs`, lead through the states of `trace`. */
  ghost predicate Runs(trace: seq<Secure>, calls: seq<AC.Invocation>, rs: seq<int>) {
    && |trace| == |calls| + 1 == |rs| + 1 && Linked(trace[0])
    && forall n :: 0 <= n < |calls| ==> WellFormed(trace[n].flat) && Call(trace[n], calls[n], rs[n], trace[n + 1])
  }

  lemma {:induction false} RunLinked(trace: seq<Secure>, calls: seq<AC.Invocation>, rs: seq<int>, n: nat)
    requires Runs(trace, calls, rs) && n < |trace|
    ensures Linked(trace[n])
  {
    hide Linked, Call, WellFormed;
    if n > 0 {
      RunLinked(trace, calls, rs, n - 1);
      CallKeepsLinked(trace[n - 1], calls[n - 1], rs[n - 1], trace[n]);
    }
  }

  /** Integrity over whole runs: without a call that may change it, a file is at the end
      what it was at the beginning. */
  lemma {:induction false} RunUntouched(trace: seq<Secure>, calls: seq<AC.Invocation>, rs: seq<int>, b: Bytes, n: nat)
    requires Runs(trace, calls, rs) && n < |trace|
    requires forall k :: 0 <= k < n && Linked(trace[k]) ==> !Changes(trace[k], calls[k], trace[k + 1], b)
    ensures Untouched(trace[0].flat, trace[n].flat, b)
  {
    hide Linked, Call, Changes, WellFormed;
    if n > 0 {
      RunUntouched(trace, calls, rs, b, n - 1);
      RunLinked(trace, calls, rs, n - 1);
      OnlyWritersWrite(trace[n - 1], calls[n - 1], rs[n - 1], trace[n], b);
    }
  }
}
