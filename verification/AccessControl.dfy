/** The access-control front end of the file system, as a map from files and modules to
    permissions and a table of descriptors. */
module AccessControl {
  type ModuleId = nat
  /** A file name is one character. */
  type Name = Octet
  type Flags = bv16

  const MAX_NB_OPEN_FILES: nat := 8
  const MAX_NB_FILES: nat := 5
  const MAX_NB_PERMS: nat := 10

  const SFS_NIL: Flags := 0x00
  const SFS_CREATOR: Flags := 0xff
  const SFS_ROOT: Flags := 0x7f
  const SFS_READ: Flags := 0x01
  const SFS_WRITE: Flags := 0x02

  const SUCCESS: int := 1
  /** EOF as well. */
  const FAILURE: int := -1

  /** An unsigned char. */
  type Octet = x: int | 0 <= x < 256

  /** Whether the compiler's plain char has a sign. */
  const SIGNED_CHAR: bool

  /** What an octet is worth after it was kept in a plain char. */
  function CharOf(c: Octet): int {
    if SIGNED_CHAR && c >= 128 then c - 256 else c
  }

  lemma CharOfIs(c: Octet)
    ensures (CharOf(c) - c) % 256 == 0
    ensures if SIGNED_CHAR then -128 <= CharOf(c) < 128 else 0 <= CharOf(c) < 256
  {
  }

  /** A file and a module that may use it. */
  datatype Key = Key(name: Name, sm: ModuleId)

  datatype Option<T> = None | Some(value: T)

  /** Who may do what with which file, who created it, which descriptor was opened by whom
      on what, and how many structures the pools have left. */
  datatype Acl = Acl(
    perms: map<Key, Flags>,
    owners: map<Name, ModuleId>,
    fds: seq<Option<Key>>,
    freePerms: nat,
    freeFiles: nat)

  /** What reaches the back end. */
  datatype Request =
    | Opened(name: Name, size: int)
    | Closed(fd: int)
    | Read(fd: int)
    | Written(fd: int, c: Octet)
    | Sought(fd: int, offset: int, origin: int)
    | Deleted(name: Name)

  datatype Reply = Reply(acl: Acl, result: int, requests: seq<Request>)

  function Empty(): Acl {
    Acl(map[], map[], seq(MAX_NB_OPEN_FILES, _ => None), MAX_NB_PERMS, MAX_NB_FILES)
  }

  function Refused(s: Acl): Reply {
    Reply(s, FAILURE, [])
  }

  // ------------------------------------------------------------------ permissions

  /** CHK_PERM */
  predicate Grants(have: Flags, want: Flags) {
    have & want == want
  }

  /** All the flags that are wanted, and each of them, must be there. */
  lemma GrantsBoth(have: Flags, a: Flags, b: Flags)
    ensures Grants(have, a | b) <==> Grants(have, a) && Grants(have, b)
  {
    BothBits(have, a, b);
  }

  lemma BothBits(h: bv16, a: bv16, b: bv16)
    ensures h & (a | b) == a | b <==> h & a == a && h & b == b
  {
    assert h & (a | b) == (h & a) | (h & b);
    if h & (a | b) == a | b {
      BitPart(h, a, b);
      assert a | b == b | a;
      BitPart(h, b, a);
    }
  }

  lemma BitPart(h: bv16, a: bv16, b: bv16)
    requires h & (a | b) == a | b
    ensures h & a == a
  {
    assert a == (a | b) & a;
    assert (h & (a | b)) & a == h & ((a | b) & a);
  }

  lemma GrantsNothing(have: Flags)
    ensures Grants(have, SFS_NIL) && (Grants(SFS_NIL, have) <==> have == SFS_NIL)
  {
  }

  /** A creator may do everything, a root everything but call itself the creator. */
  lemma FlagOrder()
    ensures Grants(SFS_CREATOR, SFS_ROOT) && !Grants(SFS_ROOT, SFS_CREATOR)
    ensures Grants(SFS_ROOT, SFS_READ | SFS_WRITE) && !Grants(SFS_READ | SFS_WRITE, SFS_ROOT)
    ensures !Grants(SFS_READ, SFS_WRITE) && !Grants(SFS_WRITE, SFS_READ)
  {
  }

  predicate Holds(s: Acl, sm: ModuleId, name: Name, want: Flags) {
    Key(name, sm) in s.perms && Grants(s.perms[Key(name, sm)], want)
  }

  /** CHK_FD: the descriptor is open and belongs to the caller. */
  predicate Owns(s: Acl, caller: ModuleId, fd: int) {
    0 <= fd < |s.fds| && s.fds[fd].Some? && s.fds[fd].value.sm == caller
  }

  /** The caller's permission on the file behind its descriptor, as it is now. */
  predicate MayUse(s: Acl, caller: ModuleId, fd: int, want: Flags) {
    Owns(s, caller, fd) && Holds(s, caller, s.fds[fd].value.name, want)
  }

  predicate IsOpen(s: Acl, name: Name) {
    exists fd :: 0 <= fd < |s.fds| && s.fds[fd].Some? && s.fds[fd].value.name == name
  }

  // ---------------------------------------------------------------------- the calls

  /** open_back_end_file, where the back end answered `fd`. */
  function OpenBackEnd(s: Acl, key: Key, size: int, fd: int): Reply {
    if 0 <= fd < |s.fds| then Reply(s.(fds := s.fds[fd := Some(key)]), fd, [Opened(key.name, size)])
    else Reply(s, FAILURE, [Opened(key.name, size), Closed(fd)])
  }

  function Created(s: Acl, name: Name, caller: ModuleId): Acl
    requires s.freePerms > 0 && s.freeFiles > 0
  {
    s.(perms := s.perms[Key(name, caller) := SFS_CREATOR], owners := s.owners[name := caller],
       freePerms := s.freePerms - 1, freeFiles := s.freeFiles - 1)
  }

  function Open(s: Acl, caller: ModuleId, name: Name, flags: Flags, size: int, fd: int): Reply {
    if name !in s.owners then
      if size < 0 || s.freePerms == 0 || s.freeFiles == 0 then Refused(s)
      else OpenBackEnd(Created(s, name, caller), Key(name, caller), size, fd)
    else if !Holds(s, caller, name, flags) then Refused(s)
    else OpenBackEnd(s, Key(name, caller), size, fd)
  }

  function Close(s: Acl, caller: ModuleId, fd: int): Reply {
    if !Owns(s, caller, fd) then Refused(s)
    else Reply(s.(fds := s.fds[fd := None]), SUCCESS, [Closed(fd)])
  }

  function Without(perms: map<Key, Flags>, name: Name): map<Key, Flags> {
    map k | k in perms && k.name != name :: perms[k]
  }

  lemma WithoutSmaller(perms: map<Key, Flags>, name: Name)
    ensures |Without(perms, name)| <= |perms|
  {
    assert Without(perms, name).Keys <= perms.Keys;
    SubsetSize(Without(perms, name).Keys, perms.Keys);
  }

  lemma {:induction false} SubsetSize<T>(a: set<T>, b: set<T>)
    requires a <= b
    ensures |a| <= |b|
  {
    if a != {} {
      var x :| x in a;
      SubsetSize(a - {x}, b - {x});
    }
  }

  /** sfs_remove, where the back end answers `rv`. */
  function Remove(s: Acl, caller: ModuleId, name: Name, rv: int): Reply {
    if name !in s.owners || !Holds(s, caller, name, SFS_ROOT) || IsOpen(s, name) then Refused(s)
    else
      var rest := Without(s.perms, name);
      WithoutSmaller(s.perms, name);
      Reply(s.(perms := rest, owners := s.owners - {name},
               freePerms := s.freePerms + (|s.perms| - |rest|), freeFiles := s.freeFiles + 1),
            rv, [Deleted(name)])
  }

  /** sfs_getc, where the back end answers `rv` and the character `c`. */
  function Getc(s: Acl, caller: ModuleId, fd: int, rv: int, c: Octet): Reply {
    if !MayUse(s, caller, fd, SFS_READ) then Refused(s)
    else Reply(s, if rv > 0 then CharOf(c) else FAILURE, [Read(fd)])
  }

  /** sfs_putc, where the back end answers `rv`. */
  function Putc(s: Acl, caller: ModuleId, fd: int, c: Octet, rv: int): Reply {
    if !MayUse(s, caller, fd, SFS_WRITE) then Refused(s)
    else Reply(s, if rv > 0 then CharOf(c) else FAILURE, [Written(fd, c)])
  }

  /** The answer tells a character from a failure, except for 0xff where plain char has a
      sign. */
  lemma AnswersApart(s: Acl, caller: ModuleId, fd: int, c: Octet, rv: int)
    ensures Getc(s, caller, fd, rv, c).result == FAILURE <==>
      !MayUse(s, caller, fd, SFS_READ) || rv <= 0 || (SIGNED_CHAR && c == 0xff)
    ensures Putc(s, caller, fd, c, rv).result == FAILURE <==>
      !MayUse(s, caller, fd, SFS_WRITE) || rv <= 0 || (SIGNED_CHAR && c == 0xff)
  {
  }

  function Seek(s: Acl, caller: ModuleId, fd: int, offset: int, origin: int, rv: int): Reply {
    if !Owns(s, caller, fd) then Refused(s)
    else Reply(s, rv, [Sought(fd, offset, origin)])
  }

  /** The descriptors from `i` on without those of `key`. */
  function Dropped(fds: seq<Option<Key>>, key: Key): (r: seq<Option<Key>>)
    ensures |r| == |fds|
  {
    seq(|fds|, i requires 0 <= i < |fds| => if fds[i] == Some(key) then None else fds[i])
  }

  function Closings(fds: seq<Option<Key>>, key: Key): seq<Request> {
    if fds == [] then []
    else Closings(fds[..|fds| - 1], key) + if fds[|fds| - 1] == Some(key) then [Closed(|fds| - 1)] else []
  }

  /** revoke_acl */
  function Revoke(s: Acl, key: Key): Reply {
    if key !in s.perms then Reply(s, SUCCESS, [])
    else if s.perms[key] == SFS_CREATOR then Refused(s)
    else
      Reply(s.(perms := s.perms - {key}, fds := Dropped(s.fds, key), freePerms := s.freePerms + 1),
            SUCCESS, Closings(s.fds, key))
  }

  /** add_acl */
  function Assign(s: Acl, key: Key, flags: Flags): Reply {
    if key in s.perms then
      if s.perms[key] == SFS_CREATOR then Refused(s)
      else Reply(s.(perms := s.perms[key := flags]), SUCCESS, [])
    else if flags == SFS_CREATOR || s.freePerms == 0 then Refused(s)
    else Reply(s.(perms := s.perms[key := flags], freePerms := s.freePerms - 1), SUCCESS, [])
  }

  function Chmod(s: Acl, caller: ModuleId, name: Name, id: ModuleId, flags: Flags): Reply {
    if name !in s.owners || !Holds(s, caller, name, SFS_ROOT) then Refused(s)
    else if flags == SFS_NIL then Revoke(s, Key(name, id))
    else Assign(s, Key(name, id), flags)
  }

  function Attest(s: Acl, name: Name, owner: ModuleId): int {
    if name in s.owners && Holds(s, owner, name, SFS_CREATOR) then SUCCESS else FAILURE
  }

  // ------------------------------------------------------------------- one interface

  /** A call of the interface by module `caller`, with the answers of the back end. */
  datatype Invocation =
    | SfsOpen(caller: ModuleId, name: Name, flags: Flags, size: int, answer: int)
    | SfsClose(caller: ModuleId, fd: int)
    | SfsRemove(caller: ModuleId, name: Name, answer: int)
    | SfsGetc(caller: ModuleId, fd: int, answer: int, read: Octet)
    | SfsPutc(caller: ModuleId, fd: int, c: Octet, answer: int)
    | SfsSeek(caller: ModuleId, fd: int, offset: int, origin: int, answer: int)
    | SfsChmod(caller: ModuleId, name: Name, id: ModuleId, newFlags: Flags)
    | SfsAttest(caller: ModuleId, name: Name, owner: ModuleId)

  function Serve(s: Acl, i: Invocation): Reply {
    match i
    case SfsOpen(caller, name, flags, size, answer) => Open(s, caller, name, flags, size, answer)
    case SfsClose(caller, fd) => Close(s, caller, fd)
    case SfsRemove(caller, name, answer) => Remove(s, caller, name, answer)
    case SfsGetc(caller, fd, answer, read) => Getc(s, caller, fd, answer, read)
    case SfsPutc(caller, fd, c, answer) => Putc(s, caller, fd, c, answer)
    case SfsSeek(caller, fd, offset, origin, answer) => Seek(s, caller, fd, offset, origin, answer)
    case SfsChmod(caller, name, id, newFlags) => Chmod(s, caller, name, id, newFlags)
    case SfsAttest(caller, name, owner) => Reply(s, Attest(s, name, owner), [])
  }

  // --------------------------------------------------------------------- invariants

  /** Every file has its creator's entry; every entry is on a file; every descriptor has
      an entry; and the pools add up. */
  ghost predicate Inv(s: Acl) {
    && |s.fds| == MAX_NB_OPEN_FILES
    && (forall n :: n in s.owners ==> Key(n, s.owners[n]) in s.perms && s.perms[Key(n, s.owners[n])] == SFS_CREATOR)
    && (forall k :: k in s.perms ==> k.name in s.owners)
    && (forall fd :: 0 <= fd < |s.fds| && s.fds[fd].Some? ==> s.fds[fd].value in s.perms)
    && |s.perms| + s.freePerms == MAX_NB_PERMS
    && |s.owners| + s.freeFiles == MAX_NB_FILES
  }

  lemma EmptyInv()
    ensures Inv(Empty())
  {
  }

  lemma CreatedKeeps(s: Acl, name: Name, caller: ModuleId)
    requires Inv(s) && s.freePerms > 0 && s.freeFiles > 0 && name !in s.owners
    ensures Inv(Created(s, name, caller))
  {
    var s' := Created(s, name, caller);
    assert Key(name, caller) !in s.perms;
    assert s'.perms.Keys == s.perms.Keys + {Key(name, caller)};
    assert s'.owners.Keys == s.owners.Keys + {name};
  }

  lemma OpenKeeps(s: Acl, caller: ModuleId, name: Name, flags: Flags, size: int, fd: int)
    requires Inv(s)
    ensures Inv(Open(s, caller, name, flags, size, fd).acl)
  {
    hide Grants, Inv;
    if name in s.owners {
      if Holds(s, caller, name, flags) {
        BackEndKeeps(s, Key(name, caller), size, fd);
      }
    } else if s.freePerms > 0 && s.freeFiles > 0 {
      CreatedKeeps(s, name, caller);
      BackEndKeeps(Created(s, name, caller), Key(name, caller), size, fd);
    }
  }

  lemma BackEndKeeps(s: Acl, key: Key, size: int, fd: int)
    requires Inv(s) && key in s.perms
    ensures Inv(OpenBackEnd(s, key, size, fd).acl)
  {
  }

  lemma CloseKeeps(s: Acl, caller: ModuleId, fd: int)
    requires Inv(s)
    ensures Inv(Close(s, caller, fd).acl)
  {
  }

  lemma RemoveKeeps(s: Acl, caller: ModuleId, name: Name, rv: int)
    requires Inv(s)
    ensures Inv(Remove(s, caller, name, rv).acl)
  {
    hide Holds;
    if name in s.owners {
      assert (s.owners - {name}).Keys == s.owners.Keys - {name};
    }
  }

  lemma RevokeKeeps(s: Acl, key: Key)
    requires Inv(s)
    ensures Inv(Revoke(s, key).acl)
  {
    hide Closings;
    if key in s.perms {
      assert (s.perms - {key}).Keys == s.perms.Keys - {key};
    }
  }

  lemma AssignKeeps(s: Acl, key: Key, flags: Flags)
    requires Inv(s) && key.name in s.owners
    ensures Inv(Assign(s, key, flags).acl)
  {
    if key !in s.perms {
      assert s.perms[key := flags].Keys == s.perms.Keys + {key};
    } else {
      assert s.perms[key := flags].Keys == s.perms.Keys;
    }
  }

  lemma ServeKeeps(s: Acl, i: Invocation)
    requires Inv(s)
    ensures Inv(Serve(s, i).acl)
  {
    hide Open, Remove, Revoke, Assign, Close, Holds, Owns, MayUse, Attest, Inv;
    match i
    case SfsOpen(caller, name, flags, size, answer) => OpenKeeps(s, caller, name, flags, size, answer);
    case SfsClose(caller, fd) => CloseKeeps(s, caller, fd);
    case SfsRemove(caller, name, answer) => RemoveKeeps(s, caller, name, answer);
    case SfsChmod(caller, name, id, newFlags) =>
      RevokeKeeps(s, Key(name, id));
      if name in s.owners {
        AssignKeeps(s, Key(name, id), newFlags);
      }
    case _ =>
  }

  // --------------------------------------------------------------------------- runs

  function After(s: Acl, run: seq<Invocation>): Acl {
    if run == [] then s else Serve(After(s, run[..|run| - 1]), run[|run| - 1]).acl
  }

  lemma {:induction false} RunKeeps(run: seq<Invocation>)
    ensures Inv(After(Empty(), run))
  {
    if run == [] {
      EmptyInv();
    } else {
      RunKeeps(run[..|run| - 1]);
      ServeKeeps(After(Empty(), run[..|run| - 1]), run[|run| - 1]);
    }
  }

  /** Some call in the run gave `key.sm` descriptor `fd` on `key.name`, and nothing has
      taken it away since. */
  ghost predicate Granted(run: seq<Invocation>, fd: int, key: Key) {
    exists j :: 0 <= j < |run| && GrantedAt(run, j, fd, key)
  }

  ghost predicate GrantedAt(run: seq<Invocation>, j: nat, fd: int, key: Key)
    requires j < |run|
  {
    && run[j].SfsOpen? && run[j].caller == key.sm && run[j].name == key.name && run[j].answer == fd
    && Serve(After(Empty(), run[..j]), run[j]).result == fd
    && forall l :: j < l <= |run| ==> HasKey(After(Empty(), run[..l]), fd, key)
  }

  ghost predicate HasKey(s: Acl, fd: int, key: Key) {
    0 <= fd < |s.fds| && s.fds[fd] == Some(key)
  }

  lemma IsGranted(run: seq<Invocation>, j: nat, fd: int, key: Key)
    requires j < |run| && GrantedAt(run, j, fd, key)
    ensures Granted(run, fd, key)
  {
  }

  lemma WhenGranted(run: seq<Invocation>, fd: int, key: Key) returns (j: nat)
    requires Granted(run, fd, key)
    ensures j < |run| && GrantedAt(run, j, fd, key)
  {
    j :| 0 <= j < |run| && GrantedAt(run, j, fd, key);
  }

  /** No descriptor comes from nowhere. */
  lemma {:induction false} DescriptorsAreGranted(run: seq<Invocation>, fd: int)
    requires var s := After(Empty(), run); 0 <= fd < |s.fds| && s.fds[fd].Some?
    ensures Granted(run, fd, After(Empty(), run).fds[fd].value)
  {
    hide Serve, Granted;
    if run != [] {
      var n := |run| - 1;
      var before, s := After(Empty(), run[..n]), After(Empty(), run);
      var key := s.fds[fd].value;
      assert run[..n + 1] == run;
      if HasKey(before, fd, key) {
        DescriptorsAreGranted(run[..n], fd);
        var j := WhenGranted(run[..n], fd, key);
        assert run[..n][..j] == run[..j];
        forall l | j < l <= |run|
          ensures HasKey(After(Empty(), run[..l]), fd, key)
        {
          if l <= n {
            assert run[..n][..l] == run[..l];
          }
        }
        IsGranted(run, j, fd, key);
      } else {
        NewDescriptor(before, run[n], fd);
        IsGranted(run, n, fd, key);
      }
    }
  }

  /** Only opening makes a descriptor, and only for the caller on the file it named. */
  lemma NewDescriptor(s: Acl, i: Invocation, fd: int)
    requires var s' := Serve(s, i).acl; 0 <= fd < |s'.fds| && s'.fds[fd].Some?
    requires !(fd < |s.fds| && s.fds[fd] == Serve(s, i).acl.fds[fd])
    ensures i.SfsOpen? && i.answer == fd && Serve(s, i).acl.fds[fd] == Some(Key(i.name, i.caller))
    ensures Serve(s, i).result == fd
  {
  }

  /** What gets through to the data: a character is read or written only for a module
      that was given this descriptor on this file, still has it, and has the permission
      at that very moment. */
  lemma AccessIsAuthorised(run: seq<Invocation>, i: Invocation, r: Request)
    requires r in Serve(After(Empty(), run), i).requests && (r.Read? || r.Written?)
    ensures if r.Read? then i.SfsGetc? else i.SfsPutc? && i.c == r.c
    ensures var s := After(Empty(), run); var want := if r.Read? then SFS_READ else SFS_WRITE;
      && i.fd == r.fd && MayUse(s, i.caller, r.fd, want)
      && Granted(run, r.fd, s.fds[r.fd].value) && s.fds[r.fd].value.sm == i.caller
  {
    var s := After(Empty(), run);
    if i.SfsChmod? {
      NoData(s.fds, Key(i.name, i.id), r);
    }
    DescriptorsAreGranted(run, r.fd);
  }

  lemma {:induction false} NoData(fds: seq<Option<Key>>, key: Key, r: Request)
    ensures r in Closings(fds, key) <==> r.Closed? && 0 <= r.fd < |fds| && fds[r.fd] == Some(key)
  {
    if fds != [] {
      NoData(fds[..|fds| - 1], key, r);
    }
  }

  // ------------------------------------------------------------------- who may change

  /** The permission of `k.sm` on `k.name`, none if there is no entry. */
  function PermissionOf(s: Acl, k: Key): Flags {
    if k in s.perms then s.perms[k] else SFS_NIL
  }

  /** Permissions change only by creation, by removal, or by a chmod, and the last two
      only by someone who holds SFS_ROOT on the file. */
  lemma OnlyRootChanges(s: Acl, i: Invocation, k: Key)
    requires Inv(s) && PermissionOf(Serve(s, i).acl, k) != PermissionOf(s, k)
    ensures || (i.SfsOpen? && i.name == k.name && i.caller == k.sm && k.name !in s.owners)
            || (i.SfsRemove? && i.name == k.name && Holds(s, i.caller, k.name, SFS_ROOT) && !IsOpen(s, k.name))
            || (i.SfsChmod? && i.name == k.name && i.id == k.sm && Holds(s, i.caller, k.name, SFS_ROOT)
                && PermissionOf(s, k) != SFS_CREATOR && PermissionOf(Serve(s, i).acl, k) == i.newFlags)
  {
    hide Grants, Holds, MayUse, Inv, Revoke, Assign, IsOpen, Attest;
    match i
    case SfsChmod(caller, name, id, newFlags) =>
      RevokeChanges(s, Key(name, id), k);
      AssignChanges(s, Key(name, id), newFlags, k);
    case _ =>
  }

  lemma RevokeChanges(s: Acl, key: Key, k: Key)
    ensures PermissionOf(Revoke(s, key).acl, k) != PermissionOf(s, k) ==>
      k == key && PermissionOf(s, k) != SFS_CREATOR && PermissionOf(Revoke(s, key).acl, k) == SFS_NIL
  {
    hide Closings;
  }

  lemma AssignChanges(s: Acl, key: Key, flags: Flags, k: Key)
    ensures PermissionOf(Assign(s, key, flags).acl, k) != PermissionOf(s, k) ==>
      k == key && PermissionOf(s, k) != SFS_CREATOR && PermissionOf(Assign(s, key, flags).acl, k) == flags
  {
  }

  /** A permission binds descriptors that are open already. */
  lemma ChmodBinds(s: Acl, i: Invocation, fd: int, want: Flags)
    requires Inv(s) && i.SfsChmod? && i.newFlags != SFS_NIL && Serve(s, i).result == SUCCESS
    requires 0 <= fd < |s.fds| && s.fds[fd] == Some(Key(i.name, i.id))
    ensures var s' := Serve(s, i).acl; s'.fds == s.fds && (MayUse(s', i.id, fd, want) <==> Grants(i.newFlags, want))
  {
  }

  /** A revocation closes the descriptors of the revoked module on the file, and no
      others. */
  lemma RevocationCloses(s: Acl, i: Invocation, fd: int)
    requires Inv(s) && i.SfsChmod? && i.newFlags == SFS_NIL && Serve(s, i).result == SUCCESS && 0 <= fd < |s.fds|
    ensures var r := Serve(s, i); var revoked := s.fds[fd] == Some(Key(i.name, i.id));
      && |r.acl.fds| == |s.fds|
      && r.acl.fds[fd] == (if revoked then None else s.fds[fd])
      && (Closed(fd) in r.requests <==> revoked)
      && Key(i.name, i.id) !in r.acl.perms
  {
    NoData(s.fds, Key(i.name, i.id), Closed(fd));
  }

  // --------------------------------------------------------------------- attestation

  lemma ConfirmsOwner(s: Acl, name: Name)
    requires Inv(s) && name in s.owners
    ensures Attest(s, name, s.owners[name]) == SUCCESS
  {
  }

  lemma OwnerStays(s: Acl, i: Invocation, name: Name)
    requires name in s.owners && !(i.SfsRemove? && i.name == name)
    ensures name in Serve(s, i).acl.owners && Serve(s, i).acl.owners[name] == s.owners[name]
  {
    hide Holds, MayUse, Closings, Attest;
  }

  /** As long as its creator's file is not removed, attestation confirms the creator. */
  lemma {:induction false} CreatorStays(s: Acl, run: seq<Invocation>, name: Name)
    requires Inv(s) && name in s.owners
    requires forall j :: 0 <= j < |run| && run[j].SfsRemove? ==> run[j].name != name
    ensures var s' := After(s, run);
      Inv(s') && name in s'.owners && s'.owners[name] == s.owners[name] && Attest(s', name, s.owners[name]) == SUCCESS
  {
    hide Serve;
    if run == [] {
      ConfirmsOwner(s, name);
    } else {
      var before := After(s, run[..|run| - 1]);
      CreatorStays(s, run[..|run| - 1], name);
      ServeKeeps(before, run[|run| - 1]);
      OwnerStays(before, run[|run| - 1], name);
      ConfirmsOwner(After(s, run), name);
    }
  }

  /** Attestation confirms nobody but the creator. */
  ghost predicate SoleCreators(s: Acl) {
    forall k :: k in s.perms && Grants(s.perms[k], SFS_CREATOR) ==> k.name in s.owners && k.sm == s.owners[k.name]
  }

  /** A chmod that hands out every bit of SFS_CREATOR, from a caller who may, over an
      entry that is not the creator's, or as a new one with a bit more than SFS_CREATOR
      while there is room in the pool. */
  predicate GivesCreator(s: Acl, i: Invocation) {
    && i.SfsChmod? && Grants(i.newFlags, SFS_CREATOR)
    && i.name in s.owners && Holds(s, i.caller, i.name, SFS_ROOT)
    && var key := Key(i.name, i.id);
       if key in s.perms then s.perms[key] != SFS_CREATOR else i.newFlags != SFS_CREATOR && s.freePerms > 0
  }

  /** SFS_CREATOR is meant to be non-assignable. It is, exactly as long as no such chmod
      is made. */
  lemma SoleCreatorsExactly(s: Acl, i: Invocation)
    requires Inv(s) && SoleCreators(s)
    ensures SoleCreators(Serve(s, i).acl) <==> !GivesCreator(s, i)
  {
    hide Grants, Holds, Inv, SoleCreators, Revoke, Assign, MayUse, Attest;
    match i
    case SfsChmod(caller, name, id, newFlags) => ChmodSole(s, caller, name, id, newFlags);
    case SfsRemove(caller, name, answer) => RemoveSole(s, caller, name, answer);
    case SfsOpen(caller, name, flags, size, answer) => OpenSole(s, caller, name, flags, size, answer);
    case _ =>
      SameSole(s, Serve(s, i).acl);
  }

  /** Attestation confirms creators only, over every run in which no such chmod is made. */
  lemma {:induction false} OnlyCreatorsAttested(run: seq<Invocation>, name: Name, sm: ModuleId)
    requires forall j :: 0 <= j < |run| ==> !GivesCreator(After(Empty(), run[..j]), run[j])
    ensures var s := After(Empty(), run);
      && SoleCreators(s)
      && (Attest(s, name, sm) == SUCCESS <==> name in s.owners && sm == s.owners[name])
  {
    hide Serve, GivesCreator;
    RunKeeps(run);
    if run != [] {
      var n := |run| - 1;
      assert forall j :: 0 <= j < n ==> run[..n][..j] == run[..j];
      OnlyCreatorsAttested(run[..n], name, sm);
      RunKeeps(run[..n]);
      SoleCreatorsExactly(After(Empty(), run[..n]), run[n]);
    }
    if name in After(Empty(), run).owners {
      ConfirmsOwner(After(Empty(), run), name);
    }
  }

  lemma SameSole(s: Acl, s': Acl)
    requires s'.perms == s.perms && s'.owners == s.owners
    ensures SoleCreators(s') <==> SoleCreators(s)
  {
    hide Grants;
  }

  lemma OpenSole(s: Acl, caller: ModuleId, name: Name, flags: Flags, size: int, fd: int)
    requires SoleCreators(s)
    requires Inv(s)
    ensures SoleCreators(Open(s, caller, name, flags, size, fd).acl)
  {
    hide Grants, Holds;
  }

  lemma RemoveSole(s: Acl, caller: ModuleId, name: Name, rv: int)
    requires SoleCreators(s)
    ensures SoleCreators(Remove(s, caller, name, rv).acl)
  {
    hide Grants, Holds;
  }

  lemma CreatorBits()
    ensures !Grants(SFS_NIL, SFS_CREATOR) && Grants(SFS_CREATOR, SFS_CREATOR)
  {
  }

  lemma RevokeSole(s: Acl, key: Key)
    requires SoleCreators(s)
    ensures SoleCreators(Revoke(s, key).acl)
  {
    hide Grants, Closings;
  }

  lemma AssignSole(s: Acl, key: Key, flags: Flags)
    requires Inv(s) && SoleCreators(s) && key.name in s.owners
    ensures SoleCreators(Assign(s, key, flags).acl) <==>
      !(Grants(flags, SFS_CREATOR)
        && if key in s.perms then s.perms[key] != SFS_CREATOR else flags != SFS_CREATOR && s.freePerms > 0)
  {
    hide Grants;
    var r := Assign(s, key, flags);
    if r.result != SUCCESS {
      assert r.acl == s;
      return;
    }
    assert key.sm != s.owners[key.name];
    GivenSole(s, r.acl, key, flags);
  }

  lemma GivenSole(s: Acl, s': Acl, key: Key, flags: Flags)
    requires SoleCreators(s) && key.name in s.owners && key.sm != s.owners[key.name]
    requires s'.owners == s.owners && s'.perms == s.perms[key := flags]
    ensures SoleCreators(s') <==> !Grants(flags, SFS_CREATOR)
  {
    hide Grants;
    assert key in s'.perms && s'.perms[key] == flags;
  }

  lemma ChmodSole(s: Acl, caller: ModuleId, name: Name, id: ModuleId, flags: Flags)
    requires Inv(s) && SoleCreators(s)
    ensures SoleCreators(Chmod(s, caller, name, id, flags).acl) <==> !GivesCreator(s, SfsChmod(caller, name, id, flags))
  {
    hide Grants, Holds, Revoke, Assign, SoleCreators;
    CreatorBits();
    RevokeSole(s, Key(name, id));
    if name in s.owners {
      AssignSole(s, Key(name, id), flags);
    }
  }

  /** Such a chmod answers SUCCESS, and can be made in both branches: over an existing
      entry even with SFS_CREATOR itself, and for a new entry with one bit more. */
  lemma CreatorCanBeGiven(s: Acl, root: ModuleId, name: Name, id: ModuleId)
    requires Inv(s) && name in s.owners && Holds(s, root, name, SFS_ROOT) && id != s.owners[name]
    ensures Key(name, id) in s.perms && s.perms[Key(name, id)] != SFS_CREATOR ==>
      GivesCreator(s, SfsChmod(root, name, id, SFS_CREATOR))
    ensures Key(name, id) !in s.perms ==>
      && !GivesCreator(s, SfsChmod(root, name, id, SFS_CREATOR))
      && (s.freePerms > 0 ==> GivesCreator(s, SfsChmod(root, name, id, 0x1ff)))
    ensures forall flags :: GivesCreator(s, SfsChmod(root, name, id, flags)) ==>
      Serve(s, SfsChmod(root, name, id, flags)).result == SUCCESS
  {
  }
}
