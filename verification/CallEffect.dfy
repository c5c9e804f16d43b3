/** What every call of the front end does, told by its effects: what it asks of the back
    end, what it answers, and what it changes. */
module CallEffects {
  import opened AccessControl

  // ------------------------------------------------------------------- who gets through

  /** The file exists and the caller has the flags it asks for, or it is to be created and
      there is room in both pools. */
  predicate MayOpen(s: Acl, caller: ModuleId, name: Name, flags: Flags, size: int) {
    if name in s.owners then Holds(s, caller, name, flags) else size >= 0 && s.freePerms > 0 && s.freeFiles > 0
  }

  predicate MayRemove(s: Acl, caller: ModuleId, name: Name) {
    name in s.owners && Holds(s, caller, name, SFS_ROOT) && !IsOpen(s, name)
  }

  /** A holder of SFS_ROOT may change any entry but the creator's, and make new ones, as
      long as there is room, but none that is just SFS_CREATOR. Taking away a permission
      that is not there is fine. */
  predicate MayChange(s: Acl, caller: ModuleId, name: Name, id: ModuleId, flags: Flags) {
    && name in s.owners && Holds(s, caller, name, SFS_ROOT)
    && if Key(name, id) in s.perms then s.perms[Key(name, id)] != SFS_CREATOR
       else flags == SFS_NIL || (flags != SFS_CREATOR && s.freePerms > 0)
  }

  predicate InCache(s: Acl, fd: int) {
    0 <= fd < |s.fds|
  }

  // --------------------------------------------------------------------- the requests

  /** The requests that a call is to make. */
  predicate Wants(s: Acl, i: Invocation, r: Request) {
    match i
    case SfsOpen(caller, name, flags, size, answer) =>
      && MayOpen(s, caller, name, flags, size)
      && (r == Opened(name, size) || (r == Closed(answer) && !InCache(s, answer)))
    case SfsClose(caller, fd) => r == Closed(fd) && Owns(s, caller, fd)
    case SfsRemove(caller, name, answer) => r == Deleted(name) && MayRemove(s, caller, name)
    case SfsGetc(caller, fd, answer, read) => r == Read(fd) && MayUse(s, caller, fd, SFS_READ)
    case SfsPutc(caller, fd, c, answer) => r == Written(fd, c) && MayUse(s, caller, fd, SFS_WRITE)
    case SfsSeek(caller, fd, offset, origin, answer) => r == Sought(fd, offset, origin) && Owns(s, caller, fd)
    case SfsChmod(caller, name, id, flags) =>
      && r.Closed? && InCache(s, r.fd) && s.fds[r.fd] == Some(Key(name, id))
      && flags == SFS_NIL && MayChange(s, caller, name, id, flags)
    case SfsAttest(caller, name, owner) => false
  }

  /** A call makes exactly these requests, each of them once, and opens before it closes. */
  lemma RequestsExactly(s: Acl, i: Invocation)
    requires Inv(s)
    ensures var rs := Serve(s, i).requests;
      && (forall r :: r in rs <==> Wants(s, i, r))
      && (forall j, k :: 0 <= j < k < |rs| ==> rs[j] != rs[k] && !rs[k].Opened?)
  {
    hide Grants;
    if i.SfsChmod? {
      ClosingsExactly(s.fds, Key(i.name, i.id));
    }
  }

  lemma {:induction false} ClosingsExactly(fds: seq<Option<Key>>, key: Key)
    ensures var rs := Closings(fds, key);
      && (forall r :: r in rs <==> r.Closed? && 0 <= r.fd < |fds| && fds[r.fd] == Some(key))
      && (forall j, k :: 0 <= j < k < |rs| ==> rs[j] != rs[k])
  {
    if fds != [] {
      var n := |fds| - 1;
      ClosingsExactly(fds[..n], key);
      assert Closed(n) !in Closings(fds[..n], key);
    }
  }

  // ----------------------------------------------------------------------- the answer

  /** What a call answers: what the back end said if it was asked, and whether the call got
      through otherwise. */
  lemma AnswersExactly(s: Acl, i: Invocation)
    requires Inv(s)
    ensures var r := Serve(s, i).result;
      match i
      case SfsOpen(caller, name, flags, size, answer) =>
        r == if MayOpen(s, caller, name, flags, size) && InCache(s, answer) then answer else FAILURE
      case SfsClose(caller, fd) => r == if Owns(s, caller, fd) then SUCCESS else FAILURE
      case SfsRemove(caller, name, answer) => r == if MayRemove(s, caller, name) then answer else FAILURE
      case SfsGetc(caller, fd, answer, read) =>
        r == if MayUse(s, caller, fd, SFS_READ) && answer > 0 then CharOf(read) else FAILURE
      case SfsPutc(caller, fd, c, answer) =>
        r == if MayUse(s, caller, fd, SFS_WRITE) && answer > 0 then CharOf(c) else FAILURE
      case SfsSeek(caller, fd, offset, origin, answer) => r == if Owns(s, caller, fd) then answer else FAILURE
      case SfsChmod(caller, name, id, flags) => r == if MayChange(s, caller, name, id, flags) then SUCCESS else FAILURE
      case SfsAttest(caller, name, owner) => r == if Holds(s, owner, name, SFS_CREATOR) then SUCCESS else FAILURE
  {
    hide Grants;
  }

  // ------------------------------------------------------------------------- the change

  function EntryOf(s: Acl, key: Key): Option<Flags> {
    if key in s.perms then Some(s.perms[key]) else None
  }

  /** The call makes the file, and its creator's entry. */
  predicate Makes(s: Acl, i: Invocation, key: Key) {
    i.SfsOpen? && i.name !in s.owners && MayOpen(s, i.caller, i.name, i.flags, i.size) && key == Key(i.name, i.caller)
  }

  /** The call changes the entry. */
  predicate Sets(s: Acl, i: Invocation, key: Key) {
    i.SfsChmod? && MayChange(s, i.caller, i.name, i.id, i.newFlags) && key == Key(i.name, i.id)
  }

  /** The call removes the file, and all its entries. */
  predicate Drops(s: Acl, i: Invocation, key: Key) {
    i.SfsRemove? && MayRemove(s, i.caller, i.name) && key.name == i.name
  }

  /** Every entry is afterwards what one of these calls turns it into, or what it was. */
  lemma EntriesExactly(s: Acl, i: Invocation, key: Key)
    requires Inv(s)
    ensures EntryOf(Serve(s, i).acl, key) ==
      if Makes(s, i, key) then Some(SFS_CREATOR)
      else if Sets(s, i, key) then (if i.newFlags == SFS_NIL then None else Some(i.newFlags))
      else if Drops(s, i, key) then None
      else EntryOf(s, key)
  {
    hide Grants;
  }

  /** A file has a creator from the call that makes it to the call that removes it. */
  lemma OwnersExactly(s: Acl, i: Invocation)
    requires Inv(s)
    ensures Serve(s, i).acl.owners ==
      if i.SfsOpen? && i.name !in s.owners && MayOpen(s, i.caller, i.name, i.flags, i.size)
      then s.owners[i.name := i.caller]
      else if i.SfsRemove? && MayRemove(s, i.caller, i.name) then s.owners - {i.name}
      else s.owners
  {
    hide Grants;
  }

  /** A descriptor is taken by an open that the back end answers with it, and given back by
      its owner's close or by a revocation of its entry. */
  lemma DescriptorsExactly(s: Acl, i: Invocation, fd: int)
    requires Inv(s) && InCache(s, fd)
    ensures InCache(Serve(s, i).acl, fd) && Serve(s, i).acl.fds[fd] ==
      if i.SfsOpen? && MayOpen(s, i.caller, i.name, i.flags, i.size) && i.answer == fd then Some(Key(i.name, i.caller))
      else if i.SfsClose? && Owns(s, i.caller, fd) && i.fd == fd then None
      else if i.SfsChmod? && Wants(s, i, Closed(fd)) then None
      else s.fds[fd]
  {
    hide Grants;
  }
}
