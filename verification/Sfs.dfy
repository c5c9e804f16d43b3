/** The front end of the file system: access control over pooled, linked structures. */
module FrontEnd {
  import opened AccessControl
  import opened PermissionPools
  import opened PermissionSteps
  import opened FileRemovalSteps

  lemma ListAt(N: seq<int>, head: int, L: seq<int>, k: nat)
    requires IsList(N, head, L)
    ensures k < |L| ==> 0 <= L[k] < |N| && N[L[k]] == Successor(L, k)
    ensures head == if L == [] then NULL else L[0]
    ensures NoDuplicates(L)
  {
  }

  lemma OpenList(h: Heap, z: Shape)
    requires Good(h, z)
    ensures IsList(FileLinks(h), h.openFiles, z.openFiles)
  {
  }

  lemma AclList(h: Heap, z: Shape, f: int)
    requires Good(h, z) && f in z.acls
    ensures 0 <= f < |h.files| && z.acls[f] != [] && IsList(PermLinks(h), h.files[f].acl, z.acls[f])
  {
  }

  /** None of the first `k` files of a list has this name. */
  ghost predicate NoneNamed(h: Heap, L: seq<int>, k: nat, name: Name)
    requires k <= |L|
  {
    forall j :: 0 <= j < k ==> 0 <= L[j] < |h.files| && h.files[L[j]].name != name
  }

  /** None of the first `k` entries of a list is for this module. */
  ghost predicate NoneOf(h: Heap, L: seq<int>, k: nat, id: ModuleId)
    requires k <= |L|
  {
    forall j :: 0 <= j < k ==> 0 <= L[j] < |h.perms| && h.perms[L[j]].sm != id
  }

  class Sfs {
    const perms: array<FilePerm>
    const files: array<OpenFile>
    const fds: array<int>
    var freePerms: int
    var freeFiles: int
    var openFiles: int
    var initDone: bool

    /** The lists that the links make up. */
    ghost var shape: Shape
    /** Everything that reached the back end so far. */
    ghost var requests: seq<Request>

    ghost function Here(): Heap
      reads this, perms, files, fds
    {
      Heap(perms[..], files[..], fds[..], freePerms, freeFiles, openFiles)
    }

    ghost predicate Valid()
      reads this, perms, files, fds
    {
      && perms.Length == MAX_NB_PERMS && files.Length == MAX_NB_FILES && fds.Length == MAX_NB_OPEN_FILES
      && (if initDone then Good(Here(), shape) && Inv(Meaning(Here(), shape)) else openFiles == NULL)
    }

    ghost function Abs(): Acl
      reads this, perms, files, fds
    {
      if initDone then Meaning(Here(), shape) else Empty()
    }

    constructor ()
      ensures Valid() && Abs() == Empty() && requests == [] && fresh(perms) && fresh(files) && fresh(fds)
    {
      perms := new FilePerm[MAX_NB_PERMS](_ => FilePerm(0, SFS_NIL, NULL, NULL));
      files := new OpenFile[MAX_NB_FILES](_ => OpenFile(0, 0, NULL, NULL));
      fds := new int[MAX_NB_OPEN_FILES](_ => NULL);
      freePerms, freeFiles, openFiles, initDone := NULL, NULL, NULL, false;
      requests := [];
      shape := Shape([], [], [], map[], map[], map[]);
    }

    // ------------------------------------------------------------------ initialising

    /** init_data_structures */
    method InitDataStructures()
      requires Valid() && !initDone
      modifies this, perms, files, fds
      ensures Valid() && initDone && Abs() == Empty() && requests == old(requests)
    {
      hide Good, Meaning, Inv, FreshShape;
      freeFiles := 0;
      for i := 1 to MAX_NB_FILES
        modifies files
        invariant forall j :: 0 <= j < i - 1 ==> files[j].next == j + 1
      {
        files[i - 1] := files[i - 1].(next := i);
      }
      files[MAX_NB_FILES - 1] := files[MAX_NB_FILES - 1].(next := NULL);
      freePerms := 0;
      for i := 1 to MAX_NB_PERMS
        modifies perms
        invariant forall j :: 0 <= j < i - 1 ==> perms[j].next == j + 1
      {
        perms[i - 1] := perms[i - 1].(next := i);
      }
      perms[MAX_NB_PERMS - 1] := perms[MAX_NB_PERMS - 1].(next := NULL);
      for i := 0 to MAX_NB_OPEN_FILES
        modifies fds
        invariant forall j :: 0 <= j < i ==> fds[j] == NULL
      {
        fds[i] := NULL;
      }
      openFiles := NULL;
      initDone := true;
      shape := FreshShape();
      FreshGood(Here());
    }

    // ----------------------------------------------------------------------- lookups

    /** LOOKUP_FILE_PREV */
    method LookupFile(name: Name) returns (cur: int, prev: int, ghost k: nat)
      requires Valid() && initDone
      ensures cur == NULL <==> name !in shape.named
      ensures cur != NULL ==>
        && 0 <= cur < files.Length && files[cur].name == name && cur == shape.named[name]
        && k < |shape.openFiles| && shape.openFiles[k] == cur && prev == Previous(shape.openFiles, k)
        && cur in shape.acls
    {
      hide Good, IsList, Inv, Meaning;
      ghost var h, z := Here(), shape;
      OpenList(h, z);
      ListAt(FileLinks(h), h.openFiles, z.openFiles, 0);
      cur, prev, k := openFiles, openFiles, 0;
      while cur != NULL && files[cur].name != name
        invariant k <= |z.openFiles| && cur == (if k < |z.openFiles| then z.openFiles[k] else NULL)
        invariant k < |z.openFiles| ==> 0 <= cur < files.Length && prev == Previous(z.openFiles, k)
        invariant NoneNamed(h, z.openFiles, k, name)
        decreases |z.openFiles| - k
      {
        ListAt(FileLinks(h), h.openFiles, z.openFiles, k);
        ListAt(FileLinks(h), h.openFiles, z.openFiles, k + 1);
        prev, cur := cur, files[cur].next;
        k := k + 1;
      }
      FileLookedUp(h, z, name, cur, k);
    }

    /** LOOKUP_PERM, as the loops of revoke_acl and add_acl do it: `prev` is the entry
        before, and the last one when there is none for the module. */
    method LookupPerm(file: int, id: ModuleId) returns (cur: int, prev: int, ghost k: nat)
      requires Valid() && initDone && file in shape.acls && 0 <= file < files.Length
      ensures var key := Key(files[file].name, id); var L := shape.acls[file];
        && (cur == NULL <==> key !in shape.at)
        && (cur != NULL ==>
              && 0 <= cur < perms.Length && cur == shape.at[key] && k < |L| && L[k] == cur
              && prev == Previous(L, k))
        && (cur == NULL ==> L != [] && prev == L[|L| - 1])
    {
      hide Good, IsList, Inv, Meaning;
      ghost var h, z := Here(), shape;
      ghost var L := z.acls[file];
      AclList(h, z, file);
      ListAt(PermLinks(h), h.files[file].acl, L, 0);
      cur, prev, k := files[file].acl, files[file].acl, 0;
      while cur != NULL && perms[cur].sm != id
        invariant k <= |L| && cur == (if k < |L| then L[k] else NULL)
        invariant k < |L| ==> 0 <= cur < perms.Length && prev == Previous(L, k)
        invariant k == |L| ==> prev == L[|L| - 1]
        invariant NoneOf(h, L, k, id)
        decreases |L| - k
      {
        ListAt(PermLinks(h), h.files[file].acl, L, k);
        ListAt(PermLinks(h), h.files[file].acl, L, k + 1);
        prev, cur := cur, perms[cur].next;
        k := k + 1;
      }
      EntryLookedUp(h, z, file, id, cur, k);
    }

    // ------------------------------------------------------------------ the back end

    /** A call of the back end. */
    ghost method Ask(r: Request)
      modifies this`requests
      ensures requests == old(requests) + [r]
    {
      requests := requests + [r];
    }

    /** open_back_end_file, where cfs_open answers `answer`. */
    method OpenBackEndFile(p: int, size: int, answer: int) returns (fd: int)
      requires Valid() && initDone && Live(Here(), shape, p)
      requires 0 <= answer < fds.Length ==> fds[answer] == NULL
      modifies this`requests, files, fds
      ensures Valid() && var r := OpenBackEnd(old(Abs()), old(KeyOf(Here(), p)), size, answer);
        Abs() == r.acl && fd == r.result && requests == old(requests) + r.requests
    {
      hide Good, Meaning, Inv, Live, KeyOf;
      ghost var h, z := Here(), shape;
      FileOfEntry(h, z, p);
      Ask(Opened(files[perms[p].file].name, size));
      if !(0 <= answer < MAX_NB_OPEN_FILES) {
        Ask(Closed(answer));
        return FAILURE;
      }
      SlotOpened(h, z, answer, p);
      BackEndKeeps(Meaning(h, z), KeyOf(h, p), size, answer);
      files[perms[p].file] := files[perms[p].file].(openCount := files[perms[p].file].openCount + 1);
      fds[answer] := p;
      assert Here() == Redirected(h, answer, p, h.perms[p].file, 1);
      fd := answer;
    }

    /** sfs_close */
    method SfsClose(caller: ModuleId, fd: int) returns (result: int)
      requires Valid()
      modifies this, perms, files, fds
      ensures Valid() && var r := Close(old(Abs()), caller, fd);
        Abs() == r.acl && result == r.result && requests == old(requests) + r.requests
    {
      hide Good, Meaning, Inv, Live, KeyOf;
      if !initDone {
        InitDataStructures();
      }
      ghost var h, z := Here(), shape;
      DescriptorMeans(h, z, fd);
      if !(0 <= fd < MAX_NB_OPEN_FILES) || fds[fd] == NULL || perms[fds[fd]].sm != caller {
        return FAILURE;
      }
      SlotClosed(h, z, fd);
      CloseKeeps(Meaning(h, z), caller, fd);
      files[perms[fds[fd]].file] := files[perms[fds[fd]].file].(openCount := files[perms[fds[fd]].file].openCount - 1);
      fds[fd] := NULL;
      assert Here() == Redirected(h, fd, NULL, h.perms[h.fds[fd]].file, -1);
      Ask(Closed(fd));
      result := SUCCESS;
    }

    /** sfs_open */
    method SfsOpen(caller: ModuleId, name: Name, flags: Flags, size: int, answer: int) returns (fd: int)
      requires Valid() && (0 <= answer < MAX_NB_OPEN_FILES && initDone ==> fds[answer] == NULL)
      modifies this, perms, files, fds
      ensures Valid() && var r := Open(old(Abs()), caller, name, flags, size, answer);
        Abs() == r.acl && fd == r.result && requests == old(requests) + r.requests
    {
      hide Good, Meaning, Inv, Live, KeyOf, FreshShape;
      if !initDone {
        InitDataStructures();
        EmptySlots(Here(), shape);
      }
      ghost var h, z := Here(), shape;
      Pools(h, z);
      var cur, _, _ := LookupFile(name);
      FileFound(h, z, name);
      if cur == NULL {
        if size < 0 {
          return FAILURE;
        }
        if freePerms == NULL || freeFiles == NULL {
          return FAILURE;
        }
        var p := CreateFile(name, caller);
        fd := OpenBackEndFile(p, size, answer);
        return;
      }
      EntryFound(h, z, cur, caller);
      var p, _, _ := LookupPerm(cur, caller);
      if p == NULL {
        return FAILURE;
      }
      EntryKey(h, z, cur, caller);
      if !Grants(perms[p].flags, flags) {
        return FAILURE;
      }
      fd := OpenBackEndFile(p, size, answer);
    }

    /** ALLOC_FILE and ALLOC_PERM of sfs_open. */
    method CreateFile(name: Name, caller: ModuleId) returns (p: int)
      requires Valid() && initDone && name !in shape.named && freePerms != NULL && freeFiles != NULL
      modifies this`freePerms, this`freeFiles, this`openFiles, this`shape, perms, files
      ensures Valid() && initDone && old(Abs()).freePerms > 0 && old(Abs()).freeFiles > 0
      ensures Abs() == Created(old(Abs()), name, caller)
      ensures Live(Here(), shape, p) && KeyOf(Here(), p) == Key(name, caller)
    {
      hide Good, Meaning, Inv, Live, KeyOf;
      ghost var h, z := Here(), shape;
      Pools(h, z);
      CreateFacts(h, z, name);
      FileCreated(h, z, name, caller);
      CreatedInv(h, z, name, caller);
      var f := freeFiles;
      freeFiles := files[freeFiles].next;
      files[f] := OpenFile(name, 0, NULL, openFiles);
      openFiles := f;
      p := freePerms;
      freePerms := perms[freePerms].next;
      perms[p] := FilePerm(caller, SFS_CREATOR, f, NULL);
      files[f] := files[f].(acl := p);
      shape := WithFileShape(z, name, caller);
      assert Here() == WithFile(h, name, caller);
    }

    /** CHK_FD and CHK_PERM: the permission of the entry, as it is now. */
    method Allowed(caller: ModuleId, fd: int, want: Flags) returns (owns: bool, may: bool)
      requires Valid() && initDone
      ensures owns == Owns(Abs(), caller, fd) && may == MayUse(Abs(), caller, fd, want)
    {
      hide Good, Meaning, Inv, Live, KeyOf, Grants;
      DescriptorMeans(Here(), shape, fd);
      if !(0 <= fd < MAX_NB_OPEN_FILES) || fds[fd] == NULL || perms[fds[fd]].sm != caller {
        return false, false;
      }
      FileOfEntry(Here(), shape, fds[fd]);
      owns, may := true, Grants(perms[fds[fd]].flags, want);
    }

    /** sfs_getc, where cfs_read answers `rv` and the character `c`. */
    method SfsGetc(caller: ModuleId, fd: int, rv: int, c: Octet) returns (result: int)
      requires Valid()
      modifies this, perms, files, fds
      ensures Valid() && var r := Getc(old(Abs()), caller, fd, rv, c);
        Abs() == r.acl && result == r.result && requests == old(requests) + r.requests
    {
      hide Good, Meaning, Inv, MayUse, Owns;
      if !initDone {
        InitDataStructures();
      }
      var _, may := Allowed(caller, fd, SFS_READ);
      if !may {
        return FAILURE;
      }
      Ask(Read(fd));
      result := if rv > 0 then CharOf(c) else FAILURE;
    }

    /** sfs_putc, where cfs_write answers `rv`. */
    method SfsPutc(caller: ModuleId, fd: int, c: Octet, rv: int) returns (result: int)
      requires Valid()
      modifies this, perms, files, fds
      ensures Valid() && var r := Putc(old(Abs()), caller, fd, c, rv);
        Abs() == r.acl && result == r.result && requests == old(requests) + r.requests
    {
      hide Good, Meaning, Inv, MayUse, Owns;
      if !initDone {
        InitDataStructures();
      }
      var _, may := Allowed(caller, fd, SFS_WRITE);
      if !may {
        return FAILURE;
      }
      Ask(Written(fd, c));
      result := if rv > 0 then CharOf(c) else FAILURE;
    }

    /** sfs_seek, which asks for no permission, where cfs_seek answers `rv`. */
    method SfsSeek(caller: ModuleId, fd: int, offset: int, origin: int, rv: int) returns (result: int)
      requires Valid()
      modifies this, perms, files, fds
      ensures Valid() && var r := Seek(old(Abs()), caller, fd, offset, origin, rv);
        Abs() == r.acl && result == r.result && requests == old(requests) + r.requests
    {
      hide Good, Meaning, Inv, MayUse, Owns;
      if !initDone {
        InitDataStructures();
      }
      var owns, _ := Allowed(caller, fd, SFS_NIL);
      if !owns {
        return FAILURE;
      }
      Ask(Sought(fd, offset, origin));
      result := rv;
    }

    /** sfs_attest, the one call that does not initialise. */
    method SfsAttest(name: Name, owner: ModuleId) returns (result: int)
      requires Valid()
      ensures result == Attest(Abs(), name, owner)
    {
      hide Good, Meaning, Inv, Live, KeyOf, Grants;
      if !initDone {
        return FAILURE;
      }
      FileFound(Here(), shape, name);
      var file, _, _ := LookupFile(name);
      if file == NULL {
        return FAILURE;
      }
      EntryFound(Here(), shape, file, owner);
      EntryKey(Here(), shape, file, owner);
      var p, _, _ := LookupPerm(file, owner);
      if p == NULL {
        return FAILURE;
      }
      if !Grants(perms[p].flags, SFS_CREATOR) {
        return FAILURE;
      }
      result := SUCCESS;
    }

    // ------------------------------------------------------------------------ chmod

    /** The loop of revoke_acl over the descriptor cache, with CLOSE_FD. */
    method CloseDescriptors(p: int)
      requires Valid() && initDone && Live(Here(), shape, p)
      modifies this`requests, files, fds
      ensures Valid() && forall i :: 0 <= i < fds.Length ==> fds[i] != p
      ensures perms[..] == old(perms[..]) && KeyOf(Here(), p) == old(KeyOf(Here(), p))
      ensures forall f :: 0 <= f < files.Length ==> files[f] == old(files[f]).(openCount := files[f].openCount)
      ensures Abs() == old(Abs()).(fds := Dropped(old(Abs()).fds, old(KeyOf(Here(), p))))
      ensures requests == old(requests) + Closings(old(Abs()).fds, old(KeyOf(Here(), p)))
    {
      hide Good, Meaning, Inv, Live, KeyOf, Dropped, Closings;
      ghost var h0, z, s0, key := Here(), shape, Meaning(Here(), shape), KeyOf(Here(), p);
      DropStarts(s0.fds, key);
      SlotCount(h0, z);
      for i := 0 to MAX_NB_OPEN_FILES
        invariant Valid() && SameStructure(h0, Here())
        invariant Meaning(Here(), z) == s0.(fds := DroppedBefore(s0.fds, key, i))
        invariant forall j :: 0 <= j < i ==> fds[j] != p
        invariant fds[i..] == h0.fds[i..]
        invariant requests == old(requests) + Closings(s0.fds[..i], key)
      {
        ghost var h := Here();
        SlotIs(h0, h, z, i, p);
        DropStep(s0.fds, key, i);
        if fds[i] == p {
          SlotClosed(h, z, i);
          FileOfEntry(h, z, p);
          DropKeeps(Meaning(h, z), i);
          files[perms[fds[i]].file] := files[perms[fds[i]].file].(openCount := files[perms[fds[i]].file].openCount - 1);
          fds[i] := NULL;
          assert Here() == Redirected(h, i, NULL, h.perms[h.fds[i]].file, -1);
          Ask(Closed(i));
        }
      }
      DropEnds(s0.fds, key);
      KeyKept(h0, Here(), p);
    }

    /** revoke_acl */
    method RevokeAcl(file: int, id: ModuleId) returns (result: int)
      requires Valid() && initDone && file in shape.acls && 0 <= file < files.Length
      modifies this`freePerms, this`shape, this`requests, perms, files, fds
      ensures Valid() && initDone && var r := Revoke(old(Abs()), old(Key(files[file].name, id)));
        Abs() == r.acl && result == r.result && requests == old(requests) + r.requests
    {
      hide Good, Meaning, Inv, Live, KeyOf, Dropped, Closings, Omit;
      ghost var h0, z, key := Here(), shape, Key(files[file].name, id);
      EntryFound(h0, z, file, id);
      EntryKey(h0, z, file, id);
      Pools(h0, z);
      var cur, prev, k := LookupPerm(file, id);
      if cur == NULL {
        return SUCCESS;
      }
      if perms[cur].flags == SFS_CREATOR {
        return FAILURE;
      }
      NotTheCreator(h0, z, file, k);
      CloseDescriptors(cur);
      ghost var h := Here();
      Unlinkable(h, z, file, k);
      EntryUnlinked(h, z, file, k);
      RevokedInv(Meaning(h0, z), key);
      perms[prev] := perms[prev].(next := perms[cur].next);
      perms[cur] := perms[cur].(next := freePerms);
      freePerms := cur;
      shape := UnlinkedShape(h, z, file, k);
      assert Here() == Unlinked(h, prev, cur);
      result := SUCCESS;
    }

    /** add_acl */
    method AddAcl(file: int, id: ModuleId, flags: Flags) returns (result: int)
      requires Valid() && initDone && file in shape.acls && 0 <= file < files.Length
      modifies this`freePerms, this`shape, perms
      ensures Valid() && initDone && var r := Assign(old(Abs()), old(Key(files[file].name, id)), flags);
        Abs() == r.acl && result == r.result && r.requests == []
    {
      hide Good, Meaning, Inv, Live, KeyOf;
      ghost var h, z, key := Here(), shape, Key(files[file].name, id);
      EntryFound(h, z, file, id);
      EntryKey(h, z, file, id);
      Pools(h, z);
      AssignKeeps(Meaning(h, z), key, flags);
      var p, prev, _ := LookupPerm(file, id);
      if p != NULL {
        if perms[p].flags == SFS_CREATOR {
          return FAILURE;
        }
        FlagsWritten(h, z, p, flags);
        perms[p] := perms[p].(flags := flags);
        assert Here() == h.(perms := h.perms[p := h.perms[p].(flags := flags)]);
        return SUCCESS;
      }
      if flags == SFS_CREATOR {
        return FAILURE;
      }
      if freePerms == NULL {
        return FAILURE;
      }
      Appendable(h, z, file, id);
      EntryAppended(h, z, file, id, flags);
      p := freePerms;
      freePerms := perms[freePerms].next;
      perms[p] := FilePerm(id, flags, file, NULL);
      perms[prev] := perms[prev].(next := p);
      shape := AppendedShape(h, z, file, id);
      assert Here() == Appended(h, prev, id, flags, file);
      result := SUCCESS;
    }

    /** sfs_chmod */
    method SfsChmod(caller: ModuleId, name: Name, id: ModuleId, flags: Flags) returns (result: int)
      requires Valid()
      modifies this, perms, files, fds
      ensures Valid() && var r := Chmod(old(Abs()), caller, name, id, flags);
        Abs() == r.acl && result == r.result && requests == old(requests) + r.requests
    {
      hide Good, Meaning, Inv, Live, KeyOf, Grants, Revoke, Assign;
      if !initDone {
        InitDataStructures();
      }
      var file, holds := CheckRoot(caller, name);
      if !holds {
        return FAILURE;
      }
      if flags == SFS_NIL {
        result := RevokeAcl(file, id);
      } else {
        result := AddAcl(file, id, flags);
      }
    }

    /** CHK_ROOT */
    method CheckRoot(caller: ModuleId, name: Name) returns (file: int, holds: bool)
      requires Valid() && initDone
      ensures holds == (name in Abs().owners && Holds(Abs(), caller, name, SFS_ROOT))
      ensures holds ==> file in shape.acls && 0 <= file < files.Length && files[file].name == name
    {
      hide Good, Meaning, Inv, Live, KeyOf, Grants;
      FileFound(Here(), shape, name);
      var found, _, _ := LookupFile(name);
      file := found;
      if file == NULL {
        return NULL, false;
      }
      EntryFound(Here(), shape, file, caller);
      EntryKey(Here(), shape, file, caller);
      var p, _, _ := LookupPerm(file, caller);
      holds := p != NULL && Grants(perms[p].flags, SFS_ROOT);
    }

    // ----------------------------------------------------------------------- remove

    /** The loop of sfs_remove that gives a whole access list back. */
    method FreeAcl(file: int, ghost h: Heap, ghost L: seq<int>)
      requires perms.Length == MAX_NB_PERMS && 0 <= file < files.Length
      requires h == Here() && IsList(PermLinks(h), h.files[file].acl, L) && InPool(h, L)
      modifies this`freePerms, perms
      ensures Here() == FreedAll(h, L)
    {
      hide IsList, FreedAll;
      ghost var j := 0;
      FreeStarts(h, h.files[file].acl, L);
      var curp := files[file].acl;
      while curp != NULL
        modifies this`freePerms, perms
        invariant j <= |L| && curp == (if j < |L| then L[j] else NULL) && InPool(h, L[..j])
        invariant Here() == FreedAll(h, L[..j])
        decreases |L| - j
      {
        FreeStep(h, h.files[file].acl, L, j);
        var nextp := perms[curp].next;
        perms[curp] := perms[curp].(next := freePerms);
        freePerms := curp;
        curp := nextp;
        j := j + 1;
        assert Here() == FreedAll(h, L[..j]);
      }
      assert L[..j] == L;
    }

    /** sfs_remove, where cfs_remove answers `rv`. */
    method SfsRemove(caller: ModuleId, name: Name, rv: int) returns (result: int)
      requires Valid()
      modifies this, perms, files, fds
      ensures Valid() && var r := Remove(old(Abs()), caller, name, rv);
        Abs() == r.acl && result == r.result && requests == old(requests) + r.requests
    {
      hide Good, Meaning, Inv, Live, KeyOf, Grants, IsOpen, Holds, IsList, FreedAll, CanRemove, Omit;
      if !initDone {
        InitDataStructures();
      }
      ghost var h, z := Here(), shape;
      var cur, prev, k := FindToRemove(caller, name);
      if cur == NULL {
        return FAILURE;
      }
      if files[cur].openCount != 0 {
        StillOpen(h, z, cur);
        return FAILURE;
      }
      RemoveKeeps(Meaning(h, z), caller, name, rv);
      UnlinkFile(cur, prev, k, caller, rv);
      Ask(Deleted(name));
      result := rv;
    }

    /** The part of sfs_remove that gives the structures back. */
    method UnlinkFile(cur: int, prev: int, ghost k: nat, ghost caller: ModuleId, ghost rv: int)
      requires Valid() && initDone && 0 <= cur < files.Length && cur in shape.acls && files[cur].openCount == 0
      requires k < |shape.openFiles| && shape.openFiles[k] == cur && prev == Previous(shape.openFiles, k)
      requires Holds(Abs(), caller, files[cur].name, SFS_ROOT)
      modifies this`freePerms, this`freeFiles, this`openFiles, this`shape, perms, files
      ensures Good(Here(), shape) && Abs() == Remove(old(Abs()), caller, old(files[cur].name), rv).acl
      ensures old(files[cur].name) in old(Abs()).owners && !IsOpen(old(Abs()), old(files[cur].name))
    {
      hide Good, Meaning, Inv, Live, KeyOf, Grants, IsOpen, Holds, IsList, FreedAll, CanRemove, Omit, Remove;
      ghost var h, z := Here(), shape;
      CanBeRemoved(h, z, k);
      AclList(h, z, cur);
      FileRemoved(h, z, k);
      files[prev] := files[prev].(next := files[cur].next);
      ghost var h1 := Here();
      FreedFiles(h, z.acls[cur], h1.files);
      ListSame(h, h1, cur, z.acls[cur]);
      FreeAcl(cur, h1, z.acls[cur]);
      if openFiles == cur {
        openFiles := files[cur].next;
      }
      files[cur] := files[cur].(next := freeFiles);
      freeFiles := cur;
      shape := WithoutFileShape(h, z, k);
      RemovedHere(h, z, k, h1, Here());
    }

    /** CHK_ROOT_PREV */
    method FindToRemove(caller: ModuleId, name: Name) returns (cur: int, prev: int, ghost k: nat)
      requires Valid() && initDone
      ensures cur == NULL <==> !(name in Abs().owners && Holds(Abs(), caller, name, SFS_ROOT))
      ensures cur != NULL ==>
        && 0 <= cur < files.Length && files[cur].name == name && cur in shape.acls
        && k < |shape.openFiles| && shape.openFiles[k] == cur && prev == Previous(shape.openFiles, k)
    {
      hide Good, Meaning, Inv, Live, KeyOf, Grants;
      FileFound(Here(), shape, name);
      cur, prev, k := LookupFile(name);
      if cur == NULL {
        return;
      }
      EntryFound(Here(), shape, cur, caller);
      EntryKey(Here(), shape, cur, caller);
      var p, _, _ := LookupPerm(cur, caller);
      if p == NULL || !Grants(perms[p].flags, SFS_ROOT) {
        cur := NULL;
      }
    }
  }

  ghost function FreshShape(): Shape {
    Shape(seq(MAX_NB_PERMS, i => i), seq(MAX_NB_FILES, i => i), [], map[], map[], map[])
  }

  lemma FreshGood(h: Heap)
    requires |h.perms| == MAX_NB_PERMS && |h.files| == MAX_NB_FILES && |h.fds| == MAX_NB_OPEN_FILES
    requires h.freePerms == 0 && h.freeFiles == 0 && h.openFiles == NULL
    requires forall j :: 0 <= j < MAX_NB_FILES ==> h.files[j].next == if j + 1 < MAX_NB_FILES then j + 1 else NULL
    requires forall j :: 0 <= j < MAX_NB_PERMS ==> h.perms[j].next == if j + 1 < MAX_NB_PERMS then j + 1 else NULL
    requires forall j :: 0 <= j < MAX_NB_OPEN_FILES ==> h.fds[j] == NULL
    ensures Good(h, FreshShape()) && Meaning(h, FreshShape()) == Empty() && Inv(Empty())
  {
    hide IsList, FilesOk, PermLinks, FileLinks, Meaning, Inv;
    FreshLists(h);
    FreshMeaning(h);
    EmptyInv();
  }

  lemma FreshMeaning(h: Heap)
    requires |h.fds| == MAX_NB_OPEN_FILES && forall j :: 0 <= j < MAX_NB_OPEN_FILES ==> h.fds[j] == NULL
    ensures Meaning(h, FreshShape()) == Empty()
  {
    var s := Meaning(h, FreshShape());
    assert s.fds == Empty().fds;
    assert s.perms == map[] && s.owners == map[];
  }

  lemma FreshLists(h: Heap)
    requires |h.perms| == MAX_NB_PERMS && |h.files| == MAX_NB_FILES
    requires h.freePerms == 0 && h.freeFiles == 0 && h.openFiles == NULL
    requires forall j :: 0 <= j < MAX_NB_FILES ==> h.files[j].next == if j + 1 < MAX_NB_FILES then j + 1 else NULL
    requires forall j :: 0 <= j < MAX_NB_PERMS ==> h.perms[j].next == if j + 1 < MAX_NB_PERMS then j + 1 else NULL
    ensures FilesOk(h, FreshShape()) && IsList(PermLinks(h), h.freePerms, FreshShape().freePerms)
    ensures forall p :: 0 <= p < MAX_NB_PERMS ==> p in FreshShape().freePerms
  {
    var z := FreshShape();
    forall p | 0 <= p < MAX_NB_PERMS
      ensures p in z.freePerms
    {
      assert z.freePerms[p] == p;
    }
    forall f | 0 <= f < MAX_NB_FILES
      ensures f in z.freeFiles
    {
      assert z.freeFiles[f] == f;
    }
  }

  lemma FileLookedUp(h: Heap, z: Shape, name: Name, cur: int, k: nat)
    requires Good(h, z) && k <= |z.openFiles| && cur == (if k < |z.openFiles| then z.openFiles[k] else NULL)
    requires k < |z.openFiles| ==> 0 <= cur < |h.files| && h.files[cur].name == name
    requires NoneNamed(h, z.openFiles, k, name)
    ensures cur == NULL <==> name !in z.named
    ensures cur != NULL ==> cur == z.named[name] && cur in z.acls && k < |z.openFiles|
  {
    hide IsList, CreatorsOk, FdsOk;
    if k < |z.openFiles| {
      assert z.openFiles[k] in z.openFiles;
    }
  }

  lemma EntryLookedUp(h: Heap, z: Shape, f: int, id: ModuleId, cur: int, k: nat)
    requires Good(h, z) && f in z.acls && 0 <= f < |h.files|
    requires k <= |z.acls[f]| && cur == (if k < |z.acls[f]| then z.acls[f][k] else NULL)
    requires k < |z.acls[f]| ==> 0 <= cur < |h.perms| && h.perms[cur].sm == id
    requires NoneOf(h, z.acls[f], k, id)
    ensures var key := Key(h.files[f].name, id);
      && (cur == NULL <==> key !in z.at) && (cur != NULL ==> cur == z.at[key] && k < |z.acls[f]|)
  {
    hide IsList, CreatorsOk, FdsOk, FilesOk, PermsOk, IndexOk;
    EntryFound(h, z, f, id);
    var key := Key(h.files[f].name, id);
    if k < |z.acls[f]| {
      assert z.acls[f][k] in z.acls[f];
    }
  }

  lemma FileOfEntry(h: Heap, z: Shape, p: int)
    requires Good(h, z) && Live(h, z, p)
    ensures 0 <= p < |h.perms| && 0 <= h.perms[p].file < |h.files|
    ensures KeyOf(h, p) == Key(h.files[h.perms[p].file].name, h.perms[p].sm)
    ensures KeyOf(h, p) in Meaning(h, z).perms && Meaning(h, z).perms[KeyOf(h, p)] == h.perms[p].flags
    ensures |Meaning(h, z).fds| == |h.fds|
  {
    hide IsList, FilesOk, CreatorsOk, FdsOk;
    LiveFile(h, z, p);
  }

  /** What a slot of the descriptor cache means. */
  lemma DescriptorMeans(h: Heap, z: Shape, fd: int)
    requires Good(h, z)
    ensures var s := Meaning(h, z);
      && |s.fds| == |h.fds| == MAX_NB_OPEN_FILES
      && (0 <= fd < |h.fds| ==> (h.fds[fd] == NULL <==> s.fds[fd].None?))
      && (0 <= fd < |h.fds| && h.fds[fd] != NULL ==>
            && Live(h, z, h.fds[fd]) && 0 <= h.fds[fd] < |h.perms| && s.fds[fd] == Some(KeyOf(h, h.fds[fd]))
            && s.fds[fd].value.sm == h.perms[h.fds[fd]].sm)
  {
    hide IsList, FilesOk, CreatorsOk, IndexOk;
    if 0 <= fd < |h.fds| && h.fds[fd] != NULL {
      LiveFile(h, z, h.fds[fd]);
    }
  }

  lemma EmptySlots(h: Heap, z: Shape)
    requires Good(h, z) && Meaning(h, z) == Empty()
    ensures forall i :: 0 <= i < |h.fds| ==> h.fds[i] == NULL
  {
    hide IsList, KeyOf, PermsOk, FilesOk, IndexOk;
    forall i | 0 <= i < |h.fds|
      ensures h.fds[i] == NULL
    {
      assert Meaning(h, z).fds[i] == None;
    }
  }

  /** The heads of the free lists tell whether there is anything left. */
  lemma Pools(h: Heap, z: Shape)
    requires Good(h, z)
    ensures h.freePerms == NULL <==> z.freePerms == []
    ensures h.freeFiles == NULL <==> z.freeFiles == []
    ensures Meaning(h, z).freePerms == |z.freePerms| && Meaning(h, z).freeFiles == |z.freeFiles|
  {
    hide KeyOf, IndexOk, FdsOk, CreatorsOk, Live;
    ListHead(PermLinks(h), h.freePerms, z.freePerms);
    ListHead(FileLinks(h), h.freeFiles, z.freeFiles);
  }

  /** The entry that was found is the one the map has. */
  lemma EntryKey(h: Heap, z: Shape, f: int, id: ModuleId)
    requires Good(h, z) && f in z.acls && 0 <= f < |h.files|
    ensures var k := Key(h.files[f].name, id);
      && h.files[f].name in Meaning(h, z).owners
      && (k in z.at ==> Live(h, z, z.at[k]) && KeyOf(h, z.at[k]) == k && 0 <= z.at[k] < |h.perms|)
  {
    hide IsList, FilesOk, CreatorsOk, FdsOk, OwnerOf;
  }

  lemma CreatedInv(h: Heap, z: Shape, name: Name, caller: ModuleId)
    requires Good(h, z) && Inv(Meaning(h, z)) && name !in z.named && z.freePerms != [] && z.freeFiles != []
    ensures Inv(Created(Meaning(h, z), name, caller))
  {
    hide Good, Inv, OwnerOf, FdKey;
    CreatedKeeps(Meaning(h, z), name, caller);
  }

  // ------------------------------------------------------------- dropping descriptors

  function DroppedBefore(fds: seq<Option<Key>>, key: Key, n: int): (r: seq<Option<Key>>)
    ensures |r| == |fds|
  {
    seq(|fds|, i requires 0 <= i < |fds| => if i < n && fds[i] == Some(key) then None else fds[i])
  }

  lemma DropStarts(fds: seq<Option<Key>>, key: Key)
    ensures DroppedBefore(fds, key, 0) == fds && Closings(fds[..0], key) == []
  {
  }

  lemma DropStep(fds: seq<Option<Key>>, key: Key, i: nat)
    requires i < |fds|
    ensures DroppedBefore(fds, key, i + 1) ==
      if fds[i] == Some(key) then DroppedBefore(fds, key, i)[i := None] else DroppedBefore(fds, key, i)
    ensures DroppedBefore(fds, key, i)[i] == fds[i]
    ensures Closings(fds[..i + 1], key) == Closings(fds[..i], key) + if fds[i] == Some(key) then [Closed(i)] else []
  {
    assert fds[..i + 1][..i] == fds[..i];
  }

  lemma DropEnds(fds: seq<Option<Key>>, key: Key)
    ensures DroppedBefore(fds, key, |fds|) == Dropped(fds, key)
    ensures fds[..|fds|] == fds
  {
  }

  lemma SlotCount(h: Heap, z: Shape)
    requires Good(h, z)
    ensures |Meaning(h, z).fds| == |h.fds| == MAX_NB_OPEN_FILES
  {
  }

  /** A slot refers to the entry exactly when it means its key. */
  lemma SlotIs(h0: Heap, h: Heap, z: Shape, i: nat, p: int)
    requires Good(h0, z) && Good(h, z) && SameStructure(h0, h) && Live(h0, z, p) && i < |h.fds|
    requires h.fds[i..] == h0.fds[i..]
    ensures |Meaning(h0, z).fds| == |h0.fds|
    ensures h.fds[i] == p <==> Meaning(h0, z).fds[i] == Some(KeyOf(h0, p))
    ensures p != NULL
  {
    hide IsList, FilesOk, PermsOk, CreatorsOk, KeyOf;
    assert h.fds[i] == h.fds[i..][0] == h0.fds[i..][0] == h0.fds[i];
  }

  lemma DropKeeps(s: Acl, i: nat)
    requires Inv(s) && i < |s.fds|
    ensures Inv(s.(fds := s.fds[i := None]))
  {
  }

  lemma KeyKept(h0: Heap, h: Heap, p: int)
    requires SameStructure(h0, h)
    ensures KeyOf(h, p) == KeyOf(h0, p)
  {
  }

  // ----------------------------------------------------------------------- revoking

  /** The creator's entry is the first, so any other has one before it. */
  lemma NotTheCreator(h: Heap, z: Shape, f: int, k: nat)
    requires Good(h, z) && f in z.acls && k < |z.acls[f]| && 0 <= z.acls[f][k] < |h.perms|
    requires h.perms[z.acls[f][k]].flags != SFS_CREATOR
    ensures k > 0
  {
    hide IsList, IndexOk, FdsOk, FilesOk;
  }

  lemma Unlinkable(h: Heap, z: Shape, f: int, k: nat)
    requires Good(h, z) && f in z.acls && 0 < k < |z.acls[f]|
    requires forall i :: 0 <= i < |h.fds| ==> h.fds[i] != z.acls[f][k]
    requires Inv(Meaning(h, z))
    ensures CanUnlink(h, z, f, k) && |z.freePerms| < MAX_NB_PERMS
    ensures 0 <= z.acls[f][k] < |h.perms| && 0 <= z.acls[f][k - 1] < |h.perms|
  {
    hide IsList, FilesOk, FdsOk, IndexOk, PermsOk, CreatorsOk, Meaning, Inv;
    EntryOf(h, z, f, k);
    EntryOf(h, z, f, k - 1);
    LiveIndexed(h, z, z.acls[f][k]);
  }

  lemma EntryOf(h: Heap, z: Shape, f: int, i: nat)
    requires PermsOk(h, z) && f in z.acls && i < |z.acls[f]|
    ensures Live(h, z, z.acls[f][i])
  {
    hide IsList;
    assert z.acls[f][i] in z.acls[f];
  }

  lemma LiveIndexed(h: Heap, z: Shape, p: int)
    requires Good(h, z) && Live(h, z, p) && Inv(Meaning(h, z))
    ensures |z.freePerms| < MAX_NB_PERMS
  {
    hide IsList, FilesOk, PermsOk, FdsOk, CreatorsOk, KeyOf;
    assert KeyOf(h, p) in Meaning(h, z).perms;
  }

  lemma RevokedInv(s: Acl, key: Key)
    requires Inv(s)
    ensures Inv(Revoke(s, key).acl)
  {
    RevokeKeeps(s, key);
  }

  lemma Appendable(h: Heap, z: Shape, f: int, id: ModuleId)
    requires Good(h, z) && f in z.acls && z.freePerms != [] && 0 <= f < |h.files| && Key(h.files[f].name, id) !in z.at
    ensures CanAppend(h, z, f, id)
    ensures 0 <= h.freePerms < |h.perms| && 0 <= z.acls[f][|z.acls[f]| - 1] < |h.perms|
  {
    hide IsList, FilesOk, FdsOk, IndexOk, CreatorsOk;
    AppendFacts(h, z, f, id);
  }

  // ----------------------------------------------------------------------- removing

  lemma FreeStarts(h: Heap, head: int, L: seq<int>)
    requires IsList(PermLinks(h), head, L)
    ensures FreedAll(h, L[..0]) == h && head == (if L == [] then NULL else L[0])
  {
  }

  /** One turn of the loop that frees a list. */
  lemma FreeStep(h: Heap, head: int, L: seq<int>, j: nat)
    requires IsList(PermLinks(h), head, L) && InPool(h, L) && j <= |L|
    ensures InPool(h, L[..j]) && (j < |L| ==> InPool(h, L[..j + 1]))
    ensures j < |L| ==> 0 <= L[j] < |h.perms|
    ensures j < |L| ==> FreedAll(h, L[..j]).perms[L[j]].next == Successor(L, j)
    ensures j < |L| ==> FreedAll(h, L[..j + 1]) == Freed(FreedAll(h, L[..j]), L[j])
  {
    if j < |L| {
      ListAt(PermLinks(h), head, L, j);
      assert L[..j + 1][..j] == L[..j];
      assert L[j] !in L[..j];
      FreedKeeps(h, L[..j], L[j]);
    }
  }

  lemma StillOpen(h: Heap, z: Shape, f: int)
    requires Good(h, z) && f in z.acls && 0 <= f < |h.files| && h.files[f].openCount != 0
    ensures IsOpen(Meaning(h, z), h.files[f].name)
  {
    hide IsList, FilesOk, IndexOk, CreatorsOk, PermsOk;
    CountZero(h.perms, h.fds, f);
    var i :| 0 <= i < |h.fds| && 0 <= h.fds[i] < |h.perms| && h.perms[h.fds[i]].file == f;
    LiveFile(h, z, h.fds[i]);
    assert Meaning(h, z).fds[i] == Some(KeyOf(h, h.fds[i]));
  }

  lemma CanBeRemoved(h: Heap, z: Shape, k: nat)
    requires Good(h, z) && k < |z.openFiles| && z.openFiles[k] in z.acls && 0 <= z.openFiles[k] < |h.files|
    requires h.files[z.openFiles[k]].openCount == 0
    ensures CanRemove(h, z, k) && 0 <= Previous(z.openFiles, k) < |h.files|
    ensures InPool(h, z.acls[z.openFiles[k]])
  {
    hide IsList, IndexOk, CreatorsOk, FdsOk, PermsOk;
    ClosedRange(h, z, k);
    AclInPool(h, z, z.openFiles[k]);
  }

  /** Freeing entries and writing to the files do not interfere. */
  lemma {:induction false} FreedFiles(h: Heap, L: seq<int>, F: seq<OpenFile>)
    requires InPool(h, L)
    ensures FreedAll(h.(files := F), L) == FreedAll(h, L).(files := F)
  {
    if L != [] {
      FreedFiles(h, L[..|L| - 1], F);
    }
  }

  lemma ListSame(h: Heap, h1: Heap, f: int, L: seq<int>)
    requires h1 == h.(files := h1.files) && |h1.files| == |h.files| && 0 <= f < |h.files|
    requires h1.files[f].acl == h.files[f].acl
    ensures PermLinks(h1) == PermLinks(h)
  {
  }

  lemma RemovedHere(h: Heap, z: Shape, k: nat, h1: Heap, h2: Heap)
    requires CanRemove(h, z, k)
    requires var f, prev := z.openFiles[k], Previous(z.openFiles, k);
      && h1 == h.(files := h.files[prev := h.files[prev].(next := h.files[f].next)])
      && var r := FreedAll(h1, z.acls[f]);
         h2 == r.(files := r.files[f := r.files[f].(next := r.freeFiles)], freeFiles := f,
                  openFiles := if r.openFiles == f then r.files[f].next else r.openFiles)
    ensures h2 == WithoutFile(h, z, k)
  {
    hide Good, FreedAll;
    FreedFiles(h, z.acls[z.openFiles[k]], h1.files);
  }
}
