/** What each write of the front end does to its structures, and to what they stand for. */
module PermissionSteps {
  import opened AccessControl
  import opened PermissionPools

  // ------------------------------------------------------------------ what stays put

  /** Links, owners and names are as they were; counts, flags and descriptors may differ. */
  ghost predicate SameLists(h: Heap, h': Heap) {
    && |h'.perms| == |h.perms| && |h'.files| == |h.files|
    && h'.freePerms == h.freePerms && h'.freeFiles == h.freeFiles && h'.openFiles == h.openFiles
    && (forall p :: 0 <= p < |h.perms| ==>
          h'.perms[p].file == h.perms[p].file && h'.perms[p].sm == h.perms[p].sm && h'.perms[p].next == h.perms[p].next)
    && (forall f :: 0 <= f < |h.files| ==>
          h'.files[f].acl == h.files[f].acl && h'.files[f].name == h.files[f].name
            && h'.files[f].next == h.files[f].next)
  }

  lemma LinksKept(h: Heap, h': Heap)
    requires SameLists(h, h')
    ensures PermLinks(h') == PermLinks(h) && FileLinks(h') == FileLinks(h)
    ensures forall p :: KeyOf(h', p) == KeyOf(h, p)
    ensures forall z, p :: Live(h', z, p) <==> Live(h, z, p)
  {
  }

  lemma ListsKept(h: Heap, h': Heap, z: Shape)
    requires SameLists(h, h') && FilesOk(h, z) && PermsOk(h, z)
    ensures FilesOk(h', z) && PermsOk(h', z)
  {
    hide IsList, PermLinks, FileLinks, KeyOf;
    LinksKept(h, h');
    forall p | Live(h', z, p)
      ensures h'.perms[p].file in z.acls && p in z.acls[h'.perms[p].file]
    {
    }
    forall f, p | f in z.acls && p in z.acls[f]
      ensures Live(h', z, p) && h'.perms[p].file == f
    {
    }
  }

  lemma IndexKept(h: Heap, h': Heap, z: Shape)
    requires SameLists(h, h') && IndexOk(h, z)
    ensures IndexOk(h', z)
  {
    hide KeyOf, Live;
    LinksKept(h, h');
  }

  // --------------------------------------------------------------- the descriptor cache

  /** Only counts and descriptors differ. */
  ghost predicate SameStructure(h: Heap, h': Heap) {
    && h'.perms == h.perms && h'.freePerms == h.freePerms && h'.freeFiles == h.freeFiles && h'.openFiles == h.openFiles
    && |h'.fds| == |h.fds| && |h'.files| == |h.files|
    && forall f :: 0 <= f < |h.files| ==> h'.files[f] == h.files[f].(openCount := h'.files[f].openCount)
  }

  lemma StructureKept(h: Heap, h': Heap, z: Shape)
    requires Good(h, z) && SameStructure(h, h')
    ensures Sizes(h', z) && FilesOk(h', z) && PermsOk(h', z) && IndexOk(h', z) && CreatorsOk(h', z)
    ensures forall p :: KeyOf(h', p) == KeyOf(h, p)
    ensures forall p :: Live(h', z, p) <==> Live(h, z, p)
    ensures Meaning(h', z) == Meaning(h, z).(fds := Meaning(h', z).fds)
  {
    hide PermsOk, FilesOk, IndexOk;
    LinksKept(h, h');
    ListsKept(h, h', z);
    IndexKept(h, h', z);
  }

  /** A descriptor is taken, or given back. */
  function Redirected(h: Heap, fd: int, p: int, f: int, change: int): Heap
    requires 0 <= fd < |h.fds| && 0 <= f < |h.files|
  {
    h.(fds := h.fds[fd := p], files := h.files[f := h.files[f].(openCount := h.files[f].openCount + change)])
  }

  lemma SlotOpened(h: Heap, z: Shape, fd: int, p: int)
    requires Good(h, z) && 0 <= fd < |h.fds| && h.fds[fd] == NULL && Live(h, z, p)
    ensures 0 <= h.perms[p].file < |h.files|
    ensures var h' := Redirected(h, fd, p, h.perms[p].file, 1);
      && Good(h', z)
      && Meaning(h', z) == Meaning(h, z).(fds := Meaning(h, z).fds[fd := Some(KeyOf(h, p))])
  {
    hide IsList, FilesOk, IndexOk, CreatorsOk;
    var f := h.perms[p].file;
    assert f in z.acls;
    var h' := Redirected(h, fd, p, f, 1);
    StructureKept(h, h', z);
    forall g | g in z.acls && 0 <= g < |h.files|
      ensures h'.files[g].openCount == Count(h'.perms, h'.fds, g)
    {
      CountUpdate(h.perms, h.fds, fd, p, g);
    }
  }

  lemma SlotClosed(h: Heap, z: Shape, fd: int)
    requires Good(h, z) && 0 <= fd < |h.fds| && h.fds[fd] != NULL
    ensures Live(h, z, h.fds[fd]) && 0 <= h.perms[h.fds[fd]].file < |h.files|
    ensures var h' := Redirected(h, fd, NULL, h.perms[h.fds[fd]].file, -1);
      && Good(h', z)
      && Meaning(h', z) == Meaning(h, z).(fds := Meaning(h, z).fds[fd := None])
  {
    hide IsList, FilesOk, IndexOk, CreatorsOk;
    var f := h.perms[h.fds[fd]].file;
    assert Live(h, z, h.fds[fd]) && f in z.acls;
    var h' := Redirected(h, fd, NULL, f, -1);
    StructureKept(h, h', z);
    forall g | g in z.acls && 0 <= g < |h.files|
      ensures h'.files[g].openCount == Count(h'.perms, h'.fds, g)
    {
      CountUpdate(h.perms, h.fds, fd, NULL, g);
    }
  }

  // ------------------------------------------------------------------------ lookups

  /** The position of the file with this name, or of the entry with this key. */
  lemma FileFound(h: Heap, z: Shape, name: Name)
    requires Good(h, z)
    ensures name in z.named ==> z.named[name] in z.openFiles && h.files[z.named[name]].name == name
    ensures forall f :: f in z.openFiles && 0 <= f < |h.files| && h.files[f].name == name ==>
      name in z.named && z.named[name] == f
    ensures name in z.named <==> name in Meaning(h, z).owners
  {
    hide IsList;
  }

  lemma EntryFound(h: Heap, z: Shape, f: int, id: ModuleId)
    requires Good(h, z) && f in z.acls
    ensures 0 <= f < |h.files|
    ensures var k := Key(h.files[f].name, id);
      && (k in z.at ==> z.at[k] in z.acls[f] && h.perms[z.at[k]].sm == id && Live(h, z, z.at[k]))
      && (forall p :: p in z.acls[f] && 0 <= p < |h.perms| && h.perms[p].sm == id ==> k in z.at && z.at[k] == p)
      && (k in z.at <==> k in Meaning(h, z).perms)
      && (k in z.at ==> Meaning(h, z).perms[k] == h.perms[z.at[k]].flags)
  {
    hide IsList, FilesOk, CreatorsOk, FdsOk;
    var k := Key(h.files[f].name, id);
    if k in z.at {
      var p := z.at[k];
      assert h.perms[p].file in z.acls && h.files[h.perms[p].file].name == h.files[f].name;
    }
  }

  // ------------------------------------------------------------------- writing flags

  /** Overriding an entry that is not the creator's. */
  lemma FlagsWritten(h: Heap, z: Shape, p: int, flags: Flags)
    requires Good(h, z) && Live(h, z, p) && h.perms[p].flags != SFS_CREATOR
    ensures var h' := h.(perms := h.perms[p := h.perms[p].(flags := flags)]);
      && Good(h', z)
      && Meaning(h', z) == Meaning(h, z).(perms := Meaning(h, z).perms[KeyOf(h, p) := flags])
  {
    hide PermsOk, FilesOk, IndexOk, KeyOf, Count;
    var h' := h.(perms := h.perms[p := h.perms[p].(flags := flags)]);
    LinksKept(h, h');
    ListsKept(h, h', z);
    IndexKept(h, h', z);
    forall f | f in z.acls && 0 <= f < |h.files|
      ensures Count(h'.perms, h'.fds, f) == Count(h.perms, h.fds, f)
    {
      CountKept(h.perms, h'.perms, h.fds, f);
    }
    FlagsMeaning(h, z, p, flags);
  }

  lemma FlagsMeaning(h: Heap, z: Shape, p: int, flags: Flags)
    requires IndexOk(h, z) && Live(h, z, p)
    ensures var h' := h.(perms := h.perms[p := h.perms[p].(flags := flags)]);
      Meaning(h', z) == Meaning(h, z).(perms := Meaning(h, z).perms[KeyOf(h, p) := flags])
  {
    hide KeyOf;
    var h' := h.(perms := h.perms[p := h.perms[p].(flags := flags)]);
    LinksKept(h, h');
    assert Meaning(h', z).fds == Meaning(h, z).fds;
    assert Meaning(h', z).owners == Meaning(h, z).owners;
    assert Meaning(h', z).perms == Meaning(h, z).perms[KeyOf(h, p) := flags];
  }

  // ----------------------------------------------------------------- a new entry

  /** ALLOC_PERM, and the link from the last entry. */
  function Appended(h: Heap, last: int, id: ModuleId, flags: Flags, f: int): Heap
    requires 0 <= h.freePerms < |h.perms| && 0 <= last < |h.perms|
  {
    var p := h.freePerms;
    var P := h.perms[p := FilePerm(id, flags, f, NULL)];
    h.(perms := P[last := P[last].(next := p)], freePerms := h.perms[p].next)
  }

  ghost function AppendedShape(h: Heap, z: Shape, f: int, id: ModuleId): Shape
    requires z.freePerms != [] && f in z.acls && 0 <= f < |h.files|
  {
    z.(freePerms := z.freePerms[1..], acls := z.acls[f := z.acls[f] + [z.freePerms[0]]],
       at := z.at[Key(h.files[f].name, id) := z.freePerms[0]])
  }

  ghost predicate CanAppend(h: Heap, z: Shape, f: int, id: ModuleId) {
    && Good(h, z) && f in z.acls && z.freePerms != [] && 0 <= f < |h.files| && Key(h.files[f].name, id) !in z.at
    && z.acls[f] != []
  }

  lemma AppendFacts(h: Heap, z: Shape, f: int, id: ModuleId)
    requires CanAppend(h, z, f, id)
    ensures var p := z.freePerms[0]; var last := z.acls[f][|z.acls[f]| - 1];
      && h.freePerms == p && 0 <= p < |h.perms| && 0 <= last < |h.perms| && p != last && !Live(h, z, p)
      && Live(h, z, last)
      && h.perms[last].file == f && last in z.acls[f]
      && (forall q :: q in z.freePerms <==> q == p || q in z.freePerms[1..]) && p !in z.freePerms[1..]
      && last !in z.freePerms
      && (forall g :: g in z.acls ==> p !in z.acls[g]) && (forall g :: g in z.acls && g != f ==> last !in z.acls[g])
  {
    ListHead(PermLinks(h), h.freePerms, z.freePerms);
    assert z.acls[f][|z.acls[f]| - 1] in z.acls[f];
  }

  lemma AppendLists(h: Heap, z: Shape, f: int, id: ModuleId, flags: Flags)
    requires CanAppend(h, z, f, id)
    ensures var last := z.acls[f][|z.acls[f]| - 1];
      && 0 <= h.freePerms < |h.perms| && 0 <= last < |h.perms|
      && var h', z' := Appended(h, last, id, flags, f), AppendedShape(h, z, f, id);
         && FileLinks(h') == FileLinks(h) && IsList(PermLinks(h'), h'.freePerms, z'.freePerms)
         && forall g :: g in z'.acls ==>
              0 <= g < |h'.files| && z'.acls[g] != [] && IsList(PermLinks(h'), h'.files[g].acl, z'.acls[g])
  {
    hide IsList, IndexOk, CreatorsOk, FdsOk;
    AppendFacts(h, z, f, id);
    var p, last := z.freePerms[0], z.acls[f][|z.acls[f]| - 1];
    var h', z' := Appended(h, last, id, flags, f), AppendedShape(h, z, f, id);
    var N, N' := PermLinks(h), PermLinks(h');
    assert N' == N[p := NULL][last := p];
    assert N[p] == h.perms[p].next;
    ListHead(N, h.freePerms, z.freePerms);
    ListKept(N, N', N[p], z.freePerms[1..]);
    forall g | g in z'.acls
      ensures 0 <= g < |h'.files| && z'.acls[g] != [] && IsList(N', h'.files[g].acl, z'.acls[g])
    {
      if g == f {
        ListAppended(N, h.files[f].acl, z.acls[f], p);
      } else {
        assert forall x :: x in z.acls[g] ==> Live(h, z, x) && x != p && x != last;
        ListKept(N, N', h.files[g].acl, z.acls[g]);
      }
    }
  }

  lemma AppendPerms(h: Heap, z: Shape, f: int, id: ModuleId, flags: Flags)
    requires CanAppend(h, z, f, id)
    ensures var last := z.acls[f][|z.acls[f]| - 1];
      && 0 <= h.freePerms < |h.perms| && 0 <= last < |h.perms|
      && FilesOk(Appended(h, last, id, flags, f), AppendedShape(h, z, f, id))
      && PermsOk(Appended(h, last, id, flags, f), AppendedShape(h, z, f, id))
  {
    hide IsList, IndexOk, CreatorsOk, FdsOk, PermLinks, FileLinks;
    AppendFacts(h, z, f, id);
    AppendLists(h, z, f, id, flags);
    var p, last := z.freePerms[0], z.acls[f][|z.acls[f]| - 1];
    var h', z' := Appended(h, last, id, flags, f), AppendedShape(h, z, f, id);
    AppendEntries(h, z, f, id, flags);
  }

  /** Every live entry is on the list of its file, and the other way round. */
  lemma AppendEntries(h: Heap, z: Shape, f: int, id: ModuleId, flags: Flags)
    requires CanAppend(h, z, f, id)
    ensures var last := z.acls[f][|z.acls[f]| - 1];
      && 0 <= h.freePerms < |h.perms| && 0 <= last < |h.perms|
      && var h', z' := Appended(h, last, id, flags, f), AppendedShape(h, z, f, id);
         && (forall q :: Live(h', z', q) ==> h'.perms[q].file in z'.acls && q in z'.acls[h'.perms[q].file])
         && (forall g, q :: g in z'.acls && q in z'.acls[g] ==> Live(h', z', q) && h'.perms[q].file == g)
  {
    hide IsList, IndexOk, CreatorsOk, FdsOk, PermLinks, FileLinks;
    AppendFacts(h, z, f, id);
    var p, last := z.freePerms[0], z.acls[f][|z.acls[f]| - 1];
    var h', z' := Appended(h, last, id, flags, f), AppendedShape(h, z, f, id);
    assert forall x :: x in z'.acls[f] <==> x in z.acls[f] || x == p;
    assert forall q :: Live(h', z', q) <==> q == p || Live(h, z, q);
    assert forall q :: 0 <= q < |h.perms| && q != p ==> h'.perms[q].file == h.perms[q].file;
    forall q | Live(h', z', q)
      ensures h'.perms[q].file in z'.acls && q in z'.acls[h'.perms[q].file]
    {
    }
    forall g, q | g in z'.acls && q in z'.acls[g]
      ensures Live(h', z', q) && h'.perms[q].file == g
    {
    }
  }

  lemma Heads(h: Heap, z: Shape, g: int)
    requires PermsOk(h, z) && g in z.acls
    ensures z.acls[g] != [] && Live(h, z, z.acls[g][0]) && h.perms[z.acls[g][0]].file == g
  {
    hide IsList;
    assert z.acls[g][0] in z.acls[g];
  }

  /** What stays the same for entries other than the new one. */
  lemma AppendKeys(h: Heap, z: Shape, f: int, id: ModuleId, flags: Flags)
    requires CanAppend(h, z, f, id)
    ensures var p, last := z.freePerms[0], z.acls[f][|z.acls[f]| - 1];
      && 0 <= h.freePerms < |h.perms| && 0 <= last < |h.perms|
      && var h', z' := Appended(h, last, id, flags, f), AppendedShape(h, z, f, id);
         && |h'.perms| == |h.perms| && h'.fds == h.fds
         && (forall q :: q != p ==> KeyOf(h', q) == KeyOf(h, q) && (Live(h', z', q) <==> Live(h, z, q)))
         && KeyOf(h', p) == Key(h.files[f].name, id) && Live(h', z', p) && !Live(h, z, p)
         && (forall q :: 0 <= q < |h.perms| && q != p ==>
              h'.perms[q].flags == h.perms[q].flags && h'.perms[q].sm == h.perms[q].sm)
         && h'.perms[p].flags == flags && 0 <= p < |h.perms|
  {
    hide IsList, FilesOk, IndexOk, CreatorsOk, FdsOk, PermsOk;
    AppendFacts(h, z, f, id);
  }

  lemma AppendOwners(h: Heap, z: Shape, f: int, id: ModuleId, flags: Flags, g: int)
    requires CanAppend(h, z, f, id) && g in z.acls
    ensures var last := z.acls[f][|z.acls[f]| - 1];
      && 0 <= h.freePerms < |h.perms| && 0 <= last < |h.perms|
      && OwnerOf(Appended(h, last, id, flags, f), AppendedShape(h, z, f, id), g) == OwnerOf(h, z, g)
  {
    hide IsList, FilesOk, IndexOk, CreatorsOk, FdsOk;
    AppendFacts(h, z, f, id);
    Heads(h, z, g);
  }

  lemma AppendIndex(h: Heap, z: Shape, f: int, id: ModuleId, flags: Flags)
    requires CanAppend(h, z, f, id)
    ensures var last := z.acls[f][|z.acls[f]| - 1];
      && 0 <= h.freePerms < |h.perms| && 0 <= last < |h.perms|
      && IndexOk(Appended(h, last, id, flags, f), AppendedShape(h, z, f, id))
  {
    hide IsList, CreatorsOk, FdsOk, FilesOk, PermsOk, KeyOf, Live;
    AppendFacts(h, z, f, id);
    AppendKeys(h, z, f, id, flags);
  }

  lemma EntryAppended(h: Heap, z: Shape, f: int, id: ModuleId, flags: Flags)
    requires CanAppend(h, z, f, id)
    ensures var last := z.acls[f][|z.acls[f]| - 1]; var k := Key(h.files[f].name, id);
      && 0 <= h.freePerms < |h.perms| && 0 <= last < |h.perms|
      && var h', z' := Appended(h, last, id, flags, f), AppendedShape(h, z, f, id);
         && Good(h', z')
         && Meaning(h', z') == Meaning(h, z).(perms := Meaning(h, z).perms[k := flags], freePerms := |z.freePerms| - 1)
  {
    hide IsList, FilesOk, PermsOk, IndexOk;
    AppendFacts(h, z, f, id);
    AppendPerms(h, z, f, id, flags);
    AppendIndex(h, z, f, id, flags);
    var p, last := z.freePerms[0], z.acls[f][|z.acls[f]| - 1];
    var h', z' := Appended(h, last, id, flags, f), AppendedShape(h, z, f, id);
    forall g | g in z'.acls && 0 <= g < |h'.files|
      ensures h'.files[g].openCount == Count(h'.perms, h'.fds, g)
    {
      CountKept(h.perms, h'.perms, h.fds, g);
    }
    AppendMeaning(h, z, f, id, flags);
  }

  lemma AppendMeaning(h: Heap, z: Shape, f: int, id: ModuleId, flags: Flags)
    requires CanAppend(h, z, f, id)
    ensures var last := z.acls[f][|z.acls[f]| - 1]; var k := Key(h.files[f].name, id);
      && 0 <= h.freePerms < |h.perms| && 0 <= last < |h.perms|
      && Meaning(Appended(h, last, id, flags, f), AppendedShape(h, z, f, id))
           == Meaning(h, z).(perms := Meaning(h, z).perms[k := flags], freePerms := |z.freePerms| - 1)
  {
    hide IsList, FilesOk, PermsOk, KeyOf, CreatorsOk, OwnerOf, FdsOk, Live, Good;
    AppendFacts(h, z, f, id);
    AppendOwnersMap(h, z, f, id, flags);
    AppendPermsMap(h, z, f, id, flags);
    AppendFds(h, z, f, id, flags);
  }

  lemma AppendOwnersMap(h: Heap, z: Shape, f: int, id: ModuleId, flags: Flags)
    requires CanAppend(h, z, f, id)
    ensures var last := z.acls[f][|z.acls[f]| - 1];
      && 0 <= h.freePerms < |h.perms| && 0 <= last < |h.perms|
      && Meaning(Appended(h, last, id, flags, f), AppendedShape(h, z, f, id)).owners == Meaning(h, z).owners
  {
    hide IsList, FilesOk, PermsOk, KeyOf, CreatorsOk, OwnerOf, FdsOk, Live;
    AppendFacts(h, z, f, id);
    var last := z.acls[f][|z.acls[f]| - 1];
    var h', z' := Appended(h, last, id, flags, f), AppendedShape(h, z, f, id);
    forall n | n in z.named
      ensures OwnerOf(h', z', z.named[n]) == OwnerOf(h, z, z.named[n])
    {
      AppendOwners(h, z, f, id, flags, z.named[n]);
    }
  }

  lemma AppendPermsMap(h: Heap, z: Shape, f: int, id: ModuleId, flags: Flags)
    requires CanAppend(h, z, f, id)
    ensures var last := z.acls[f][|z.acls[f]| - 1];
      && 0 <= h.freePerms < |h.perms| && 0 <= last < |h.perms|
      && Meaning(Appended(h, last, id, flags, f), AppendedShape(h, z, f, id)).perms
           == Meaning(h, z).perms[Key(h.files[f].name, id) := flags]
  {
    hide IsList, FilesOk, PermsOk, KeyOf, CreatorsOk, OwnerOf, FdsOk;
    AppendFacts(h, z, f, id);
    AppendKeys(h, z, f, id, flags);
  }

  lemma AppendFds(h: Heap, z: Shape, f: int, id: ModuleId, flags: Flags)
    requires CanAppend(h, z, f, id)
    ensures var last := z.acls[f][|z.acls[f]| - 1];
      && 0 <= h.freePerms < |h.perms| && 0 <= last < |h.perms|
      && Meaning(Appended(h, last, id, flags, f), AppendedShape(h, z, f, id)).fds == Meaning(h, z).fds
  {
    hide IsList, FilesOk, PermsOk, KeyOf, CreatorsOk, OwnerOf, Live;
    AppendFacts(h, z, f, id);
    AppendKeys(h, z, f, id, flags);
  }

  // ------------------------------------------------------------- an entry goes away

  /** The entry is unlinked behind `prev`, and FREE_PERM. */
  function Unlinked(h: Heap, prev: int, p: int): Heap
    requires 0 <= prev < |h.perms| && 0 <= p < |h.perms|
  {
    var P := h.perms[prev := h.perms[prev].(next := h.perms[p].next)];
    h.(perms := P[p := P[p].(next := h.freePerms)], freePerms := p)
  }

  ghost function UnlinkedShape(h: Heap, z: Shape, f: int, k: nat): Shape
    requires f in z.acls && k < |z.acls[f]|
  {
    z.(freePerms := [z.acls[f][k]] + z.freePerms, acls := z.acls[f := Omit(z.acls[f], k)],
      at := z.at - {KeyOf(h, z.acls[f][k])})
  }

  ghost predicate CanUnlink(h: Heap, z: Shape, f: int, k: nat) {
    && Good(h, z) && f in z.acls && 0 < k < |z.acls[f]|
    && forall i :: 0 <= i < |h.fds| ==> h.fds[i] != z.acls[f][k]
  }

  lemma UnlinkFacts(h: Heap, z: Shape, f: int, k: nat)
    requires CanUnlink(h, z, f, k)
    ensures var p, prev := z.acls[f][k], z.acls[f][k - 1];
      && Live(h, z, p) && Live(h, z, prev) && p != prev && h.perms[p].file == f == h.perms[prev].file
      && KeyOf(h, p) in z.at && z.at[KeyOf(h, p)] == p && 0 <= f < |h.files|
      && (forall x :: x in z.acls[f] <==> x in Omit(z.acls[f], k) || x == p) && p !in Omit(z.acls[f], k)
      && (forall g :: g in z.acls && g != f ==> p !in z.acls[g] && prev !in z.acls[g])
      && Omit(z.acls[f], k) != [] && Omit(z.acls[f], k)[0] == z.acls[f][0]
  {
    hide IsList, CreatorsOk, FdsOk, Omit;
    UnlinkOmit(h, z, f, k);
    MemberFacts(h, z, f, z.acls[f][k]);
    MemberFacts(h, z, f, z.acls[f][k - 1]);
  }

  lemma MemberFacts(h: Heap, z: Shape, f: int, p: int)
    requires Good(h, z) && f in z.acls && p in z.acls[f]
    ensures Live(h, z, p) && h.perms[p].file == f && KeyOf(h, p) in z.at && z.at[KeyOf(h, p)] == p && 0 <= f < |h.files|
    ensures forall g :: g in z.acls && g != f ==> p !in z.acls[g]
  {
    hide IsList, CreatorsOk, FdsOk;
  }

  lemma UnlinkOmit(h: Heap, z: Shape, f: int, k: nat)
    requires CanUnlink(h, z, f, k)
    ensures z.acls[f][k] != z.acls[f][k - 1] && Omit(z.acls[f], k) != [] && Omit(z.acls[f], k)[0] == z.acls[f][0]
    ensures forall x :: x in z.acls[f] <==> x in Omit(z.acls[f], k) || x == z.acls[f][k]
    ensures z.acls[f][k] !in Omit(z.acls[f], k)
  {
    assert IsList(PermLinks(h), h.files[f].acl, z.acls[f]);
    OmitMembers(z.acls[f], k);
    OmitAt(z.acls[f], k, 0);
  }

  lemma UnlinkLists(h: Heap, z: Shape, f: int, k: nat)
    requires CanUnlink(h, z, f, k)
    ensures var p, prev := z.acls[f][k], z.acls[f][k - 1];
      && 0 <= p < |h.perms| && 0 <= prev < |h.perms|
      && var h', z' := Unlinked(h, prev, p), UnlinkedShape(h, z, f, k);
         && FileLinks(h') == FileLinks(h) && IsList(PermLinks(h'), h'.freePerms, z'.freePerms)
         && forall g :: g in z'.acls ==>
              0 <= g < |h'.files| && z'.acls[g] != [] && IsList(PermLinks(h'), h'.files[g].acl, z'.acls[g])
  {
    hide IsList, IndexOk, CreatorsOk, FdsOk;
    UnlinkFacts(h, z, f, k);
    var p, prev := z.acls[f][k], z.acls[f][k - 1];
    var h', z' := Unlinked(h, prev, p), UnlinkedShape(h, z, f, k);
    var N, N' := PermLinks(h), PermLinks(h');
    var M := N[prev := N[p]];
    assert N' == M[p := h.freePerms];
    assert N[p] == h.perms[p].next;
    ListHead(N, h.freePerms, z.freePerms);
    ListKept(N, M, h.freePerms, z.freePerms);
    ListPushed(M, h.freePerms, z.freePerms, p);
    forall g | g in z'.acls
      ensures 0 <= g < |h'.files| && z'.acls[g] != [] && IsList(N', h'.files[g].acl, z'.acls[g])
    {
      if g == f {
        ListOmitted(N, h.files[f].acl, z.acls[f], k);
        assert forall x :: x in Omit(z.acls[f], k) ==> Live(h, z, x) && x != p;
        ListKept(M, N', h.files[f].acl, Omit(z.acls[f], k));
      } else {
        assert forall x :: x in z.acls[g] ==> Live(h, z, x) && x != p && x != prev;
        ListKept(N, N', h.files[g].acl, z.acls[g]);
      }
    }
  }

  lemma UnlinkKeys(h: Heap, z: Shape, f: int, k: nat)
    requires CanUnlink(h, z, f, k)
    ensures var p, prev := z.acls[f][k], z.acls[f][k - 1];
      && 0 <= p < |h.perms| && 0 <= prev < |h.perms|
      && var h', z' := Unlinked(h, prev, p), UnlinkedShape(h, z, f, k);
         && |h'.perms| == |h.perms| && h'.fds == h.fds && h'.files == h.files
         && (forall q :: KeyOf(h', q) == KeyOf(h, q) && (Live(h', z', q) <==> Live(h, z, q) && q != p))
         && (forall q :: 0 <= q < |h.perms| ==>
               h'.perms[q].flags == h.perms[q].flags && h'.perms[q].sm == h.perms[q].sm
                 && h'.perms[q].file == h.perms[q].file)
  {
    hide IsList, FilesOk, IndexOk, CreatorsOk, FdsOk, PermsOk;
    UnlinkFacts(h, z, f, k);
  }

  lemma UnlinkPerms(h: Heap, z: Shape, f: int, k: nat)
    requires CanUnlink(h, z, f, k)
    ensures var p, prev := z.acls[f][k], z.acls[f][k - 1];
      && 0 <= p < |h.perms| && 0 <= prev < |h.perms|
      && FilesOk(Unlinked(h, prev, p), UnlinkedShape(h, z, f, k))
      && PermsOk(Unlinked(h, prev, p), UnlinkedShape(h, z, f, k))
  {
    hide IsList, IndexOk, CreatorsOk, FdsOk, PermLinks, FileLinks, KeyOf;
    UnlinkFacts(h, z, f, k);
    UnlinkLists(h, z, f, k);
    UnlinkKeys(h, z, f, k);
    var p, prev := z.acls[f][k], z.acls[f][k - 1];
    var h', z' := Unlinked(h, prev, p), UnlinkedShape(h, z, f, k);
    forall q | Live(h', z', q)
      ensures h'.perms[q].file in z'.acls && q in z'.acls[h'.perms[q].file]
    {
      assert Live(h, z, q) && q != p;
    }
    forall g, q | g in z'.acls && q in z'.acls[g]
      ensures Live(h', z', q) && h'.perms[q].file == g
    {
      assert q in z.acls[g] && q != p;
    }
  }

  lemma UnlinkIndex(h: Heap, z: Shape, f: int, k: nat)
    requires CanUnlink(h, z, f, k)
    ensures var p, prev := z.acls[f][k], z.acls[f][k - 1];
      && 0 <= p < |h.perms| && 0 <= prev < |h.perms|
      && IndexOk(Unlinked(h, prev, p), UnlinkedShape(h, z, f, k))
  {
    hide IsList, CreatorsOk, FdsOk, FilesOk, PermsOk, KeyOf, Live;
    UnlinkFacts(h, z, f, k);
    UnlinkKeys(h, z, f, k);
  }

  lemma EntryUnlinked(h: Heap, z: Shape, f: int, k: nat)
    requires CanUnlink(h, z, f, k)
    ensures var p, prev := z.acls[f][k], z.acls[f][k - 1];
      && 0 <= p < |h.perms| && 0 <= prev < |h.perms|
      && var h', z' := Unlinked(h, prev, p), UnlinkedShape(h, z, f, k);
         && (|z.freePerms| < MAX_NB_PERMS ==> Good(h', z'))
         && Meaning(h', z') == Meaning(h, z).(perms := Meaning(h, z).perms - {KeyOf(h, p)},
              freePerms := |z.freePerms| + 1)
  {
    hide IsList, FilesOk, PermsOk, IndexOk, KeyOf, Live;
    UnlinkFacts(h, z, f, k);
    UnlinkPerms(h, z, f, k);
    UnlinkIndex(h, z, f, k);
    UnlinkKeys(h, z, f, k);
    var p, prev := z.acls[f][k], z.acls[f][k - 1];
    var h', z' := Unlinked(h, prev, p), UnlinkedShape(h, z, f, k);
    forall g | g in z'.acls && 0 <= g < |h'.files|
      ensures h'.files[g].openCount == Count(h'.perms, h'.fds, g)
    {
      CountKept(h.perms, h'.perms, h.fds, g);
    }
    UnlinkMeaning(h, z, f, k);
  }

  lemma UnlinkOwners(h: Heap, z: Shape, f: int, k: nat, g: int)
    requires CanUnlink(h, z, f, k) && g in z.acls
    ensures var p, prev := z.acls[f][k], z.acls[f][k - 1];
      && 0 <= p < |h.perms| && 0 <= prev < |h.perms|
      && OwnerOf(Unlinked(h, prev, p), UnlinkedShape(h, z, f, k), g) == OwnerOf(h, z, g)
  {
    hide IsList, FilesOk, IndexOk, CreatorsOk, FdsOk, KeyOf, Omit;
    UnlinkFacts(h, z, f, k);
    UnlinkKeys(h, z, f, k);
    Heads(h, z, g);
  }

  lemma UnlinkMeaning(h: Heap, z: Shape, f: int, k: nat)
    requires CanUnlink(h, z, f, k)
    ensures var p, prev := z.acls[f][k], z.acls[f][k - 1];
      && 0 <= p < |h.perms| && 0 <= prev < |h.perms|
      && Meaning(Unlinked(h, prev, p), UnlinkedShape(h, z, f, k))
           == Meaning(h, z).(perms := Meaning(h, z).perms - {KeyOf(h, p)}, freePerms := |z.freePerms| + 1)
  {
    hide IsList, FilesOk, PermsOk, KeyOf, CreatorsOk, FdsOk, Omit, OwnerOf;
    UnlinkFacts(h, z, f, k);
    UnlinkKeys(h, z, f, k);
    var p, prev := z.acls[f][k], z.acls[f][k - 1];
    var h', z' := Unlinked(h, prev, p), UnlinkedShape(h, z, f, k);
    forall n | n in z.named
      ensures OwnerOf(h', z', z.named[n]) == OwnerOf(h, z, z.named[n])
    {
      UnlinkOwners(h, z, f, k, z.named[n]);
    }
    assert Meaning(h', z').fds == Meaning(h, z).fds;
    assert Meaning(h', z').owners == Meaning(h, z).owners;
    assert Meaning(h', z').perms == Meaning(h, z).perms - {KeyOf(h, p)};
  }

  // --------------------------------------------------------------------- a new file

  /** ALLOC_FILE in front of the open files, and ALLOC_PERM for its creator. */
  function WithFile(h: Heap, name: Name, caller: ModuleId): Heap
    requires 0 <= h.freePerms < |h.perms| && 0 <= h.freeFiles < |h.files|
  {
    var p, f := h.freePerms, h.freeFiles;
    h.(perms := h.perms[p := FilePerm(caller, SFS_CREATOR, f, NULL)],
       files := h.files[f := OpenFile(name, 0, p, h.openFiles)],
       freePerms := h.perms[p].next, freeFiles := h.files[f].next, openFiles := f)
  }

  ghost function WithFileShape(z: Shape, name: Name, caller: ModuleId): Shape
    requires z.freePerms != [] && z.freeFiles != []
  {
    var p, f := z.freePerms[0], z.freeFiles[0];
    Shape(z.freePerms[1..], z.freeFiles[1..], [f] + z.openFiles, z.acls[f := [p]], z.at[Key(name, caller) := p],
      z.named[name := f])
  }

  ghost predicate CanCreate(h: Heap, z: Shape, name: Name) {
    Good(h, z) && name !in z.named && z.freePerms != [] && z.freeFiles != []
  }

  lemma CreateFacts(h: Heap, z: Shape, name: Name)
    requires CanCreate(h, z, name)
    ensures var p, f := z.freePerms[0], z.freeFiles[0];
      && h.freePerms == p && h.freeFiles == f && 0 <= p < |h.perms| && 0 <= f < |h.files|
      && (forall q :: q in z.freePerms <==> q == p || q in z.freePerms[1..]) && p !in z.freePerms[1..]
      && (forall g :: g in z.freeFiles <==> g == f || g in z.freeFiles[1..]) && f !in z.freeFiles[1..]
      && f !in z.openFiles && f !in z.acls && !Live(h, z, p)
      && (forall g :: g in z.openFiles ==> 0 <= g < |h.files|)
      && (forall q :: q in z.freePerms ==> 0 <= q < |h.perms|)
  {
    hide IndexOk, CreatorsOk, FdsOk;
    ListHead(PermLinks(h), h.freePerms, z.freePerms);
    ListHead(FileLinks(h), h.freeFiles, z.freeFiles);
    ListHead(FileLinks(h), h.openFiles, z.openFiles);
    assert z.freeFiles[0] in z.freeFiles;
  }

  lemma CreateFiles(h: Heap, z: Shape, name: Name, caller: ModuleId)
    requires CanCreate(h, z, name)
    ensures 0 <= h.freePerms < |h.perms| && 0 <= h.freeFiles < |h.files|
    ensures FilesOk(WithFile(h, name, caller), WithFileShape(z, name, caller))
  {
    hide IsList, IndexOk, CreatorsOk, FdsOk, PermsOk;
    CreateFacts(h, z, name);
    var f := z.freeFiles[0];
    var h', z' := WithFile(h, name, caller), WithFileShape(z, name, caller);
    var N, N' := FileLinks(h), FileLinks(h');
    assert N' == N[f := h.openFiles];
    assert N[f] == h.files[f].next;
    ListHead(N, h.freeFiles, z.freeFiles);
    ListKept(N, N', N[f], z.freeFiles[1..]);
    ListPushed(N, h.openFiles, z.openFiles, f);
  }

  lemma CreateLists(h: Heap, z: Shape, name: Name, caller: ModuleId)
    requires CanCreate(h, z, name)
    ensures 0 <= h.freePerms < |h.perms| && 0 <= h.freeFiles < |h.files|
    ensures var h', z' := WithFile(h, name, caller), WithFileShape(z, name, caller);
      && IsList(PermLinks(h'), h'.freePerms, z'.freePerms)
      && forall g :: g in z'.acls ==>
           0 <= g < |h'.files| && z'.acls[g] != [] && IsList(PermLinks(h'), h'.files[g].acl, z'.acls[g])
  {
    hide IsList, IndexOk, CreatorsOk, FdsOk, FilesOk;
    CreateFacts(h, z, name);
    var p, f := z.freePerms[0], z.freeFiles[0];
    var h', z' := WithFile(h, name, caller), WithFileShape(z, name, caller);
    var N, N' := PermLinks(h), PermLinks(h');
    assert N' == N[p := NULL];
    assert N[p] == h.perms[p].next;
    ListHead(N, h.freePerms, z.freePerms);
    ListKept(N, N', N[p], z.freePerms[1..]);
    ListAlone(N', p);
    forall g | g in z'.acls
      ensures 0 <= g < |h'.files| && z'.acls[g] != [] && IsList(N', h'.files[g].acl, z'.acls[g])
    {
      if g != f {
        assert forall x :: x in z.acls[g] ==> Live(h, z, x) && x != p;
        ListKept(N, N', h.files[g].acl, z.acls[g]);
      }
    }
  }

  lemma ListAlone(N: seq<int>, p: int)
    requires 0 <= p < |N| && N[p] == NULL
    ensures IsList(N, p, [p])
  {
  }

  lemma CreateKeys(h: Heap, z: Shape, name: Name, caller: ModuleId)
    requires CanCreate(h, z, name)
    ensures 0 <= h.freePerms < |h.perms| && 0 <= h.freeFiles < |h.files|
    ensures var p, f := z.freePerms[0], z.freeFiles[0];
      var h', z' := WithFile(h, name, caller), WithFileShape(z, name, caller);
      && |h'.perms| == |h.perms| && |h'.files| == |h.files| && h'.fds == h.fds
      && (forall q :: Live(h', z', q) <==> Live(h, z, q) || q == p)
      && (forall q :: Live(h, z, q) ==> KeyOf(h', q) == KeyOf(h, q) && h'.perms[q] == h.perms[q] && q != p)
      && KeyOf(h', p) == Key(name, caller) && h'.perms[p] == FilePerm(caller, SFS_CREATOR, f, NULL)
      && (forall g :: 0 <= g < |h.files| && g != f ==> h'.files[g] == h.files[g])
      && h'.files[f] == OpenFile(name, 0, p, h.openFiles)
      && Key(name, caller) !in z.at
  {
    hide IsList, FilesOk, CreatorsOk, FdsOk;
    CreateFacts(h, z, name);
    var h', z' := WithFile(h, name, caller), WithFileShape(z, name, caller);
    forall q | Live(h, z, q)
      ensures KeyOf(h', q) == KeyOf(h, q) && h'.perms[q] == h.perms[q]
    {
      assert h.perms[q].file in z.acls;
    }
  }

  lemma CreatePerms(h: Heap, z: Shape, name: Name, caller: ModuleId)
    requires CanCreate(h, z, name)
    ensures 0 <= h.freePerms < |h.perms| && 0 <= h.freeFiles < |h.files|
    ensures PermsOk(WithFile(h, name, caller), WithFileShape(z, name, caller))
  {
    hide IsList, IndexOk, CreatorsOk, FdsOk, FilesOk, PermLinks, FileLinks, KeyOf;
    CreateFacts(h, z, name);
    CreateLists(h, z, name, caller);
    CreateKeys(h, z, name, caller);
    var p, f := z.freePerms[0], z.freeFiles[0];
    var h', z' := WithFile(h, name, caller), WithFileShape(z, name, caller);
    forall q | Live(h', z', q)
      ensures h'.perms[q].file in z'.acls && q in z'.acls[h'.perms[q].file]
    {
      assert q == p || Live(h, z, q);
    }
    forall g, q | g in z'.acls && q in z'.acls[g]
      ensures Live(h', z', q) && h'.perms[q].file == g
    {
      if g != f {
        assert q in z.acls[g];
      }
    }
  }

  lemma CreateIndex(h: Heap, z: Shape, name: Name, caller: ModuleId)
    requires CanCreate(h, z, name)
    ensures 0 <= h.freePerms < |h.perms| && 0 <= h.freeFiles < |h.files|
    ensures IndexOk(WithFile(h, name, caller), WithFileShape(z, name, caller))
  {
    hide IsList, CreatorsOk, FdsOk, FilesOk, PermsOk, KeyOf, Live;
    CreateFacts(h, z, name);
    CreateKeys(h, z, name, caller);
  }

  lemma FileCreated(h: Heap, z: Shape, name: Name, caller: ModuleId)
    requires CanCreate(h, z, name)
    ensures 0 <= h.freePerms < |h.perms| && 0 <= h.freeFiles < |h.files|
    ensures var h', z' := WithFile(h, name, caller), WithFileShape(z, name, caller);
      && Good(h', z') && Live(h', z', h.freePerms)
      && Meaning(h, z).freePerms > 0 && Meaning(h, z).freeFiles > 0
      && Meaning(h', z') == Created(Meaning(h, z), name, caller)
      && KeyOf(h', h.freePerms) == Key(name, caller)
  {
    hide IsList, FilesOk, PermsOk, IndexOk, KeyOf;
    CreateFacts(h, z, name);
    CreateFiles(h, z, name, caller);
    CreatePerms(h, z, name, caller);
    CreateIndex(h, z, name, caller);
    CreateKeys(h, z, name, caller);
    var p, f := z.freePerms[0], z.freeFiles[0];
    var h', z' := WithFile(h, name, caller), WithFileShape(z, name, caller);
    forall g | g in z'.acls && 0 <= g < |h'.files|
      ensures h'.files[g].openCount == Count(h'.perms, h'.fds, g)
    {
      if g == f {
        NoneOnNewFile(h, z, h', f);
      } else {
        CountKept(h.perms, h'.perms, h.fds, g);
      }
    }
    CreateMeaning(h, z, name, caller);
  }

  lemma NoneOnNewFile(h: Heap, z: Shape, h': Heap, f: int)
    requires FdsOk(h, z) && PermsOk(h, z) && f !in z.acls && h'.fds == h.fds && |h'.perms| == |h.perms|
    requires forall q :: Live(h, z, q) ==> h'.perms[q] == h.perms[q]
    ensures Count(h'.perms, h'.fds, f) == 0
  {
    hide IsList;
    CountZero(h'.perms, h'.fds, f);
  }

  lemma CreateOwners(h: Heap, z: Shape, name: Name, caller: ModuleId, g: int)
    requires CanCreate(h, z, name) && g in z.acls
    ensures 0 <= h.freePerms < |h.perms| && 0 <= h.freeFiles < |h.files|
    ensures OwnerOf(WithFile(h, name, caller), WithFileShape(z, name, caller), g) == OwnerOf(h, z, g)
  {
    hide IsList, FilesOk, IndexOk, CreatorsOk, FdsOk, KeyOf;
    CreateFacts(h, z, name);
    CreateKeys(h, z, name, caller);
    Heads(h, z, g);
  }

  lemma CreateFds(h: Heap, z: Shape, name: Name, caller: ModuleId)
    requires CanCreate(h, z, name)
    ensures 0 <= h.freePerms < |h.perms| && 0 <= h.freeFiles < |h.files|
    ensures Meaning(WithFile(h, name, caller), WithFileShape(z, name, caller)).fds == Meaning(h, z).fds
  {
    hide IsList, FilesOk, PermsOk, KeyOf, CreatorsOk, OwnerOf, IndexOk;
    CreateFacts(h, z, name);
    CreateKeys(h, z, name, caller);
  }

  lemma CreateOwnerMap(h: Heap, z: Shape, name: Name, caller: ModuleId)
    requires CanCreate(h, z, name)
    ensures 0 <= h.freePerms < |h.perms| && 0 <= h.freeFiles < |h.files|
    ensures Meaning(WithFile(h, name, caller), WithFileShape(z, name, caller)).owners
      == Meaning(h, z).owners[name := caller]
  {
    hide IsList, FilesOk, PermsOk, KeyOf, CreatorsOk, OwnerOf, FdsOk, Live;
    CreateFacts(h, z, name);
    CreateKeys(h, z, name, caller);
    var h', z' := WithFile(h, name, caller), WithFileShape(z, name, caller);
    forall n | n in z.named
      ensures OwnerOf(h', z', z.named[n]) == OwnerOf(h, z, z.named[n])
    {
      CreateOwners(h, z, name, caller, z.named[n]);
    }
    NewOwner(h', z', z.freeFiles[0], z.freePerms[0]);
  }

  lemma CreatePermMap(h: Heap, z: Shape, name: Name, caller: ModuleId)
    requires CanCreate(h, z, name)
    ensures 0 <= h.freePerms < |h.perms| && 0 <= h.freeFiles < |h.files|
    ensures Meaning(WithFile(h, name, caller), WithFileShape(z, name, caller)).perms
      == Meaning(h, z).perms[Key(name, caller) := SFS_CREATOR]
  {
    hide IsList, FilesOk, PermsOk, KeyOf, CreatorsOk, OwnerOf, FdsOk;
    CreateFacts(h, z, name);
    CreateKeys(h, z, name, caller);
  }

  lemma CreateMeaning(h: Heap, z: Shape, name: Name, caller: ModuleId)
    requires CanCreate(h, z, name)
    ensures 0 <= h.freePerms < |h.perms| && 0 <= h.freeFiles < |h.files|
    ensures Meaning(WithFile(h, name, caller), WithFileShape(z, name, caller)) == Created(Meaning(h, z), name, caller)
  {
    hide Good, OwnerOf, FdKey, WithFile;
    CreateFds(h, z, name, caller);
    CreateOwnerMap(h, z, name, caller);
    CreatePermMap(h, z, name, caller);
  }

  lemma NewOwner(h: Heap, z: Shape, f: int, p: int)
    requires f in z.acls && z.acls[f] == [p] && 0 <= p < |h.perms|
    ensures OwnerOf(h, z, f) == h.perms[p].sm
  {
  }
}
