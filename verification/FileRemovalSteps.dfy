/** Removing a file from the front end: its whole access list goes back to the pool. */
module FileRemovalSteps {
  import opened AccessControl
  import opened PermissionPools
  import opened PermissionSteps

  /** FREE_PERM */
  function Freed(h: Heap, p: int): Heap
    requires 0 <= p < |h.perms|
  {
    h.(perms := h.perms[p := h.perms[p].(next := h.freePerms)], freePerms := p)
  }

  ghost predicate InPool(h: Heap, L: seq<int>) {
    forall i :: 0 <= i < |L| ==> 0 <= L[i] < |h.perms|
  }

  function FreedAll(h: Heap, L: seq<int>): (r: Heap)
    requires forall i :: 0 <= i < |L| ==> 0 <= L[i] < |h.perms|
    ensures |r.perms| == |h.perms| && r.files == h.files && r.fds == h.fds
    ensures r.freeFiles == h.freeFiles && r.openFiles == h.openFiles
  {
    if L == [] then h else Freed(FreedAll(h, L[..|L| - 1]), L[|L| - 1])
  }

  function Reversed(L: seq<int>): (r: seq<int>)
    ensures |r| == |L|
  {
    if L == [] then [] else [L[|L| - 1]] + Reversed(L[..|L| - 1])
  }

  ghost predicate SameMembers(A: seq<int>, B: seq<int>) {
    forall x :: x in A <==> x in B
  }

  lemma {:induction false} ReversedMembers(L: seq<int>)
    ensures SameMembers(Reversed(L), L)
  {
    if L != [] {
      ReversedMembers(L[..|L| - 1]);
      assert L == L[..|L| - 1] + [L[|L| - 1]];
    }
  }

  /** Freeing changes only the links of what is freed. */
  lemma {:induction false} FreedKeeps(h: Heap, L: seq<int>, q: int)
    requires InPool(h, L) && 0 <= q < |h.perms|
    ensures var r := FreedAll(h, L);
      && r.perms[q] == h.perms[q].(next := r.perms[q].next)
      && (q !in L ==> r.perms[q] == h.perms[q])
  {
    if L != [] {
      FreedKeeps(h, L[..|L| - 1], q);
    }
  }

  lemma {:induction false} FreedList(h: Heap, L: seq<int>, free: seq<int>)
    requires InPool(h, L) && NoDuplicates(L) && IsList(PermLinks(h), h.freePerms, free)
    requires forall x :: x in L ==> x !in free
    ensures var r := FreedAll(h, L); IsList(PermLinks(r), r.freePerms, Reversed(L) + free)
  {
    hide IsList;
    if L == [] {
      assert Reversed(L) + free == free;
    } else {
      var M, p := L[..|L| - 1], L[|L| - 1];
      assert L == M + [p];
      FreedList(h, M, free);
      ReversedMembers(M);
      FreedOne(h, L, free);
    }
  }

  lemma FreedOne(h: Heap, L: seq<int>, free: seq<int>)
    requires InPool(h, L) && L != [] && L[|L| - 1] !in L[..|L| - 1] && L[|L| - 1] !in free
    requires SameMembers(Reversed(L[..|L| - 1]), L[..|L| - 1])
    requires var r := FreedAll(h, L[..|L| - 1]); IsList(PermLinks(r), r.freePerms, Reversed(L[..|L| - 1]) + free)
    ensures var r := FreedAll(h, L); IsList(PermLinks(r), r.freePerms, Reversed(L) + free)
  {
    hide IsList;
    var M, p := L[..|L| - 1], L[|L| - 1];
    var r := FreedAll(h, M);
    ListPushed(PermLinks(r), r.freePerms, Reversed(M) + free, p);
    assert PermLinks(FreedAll(h, L)) == PermLinks(r)[p := r.freePerms];
    assert Reversed(L) + free == [p] + (Reversed(M) + free);
  }

  // ---------------------------------------------------------------------- the files

  /** The open list without the file at position `k`, and FREE_FILE. `prev` is the file
      before it, or the file itself when it is the first. */
  function FileClosed(h: Heap, prev: int, f: int): Heap
    requires 0 <= prev < |h.files| && 0 <= f < |h.files|
  {
    var F := h.files[prev := h.files[prev].(next := h.files[f].next)];
    h.(files := F[f := F[f].(next := h.freeFiles)], freeFiles := f,
       openFiles := if h.openFiles == f then F[f].next else h.openFiles)
  }

  function Previous(L: seq<int>, k: nat): int
    requires k < |L|
  {
    if k == 0 then L[0] else L[k - 1]
  }

  lemma ClosedLists(h: Heap, z: Shape, k: nat)
    requires FilesOk(h, z) && k < |z.openFiles|
    ensures var f, prev := z.openFiles[k], Previous(z.openFiles, k);
      && 0 <= f < |h.files| && 0 <= prev < |h.files|
      && var h' := FileClosed(h, prev, f);
         && IsList(FileLinks(h'), h'.freeFiles, [f] + z.freeFiles)
         && IsList(FileLinks(h'), h'.openFiles, Omit(z.openFiles, k))
  {
    hide IsList, NoDuplicates, FileClosed, Omit;
    ClosedRange(h, z, k);
    ClosedFree(h, z, k);
    if k == 0 {
      ClosedFirst(h, z);
    } else {
      ClosedLater(h, z, k);
    }
  }

  lemma ClosedRange(h: Heap, z: Shape, k: nat)
    requires FilesOk(h, z) && k < |z.openFiles|
    ensures var OF, f, prev := z.openFiles, z.openFiles[k], Previous(z.openFiles, k);
      && 0 <= f < |h.files| && 0 <= prev < |h.files| && NoDuplicates(OF) && f !in z.freeFiles && prev !in z.freeFiles
      && (forall x :: x in OF ==> 0 <= x < |h.files| && x !in z.freeFiles)
      && (forall x :: x in z.freeFiles ==> 0 <= x < |h.files|)
  {
    hide IsList, NoDuplicates;
    ListHead(FileLinks(h), h.openFiles, z.openFiles);
    ListHead(FileLinks(h), h.freeFiles, z.freeFiles);
    ListDistinct(FileLinks(h), h.openFiles, z.openFiles);
    assert z.openFiles[k] in z.openFiles && Previous(z.openFiles, k) in z.openFiles;
  }

  lemma ClosedFree(h: Heap, z: Shape, k: nat)
    requires FilesOk(h, z) && k < |z.openFiles|
    ensures var f, prev := z.openFiles[k], Previous(z.openFiles, k);
      && 0 <= f < |h.files| && 0 <= prev < |h.files|
      && IsList(FileLinks(FileClosed(h, prev, f)), FileClosed(h, prev, f).freeFiles, [f] + z.freeFiles)
  {
    hide IsList, NoDuplicates, FileLinks, FileClosed;
    ClosedRange(h, z, k);
    var f, prev := z.openFiles[k], Previous(z.openFiles, k);
    var N := FileLinks(h);
    LinksClosed(h, prev, f);
    ListKept(N, N[prev := N[f]], h.freeFiles, z.freeFiles);
    ListPushed(N[prev := N[f]], h.freeFiles, z.freeFiles, f);
  }

  lemma ClosedFirst(h: Heap, z: Shape)
    requires FilesOk(h, z) && 0 < |z.openFiles|
    ensures var f := z.openFiles[0];
      0 <= f < |h.files| && IsList(FileLinks(FileClosed(h, f, f)), FileClosed(h, f, f).openFiles, Omit(z.openFiles, 0))
  {
    hide IsList, NoDuplicates, FileLinks, FileClosed;
    ClosedRange(h, z, 0);
    var f := z.openFiles[0];
    var N := FileLinks(h);
    LinksClosed(h, f, f);
    ListHead(N, h.openFiles, z.openFiles);
    assert Omit(z.openFiles, 0) == z.openFiles[1..];
    ListKept(N, FileLinks(FileClosed(h, f, f)), N[f], z.openFiles[1..]);
  }

  lemma ClosedLater(h: Heap, z: Shape, k: nat)
    requires FilesOk(h, z) && 0 < k < |z.openFiles|
    ensures var f, prev := z.openFiles[k], z.openFiles[k - 1];
      && 0 <= f < |h.files| && 0 <= prev < |h.files|
      && IsList(FileLinks(FileClosed(h, prev, f)), FileClosed(h, prev, f).openFiles, Omit(z.openFiles, k))
  {
    hide IsList, NoDuplicates, FileLinks, FileClosed, Omit;
    ClosedRange(h, z, k);
    var f, prev := z.openFiles[k], z.openFiles[k - 1];
    var N := FileLinks(h);
    LinksClosed(h, prev, f);
    OmitMembers(z.openFiles, k);
    ListOmitted(N, h.openFiles, z.openFiles, k);
    ListKept(N[prev := N[f]], FileLinks(FileClosed(h, prev, f)), h.openFiles, Omit(z.openFiles, k));
    NotHead(N, h.openFiles, z.openFiles, k);
  }

  lemma LinksClosed(h: Heap, prev: int, f: int)
    requires 0 <= prev < |h.files| && 0 <= f < |h.files|
    ensures FileLinks(FileClosed(h, prev, f)) == FileLinks(h)[prev := FileLinks(h)[f]][f := h.freeFiles]
    ensures FileLinks(h)[f] == h.files[f].next
    ensures FileClosed(h, prev, f).freeFiles == f
    ensures prev == f ==> FileClosed(h, prev, f).openFiles == if h.openFiles == f then h.files[f].next else h.openFiles
    ensures h.openFiles != f ==> FileClosed(h, prev, f).openFiles == h.openFiles
  {
  }

  lemma ListDistinct(N: seq<int>, head: int, L: seq<int>)
    requires IsList(N, head, L)
    ensures NoDuplicates(L)
  {
  }

  lemma NotHead(N: seq<int>, head: int, L: seq<int>, k: nat)
    requires IsList(N, head, L) && 0 < k < |L|
    ensures head != L[k]
  {
  }

  // ----------------------------------------------------------------------- the whole

  ghost predicate CanRemove(h: Heap, z: Shape, k: nat) {
    && Good(h, z) && k < |z.openFiles| && z.openFiles[k] in z.acls && 0 <= z.openFiles[k] < |h.files|
    && h.files[z.openFiles[k]].openCount == 0 && InPool(h, z.acls[z.openFiles[k]])
    && 0 <= Previous(z.openFiles, k) < |h.files|
  }

  lemma AclInPool(h: Heap, z: Shape, f: int)
    requires PermsOk(h, z) && f in z.acls
    ensures InPool(h, z.acls[f])
  {
    hide IsList;
    forall i | 0 <= i < |z.acls[f]|
      ensures 0 <= z.acls[f][i] < |h.perms|
    {
      assert z.acls[f][i] in z.acls[f];
      assert Live(h, z, z.acls[f][i]);
    }
  }

  ghost function WithoutFile(h: Heap, z: Shape, k: nat): Heap
    requires CanRemove(h, z, k)
  {
    FileClosed(FreedAll(h, z.acls[z.openFiles[k]]), Previous(z.openFiles, k), z.openFiles[k])
  }

  ghost function WithoutFileShape(h: Heap, z: Shape, k: nat): Shape
    requires CanRemove(h, z, k)
  {
    var f := z.openFiles[k];
    var name := h.files[f].name;
    Shape(Reversed(z.acls[f]) + z.freePerms, [f] + z.freeFiles, Omit(z.openFiles, k), z.acls - {f},
          map x | x in z.at && x.name != name :: z.at[x], z.named - {name})
  }

  lemma RemoveKeys(h: Heap, z: Shape, k: nat)
    requires CanRemove(h, z, k)
    ensures var f := z.openFiles[k]; var L := z.acls[f]; var h', z' := WithoutFile(h, z, k), WithoutFileShape(h, z, k);
      && |h'.perms| == |h.perms| && |h'.files| == |h.files| && h'.fds == h.fds
      && (forall q :: 0 <= q < |h.perms| ==>
            h'.perms[q].sm == h.perms[q].sm && h'.perms[q].flags == h.perms[q].flags
              && h'.perms[q].file == h.perms[q].file)
      && (forall q :: KeyOf(h', q) == KeyOf(h, q))
      && (forall q :: Live(h', z', q) <==> Live(h, z, q) && h.perms[q].file != f)
      && (forall g :: 0 <= g < |h.files| ==> h'.files[g] == h.files[g].(next := h'.files[g].next))
  {
    hide IsList, IndexOk, CreatorsOk, FdsOk, FilesOk, FreedAll;
    var f := z.openFiles[k];
    var L := z.acls[f];
    ReversedMembers(L);
    forall q | 0 <= q < |h.perms|
      ensures var r := FreedAll(h, L).perms[q];
        r.sm == h.perms[q].sm && r.flags == h.perms[q].flags && r.file == h.perms[q].file
    {
      FreedKeeps(h, L, q);
    }
    assert forall q :: Live(h, z, q) ==> (q in L <==> h.perms[q].file == f);
  }

  lemma RemoveFiles(h: Heap, z: Shape, k: nat)
    requires CanRemove(h, z, k)
    ensures FilesOk(WithoutFile(h, z, k), WithoutFileShape(h, z, k))
    ensures var f := z.openFiles[k]; forall g :: g in Omit(z.openFiles, k) <==> g in z.openFiles && g != f
  {
    hide IsList, NoDuplicates, IndexOk, CreatorsOk, FdsOk, PermsOk, FreedAll;
    var f := z.openFiles[k];
    var r := FreedAll(h, z.acls[f]);
    assert FileLinks(r) == FileLinks(h);
    ClosedLists(r, z, k);
    ListDistinct(FileLinks(h), h.openFiles, z.openFiles);
    OmitMembers(z.openFiles, k);
  }

  lemma RemoveLists(h: Heap, z: Shape, k: nat)
    requires CanRemove(h, z, k)
    ensures var h', z' := WithoutFile(h, z, k), WithoutFileShape(h, z, k);
      && IsList(PermLinks(h'), h'.freePerms, z'.freePerms)
      && forall g :: g in z'.acls ==>
           0 <= g < |h'.files| && z'.acls[g] != [] && IsList(PermLinks(h'), h'.files[g].acl, z'.acls[g])
  {
    hide IsList, NoDuplicates, IndexOk, CreatorsOk, FdsOk, FilesOk, FreedAll;
    var f := z.openFiles[k];
    var L := z.acls[f];
    var r := FreedAll(h, L);
    var h', z' := WithoutFile(h, z, k), WithoutFileShape(h, z, k);
    assert PermLinks(h') == PermLinks(r);
    ListDistinct(PermLinks(h), h.files[f].acl, L);
    assert forall x :: x in L ==> Live(h, z, x);
    FreedList(h, L, z.freePerms);
    RemoveKeys(h, z, k);
    forall g | g in z'.acls
      ensures 0 <= g < |h'.files| && z'.acls[g] != [] && IsList(PermLinks(h'), h'.files[g].acl, z'.acls[g])
    {
      forall x | x in z.acls[g]
        ensures 0 <= x < |h.perms| && r.perms[x] == h.perms[x]
      {
        assert Live(h, z, x) && h.perms[x].file == g;
        assert x !in L;
        FreedKeeps(h, L, x);
      }
      ListKept(PermLinks(h), PermLinks(r), h.files[g].acl, z.acls[g]);
    }
  }

  lemma RemovePerms(h: Heap, z: Shape, k: nat)
    requires CanRemove(h, z, k)
    ensures PermsOk(WithoutFile(h, z, k), WithoutFileShape(h, z, k))
  {
    hide IsList, NoDuplicates, IndexOk, CreatorsOk, FdsOk, PermLinks, FileLinks, KeyOf, Omit, WithoutFile, Reversed;
    RemoveKeys(h, z, k);
    RemoveLists(h, z, k);
    RemoveFiles(h, z, k);
    var f := z.openFiles[k];
    var h', z' := WithoutFile(h, z, k), WithoutFileShape(h, z, k);
    forall q | Live(h', z', q)
      ensures h'.perms[q].file in z'.acls && q in z'.acls[h'.perms[q].file]
    {
      assert Live(h, z, q);
    }
    forall g, q | g in z'.acls && q in z'.acls[g]
      ensures Live(h', z', q) && h'.perms[q].file == g
    {
      assert q in z.acls[g];
    }
  }

  lemma RemoveIndex(h: Heap, z: Shape, k: nat)
    requires CanRemove(h, z, k)
    ensures IndexOk(WithoutFile(h, z, k), WithoutFileShape(h, z, k))
  {
    hide IsList, NoDuplicates, CreatorsOk, FdsOk, FilesOk, PermLinks, FileLinks, Live, WithoutFile, Reversed, Omit;
    RemoveKeys(h, z, k);
    var f := z.openFiles[k];
    forall q | Live(h, z, q)
      ensures 0 <= q < |h.perms| && h.perms[q].file in z.acls && 0 <= h.perms[q].file < |h.files|
      ensures KeyOf(h, q).name == h.files[f].name <==> h.perms[q].file == f
    {
      LiveFile(h, z, q);
    }
  }

  lemma LiveFile(h: Heap, z: Shape, q: int)
    requires PermsOk(h, z) && Live(h, z, q)
    ensures 0 <= q < |h.perms| && h.perms[q].file in z.acls && 0 <= h.perms[q].file < |h.files|
    ensures KeyOf(h, q).name == h.files[h.perms[q].file].name
  {
    hide IsList;
  }

  lemma RemoveFds(h: Heap, z: Shape, k: nat)
    requires CanRemove(h, z, k)
    ensures FdsOk(WithoutFile(h, z, k), WithoutFileShape(h, z, k))
    ensures forall i :: 0 <= i < |h.fds| && h.fds[i] != NULL ==>
      Live(h, z, h.fds[i]) && h.perms[h.fds[i]].file != z.openFiles[k]
  {
    hide IsList, NoDuplicates, CreatorsOk, FilesOk, PermLinks, FileLinks, WithoutFile, Reversed, Omit, KeyOf, IndexOk;
    RemoveKeys(h, z, k);
    var f := z.openFiles[k];
    var h', z' := WithoutFile(h, z, k), WithoutFileShape(h, z, k);
    CountZero(h.perms, h.fds, f);
    forall g | g in z'.acls && 0 <= g < |h'.files|
      ensures h'.files[g].openCount == Count(h'.perms, h'.fds, g)
    {
      CountKept(h.perms, h'.perms, h.fds, g);
    }
  }

  lemma RemoveCreators(h: Heap, z: Shape, k: nat)
    requires CanRemove(h, z, k)
    ensures CreatorsOk(WithoutFile(h, z, k), WithoutFileShape(h, z, k))
    ensures forall g :: g in z.acls && g != z.openFiles[k] ==>
      OwnerOf(WithoutFile(h, z, k), WithoutFileShape(h, z, k), g) == OwnerOf(h, z, g)
  {
    hide IsList, NoDuplicates, FdsOk, FilesOk, PermLinks, FileLinks, WithoutFile, Reversed, Omit, KeyOf, IndexOk;
    RemoveKeys(h, z, k);
    forall g | g in z.acls
      ensures z.acls[g] != [] && 0 <= z.acls[g][0] < |h.perms|
    {
      Heads(h, z, g);
    }
  }

  // ------------------------------------------------------------------------ counting

  /** The keys of a list of entries. */
  ghost function KeysOf(h: Heap, L: seq<int>): set<Key> {
    set i | 0 <= i < |L| :: KeyOf(h, L[i])
  }

  lemma {:induction false} KeysSize(h: Heap, z: Shape, L: seq<int>)
    requires IndexOk(h, z) && NoDuplicates(L) && forall i :: 0 <= i < |L| ==> Live(h, z, L[i])
    ensures |KeysOf(h, L)| == |L|
  {
    hide KeyOf, Live;
    if L != [] {
      var M := L[..|L| - 1];
      var k := KeyOf(h, L[|L| - 1]);
      KeysSize(h, z, M);
      forall i | 0 <= i < |M|
        ensures KeyOf(h, M[i]) != k
      {
        assert z.at[KeyOf(h, L[i])] == L[i];
        assert z.at[k] == L[|L| - 1];
      }
      assert KeysOf(h, L) == KeysOf(h, M) + {k};
    }
  }

  /** As many entries go as the list of the file has. */
  lemma RemovedCount(h: Heap, z: Shape, k: nat)
    requires CanRemove(h, z, k)
    ensures var f := z.openFiles[k]; var perms := Meaning(h, z).perms;
      |perms| - |Without(perms, h.files[f].name)| == |z.acls[f]|
  {
    hide IsList, CreatorsOk, FdsOk, FilesOk, OwnerOf, PermsOk, IndexOk, KeyOf, Live, NoDuplicates, FdKey;
    var f := z.openFiles[k];
    var name := h.files[f].name;
    var L := z.acls[f];
    var perms := Meaning(h, z).perms;
    var rest := Without(perms, name);
    AclFacts(h, z, f);
    KeysSize(h, z, L);
    forall x | x in z.at
      ensures x in KeysOf(h, L) <==> x.name == name
    {
      KeyInAcl(h, z, f, x);
    }
    KeysIndexed(h, z, L);
    SplitKeys(perms, name, KeysOf(h, L));
  }

  lemma KeysIndexed(h: Heap, z: Shape, L: seq<int>)
    requires forall i :: 0 <= i < |L| ==> KeyOf(h, L[i]) in z.at
    ensures KeysOf(h, L) <= z.at.Keys
  {
    hide KeyOf;
  }

  lemma SplitKeys(perms: map<Key, Flags>, name: Name, K: set<Key>)
    requires K <= perms.Keys && forall x :: x in perms ==> (x in K <==> x.name == name)
    ensures |perms| - |Without(perms, name)| == |K|
  {
    var rest := Without(perms, name);
    assert perms.Keys == rest.Keys + K;
    assert rest.Keys !! K;
  }

  lemma AclFacts(h: Heap, z: Shape, f: int)
    requires Good(h, z) && f in z.acls
    ensures NoDuplicates(z.acls[f]) && 0 <= f < |h.files|
    ensures forall i :: 0 <= i < |z.acls[f]| ==>
      Live(h, z, z.acls[f][i]) && KeyOf(h, z.acls[f][i]) in z.at && KeyOf(h, z.acls[f][i]).name == h.files[f].name
  {
    hide NoDuplicates, IsList, KeyOf, FilesOk, FdsOk, CreatorsOk;
    ListDistinct(PermLinks(h), h.files[f].acl, z.acls[f]);
    forall i | 0 <= i < |z.acls[f]|
      ensures Live(h, z, z.acls[f][i]) && KeyOf(h, z.acls[f][i]).name == h.files[f].name
    {
      assert z.acls[f][i] in z.acls[f];
      LiveFile(h, z, z.acls[f][i]);
    }
  }

  lemma KeyInAcl(h: Heap, z: Shape, f: int, x: Key)
    requires Good(h, z) && f in z.acls && x in z.at && 0 <= f < |h.files|
    ensures x in KeysOf(h, z.acls[f]) <==> x.name == h.files[f].name
  {
    hide IsList, CreatorsOk, FdsOk, FilesOk;
    var p := z.at[x];
    LiveFile(h, z, p);
    AclFacts(h, z, f);
    if x.name == h.files[f].name {
      assert h.perms[p].file == f;
      assert p in z.acls[f];
      var i :| 0 <= i < |z.acls[f]| && z.acls[f][i] == p;
      assert KeyOf(h, z.acls[f][i]) == x;
    }
  }

  // ------------------------------------------------------------------------- the end

  lemma RemoveFdsMeaning(h: Heap, z: Shape, k: nat)
    requires CanRemove(h, z, k)
    ensures Meaning(WithoutFile(h, z, k), WithoutFileShape(h, z, k)).fds == Meaning(h, z).fds
    ensures !IsOpen(Meaning(h, z), h.files[z.openFiles[k]].name)
  {
    hide IsList, NoDuplicates, FilesOk, PermLinks, FileLinks, WithoutFile, Omit, KeyOf, CreatorsOk, OwnerOf, PermsOk;
    hide WithoutFileShape;
    RemoveKeys(h, z, k);
    RemoveFds(h, z, k);
    var f := z.openFiles[k];
    forall i | 0 <= i < |h.fds| && h.fds[i] != NULL
      ensures KeyOf(h, h.fds[i]).name != h.files[f].name
    {
      LiveFile(h, z, h.fds[i]);
      OtherName(h, z, f, h.perms[h.fds[i]].file);
    }
  }

  lemma OtherName(h: Heap, z: Shape, f: int, g: int)
    requires IndexOk(h, z) && f in z.acls && g in z.acls && 0 <= f < |h.files| && 0 <= g < |h.files| && f != g
    ensures h.files[f].name != h.files[g].name
  {
    hide KeyOf, Live;
  }

  lemma RemoveMaps(h: Heap, z: Shape, k: nat)
    requires CanRemove(h, z, k)
    ensures var name := h.files[z.openFiles[k]].name;
      var s, s' := Meaning(h, z), Meaning(WithoutFile(h, z, k), WithoutFileShape(h, z, k));
      s'.perms == Without(s.perms, name) && s'.owners == s.owners - {name} && name in s.owners
  {
    hide IsList, NoDuplicates, FilesOk, PermLinks, FileLinks, WithoutFile, Omit, KeyOf, CreatorsOk, OwnerOf, PermsOk;
    hide FdsOk, Reversed;
    RemoveKeys(h, z, k);
    RemoveCreators(h, z, k);
    var name := h.files[z.openFiles[k]].name;
    var s, s' := Meaning(h, z), Meaning(WithoutFile(h, z, k), WithoutFileShape(h, z, k));
    assert s'.perms == Without(s.perms, name);
    assert s'.owners == s.owners - {name};
  }

  lemma RemoveMeaning(h: Heap, z: Shape, k: nat)
    requires CanRemove(h, z, k)
    ensures var f := z.openFiles[k]; var name := h.files[f].name;
      var s, s' := Meaning(h, z), Meaning(WithoutFile(h, z, k), WithoutFileShape(h, z, k));
      && s'.perms == Without(s.perms, name) && s'.owners == s.owners - {name} && s'.fds == s.fds
      && s'.freePerms == s.freePerms + |z.acls[f]| && s'.freeFiles == s.freeFiles + 1
      && name in s.owners && !IsOpen(s, name)
  {
    hide Good, WithoutFile, IsOpen, OwnerOf, FdKey, Without;
    RemoveFdsMeaning(h, z, k);
    RemoveMaps(h, z, k);
  }

  lemma FileRemoved(h: Heap, z: Shape, k: nat)
    requires CanRemove(h, z, k) && Inv(Meaning(h, z))
    ensures var f := z.openFiles[k]; var name := h.files[f].name;
      var h', z' := WithoutFile(h, z, k), WithoutFileShape(h, z, k);
      && Good(h', z')
      && name in Meaning(h, z).owners && !IsOpen(Meaning(h, z), name)
      && forall caller, rv :: Holds(Meaning(h, z), caller, name, SFS_ROOT) ==>
           Meaning(h', z') == Remove(Meaning(h, z), caller, name, rv).acl
  {
    hide IsList, FilesOk, PermsOk, IndexOk, CreatorsOk, FdsOk, WithoutFile, WithoutFileShape, Meaning, IsOpen, Holds;
    hide Without;
    RemoveFiles(h, z, k);
    RemovePerms(h, z, k);
    RemoveIndex(h, z, k);
    RemoveFds(h, z, k);
    RemoveCreators(h, z, k);
    RemoveMeaning(h, z, k);
    RemovedCount(h, z, k);
    RemoveSizes(h, z, k);
  }

  lemma RemoveSizes(h: Heap, z: Shape, k: nat)
    requires CanRemove(h, z, k) && Inv(Meaning(h, z))
    ensures Sizes(WithoutFile(h, z, k), WithoutFileShape(h, z, k))
  {
    hide IsList, FilesOk, PermsOk, IndexOk, CreatorsOk, FdsOk;
    RemovedCount(h, z, k);
    RemoveKeys(h, z, k);
    OpenIsOwned(h, z, k);
  }

  lemma OpenIsOwned(h: Heap, z: Shape, k: nat)
    requires CanRemove(h, z, k)
    ensures h.files[z.openFiles[k]].name in Meaning(h, z).owners
  {
  }
}
