/** The front end's structures: two pools of records, linked by indices into the pools,
    and what they stand for. */
module PermissionPools {
  import opened AccessControl

  const NULL: int := -1

  /** struct FILE_PERM; `file` and `next` are indices into the pools. */
  datatype FilePerm = FilePerm(sm: ModuleId, flags: Flags, file: int, next: int)

  /** struct OPEN_FILE */
  datatype OpenFile = OpenFile(name: Name, openCount: int, acl: int, next: int)

  /** All protected data: the pools, the descriptor cache and the heads of the lists. */
  datatype Heap = Heap(perms: seq<FilePerm>, files: seq<OpenFile>, fds: seq<int>, freePerms: int,
    freeFiles: int, openFiles: int)

  /** The lists that the links make up, and where to find a file and an entry. */
  datatype Shape = Shape(
    freePerms: seq<int>,
    freeFiles: seq<int>,
    openFiles: seq<int>,
    acls: map<int, seq<int>>,
    at: map<Key, int>,
    named: map<Name, int>)

  // ------------------------------------------------------------------------- lists

  predicate NoDuplicates(L: seq<int>) {
    forall i, j :: 0 <= i < j < |L| ==> L[i] != L[j]
  }

  /** What follows position `i` of `L`. */
  function Successor(L: seq<int>, i: nat): int {
    if i + 1 < |L| then L[i + 1] else NULL
  }

  /** Following the links `N` from `head` gives `L`. */
  ghost predicate IsList(N: seq<int>, head: int, L: seq<int>) {
    && NoDuplicates(L)
    && head == (if L == [] then NULL else L[0])
    && forall i :: 0 <= i < |L| ==> 0 <= L[i] < |N| && N[L[i]] == Successor(L, i)
  }

  lemma ListHead(N: seq<int>, head: int, L: seq<int>)
    requires IsList(N, head, L)
    ensures head == NULL <==> L == []
    ensures head != NULL ==> 0 <= head < |N| && L[0] == head && IsList(N, N[head], L[1..]) && head !in L[1..]
    ensures forall x :: x in L <==> (L != [] && x == L[0]) || (L != [] && x in L[1..])
    ensures forall x :: x in L ==> 0 <= x < |N|
  {
    if L != [] {
      var M := L[1..];
      assert L == [L[0]] + M;
      forall i | 0 <= i < |M|
        ensures 0 <= M[i] < |N| && N[M[i]] == Successor(M, i)
      {
        assert N[L[i + 1]] == Successor(L, i + 1) == Successor(M, i);
      }
      assert N[L[0]] == Successor(L, 0);
    }
  }

  /** A list does not care about other links. */
  lemma ListKept(N: seq<int>, N': seq<int>, head: int, L: seq<int>)
    requires IsList(N, head, L) && |N'| == |N|
    requires forall x :: x in L ==> 0 <= x < |N| && N'[x] == N[x]
    ensures IsList(N', head, L)
  {
    forall i | 0 <= i < |L|
      ensures N'[L[i]] == N[L[i]]
    {
      assert L[i] in L;
    }
  }

  lemma ListPushed(N: seq<int>, head: int, L: seq<int>, x: int)
    requires IsList(N, head, L) && 0 <= x < |N| && x !in L
    ensures IsList(N[x := head], x, [x] + L)
  {
    forall i | 0 <= i < |L|
      ensures L[i] != x
    {
      assert L[i] in L;
    }
  }

  lemma ListAppended(N: seq<int>, head: int, L: seq<int>, x: int)
    requires IsList(N, head, L) && L != [] && 0 <= x < |N| && x !in L
    ensures 0 <= L[|L| - 1] < |N| && IsList(N[x := NULL][L[|L| - 1] := x], head, L + [x])
  {
    forall i | 0 <= i < |L|
      ensures L[i] != x
    {
      assert L[i] in L;
    }
  }

  function Omit(L: seq<int>, k: nat): seq<int>
    requires k < |L|
  {
    L[..k] + L[k + 1..]
  }

  lemma OmitAt(L: seq<int>, k: nat, i: nat)
    requires k < |L| && i < |L| - 1
    ensures Omit(L, k)[i] == if i < k then L[i] else L[i + 1]
  {
  }

  lemma OmitMembers(L: seq<int>, k: nat)
    requires NoDuplicates(L) && k < |L|
    ensures NoDuplicates(Omit(L, k)) && L[k] !in Omit(L, k)
    ensures forall x :: x in L <==> x in Omit(L, k) || x == L[k]
  {
    var M := Omit(L, k);
    forall i | 0 <= i < |M|
      ensures M[i] == if i < k then L[i] else L[i + 1]
    {
      OmitAt(L, k, i);
    }
    forall x | x in L && x != L[k]
      ensures x in M
    {
      var j :| 0 <= j < |L| && L[j] == x;
      assert M[if j < k then j else j - 1] == x;
    }
  }

  /** Unlinking an element that is not the first. */
  lemma ListOmitted(N: seq<int>, head: int, L: seq<int>, k: nat)
    requires IsList(N, head, L) && 0 < k < |L|
    ensures 0 <= L[k - 1] < |N| && 0 <= L[k] < |N| && IsList(N[L[k - 1] := N[L[k]]], head, Omit(L, k))
  {
    hide NoDuplicates;
    var M := Omit(L, k);
    var N' := N[L[k - 1] := N[L[k]]];
    OmitMembers(L, k);
    forall i | 0 <= i < |M|
      ensures 0 <= M[i] < |N| && N'[M[i]] == Successor(M, i)
    {
      OmitLink(N, head, L, k, i);
    }
    OmitAt(L, k, 0);
  }

  lemma OmitLink(N: seq<int>, head: int, L: seq<int>, k: nat, i: nat)
    requires IsList(N, head, L) && 0 < k < |L| && i < |L| - 1
    ensures 0 <= L[k - 1] < |N| && 0 <= L[k] < |N| && 0 <= Omit(L, k)[i] < |N|
    ensures N[L[k - 1] := N[L[k]]][Omit(L, k)[i]] == Successor(Omit(L, k), i)
  {
    var j := if i < k then i else i + 1;
    OmitAt(L, k, i);
    if i + 1 < |L| - 1 {
      OmitAt(L, k, i + 1);
    }
    OmitSize(L, k);
    hide Omit;
    assert 0 <= L[k] < |N| && N[L[k]] == Successor(L, k);
    assert 0 <= L[k - 1] < |N|;
    assert 0 <= L[j] < |N| && N[L[j]] == Successor(L, j);
    if j != k - 1 {
      assert L[j] != L[k - 1];
    }
  }

  lemma OmitSize(L: seq<int>, k: nat)
    requires k < |L|
    ensures |Omit(L, k)| == |L| - 1
  {
  }

  // -------------------------------------------------------------------- well-formed

  function PermLinks(h: Heap): (N: seq<int>)
    ensures |N| == |h.perms|
  {
    seq(|h.perms|, i requires 0 <= i < |h.perms| => h.perms[i].next)
  }

  function FileLinks(h: Heap): (N: seq<int>)
    ensures |N| == |h.files|
  {
    seq(|h.files|, i requires 0 <= i < |h.files| => h.files[i].next)
  }

  predicate Live(h: Heap, z: Shape, p: int) {
    0 <= p < |h.perms| && p !in z.freePerms
  }

  /** What an entry is about. */
  function KeyOf(h: Heap, p: int): Key {
    if 0 <= p < |h.perms| && 0 <= h.perms[p].file < |h.files| then Key(h.files[h.perms[p].file].name, h.perms[p].sm)
    else Key(0, 0)
  }

  /** How many descriptors have an entry of file `f`. */
  function Count(P: seq<FilePerm>, T: seq<int>, f: int): nat {
    if T == [] then 0
    else
      var p := T[|T| - 1];
      Count(P, T[..|T| - 1], f) + if 0 <= p < |P| && P[p].file == f then 1 else 0
  }

  ghost predicate Sizes(h: Heap, z: Shape) {
    && |h.perms| == MAX_NB_PERMS && |h.files| == MAX_NB_FILES && |h.fds| == MAX_NB_OPEN_FILES
    && |z.freePerms| <= MAX_NB_PERMS && |z.freeFiles| <= MAX_NB_FILES
  }

  /** The file pool is split into the free list and the open list. */
  ghost predicate FilesOk(h: Heap, z: Shape) {
    && IsList(FileLinks(h), h.freeFiles, z.freeFiles) && IsList(FileLinks(h), h.openFiles, z.openFiles)
    && forall f :: 0 <= f < |h.files| ==> (f in z.freeFiles <==> f !in z.openFiles)
  }

  /** The entry pool is split into the free list and the lists of the open files. */
  ghost predicate PermsOk(h: Heap, z: Shape) {
    && IsList(PermLinks(h), h.freePerms, z.freePerms)
    && (forall f :: f in z.acls <==> f in z.openFiles)
    && (forall f :: f in z.acls ==>
         0 <= f < |h.files| && z.acls[f] != [] && IsList(PermLinks(h), h.files[f].acl, z.acls[f]))
    && (forall f, p :: f in z.acls && p in z.acls[f] ==> Live(h, z, p) && h.perms[p].file == f)
    && (forall p :: Live(h, z, p) ==> h.perms[p].file in z.acls && p in z.acls[h.perms[p].file])
  }

  /** Every open file and every entry is found under its name, and only there. */
  ghost predicate IndexOk(h: Heap, z: Shape) {
    && (forall n :: n in z.named ==>
         z.named[n] in z.acls && 0 <= z.named[n] < |h.files| && h.files[z.named[n]].name == n)
    && (forall f :: f in z.acls && 0 <= f < |h.files| ==> h.files[f].name in z.named && z.named[h.files[f].name] == f)
    && (forall k :: k in z.at ==> Live(h, z, z.at[k]) && KeyOf(h, z.at[k]) == k)
    && (forall p :: Live(h, z, p) ==> KeyOf(h, p) in z.at && z.at[KeyOf(h, p)] == p)
  }

  /** The head of each list is the creator's entry, and stays it. */
  ghost predicate CreatorsOk(h: Heap, z: Shape) {
    forall f :: f in z.acls && z.acls[f] != [] && 0 <= z.acls[f][0] < |h.perms| ==>
      h.perms[z.acls[f][0]].flags == SFS_CREATOR
  }

  /** Descriptors refer to entries in use, and every file knows how many refer to it. */
  ghost predicate FdsOk(h: Heap, z: Shape) {
    && (forall i :: 0 <= i < |h.fds| ==> h.fds[i] == NULL || Live(h, z, h.fds[i]))
    && (forall f :: f in z.acls && 0 <= f < |h.files| ==> h.files[f].openCount == Count(h.perms, h.fds, f))
  }

  ghost predicate Good(h: Heap, z: Shape) {
    Sizes(h, z) && FilesOk(h, z) && PermsOk(h, z) && IndexOk(h, z) && CreatorsOk(h, z) && FdsOk(h, z)
  }

  // ------------------------------------------------------------------------- meaning

  function FdKey(h: Heap, p: int): Option<Key> {
    if p == NULL then None else Some(KeyOf(h, p))
  }

  /** The access-control state that the structures stand for. */
  ghost function Meaning(h: Heap, z: Shape): Acl {
    Acl(
      map k | k in z.at :: if 0 <= z.at[k] < |h.perms| then h.perms[z.at[k]].flags else SFS_NIL,
      map n | n in z.named :: OwnerOf(h, z, z.named[n]),
      seq(|h.fds|, i requires 0 <= i < |h.fds| => FdKey(h, h.fds[i])),
      |z.freePerms|,
      |z.freeFiles|)
  }

  ghost function OwnerOf(h: Heap, z: Shape, f: int): ModuleId {
    if f in z.acls && z.acls[f] != [] && 0 <= z.acls[f][0] < |h.perms| then h.perms[z.acls[f][0]].sm else 0
  }

  // ------------------------------------------------------------------------ counting

  lemma {:induction false} CountUpdate(P: seq<FilePerm>, T: seq<int>, i: nat, p: int, f: int)
    requires i < |T|
    ensures Count(P, T[i := p], f)
      == Count(P, T, f)
        - (if 0 <= T[i] < |P| && P[T[i]].file == f then 1 else 0)
        + (if 0 <= p < |P| && P[p].file == f then 1 else 0)
  {
    var n := |T| - 1;
    if i < n {
      assert T[i := p][..n] == T[..n][i := p];
      CountUpdate(P, T[..n], i, p, f);
    } else {
      assert T[i := p][..n] == T[..n];
    }
  }

  /** Only the files of the entries that descriptors refer to matter. */
  lemma {:induction false} CountKept(P: seq<FilePerm>, P': seq<FilePerm>, T: seq<int>, f: int)
    requires |P| == |P'|
    requires forall i :: 0 <= i < |T| && 0 <= T[i] < |P| ==> (P[T[i]].file == f <==> P'[T[i]].file == f)
    ensures Count(P, T, f) == Count(P', T, f)
  {
    if T != [] {
      CountKept(P, P', T[..|T| - 1], f);
    }
  }

  lemma {:induction false} CountZero(P: seq<FilePerm>, T: seq<int>, f: int)
    ensures Count(P, T, f) == 0 <==> forall i :: 0 <= i < |T| && 0 <= T[i] < |P| ==> P[T[i]].file != f
  {
    if T != [] {
      var n := |T| - 1;
      CountZero(P, T[..n], f);
      if Count(P, T, f) == 0 {
        forall i | 0 <= i < |T| && 0 <= T[i] < |P|
          ensures P[T[i]].file != f
        {
          if i < n {
            assert T[..n][i] == T[i];
          }
        }
      } else if Count(P, T[..n], f) > 0 {
        var i :| 0 <= i < n && 0 <= T[..n][i] < |P| && P[T[..n][i]].file == f;
        assert T[i] == T[..n][i];
      }
    }
  }
}
