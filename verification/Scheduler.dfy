/** The scheduler's thread control blocks, in their linked lists. */
module Schedulers {
  import opened Scheduling

  /** struct tcb */
  class Tcb {
    var id: nat
    var sm: ModuleId
    var start: ModuleId
    var entry: nat
    var state: ThreadState
    var next: Tcb?

    constructor ()
      ensures next == null
    {
      id, sm, start, entry, state, next := 0, 0, 0, 0, Registered, null;
    }

    method Fill(id: nat, sm: ModuleId, start: ModuleId, entry: nat)
      modifies this
      ensures Value() == Thread(id, sm, start, entry, Registered) && next == null
    {
      this.id, this.sm, this.start, this.entry, state, next := id, sm, start, entry, Registered, null;
    }

    method Become(sm: ModuleId, start: ModuleId, entry: nat, state: ThreadState)
      modifies this
      ensures Value() == Thread(old(id), sm, start, entry, state) && next == old(next)
    {
      this.sm, this.start, this.entry, this.state := sm, start, entry, state;
    }

    method LinkTo(next: Tcb?)
      modifies this`next
      ensures this.next == next && Value() == old(Value())
    {
      this.next := next;
    }

    ghost function Value(): Thread
      reads this
    {
      Thread(id, sm, start, entry, state)
    }
  }

  predicate NoDuplicates<T(==)>(L: seq<T>) {
    forall i, j :: 0 <= i < j < |L| ==> L[i] != L[j]
  }

  /** The links of the blocks of `L`. */
  ghost function Links(L: seq<Tcb>): (N: seq<Tcb?>)
    reads L
    ensures |N| == |L|
  {
    seq(|L|, i requires 0 <= i < |L| reads L => L[i].next)
  }

  /** With these links `L` is the list that starts at `head`. */
  ghost predicate LinkedBy(head: Tcb?, L: seq<Tcb>, N: seq<Tcb?>) {
    && |N| == |L| && NoDuplicates(L)
    && head == (if L == [] then null else L[0])
    && (forall i :: 0 <= i < |L| - 1 ==> N[i] == L[i + 1])
    && (L != [] ==> N[|L| - 1] == null)
  }

  ghost predicate Linked(head: Tcb?, L: seq<Tcb>)
    reads L
  {
    LinkedBy(head, L, Links(L))
  }

  ghost function Values(L: seq<Tcb>): (r: seq<Thread>)
    reads L
    ensures |r| == |L|
  {
    seq(|L|, i requires 0 <= i < |L| reads L => L[i].Value())
  }

  /** Every control block is in exactly one of the three lists, or it is `a` or `b`. */
  ghost predicate Partition(pool: seq<Tcb>, F: seq<Tcb>, R: seq<Tcb>, D: seq<Tcb>, a: Tcb?, b: Tcb?) {
    && |pool| == MAX_THREADS && NoDuplicates(pool)
    && (forall t :: t in F ==> t in pool && t !in R && t !in D && t != a && t != b)
    && (forall t :: t in R ==> t in pool && t !in D && t != a && t != b)
    && (forall t :: t in D ==> t in pool && t != a && t != b)
    && (a != null ==> a in pool) && (b != null ==> b in pool && a != b)
    && (forall t :: t in pool ==> t in F || t in R || t in D || t == a || t == b)
  }

  lemma PoolOf(pool: seq<Tcb>, F: seq<Tcb>, R: seq<Tcb>, D: seq<Tcb>, a: Tcb?, b: Tcb?)
    requires Partition(pool, F, R, D, a, b)
    ensures |pool| == MAX_THREADS && NoDuplicates(pool)
  {
  }

  lemma InPool(pool: seq<Tcb>, F: seq<Tcb>, R: seq<Tcb>, D: seq<Tcb>, a: Tcb?)
    requires Partition(pool, F, R, D, a, null)
    ensures forall i :: 0 <= i < |R| ==> R[i] in pool && R[i] !in F && R[i] != a && R[i] !in D
    ensures forall i :: 0 <= i < |D| ==> D[i] in pool && D[i] !in F && D[i] != a && D[i] !in R
    ensures a != null ==> a in pool && a !in F
    ensures |pool| == MAX_THREADS && NoDuplicates(pool)
  {
  }

  lemma TakeReady(pool: seq<Tcb>, F: seq<Tcb>, R: seq<Tcb>, D: seq<Tcb>)
    requires Partition(pool, F, R, D, null, null) && R != [] && NoDuplicates(R)
    ensures Partition(pool, F, R[1..], D, R[0], null)
    ensures R[0] !in R[1..]
  {
    Split(R);
  }

  lemma Split(L: seq<Tcb>)
    requires L != [] && NoDuplicates(L)
    ensures forall t :: t in L <==> t == L[0] || t in L[1..]
    ensures L[0] !in L[1..] && NoDuplicates(L[1..])
  {
    assert L == [L[0]] + L[1..];
  }

  lemma TakeFree(pool: seq<Tcb>, F: seq<Tcb>, R: seq<Tcb>, D: seq<Tcb>, a: Tcb?)
    requires Partition(pool, F, R, D, a, null) && F != [] && NoDuplicates(F)
    ensures Partition(pool, F[1..], R, D, a, F[0])
    ensures F[0] !in R && F[0] !in D && F[0] !in F[1..] && F[0] != a
  {
    Split(F);
  }

  lemma PutReady(pool: seq<Tcb>, F: seq<Tcb>, R: seq<Tcb>, D: seq<Tcb>, a: Tcb?, b: Tcb)
    requires Partition(pool, F, R, D, a, b)
    ensures Partition(pool, F, R + [b], D, a, null)
    ensures b !in F && b !in D && b !in R && b != a && b in pool
    ensures R != [] ==> R[|R| - 1] !in F && R[|R| - 1] !in D && R[|R| - 1] != a && R[|R| - 1] in pool
  {
  }

  lemma PutDone(pool: seq<Tcb>, F: seq<Tcb>, R: seq<Tcb>, D: seq<Tcb>, a: Tcb)
    requires Partition(pool, F, R, D, a, null)
    ensures Partition(pool, F, R, [a] + D, null, null)
    ensures a !in F && a !in D && a !in R && a in pool
  {
  }

  lemma SwapLoose(pool: seq<Tcb>, F: seq<Tcb>, R: seq<Tcb>, D: seq<Tcb>, a: Tcb?)
    requires Partition(pool, F, R, D, a, null)
    ensures Partition(pool, F, R, D, null, a)
    ensures a != null ==> a in pool && a !in R && a !in F && a !in D
  {
  }

  /** What a scheduling helper tells the entry stub. */
  datatype Next = Stop | NoneLeft | Run(start: ModuleId, entry: nat)

  ghost function NextOf(s: Sched): Next {
    if s.cur.None? then NoneLeft else Run(s.cur.value.start, s.cur.value.entry)
  }

  class Scheduler {
    const pool: seq<Tcb>
    var freeList: Tcb?
    var ready: Tcb?
    var readyTail: Tcb?
    var done: Tcb?
    var cur: Tcb?
    var counter: nat
    var running: bool
    var initDone: bool

    ghost var F: seq<Tcb>     // the free list,
    ghost var R: seq<Tcb>     // the ready queue
    ghost var D: seq<Tcb>     // and the threads that are done

    ghost predicate Lists(a: Tcb?, b: Tcb?)
      reads this, F, R, D
    {
      && Partition(pool, F, R, D, a, b)
      && Linked(freeList, F) && Linked(ready, R) && Linked(done, D)
      && readyTail == (if R == [] then null else R[|R| - 1])
    }

    /** The current block keeps its old link when it leaves the queue: to nothing, or to
        the head of the queue. */
    ghost predicate Valid()
      reads this, pool, F, R, D
    {
      && |pool| == MAX_THREADS && NoDuplicates(pool)
      && (initDone ==>
            && Lists(cur, null)
            && (cur != null ==> running && (cur.next == null || cur.next == ready)))
    }

    ghost function Abs(): Sched
      reads this, pool, F, R, D, cur
    {
      if !initDone then Fresh()
      else Sched(Values(R), if cur == null then None else Some(cur.Value()), Values(D), counter, running, |F|)
    }

    constructor ()
      ensures Valid() && Abs() == Fresh() && fresh(pool)
    {
      var p: seq<Tcb> := [];
      for i := 0 to MAX_THREADS
        invariant |p| == i && fresh(p) && NoDuplicates(p)
      {
        var t := new Tcb();
        p := p + [t];
      }
      pool := p;
      freeList, ready, readyTail, done, cur := null, null, null, null, null;
      counter, running, initDone := 0, false, false;
      F, R, D := [], [], [];
    }

    /** init_data_structures */
    method InitDataStructures()
      requires Valid() && !initDone
      modifies this, pool
      ensures Valid() && initDone && Abs() == Fresh()
    {
      hide LinkedBy, Partition, Values;
      ChainPool();
      freeList := pool[0];
      ready, readyTail, done, cur := null, null, null, null;
      counter, running, initDone := 1, false, true;
      F, R, D := pool, [], [];
      Chained(pool);
      AllFree(pool);
    }

    /** The loop that links the pool. */
    method ChainPool()
      requires |pool| == MAX_THREADS && NoDuplicates(pool)
      modifies pool
      ensures forall j :: 0 <= j < |pool| - 1 ==> pool[j].next == pool[j + 1]
      ensures pool[|pool| - 1].next == null
    {
      var c := pool[0];
      for i := 1 to MAX_THREADS
        invariant c == pool[i - 1] && c in pool
        invariant forall j :: 0 <= j < i - 1 ==> pool[j].next == pool[j + 1]
      {
        c.next := pool[i];
        c := c.next;
      }
      c.next := null;
    }

    /** The second branch of READY_ENQUEUE. */
    method ReadyAppend(t: Tcb, ghost other: Tcb?)
      requires Lists(other, t) && R != []
      modifies this`readyTail, this`R, pool
      ensures Lists(other, null) && R == old(R) + [t]
      ensures other != null ==> other.next == old(other.next) && other.Value() == old(other.Value())
      ensures Values(R) == old(Values(R)) + [old(t.Value())] && Values(D) == old(Values(D))
    {
      hide Partition, LinkedBy;
      ghost var VR, VD, v := Values(R), Values(D), t.Value();
      PutReady(pool, F, R, D, other, t);
      LinkedEnds(ready, R);
      LinkedSnoc(ready, R, Links(R), t);
      ghost var NF, NR, ND := Links(F), Links(R), Links(D);
      assert forall i :: 0 <= i < |F| ==> F[i] in F;
      assert forall i :: 0 <= i < |D| ==> D[i] in D;
      assert forall i :: 0 <= i < |R| ==> R[i] in R;
      readyTail.LinkTo(t);
      t.LinkTo(null);
      readyTail := t;
      assert Links(F) == NF && Links(D) == ND;
      assert Links(R + [t]) == NR[|R| - 1 := t] + [null];
      assert Values(R + [t]) == VR + [v] && Values(D) == VD;
      R := R + [t];
    }

    /** READY_ENQUEUE. The first branch does not clear the link of the block. */
    method ReadyEnqueue(t: Tcb, ghost other: Tcb?)
      requires Lists(other, t) && initDone && (R == [] ==> t.next == null)
      modifies this`ready, this`readyTail, this`R, pool
      ensures Lists(other, null) && R == old(R) + [t]
      ensures other != null ==> other.next == old(other.next) && other.Value() == old(other.Value())
      ensures old(R) != [] ==> ready == old(ready)
      ensures Values(R) == old(Values(R)) + [old(t.Value())] && Values(D) == old(Values(D))
    {
      hide Partition, Linked;
      LinkedEnds(ready, R);
      assert Values([t]) == [t.Value()];
      if ready == null {
        PutReady(pool, F, R, D, other, t);
        LinkedOne(t);
        assert R + [t] == [t];
        ready := t;
        readyTail := ready;
        R := R + [t];
      } else {
        ReadyAppend(t, other);
      }
    }

    /** READY_DEQUEUE */
    method ReadyDequeue() returns (t: Tcb?)
      requires Lists(null, null) && initDone
      modifies this`ready, this`readyTail, this`R
      ensures if old(R) == [] then t == null && R == [] && Lists(null, null)
              else t == old(R[0]) && R == old(R[1..]) && Lists(t, null) && t.next == ready
    {
      hide Partition, Linked;
      LinkedEnds(ready, R);
      if ready == null {
        t := null;
      } else {
        LinkedTail(ready, R);
        TakeReady(pool, F, R, D);
        t := ready;
        ready := ready.next;
        if ready == null {
          readyTail := null;
        }
        LinkedEnds(ready, R[1..]);
        R := R[1..];
      }
    }

    /** Everything but the current thread. */
    ghost function Rest(): Sched
      reads this, pool, F, R, D
    {
      Sched(Values(R), None, Values(D), counter, running, |F|)
    }

    /** The end of every scheduling helper: the first of the queue runs. */
    method Dispatch() returns (next: Next)
      requires Lists(null, null) && initDone && running
      modifies this`ready, this`readyTail, this`R, this`cur, pool
      ensures Valid() && Abs() == Dispatched(old(Rest())) && next == NextOf(Abs())
    {
      hide Linked, Partition, Values;
      TailValues(R);
      PoolOf(pool, F, R, D, null, null);
      cur := ReadyDequeue();
      if cur == null {
        return NoneLeft;
      }
      CurrentInPool();
      SetCurrent(cur.sm, cur.start, cur.entry, Running);
      next := Run(cur.start, cur.entry);
    }

    /** ALLOC_TCB, when there is a block left. */
    method AllocTcb(sm: ModuleId, start: ModuleId, entry: nat) returns (t: Tcb)
      requires Lists(cur, null) && initDone && freeList != null
      modifies this`freeList, this`F, pool
      ensures Lists(cur, t) && |old(F)| > 0 && t == old(F[0]) && F == old(F[1..])
      ensures t.Value() == Thread(counter, sm, start, entry, Registered) && t.next == null
      ensures Values(R) == old(Values(R)) && Values(D) == old(Values(D))
      ensures cur != null ==> cur.Value() == old(cur.Value()) && cur.next == old(cur.next)
    {
      hide LinkedBy, Partition;
      ghost var VR, VD := Values(R), Values(D);
      LinkedTail(freeList, F);
      LinkedEnds(freeList, F);
      TakeFree(pool, F, R, D, cur);
      ghost var NF, NR, ND := Links(F[1..]), Links(R), Links(D);
      assert forall i :: 0 <= i < |F| - 1 ==> F[1..][i] in F[1..];
      assert forall i :: 0 <= i < |D| ==> D[i] in D;
      assert forall i :: 0 <= i < |R| ==> R[i] in R;
      t := freeList;
      freeList := freeList.next;
      t.Fill(counter, sm, start, entry);
      assert Links(F[1..]) == NF && Links(R) == NR && Links(D) == ND;
      assert Values(R) == VR && Values(D) == VD;
      F := F[1..];
    }

    /** The body of register_thread_portal, when there is a block left. */
    method Enroll(sm: ModuleId, start: ModuleId, entry: nat)
      requires Valid() && initDone && freeList != null
      modifies this, pool
      ensures Valid() && initDone && F == old(F[1..]) && |old(F)| > 0 && counter == (old(counter) + 1) % ID_LIMIT
      ensures D == old(D) && Values(D) == old(Values(D)) && cur == old(cur) && running == old(running)
      ensures cur != null ==> cur.Value() == old(cur.Value())
      ensures Values(R) == old(Values(R)) + [Thread(old(counter), sm, start, entry, Registered)]
    {
      hide Linked, Partition, Values;
      InPool(pool, F, R, D, cur);
      LinkedEnds(freeList, F);
      LinkedEnds(ready, R);
      var t := AllocTcb(sm, start, entry);
      counter := (counter + 1) % ID_LIMIT;
      ReadyEnqueue(t, cur);
    }

    /** register_thread_portal. An empty pool stops the machine. */
    method RegisterThreadPortal(sm: ModuleId, start: ModuleId, entry: nat) returns (ok: bool)
      requires Valid()
      modifies this, pool
      ensures Valid() && initDone
      ensures ok <==> Register(old(Abs()), sm, start, entry).Some?
      ensures Abs() == if ok then Register(old(Abs()), sm, start, entry).value else old(Abs())
    {
      hide Linked, Partition, Values;
      if !initDone {
        InitDataStructures();
      }
      LinkedEnds(freeList, F);
      if freeList == null {
        return false;
      }
      Enroll(sm, start, entry);
      ok := true;
    }

    /** What the helpers below need besides `Valid`: scheduling was started with a thread
        to schedule. */
    ghost predicate Started()
      reads this
    {
      initDone && (running ==> cur != null)
    }

    /** Writes the fields of the current thread. */
    method SetCurrent(sm: ModuleId, start: ModuleId, entry: nat, state: ThreadState)
      requires Valid() && initDone && cur != null
      modifies cur
      ensures Valid() && Rest() == old(Rest())
      ensures cur.Value() == Thread(old(cur.Value()).id, sm, start, entry, state)
    {
      hide LinkedBy, Partition;
      InPool(pool, F, R, D, cur);
      SwapLoose(pool, F, R, D, cur);
      ghost var NF, NR, ND := Links(F), Links(R), Links(D);
      ghost var VR, VD := Values(R), Values(D);
      assert forall i :: 0 <= i < |F| ==> F[i] in F;
      cur.Become(sm, start, entry, state);
      assert Links(F) == NF && Links(R) == NR && Links(D) == ND;
      assert Values(R) == VR && Values(D) == VD;
    }

    /** READY_ENQUEUE(cur_thr): its link is fit for either branch. */
    method Requeue()
      requires Valid() && initDone && cur != null
      modifies this`ready, this`readyTail, this`R, pool
      ensures Lists(null, null)
      ensures Rest() == old(Rest()).(ready := old(Rest()).ready + [old(cur.Value())])
    {
      hide Linked, Partition, Values;
      InPool(pool, F, R, D, cur);
      SwapLoose(pool, F, R, D, cur);
      LinkedEnds(ready, R);
      ReadyEnqueue(cur, null);
    }

    /** Writes the link of the current thread. */
    method LinkCurrent(next: Tcb?)
      requires Valid() && initDone && cur != null
      modifies cur
      ensures cur.next == next && cur.Value() == old(cur.Value())
      ensures Links(F) == old(Links(F)) && Links(R) == old(Links(R)) && Links(D) == old(Links(D))
      ensures Values(R) == old(Values(R)) && Values(D) == old(Values(D))
    {
      hide LinkedBy, Partition;
      InPool(pool, F, R, D, cur);
      assert forall i :: 0 <= i < |F| ==> F[i] in F;
      ghost var NF, NR, ND, VR, VD := Links(F), Links(R), Links(D), Values(R), Values(D);
      cur.LinkTo(next);
      assert Links(F) == NF && Links(R) == NR && Links(D) == ND;
      assert Values(R) == VR && Values(D) == VD;
    }

    /** The first half of DONE_GET_NEXT. */
    method PushDone()
      requires Valid() && initDone && cur != null
      modifies this`done, this`D, pool
      ensures Lists(null, null)
      ensures Rest() == old(Rest()).(done := [old(cur.Value())] + old(Rest()).done)
    {
      hide LinkedBy, Partition, Links, Values;
      PutDone(pool, F, R, D, cur);
      LinkedEnds(done, D);
      LinkedCons(done, D, Links(D), cur);
      LinkCurrent(done);
      done := cur;
      Consed(cur, D);
      D := [cur] + D;
    }

    /** start_scheduling up to the call of the first thread. */
    method StartScheduling() returns (next: Next)
      requires Valid()
      modifies this, pool
      ensures Valid() && initDone
      ensures if old(Abs()).running then next == Stop && Abs() == old(Abs())
              else Abs() == Start(old(Abs())) && next == NextOf(Abs())
    {
      hide Linked, Partition, Values;
      if !initDone {
        InitDataStructures();
      }
      if running {
        return Stop;
      }
      running := true;
      next := Dispatch();
    }

    /** The end of start_scheduling, when every thread is done. */
    method EndScheduling()
      requires Valid() && initDone && cur == null
      modifies this`running
      ensures Valid() && Abs() == old(Abs()).(running := false)
    {
      running := false;
    }

    /** yield_get_next. With the scheduler off the caller simply goes on. */
    method YieldGetNext(sm: ModuleId, start: ModuleId) returns (next: Next)
      requires Valid() && Started()
      modifies this, pool
      ensures Valid() && initDone
      ensures if !old(running) then Abs() == old(Abs()) && next == Run(start, RETURN_ENTRY)
              else Abs() == Yield(old(Abs()), sm, start) && next == NextOf(Abs())
    {
      hide Linked, Partition, Values;
      if !running {
        return Run(start, RETURN_ENTRY);
      }
      CurrentInPool();
      SetCurrent(sm, start, RETURN_ENTRY, Ready);
      Requeue();
      next := Dispatch();
    }

    /** busy_get_next */
    method BusyGetNext(sm: ModuleId) returns (next: Next)
      requires Valid() && Started()
      modifies this, pool
      ensures Valid() && initDone
      ensures if !old(running) then Abs() == old(Abs()) && next == Stop
              else Abs() == Postpone(old(Abs())) && next == NextOf(Abs())
    {
      hide Linked, Partition, Values;
      if !running {
        return Stop;
      }
      CurrentInPool();
      SetCurrent(cur.sm, cur.start, cur.entry, Busy);
      Requeue();
      next := Dispatch();
    }

    /** DONE_GET_NEXT, behind the checks of finish_get_next and kill_get_next. */
    method DoneGetNext(sm: ModuleId, state: ThreadState) returns (next: Next)
      requires Valid() && Started()
      modifies this, pool
      ensures Valid() && initDone
      ensures if !old(running) then Abs() == old(Abs()) && next == Stop
              else Abs() == Retire(old(Abs()), sm, state) && next == NextOf(Abs())
    {
      hide Linked, Partition, Values;
      if !running {
        return Stop;
      }
      CurrentInPool();
      SetCurrent(sm, cur.start, cur.entry, state);
      PushDone();
      next := Dispatch();
    }

    /** get_cur_thr_id */
    method GetCurThrId() returns (id: nat)
      requires initDone
      ensures id == CurrentId(Abs())
    {
      if cur == null {
        return 0;
      }
      id := cur.id;
    }

    lemma CurrentInPool()
      requires Valid() && initDone
      ensures cur != null ==> cur in pool
    {
      InPool(pool, F, R, D, cur);
    }
  }

  /** Blocks that point to each other in turn are a list. */
  lemma Chained(L: seq<Tcb>)
    requires L != [] && NoDuplicates(L) && L[|L| - 1].next == null
    requires forall j :: 0 <= j < |L| - 1 ==> L[j].next == L[j + 1]
    ensures Linked(L[0], L) && Linked(null, [])
  {
  }

  lemma AllFree(pool: seq<Tcb>)
    requires |pool| == MAX_THREADS && NoDuplicates(pool)
    ensures Partition(pool, pool, [], [], null, null)
  {
  }

  lemma Consed(t: Tcb, L: seq<Tcb>)
    ensures Links([t] + L) == [t.next] + Links(L) && Values([t] + L) == [t.Value()] + Values(L)
  {
  }

  lemma LinkedCons(head: Tcb?, L: seq<Tcb>, N: seq<Tcb?>, t: Tcb)
    requires LinkedBy(head, L, N) && t !in L
    ensures LinkedBy(t, [t] + L, [head] + N)
  {
    assert forall i :: 0 <= i < |L| ==> L[i] in L;
  }

  lemma LinkedTail(head: Tcb?, L: seq<Tcb>)
    requires Linked(head, L) && head != null
    ensures L != [] && head == L[0] && head !in L[1..] && Linked(head.next, L[1..])
    ensures forall t :: t in L <==> t == L[0] || t in L[1..]
  {
    Split(L);
    assert Links(L)[0] == head.next;
    LinkedByTail(head, L, Links(L));
    assert Links(L[1..]) == Links(L)[1..];
  }

  lemma LinkedByTail(head: Tcb?, L: seq<Tcb>, N: seq<Tcb?>)
    requires LinkedBy(head, L, N) && L != []
    ensures LinkedBy(N[0], L[1..], N[1..])
  {
    Split(L);
    if |L| > 1 {
      assert N[0] == L[1] == L[1..][0];
    }
  }

  lemma TailValues(L: seq<Tcb>)
    ensures L != [] ==> Values(L[1..]) == Values(L)[1..] && Values(L)[0] == L[0].Value() && Values(L) != []
  {
  }

  lemma LinkedEnds(head: Tcb?, L: seq<Tcb>)
    requires Linked(head, L)
    ensures head == null <==> L == []
    ensures L != [] ==> head == L[0] && L[|L| - 1].next == null
    ensures NoDuplicates(L)
  {
  }

  lemma LinkedOne(t: Tcb)
    requires t.next == null
    ensures Linked(t, [t])
  {
  }

  lemma LinkedSnoc(head: Tcb?, L: seq<Tcb>, N: seq<Tcb?>, t: Tcb)
    requires LinkedBy(head, L, N) && t !in L && L != []
    ensures LinkedBy(head, L + [t], N[|L| - 1 := t] + [null])
  {
    assert forall i :: 0 <= i < |L| ==> L[i] in L;
  }
}
