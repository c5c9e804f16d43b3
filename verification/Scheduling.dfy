/** The scheduler's decisions, on values: a FIFO of logical threads. */
module Scheduling {
  type ModuleId = nat

  /** The entry that means "return into the module" instead of "call it". */
  const RETURN_ENTRY: nat := 0xffff
  /** Thread ids are 16 bits wide. */
  const ID_LIMIT: nat := 0x1_0000
  /** SCHED_MAX_NB_THREADS */
  const MAX_THREADS: nat := 10

  datatype ThreadState = Registered | Busy | Running | Ready | Finished | Killed

  /** A thread control block. `start` stands for the module that owns the address
      pub_start. */
  datatype Thread = Thread(id: nat, sm: ModuleId, start: ModuleId, entry: nat, state: ThreadState)

  datatype Option<T> = None | Some(value: T)

  datatype Sched = Sched(ready: seq<Thread>, cur: Option<Thread>, done: seq<Thread>, counter: nat,
    running: bool, free: nat)

  /** init_data_structures */
  function Fresh(): Sched {
    Sched([], None, [], 1, false, MAX_THREADS)
  }

  /** get_cur_thr_id: zero when there is no current thread. */
  function CurrentId(s: Sched): nat {
    if s.cur.None? then 0 else s.cur.value.id
  }

  // -------------------------------------------------------------------- operations

  /** register_thread_portal, which stops the machine when the pool is empty. */
  function Register(s: Sched, sm: ModuleId, start: ModuleId, entry: nat): Option<Sched> {
    if s.free == 0 then None
    else
      Some(s.(ready := s.ready + [Thread(s.counter, sm, start, entry, Registered)],
              counter := (s.counter + 1) % ID_LIMIT,
              free := s.free - 1))
  }

  /** READY_DEQUEUE into the current thread, which then runs. */
  function Dispatched(s: Sched): Sched {
    if s.ready == [] then s.(cur := None)
    else s.(ready := s.ready[1..], cur := Some(s.ready[0].(state := Running)))
  }

  /** start_scheduling up to its call of the first thread. It marks the scheduler as
      running before it looks for a thread. */
  function Start(s: Sched): Sched
    requires !s.running
  {
    Dispatched(s.(running := true))
  }

  /** yield_get_next */
  function Yield(s: Sched, sm: ModuleId, start: ModuleId): Sched
    requires s.cur.Some?
  {
    Dispatched(s.(ready := s.ready + [Thread(s.cur.value.id, sm, start, RETURN_ENTRY, Ready)]))
  }

  /** busy_get_next */
  function Postpone(s: Sched): Sched
    requires s.cur.Some?
  {
    Dispatched(s.(ready := s.ready + [s.cur.value.(state := Busy)]))
  }

  /** DONE_GET_NEXT, for finish_get_next and kill_get_next. */
  function Retire(s: Sched, sm: ModuleId, state: ThreadState): Sched
    requires s.cur.Some?
  {
    Dispatched(s.(done := [s.cur.value.(sm := sm, state := state)] + s.done))
  }

  // --------------------------------------------------------------------- invariant

  function CurrentThreads(s: Sched): seq<Thread> {
    if s.cur.None? then [] else [s.cur.value]
  }

  function Threads(s: Sched): seq<Thread> {
    s.ready + CurrentThreads(s) + s.done
  }

  predicate DistinctIds(T: seq<Thread>) {
    forall i, j :: 0 <= i < j < |T| ==> T[i].id != T[j].id
  }

  /** Every id below the counter was handed out once, so no two threads share one; the
      counter never wraps, because the pool is never refilled. */
  ghost predicate Valid(s: Sched) {
    && DistinctIds(Threads(s))
    && (forall i :: 0 <= i < |Threads(s)| ==> 1 <= Threads(s)[i].id < s.counter)
    && s.counter + s.free == 1 + MAX_THREADS && s.free <= MAX_THREADS
    && (forall i :: 0 <= i < |s.ready| ==> s.ready[i].state in {Registered, Busy, Ready})
    && (forall i :: 0 <= i < |s.done| ==> s.done[i].state in {Finished, Killed})
    && (s.cur.Some? ==> s.running && s.cur.value.state == Running)
  }

  /** Scheduling is on and there is a thread to schedule. */
  ghost predicate Active(s: Sched) {
    Valid(s) && s.running && s.cur.Some?
  }

  lemma DispatchedValid(s: Sched)
    requires Valid(s.(cur := None)) && s.running
    ensures Valid(Dispatched(s)) && Dispatched(s).running
    ensures s.ready != [] ==> CurrentId(Dispatched(s)) == s.ready[0].id
  {
    var s' := Dispatched(s);
    if s.ready != [] {
      var A, B := Threads(s.(cur := None)), Threads(s');
      assert A == [s.ready[0]] + s.ready[1..] + s.done;
      assert B == s.ready[1..] + [s'.cur.value] + s.done;
      forall i | 0 <= i < |B|
        ensures exists j :: 0 <= j < |A| && B[i].id == A[j].id
      {
        var j := if i < |s.ready| - 1 then i + 1 else if i == |s.ready| - 1 then 0 else i;
        assert B[i].id == A[j].id;
      }
      forall i, j | 0 <= i < j < |B|
        ensures B[i].id != B[j].id
      {
        var i' := if i < |s.ready| - 1 then i + 1 else if i == |s.ready| - 1 then 0 else i;
        var j' := if j < |s.ready| - 1 then j + 1 else if j == |s.ready| - 1 then 0 else j;
        assert B[i].id == A[i'].id && B[j].id == A[j'].id;
      }
    }
  }

  lemma SameIds(A: seq<Thread>, n: nat, t: Thread)
    requires DistinctIds(A) && n < |A| && A[n].id == t.id
    ensures DistinctIds(A[n := t]) && forall i :: 0 <= i < |A| ==> A[n := t][i].id == A[i].id
  {
  }

  /** Putting the current thread aside, with the same id, before the next is chosen. */
  lemma SetAside(s: Sched, t: Thread)
    requires Active(s) && t.id == s.cur.value.id
    ensures t.state in {Busy, Ready} ==> Valid(s.(ready := s.ready + [t], cur := None))
    ensures t.state in {Finished, Killed} ==> Valid(s.(done := [t] + s.done, cur := None))
  {
    var A, B := Threads(s), Threads(s)[|s.ready| := t];
    SameIds(A, |s.ready|, t);
    assert Threads(s.(ready := s.ready + [t], cur := None)) == B;
    assert Threads(s.(done := [t] + s.done, cur := None)) == B;
  }

  lemma Inserted(A: seq<Thread>, n: nat, t: Thread)
    requires DistinctIds(A) && n <= |A| && 1 <= t.id && forall i :: 0 <= i < |A| ==> 1 <= A[i].id < t.id
    ensures var B := A[..n] + [t] + A[n..]; DistinctIds(B) && forall i :: 0 <= i < |B| ==> 1 <= B[i].id < t.id + 1
  {
    var B := A[..n] + [t] + A[n..];
    forall i, j | 0 <= i < j < |B|
      ensures B[i].id != B[j].id
    {
      var i', j' := if i < n then i else i - 1, if j < n then j else j - 1;
      assert i != n ==> B[i] == A[i'];
      assert j != n ==> B[j] == A[j'];
    }
  }

  lemma RegisterValid(s: Sched, sm: ModuleId, start: ModuleId, entry: nat)
    requires Valid(s)
    ensures Register(s, sm, start, entry).None? <==> s.free == 0
    ensures s.free > 0 ==>
      var s' := Register(s, sm, start, entry).value;
      && Valid(s') && s'.counter == s.counter + 1 && s'.cur == s.cur && s'.running == s.running
      && s'.ready == s.ready + [Thread(s.counter, sm, start, entry, Registered)]
  {
    if s.free > 0 {
      var s' := Register(s, sm, start, entry).value;
      var A, B, n := Threads(s), Threads(s'), |s.ready|;
      Inserted(A, n, Thread(s.counter, sm, start, entry, Registered));
      assert B == A[..n] + [Thread(s.counter, sm, start, entry, Registered)] + A[n..];
    }
  }

  lemma StartValid(s: Sched)
    requires Valid(s) && !s.running && s.ready != []
    ensures Active(Start(s))
  {
    DispatchedValid(s.(running := true));
  }

  lemma YieldValid(s: Sched, sm: ModuleId, start: ModuleId)
    requires Active(s)
    ensures Active(Yield(s, sm, start))
  {
    var t := Thread(s.cur.value.id, sm, start, RETURN_ENTRY, Ready);
    SetAside(s, t);
    DispatchedValid(s.(ready := s.ready + [t]));
  }

  lemma PostponeValid(s: Sched)
    requires Active(s)
    ensures Active(Postpone(s))
  {
    var t := s.cur.value.(state := Busy);
    SetAside(s, t);
    DispatchedValid(s.(ready := s.ready + [t]));
  }

  lemma RetireValid(s: Sched, sm: ModuleId, state: ThreadState)
    requires Active(s) && state in {Finished, Killed}
    ensures Valid(Retire(s, sm, state)) && Retire(s, sm, state).running
    ensures Retire(s, sm, state).cur.Some? <==> s.ready != []
  {
    var t := s.cur.value.(sm := sm, state := state);
    SetAside(s, t);
    DispatchedValid(s.(done := [t] + s.done));
  }

  // ----------------------------------------------------------------- bounded waiting

  /** What can happen while the scheduler is running. All but a registration are
      decisions about who runs next. */
  datatype Event =
    | Yielded(sm: ModuleId, start: ModuleId)
    | Postponed
    | Retired(sm: ModuleId, state: ThreadState)
    | Registration(sm: ModuleId, start: ModuleId, entry: nat)

  ghost predicate Possible(s: Sched, e: Event) {
    && Active(s)
    && (e.Registration? ==> s.free > 0)
    && (e.Retired? ==> e.state in {Finished, Killed})
  }

  ghost function After(s: Sched, e: Event): Sched
    requires Possible(s, e)
  {
    match e
    case Yielded(sm, start) => Yield(s, sm, start)
    case Postponed => Postpone(s)
    case Retired(sm, state) => Retire(s, sm, state)
    case Registration(sm, start, entry) => Register(s, sm, start, entry).value
  }

  /** A run of events, each possible where it happens. */
  ghost predicate PossibleRun(s: Sched, es: seq<Event>)
    decreases |es|
  {
    es == [] || (Possible(s, es[0]) && PossibleRun(After(s, es[0]), es[1..]))
  }

  ghost function AfterRun(s: Sched, es: seq<Event>): Sched
    requires PossibleRun(s, es)
    decreases |es|
  {
    if es == [] then s else AfterRun(After(s, es[0]), es[1..])
  }

  function Decisions(es: seq<Event>): nat {
    if es == [] then 0 else (if es[0].Registration? then 0 else 1) + Decisions(es[1..])
  }

  lemma AfterValid(s: Sched, e: Event)
    requires Possible(s, e)
    ensures Valid(After(s, e)) && After(s, e).running
    ensures After(s, e).cur.Some? <==> !e.Retired? || s.ready != []
  {
    match e
    case Yielded(sm, start) => YieldValid(s, sm, start);
    case Postponed => PostponeValid(s);
    case Retired(sm, state) => RetireValid(s, sm, state);
    case Registration(sm, start, entry) => RegisterValid(s, sm, start, entry);
  }

  lemma RunValid(s: Sched, es: seq<Event>)
    requires Valid(s) && PossibleRun(s, es)
    ensures Valid(AfterRun(s, es))
    decreases |es|
  {
    if es != [] {
      AfterValid(s, es[0]);
      RunValid(After(s, es[0]), es[1..]);
    }
  }

  /** One event moves a waiting thread one place forward, or lets it run if it was first,
      or leaves it where it is. */
  lemma Forward(s: Sched, e: Event, k: nat)
    requires Possible(s, e) && k < |s.ready|
    ensures e.Registration? ==>
      k < |After(s, e).ready| && After(s, e).ready[k] == s.ready[k] && After(s, e).cur == s.cur
    ensures !e.Registration? && k > 0 ==> k - 1 < |After(s, e).ready| && After(s, e).ready[k - 1] == s.ready[k]
    ensures !e.Registration? && k == 0 ==> After(s, e).cur == Some(s.ready[0].(state := Running))
  {
  }

  /** Round robin: the thread at place `k` of the queue runs after exactly `k + 1`
      decisions, whatever they are, with the module and the entry it has now; after fewer
      it is still waiting and somebody else runs. */
  lemma {:induction false} BoundedWait(s: Sched, es: seq<Event>, k: nat)
    requires Valid(s) && PossibleRun(s, es) && k < |s.ready|
    ensures var s', n := AfterRun(s, es), Decisions(es);
      && (n <= k ==> k - n < |s'.ready| && s'.ready[k - n] == s.ready[k] && CurrentId(s') != s.ready[k].id)
      && (n == k + 1 && !es[|es| - 1].Registration? ==> s'.cur == Some(s.ready[k].(state := Running)))
    decreases |es|
  {
    var t := s.ready[k];
    if es == [] {
      assert Threads(s)[k] == t;
      assert s.cur.Some? ==> Threads(s)[|s.ready|] == s.cur.value;
    } else {
      Forward(s, es[0], k);
      AfterValid(s, es[0]);
      var s1 := After(s, es[0]);
      if es[0].Registration? {
        BoundedWait(s1, es[1..], k);
      } else if k > 0 {
        BoundedWait(s1, es[1..], k - 1);
      } else if Decisions(es) == 1 && !es[|es| - 1].Registration? {
        if |es| > 1 {
          NoDecisions(es[1..]);
        }
      }
    }
  }

  lemma {:induction false} NoDecisions(es: seq<Event>)
    requires es != [] && Decisions(es) == 0
    ensures es[|es| - 1].Registration?
  {
    if |es| > 1 {
      NoDecisions(es[1..]);
    }
  }

  /** A thread that yields or is sent back waits behind everybody in the queue, and then
      runs again: where it yielded, or where it had to be started. */
  lemma RunsAgain(s: Sched, e: Event, es: seq<Event>)
    requires Active(s) && (e.Yielded? || e.Postponed?) && s.ready != []
    requires PossibleRun(After(s, e), es) && es != [] && !es[|es| - 1].Registration? && Decisions(es) == |s.ready|
    ensures var t, t' := s.cur.value, AfterRun(After(s, e), es).cur;
      && t'.Some? && t'.value.id == t.id
      && (e.Yielded? ==> t'.value.start == e.start && t'.value.entry == RETURN_ENTRY)
      && (e.Postponed? ==> t'.value.start == t.start && t'.value.entry == t.entry)
  {
    AfterValid(s, e);
    BoundedWait(After(s, e), es, |s.ready| - 1);
  }

  /** The order in which `start_scheduling` marks the scheduler as running: started
      without a thread it runs nobody, and refuses to start again. */
  lemma StartWithNobody(s: Sched)
    requires Valid(s) && !s.running
    ensures Active(Start(s)) <==> s.ready != []
    ensures s.ready == [] ==> Start(s).running && Start(s).cur.None?
  {
    if s.ready != [] {
      StartValid(s);
    }
  }
}
