/** The secure threading protocol: modules with entry and exit stubs, the scheduler, and
    everybody else, as one transition system. An entry stub is one step, the question
    for the current thread inside it included. */
module Protocols {
  import opened Scheduling

  /** The identity of all unprotected code. */
  const UNPROTECTED: ModuleId := 0
  const SCHEDULER: ModuleId := 1

  // The scheduler's logical entries.
  const REGISTER: nat := 2
  const START: nat := 3
  const YIELD: nat := 4
  const REPORT: nat := 5
  const SCHEDULER_ENTRIES: nat := 7

  /** What a jump to an entry stub carries in its registers: a logical entry with a return
      address, given by the module that owns it, and the arguments; or the mark of a
      return with the magic value for "busy" or "success". */
  datatype Message =
    | Call(entry: nat, ret: ModuleId, args: Arguments)
    | Return(busy: bool)

  /** The arguments of register_thread_portal and report_entry_violation. */
  datatype Arguments = Arguments(sm: ModuleId, start: ModuleId, entry: nat)

  const NO_ARGUMENTS := Arguments(0, 0, 0)

  /** An exit frame: the saved callee with the entry it was called at, where the
      activation that made the call returns to, and the thread that ran it (which no
      stub stores). A retry frame waits for the scheduler before the call is repeated. */
  datatype Frame =
    | Exit(callee: ModuleId, entry: nat, ret: ModuleId, thread: nat)
    | Retry(thread: nat)

  function Callee(f: Frame): ModuleId {
    if f.Retry? then SCHEDULER else f.callee
  }

  /** A protected module: its private stack, its saved thread id, its entry count. */
  datatype Module = Module(stack: seq<Frame>, thr: nat, entries: nat)

  function Top(m: Module): Frame
    requires m.stack != []
  {
    m.stack[|m.stack| - 1]
  }

  function Popped(m: Module): Module
    requires m.stack != []
  {
    m.(stack := m.stack[..|m.stack| - 1])
  }

  function Pushed(m: Module, f: Frame): Module {
    m.(stack := m.stack + [f])
  }

  /** How an entry stub reacts. */
  datatype Reaction =
    | Runs(ret: ModuleId)
    | Resumes(ret: ModuleId)
    | Repeats(callee: ModuleId, entry: nat)
    | WaitsItsTurn
    | SendsBusy
    | Violation

  /** __sm_entry of a module, reached by a jump from module `from` while thread `cur`
      runs. */
  function Enter(m: Module, from: ModuleId, msg: Message, cur: nat): (Module, Reaction) {
    match msg
    case Return(busy) =>
      if m.stack == [] || Callee(Top(m)) != from then (m, Violation)
      else if from != SCHEDULER && cur != m.thr then (m, Violation)
      else if busy then (Pushed(m, Retry(cur)), WaitsItsTurn)
      else if Top(m).Exit? then (Popped(m), Resumes(Top(m).ret))
      else if |m.stack| > 1 && m.stack[|m.stack| - 2].Exit?
      then (Popped(m), Repeats(m.stack[|m.stack| - 2].callee, m.stack[|m.stack| - 2].entry))
      else (m, Violation)
    case Call(entry, ret, args) =>
      if entry >= m.entries || ret != from then (m, Violation)
      else if m.stack == [] then (m.(thr := cur), Runs(from))
      else if cur == m.thr then (m, Runs(from))
      else (m, SendsBusy)
  }

  /** Who has the processor. */
  datatype Control =
    | Inside(m: ModuleId, ret: ModuleId)
    | Outside(m: ModuleId)
    | Jump(from: ModuleId, to: ModuleId, msg: Message)
    | Halted

  /** `modules` are the protected modules that use the stubs; `starter` is who called
      start_scheduling. */
  datatype World = World(sched: Sched, starter: ModuleId, modules: map<ModuleId, Module>, pc: Control)

  function Current(w: World): nat {
    CurrentId(w.sched)
  }

  // ------------------------------------------------------------------- the scheduler

  /** The stub's jump to the thread that runs next, or back to where scheduling was
      started. */
  function Onward(w: World, s: Sched): World {
    if s.cur.None? then
      w.(sched := s.(running := false), pc := Jump(SCHEDULER, w.starter, Return(false)))
    else
      var t := s.cur.value;
      w.(sched := s,
         pc := Jump(SCHEDULER, t.start,
                    if t.entry == RETURN_ENTRY then Return(false) else Call(t.entry, SCHEDULER, NO_ARGUMENTS)))
  }

  /** Without a current thread these helpers stop the machine, or crash. */
  function Killing(w: World, violator: ModuleId): World {
    if !w.sched.running || w.sched.cur.None? then w.(pc := Halted)
    else Onward(w, Retire(w.sched, violator, Killed))
  }

  /** __sm_entry of the scheduler. */
  function EnterScheduler(w: World, from: ModuleId, msg: Message): World {
    var s := w.sched;
    match msg
    case Return(busy) =>
      if from == UNPROTECTED then
        if !s.running then w.(pc := Halted)
        else w.(sched := s.(running := false), pc := Jump(SCHEDULER, w.starter, Return(false)))
      else if !s.running || s.cur.None? then w.(pc := Halted)
      else if busy then Onward(w, Postpone(s))
      else Onward(w, Retire(s, from, Finished))
    case Call(entry, ret, args) =>
      if ret != from || entry >= SCHEDULER_ENTRIES then Killing(w, from)
      else if entry == YIELD then
        if !s.running then w.(pc := Jump(SCHEDULER, ret, Return(false)))
        else if s.cur.None? then w.(pc := Halted)
        else Onward(w, Yield(s, from, ret))
      else if entry == REPORT then Killing(w, args.sm)
      else if entry == REGISTER then
        match Register(s, args.sm, args.start, args.entry)
        case None => w.(pc := Halted)
        case Some(s') => w.(sched := s', pc := Jump(SCHEDULER, ret, Return(false)))
      else if entry == START && !s.running then
        if s.ready == [] then w.(sched := Start(s), pc := Jump(SCHEDULER, ret, Return(false)))
        else Onward(w.(starter := ret), Start(s))
      else w.(pc := Jump(SCHEDULER, ret, Return(false)))
  }

  // ----------------------------------------------------------------------- the steps

  /** A module calls out or returns; somebody without stubs jumps anywhere with
      anything; a jump arrives. */
  datatype Action =
    | CallOut(to: ModuleId, entry: nat, args: Arguments)
    | Back
    | Leap(to: ModuleId, msg: Message)
    | Arrive

  predicate Enabled(w: World, a: Action) {
    match a
    case CallOut(to, entry, args) => w.pc.Inside? && w.pc.m in w.modules && to != w.pc.m
    case Back => w.pc.Inside?
    case Leap(to, msg) => w.pc.Outside?
    case Arrive => w.pc.Jump?
  }

  /** Arriving at a module with stubs. */
  function EnterModule(w: World, from: ModuleId, x: ModuleId, msg: Message): World
    requires x in w.modules
  {
    var r := Enter(w.modules[x], from, msg, Current(w));
    w.(modules := w.modules[x := r.0],
       pc := match r.1
         case Runs(ret) => Inside(x, ret)
         case Resumes(ret) => Inside(x, ret)
         case Repeats(callee, entry) => Jump(x, callee, Call(entry, x, NO_ARGUMENTS))
         case WaitsItsTurn => Jump(x, SCHEDULER, Call(YIELD, x, NO_ARGUMENTS))
         case SendsBusy => Jump(x, from, Return(true))
         case Violation => Jump(x, SCHEDULER, Call(REPORT, x, Arguments(from, 0, 0))))
  }

  function Step(w: World, a: Action): World
    requires Enabled(w, a)
  {
    match a
    case CallOut(to, entry, args) =>
      var x := w.pc.m;
      w.(modules := w.modules[x := Pushed(w.modules[x], Exit(to, entry, w.pc.ret, Current(w)))],
         pc := Jump(x, to, Call(entry, x, args)))
    case Back => w.(pc := Jump(w.pc.m, w.pc.ret, Return(false)))
    case Leap(to, msg) => w.(pc := Jump(w.pc.m, to, msg))
    case Arrive =>
      if w.pc.to == SCHEDULER then EnterScheduler(w, w.pc.from, w.pc.msg)
      else if w.pc.to in w.modules then EnterModule(w, w.pc.from, w.pc.to, w.pc.msg)
      else w.(pc := Outside(w.pc.to))
  }

  // ---------------------------------------------------------------------- invariants

  /** All open frames of a module belong to the thread it saved, and a retry frame lies
      on the frame it will repeat. */
  ghost predicate FramesOk(m: Module, counter: nat) {
    && m.thr < counter
    && (forall i :: 0 <= i < |m.stack| ==> m.stack[i].thread == m.thr)
    && (forall i :: 0 <= i < |m.stack| && m.stack[i].Retry? ==> i > 0 && m.stack[i - 1].Exit?)
  }

  /** The module waits for the scheduler to resume it in thread `id`. */
  ghost predicate AwaitsScheduler(m: Module, id: nat) {
    m.stack != [] && Callee(Top(m)) == SCHEDULER && m.thr == id
  }

  ghost predicate Monothreaded(w: World) {
    forall x :: x in w.modules ==> FramesOk(w.modules[x], w.sched.counter)
  }

  /** The module in which a thread was suspended still waits for it. */
  ghost predicate SuspendedOk(w: World) {
    forall i ::
      0 <= i < |w.sched.ready| && w.sched.ready[i].entry == RETURN_ENTRY && w.sched.ready[i].start in w.modules ==>
        AwaitsScheduler(w.modules[w.sched.ready[i].start], w.sched.ready[i].id)
  }

  ghost predicate StarterOk(w: World) {
    w.sched.running && w.starter in w.modules ==> AwaitsScheduler(w.modules[w.starter], 0)
  }

  ghost predicate ControlOk(w: World) {
    match w.pc
    case Inside(x, ret) => x in w.modules && w.modules[x].thr == Current(w)
    case Outside(z) => z !in w.modules && z != SCHEDULER
    case Jump(from, to, msg) =>
      && (from == SCHEDULER && to in w.modules && msg.Return? ==>
            !msg.busy && AwaitsScheduler(w.modules[to], Current(w)))
      && (from in w.modules && msg.Call? && !(to == SCHEDULER && msg.entry == REPORT) ==>
            && msg.ret == from && w.modules[from].stack != [] && Callee(Top(w.modules[from])) == to
            && w.modules[from].thr == Current(w))
    case Halted => true
  }

  ghost predicate Inv(w: World) {
    && Valid(w.sched) && (w.sched.running ==> w.sched.cur.Some?)
    && UNPROTECTED !in w.modules && SCHEDULER !in w.modules
    && Monothreaded(w) && SuspendedOk(w) && StarterOk(w) && ControlOk(w)
  }

  /** The steps the protocol is meant for. No thread is registered with the mark of a
      return for an entry; scheduling is started with a thread to schedule; unprotected
      code does not return to the scheduler; and a thread that runs on after a yield is
      not reported busy. */
  ghost predicate Proper(w: World, a: Action) {
    a.Arrive? && w.pc.Jump? && w.pc.to == SCHEDULER ==>
      match w.pc.msg
      case Return(busy) =>
        && w.pc.from != UNPROTECTED
        && (busy && w.sched.cur.Some? ==> w.sched.cur.value.entry != RETURN_ENTRY)
      case Call(entry, ret, args) =>
        ret == w.pc.from ==>
          && (entry == REGISTER ==> args.entry != RETURN_ENTRY)
          && (entry == START && !w.sched.running ==> w.sched.ready != [])
  }

  ghost predicate Started(w: World) {
    && w.sched == Fresh() && w.pc == Outside(UNPROTECTED)
    && UNPROTECTED !in w.modules && SCHEDULER !in w.modules
    && forall x :: x in w.modules ==> w.modules[x].stack == [] && w.modules[x].thr == 0
  }

  lemma StartedInv(w: World)
    requires Started(w)
    ensures Inv(w)
  {
  }

  /** Handing the processor to the first thread of the queue `q.ready`, or back to the
      starter. */
  lemma OnwardKeeps(w: World, q: Sched)
    requires Valid(q.(cur := None)) && q.running && q.counter == w.sched.counter
    requires UNPROTECTED !in w.modules && SCHEDULER !in w.modules && Monothreaded(w)
    requires SuspendedOk(w.(sched := q)) && StarterOk(w.(sched := q))
    ensures Inv(Onward(w, Dispatched(q)))
  {
    DispatchedValid(q);
    var w' := Onward(w, Dispatched(q));
    forall i | 0 <= i < |w'.sched.ready| && w'.sched.ready[i].entry == RETURN_ENTRY
      && w'.sched.ready[i].start in w'.modules
      ensures AwaitsScheduler(w'.modules[w'.sched.ready[i].start], w'.sched.ready[i].id)
    {
      assert w'.sched.ready[i] == q.ready[i + 1];
    }
  }

  lemma KillingKeeps(w: World, violator: ModuleId)
    requires Inv(w)
    ensures Inv(Killing(w, violator))
  {
    if w.sched.running {
      RetireKeeps(w, violator, Killed);
    }
  }

  lemma RetireKeeps(w: World, sm: ModuleId, state: ThreadState)
    requires Inv(w) && w.sched.running && state in {Finished, Killed}
    ensures Inv(Onward(w, Retire(w.sched, sm, state)))
  {
    var s := w.sched;
    var t := s.cur.value.(sm := sm, state := state);
    SetAside(s, t);
    OnwardKeeps(w, s.(done := [t] + s.done));
  }

  lemma PostponeKeeps(w: World)
    requires Inv(w) && w.sched.running && w.sched.cur.value.entry != RETURN_ENTRY
    ensures Inv(Onward(w, Postpone(w.sched)))
  {
    var s := w.sched;
    var t := s.cur.value.(state := Busy);
    SetAside(s, t);
    OnwardKeeps(w, s.(ready := s.ready + [t]));
  }

  lemma YieldKeeps(w: World, from: ModuleId)
    requires Inv(w) && w.sched.running
    requires from in w.modules ==> AwaitsScheduler(w.modules[from], Current(w))
    ensures Inv(Onward(w, Yield(w.sched, from, from)))
  {
    var s := w.sched;
    var t := Thread(s.cur.value.id, from, from, RETURN_ENTRY, Ready);
    SetAside(s, t);
    OnwardKeeps(w, s.(ready := s.ready + [t]));
  }

  lemma StartKeeps(w: World, from: ModuleId)
    requires Inv(w) && !w.sched.running && w.sched.ready != []
    requires from in w.modules ==> AwaitsScheduler(w.modules[from], Current(w))
    ensures Inv(Onward(w.(starter := from), Start(w.sched)))
  {
    OnwardKeeps(w.(starter := from), w.sched.(running := true));
  }

  lemma RegisterKeeps(w: World, from: ModuleId, a: Arguments)
    requires Inv(w) && a.entry != RETURN_ENTRY && w.sched.free > 0
    requires from in w.modules ==> AwaitsScheduler(w.modules[from], Current(w))
    ensures Inv(w.(sched := Register(w.sched, a.sm, a.start, a.entry).value,
      pc := Jump(SCHEDULER, from, Return(false))))
  {
    RegisterValid(w.sched, a.sm, a.start, a.entry);
  }

  lemma SchedulerKeeps(w: World)
    requires Inv(w) && w.pc.Jump? && w.pc.to == SCHEDULER && Proper(w, Arrive)
    ensures Inv(EnterScheduler(w, w.pc.from, w.pc.msg))
  {
    var from, s := w.pc.from, w.sched;
    match w.pc.msg
    case Return(busy) =>
      if s.running {
        if busy {
          PostponeKeeps(w);
        } else {
          RetireKeeps(w, from, Finished);
        }
      }
    case Call(entry, ret, args) =>
      if ret != from || entry >= SCHEDULER_ENTRIES {
        KillingKeeps(w, from);
      } else if entry == YIELD {
        if s.running {
          YieldKeeps(w, from);
        }
      } else if entry == REPORT {
        KillingKeeps(w, args.sm);
      } else if entry == REGISTER {
        if s.free > 0 {
          RegisterKeeps(w, from, args);
        }
      } else if entry == START && !s.running {
        StartKeeps(w, from);
      }
  }

  /** A thread that waits in the queue, or for scheduling to end, is not the current one. */
  lemma NotCurrent(w: World, i: nat)
    requires Inv(w) && i < |w.sched.ready|
    ensures w.sched.ready[i].id != Current(w)
    ensures w.sched.running ==> Current(w) != 0
  {
    var T := Threads(w.sched);
    assert T[i] == w.sched.ready[i];
    if w.sched.cur.Some? {
      assert T[|w.sched.ready|] == w.sched.cur.value;
    }
  }

  lemma CurrentBelow(w: World)
    requires Inv(w)
    ensures Current(w) < w.sched.counter
    ensures w.sched.running ==> Current(w) != 0
  {
    if w.sched.cur.Some? {
      assert Threads(w.sched)[|w.sched.ready|] == w.sched.cur.value;
    }
  }

  lemma ModuleKeeps(w: World)
    requires Inv(w) && w.pc.Jump? && w.pc.to in w.modules
    ensures Inv(EnterModule(w, w.pc.from, w.pc.to, w.pc.msg))
  {
    var from, x, msg := w.pc.from, w.pc.to, w.pc.msg;
    var w' := EnterModule(w, from, x, msg);
    var m, m' := w.modules[x], w'.modules[x];
    CurrentBelow(w);
    EnterFrames(m, from, msg, Current(w), w.sched.counter);
    EnterWaiting(m, from, msg, Current(w));
    forall i | 0 <= i < |w.sched.ready| && w.sched.ready[i].entry == RETURN_ENTRY && w.sched.ready[i].start in w.modules
      ensures AwaitsScheduler(w'.modules[w.sched.ready[i].start], w.sched.ready[i].id)
    {
      NotCurrent(w, i);
    }
    EnterControl(m, from, msg, Current(w));
  }

  /** No stub mixes the threads of a module's frames. */
  lemma EnterFrames(m: Module, from: ModuleId, msg: Message, cur: nat, counter: nat)
    requires FramesOk(m, counter) && cur < counter
    requires from == SCHEDULER && msg.Return? ==> AwaitsScheduler(m, cur) && !msg.busy
    ensures FramesOk(Enter(m, from, msg, cur).0, counter)
  {
  }

  /** A module that waits for the scheduler in another thread is left alone. */
  lemma EnterWaiting(m: Module, from: ModuleId, msg: Message, cur: nat)
    requires from == SCHEDULER && msg.Return? ==> AwaitsScheduler(m, cur) && !msg.busy
    ensures forall id :: id != cur && AwaitsScheduler(m, id) ==> Enter(m, from, msg, cur).0 == m
  {
  }

  /** What the module does next, it does for the current thread. */
  lemma EnterControl(m: Module, from: ModuleId, msg: Message, cur: nat)
    requires from == SCHEDULER && msg.Return? ==> AwaitsScheduler(m, cur) && !msg.busy
    ensures var (m', r) := Enter(m, from, msg, cur);
      && (r.Runs? || r.Resumes? ==> m'.thr == cur)
      && (r.WaitsItsTurn? ==> AwaitsScheduler(m', cur))
      && (r.Repeats? ==> m'.stack != [] && Callee(Top(m')) == r.callee && m'.thr == cur)
  {
  }

  lemma CallOutKeeps(w: World, a: Action)
    requires Inv(w) && Enabled(w, a) && a.CallOut?
    ensures Inv(Step(w, a))
  {
    var x := w.pc.m;
    var w' := Step(w, a);
    CurrentBelow(w);
    forall i | 0 <= i < |w.sched.ready| && w.sched.ready[i].entry == RETURN_ENTRY && w.sched.ready[i].start in w.modules
      ensures AwaitsScheduler(w'.modules[w.sched.ready[i].start], w.sched.ready[i].id)
    {
      NotCurrent(w, i);
    }
  }

  /** What matters is how the scheduler is entered. */
  ghost predicate Safe(w: World, a: Action) {
    a.Arrive? && w.pc.Jump? && w.pc.to == SCHEDULER ==> Harmless(w)
  }

  /** A step keeps the invariant exactly when it is safe. */
  lemma StepKeeps(w: World, a: Action)
    requires Inv(w) && Enabled(w, a)
    ensures Inv(Step(w, a)) <==> Safe(w, a)
  {
    match a
    case CallOut(to, entry, args) => CallOutKeeps(w, a);
    case Back =>
    case Leap(to, msg) =>
    case Arrive =>
      if w.pc.to == SCHEDULER {
        SchedulerKeepsExactly(w);
      } else if w.pc.to in w.modules {
        ModuleKeeps(w);
      }
  }

  /** What callers can be asked for is enough. */
  lemma ProperIsSafe(w: World, a: Action)
    requires Inv(w) && Enabled(w, a) && Proper(w, a)
    ensures Safe(w, a)
  {
    if a.Arrive? && w.pc.to == SCHEDULER {
      SchedulerKeeps(w);
      SchedulerKeepsExactly(w);
    }
  }

  // ------------------------------------------------------------------------- runs

  ghost predicate Plays(w: World, run: seq<Action>)
    decreases |run|
  {
    run == [] || (Enabled(w, run[0]) && Plays(Step(w, run[0]), run[1..]))
  }

  ghost predicate PlaysSafely(w: World, run: seq<Action>)
    decreases |run|
  {
    run == [] || (Enabled(w, run[0]) && Safe(w, run[0]) && PlaysSafely(Step(w, run[0]), run[1..]))
  }

  /** Every step is one the protocol is meant for. */
  ghost predicate PlaysProperly(w: World, run: seq<Action>)
    decreases |run|
  {
    run == [] || (Enabled(w, run[0]) && Proper(w, run[0]) && PlaysProperly(Step(w, run[0]), run[1..]))
  }

  ghost function Played(w: World, run: seq<Action>): World
    requires Plays(w, run)
    decreases |run|
  {
    if run == [] then w else Played(Step(w, run[0]), run[1..])
  }

  /** The invariant holds before and after every step of the run. */
  ghost predicate HoldsAlong(w: World, run: seq<Action>)
    requires Plays(w, run)
    decreases |run|
  {
    Inv(w) && (run != [] ==> HoldsAlong(Step(w, run[0]), run[1..]))
  }

  lemma {:induction false} SafePlays(w: World, run: seq<Action>)
    requires PlaysSafely(w, run)
    ensures Plays(w, run)
    decreases |run|
  {
    if run != [] {
      SafePlays(Step(w, run[0]), run[1..]);
    }
  }

  lemma {:induction false} ProperRunIsSafe(w: World, run: seq<Action>)
    requires Inv(w) && PlaysProperly(w, run)
    ensures PlaysSafely(w, run)
    decreases |run|
  {
    hide Inv, Step, Proper, Safe;
    if run != [] {
      ProperIsSafe(w, run[0]);
      StepKeeps(w, run[0]);
      ProperRunIsSafe(Step(w, run[0]), run[1..]);
    }
  }

  /** Safety over whole runs: however the modules without stubs jump about, every open
      frame of a module belongs to the thread the module saved, and every suspended
      thread finds its module waiting for it, exactly as long as every step is safe. */
  lemma {:induction false} RunKeeps(w: World, run: seq<Action>)
    requires Inv(w) && Plays(w, run)
    ensures HoldsAlong(w, run) <==> PlaysSafely(w, run)
    ensures PlaysSafely(w, run) ==> Inv(Played(w, run))
    decreases |run|
  {
    hide Inv, Step, Safe;
    if run != [] {
      StepKeeps(w, run[0]);
      if Safe(w, run[0]) {
        RunKeeps(Step(w, run[0]), run[1..]);
      }
    }
  }

  // --------------------------------------------------------------------- monothreading

  /** A call from another thread is answered "busy", and the module does not change. */
  lemma BusyCall(w: World)
    requires Inv(w) && w.pc.Jump? && w.pc.to in w.modules && w.pc.msg.Call?
    requires w.pc.msg.ret == w.pc.from && w.pc.msg.entry < w.modules[w.pc.to].entries
    ensures var m := w.modules[w.pc.to];
      if m.stack != [] && m.thr != Current(w) then Step(w, Arrive) == w.(pc := Jump(w.pc.to, w.pc.from, Return(true)))
      else Step(w, Arrive).pc == Inside(w.pc.to, w.pc.from) && Step(w, Arrive).modules[w.pc.to].thr == Current(w)
  {
    assert w.modules[w.pc.to := w.modules[w.pc.to]] == w.modules;
  }

  /** Two suspended threads never wait in the same module, and neither is the current
      one. */
  lemma SuspendedApart(w: World, i: nat, j: nat)
    requires Inv(w) && i < j < |w.sched.ready|
    requires w.sched.ready[i].entry == RETURN_ENTRY == w.sched.ready[j].entry
    requires w.sched.ready[i].start in w.modules
    ensures w.sched.ready[i].start != w.sched.ready[j].start
    ensures w.modules[w.sched.ready[i].start].thr != Current(w)
  {
    NotCurrent(w, i);
    var T := Threads(w.sched);
    assert T[i] == w.sched.ready[i] && T[j] == w.sched.ready[j];
  }

  /** An entry stub that asks for the thread on every return. */
  function EnterAsking(m: Module, from: ModuleId, msg: Message, cur: nat): (Module, Reaction) {
    if msg.Return? && m.stack != [] && Callee(Top(m)) == from && cur != m.thr then (m, Violation)
    else Enter(m, from, msg, cur)
  }

  /** Not to ask on a return from the scheduler is sound. */
  lemma NotAskingIsSound(w: World)
    requires Inv(w) && w.pc.Jump? && w.pc.to in w.modules
    ensures var m := w.modules[w.pc.to];
      Enter(m, w.pc.from, w.pc.msg, Current(w)) == EnterAsking(m, w.pc.from, w.pc.msg, Current(w))
    ensures w.pc.from == SCHEDULER && w.pc.msg.Return? ==>
      !Enter(w.modules[w.pc.to], w.pc.from, w.pc.msg, Current(w)).1.Violation?
  {
    assert FramesOk(w.modules[w.pc.to], w.sched.counter);
  }

  // ------------------------------------------------------------------- return integrity

  /** The callee of the top frame of module `x` returns, in the thread the module saved
      unless it is the scheduler. */
  ghost predicate Returns(w: World, a: Action, x: ModuleId) {
    && a == Arrive && x in w.modules && w.modules[x].stack != []
    && w.pc == Jump(Callee(Top(w.modules[x])), x, Return(false))
    && (w.pc.from == SCHEDULER || Current(w) == w.modules[x].thr)
  }

  /** Whatever the others do, a module's stack only changes at its top: a frame is added
      by a call out or a busy answer, and the top frame goes only when its own callee
      returns, which then resumes exactly that frame. */
  lemma FrameGoes(w: World, a: Action, x: ModuleId)
    requires Enabled(w, a) && x in w.modules && SCHEDULER !in w.modules
    ensures x in Step(w, a).modules
    ensures var S, S' := w.modules[x].stack, Step(w, a).modules[x].stack;
      || S' == S
      || (exists f :: S' == S + [f])
      || (&& S != [] && S' == S[..|S| - 1]
          && Returns(w, a, x)
          && (S[|S| - 1].Exit? ==> Step(w, a).pc == Inside(x, S[|S| - 1].ret))
          && (S[|S| - 1].Retry? ==>
                |S| > 1 && S[|S| - 2].Exit? &&
                Step(w, a).pc == Jump(x, S[|S| - 2].callee, Call(S[|S| - 2].entry, x, NO_ARGUMENTS))))
  {
    var w' := Step(w, a);
    if a.Arrive? && w.pc.to == x {
      EnterGoes(w.modules[x], w.pc.from, w.pc.msg, Current(w));
    } else if a.CallOut? && w.pc.m == x {
      assert w'.modules[x].stack == w.modules[x].stack + [Exit(a.to, a.entry, w.pc.ret, Current(w))];
    }
  }

  lemma EnterGoes(m: Module, from: ModuleId, msg: Message, cur: nat)
    ensures var (m', r) := Enter(m, from, msg, cur); var S, S' := m.stack, m'.stack;
      || S' == S
      || S' == S + [Retry(cur)]
      || (&& S != [] && S' == S[..|S| - 1] && msg == Return(false) && from == Callee(S[|S| - 1])
          && (from == SCHEDULER || cur == m.thr)
          && (S[|S| - 1].Exit? ==> r == Resumes(S[|S| - 1].ret))
          && (S[|S| - 1].Retry? ==> |S| > 1 && S[|S| - 2].Exit? && r == Repeats(S[|S| - 2].callee, S[|S| - 2].entry)))
  {
  }

  /** During the run, the callee of frame `n - 1` of module `x` does not return to it. */
  ghost predicate NotReturned(w: World, run: seq<Action>, x: ModuleId, n: nat)
    requires Plays(w, run)
    decreases |run|
  {
    run != [] ==>
      && !(Returns(w, run[0], x) && |w.modules[x].stack| == n)
      && NotReturned(Step(w, run[0]), run[1..], x, n)
  }

  /** Calls and returns are well bracketed: as long as the callee of a frame has not
      returned, the frame and everything below it stay untouched, whatever happens
      elsewhere. */
  lemma {:induction false} FramesStay(w: World, run: seq<Action>, x: ModuleId, n: nat)
    requires SCHEDULER !in w.modules && Plays(w, run)
    requires x in w.modules && n <= |w.modules[x].stack| && NotReturned(w, run, x, n)
    ensures var w' := Played(w, run);
      x in w'.modules && n <= |w'.modules[x].stack| && w'.modules[x].stack[..n] == w.modules[x].stack[..n]
    decreases |run|
  {
    hide Step, Returns;
    if run != [] {
      FrameGoes(w, run[0], x);
      SchedulerStays(w, run[0]);
      var w1 := Step(w, run[0]);
      assert w1.modules[x].stack[..n] == w.modules[x].stack[..n];
      FramesStay(w1, run[1..], x, n);
    }
  }

  lemma SchedulerStays(w: World, a: Action)
    requires Enabled(w, a)
    ensures Step(w, a).modules.Keys == w.modules.Keys
  {
  }

  // ------------------------------------------------------------------------ dead threads

  predicate IsDone(s: Sched, id: nat) {
    exists i :: 0 <= i < |s.done| && s.done[i].id == id
  }

  lemma DoneIsNotCurrent(w: World, id: nat)
    requires Inv(w) && IsDone(w.sched, id)
    ensures id != Current(w) && id != 0
  {
    var i :| 0 <= i < |w.sched.done| && w.sched.done[i].id == id;
    var T := Threads(w.sched);
    var n := |w.sched.ready| + |CurrentThreads(w.sched)|;
    assert T[n + i] == w.sched.done[i];
    if w.sched.cur.Some? {
      assert T[|w.sched.ready|] == w.sched.cur.value;
    }
  }

  /** Once done, a thread stays done: its id is never handed out again. */
  lemma DoneStays(w: World, a: Action, id: nat)
    requires Inv(w) && Enabled(w, a) && IsDone(w.sched, id)
    ensures IsDone(Step(w, a).sched, id)
  {
    var i :| 0 <= i < |w.sched.done| && w.sched.done[i].id == id;
    var s, s' := w.sched, Step(w, a).sched;
    if s'.done == s.done {
      assert s'.done[i].id == id;
    } else {
      assert s'.done[1..] == s.done;
      assert s'.done[i + 1].id == id;
    }
  }

  /** The frames a finished or killed thread leaves behind are never resumed. */
  lemma {:induction false} DeadFramesStay(w: World, run: seq<Action>, x: ModuleId)
    requires Inv(w) && PlaysSafely(w, run)
    requires x in w.modules && w.modules[x].stack != [] && IsDone(w.sched, w.modules[x].thr)
    ensures Plays(w, run) && x in Played(w, run).modules && Played(w, run).modules[x] == w.modules[x]
    decreases |run|
  {
    hide Step, Inv, IsDone, Safe;
    SafePlays(w, run);
    if run != [] {
      var m, w1 := w.modules[x], Step(w, run[0]);
      DoneIsNotCurrent(w, m.thr);
      DoneStays(w, run[0], m.thr);
      StepKeeps(w, run[0]);
      DeadFrameStays(w, run[0], x);
      DeadFramesStay(w1, run[1..], x);
    }
  }

  /** Nothing happens in a module that a thread other than the current one left. */
  lemma DeadFrameStays(w: World, a: Action, x: ModuleId)
    requires Inv(w) && Enabled(w, a) && x in w.modules && w.modules[x].stack != []
    requires IsDone(w.sched, w.modules[x].thr) && w.modules[x].thr != Current(w) && w.modules[x].thr != 0
    ensures x in Step(w, a).modules && Step(w, a).modules[x] == w.modules[x]
  {
    hide IsDone, Monothreaded, SuspendedOk, Valid, Yield, Postpone, Retire, Register, Start;
  }

  // ------------------------------------------------------- what the hypotheses are for

  /** Would the scheduler resume a module that does not wait for it in this thread? */
  ghost predicate Misdirected(w: World, t: Thread) {
    t.entry == RETURN_ENTRY && t.start in w.modules && !AwaitsScheduler(w.modules[t.start], t.id)
  }

  /** The arrivals at the scheduler that do no harm. */
  ghost predicate Harmless(w: World)
    requires w.pc.Jump?
  {
    match w.pc.msg
    case Return(busy) =>
      && (w.pc.from == UNPROTECTED ==> !w.sched.running)
      && (w.pc.from != UNPROTECTED && busy && w.sched.cur.Some? ==> !Misdirected(w, w.sched.cur.value))
    case Call(entry, ret, args) =>
      ret == w.pc.from ==>
        && (entry == REGISTER && w.sched.free > 0 ==>
              !Misdirected(w, Thread(w.sched.counter, args.sm, args.start, args.entry, Registered)))
        && (entry == START && !w.sched.running ==> w.sched.ready != [])
  }

  /** The protocol survives an arrival at the scheduler exactly when it is harmless. */
  lemma SchedulerKeepsExactly(w: World)
    requires Inv(w) && w.pc.Jump? && w.pc.to == SCHEDULER
    ensures Inv(Step(w, Arrive)) <==> Harmless(w)
  {
    var from, s, w' := w.pc.from, w.sched, Step(w, Arrive);
    match w.pc.msg
    case Return(busy) =>
      if from == UNPROTECTED {
      } else if s.running && busy {
        BusyExactly(w);
      } else {
        SchedulerKeeps(w);
      }
    case Call(entry, ret, args) =>
      if ret == from && entry == REGISTER && s.free > 0 {
        RegisterExactly(w, args);
      } else if ret == from && entry == START && !s.running && s.ready == [] {
        StartWithNobody(s);
      } else if ret == from && entry == REGISTER {
      } else {
        SchedulerKeeps(w);
      }
  }

  lemma BusyExactly(w: World)
    requires Inv(w) && w.sched.running
    ensures Inv(Onward(w, Postpone(w.sched))) <==> !Misdirected(w, w.sched.cur.value)
  {
    var s := w.sched;
    var t := s.cur.value.(state := Busy);
    var q := s.(ready := s.ready + [t]);
    var w' := Onward(w, Dispatched(q));
    if Misdirected(w, s.cur.value) {
      if s.ready == [] {
        assert w'.pc == Jump(SCHEDULER, t.start, Return(false)) && Current(w') == t.id;
        assert !ControlOk(w');
      } else {
        assert w'.sched.ready[|s.ready| - 1] == t;
      }
    } else {
      SetAside(s, t);
      OnwardKeeps(w, q);
    }
  }

  lemma RegisterExactly(w: World, a: Arguments)
    requires Inv(w) && w.pc.Jump? && w.pc.to == SCHEDULER && w.pc.msg == Call(REGISTER, w.pc.from, a)
    requires w.sched.free > 0
    ensures Inv(Step(w, Arrive)) <==> !Misdirected(w, Thread(w.sched.counter, a.sm, a.start, a.entry, Registered))
  {
    var t := Thread(w.sched.counter, a.sm, a.start, a.entry, Registered);
    RegisterValid(w.sched, a.sm, a.start, a.entry);
    var w' := Step(w, Arrive);
    assert w'.sched.ready == w.sched.ready + [t];
    assert w'.sched.ready[|w.sched.ready|] == t;
  }

  /** A proper run from `w` to `w'`. */
  ghost predicate Leads(w: World, run: seq<Action>, w': World) {
    PlaysProperly(w, run) && Plays(w, run) && Played(w, run) == w'
  }

  lemma LeadsNowhere(w: World)
    ensures Leads(w, [], w)
  {
  }

  lemma LeadsFirst(w: World, a: Action, w1: World, run: seq<Action>, w': World)
    requires Enabled(w, a) && Proper(w, a) && Step(w, a) == w1 && Leads(w1, run, w')
    ensures Leads(w, [a] + run, w')
  {
    assert ([a] + run)[1..] == run;
  }

  lemma LeadsTwo(w: World, a: Action, w1: World, b: Action, w2: World)
    requires Enabled(w, a) && Proper(w, a) && Step(w, a) == w1
    requires Enabled(w1, b) && Proper(w1, b) && Step(w1, b) == w2
    ensures Leads(w, [a, b], w2)
  {
    hide Step, Proper, Leads;
    LeadsNowhere(w2);
    LeadsFirst(w1, b, w2, [], w2);
    assert [b] + [] == [b];
    LeadsFirst(w, a, w1, [b], w2);
    assert [a] + [b] == [a, b];
  }

  lemma {:induction false} LeadsOn(w: World, run: seq<Action>, w1: World, more: seq<Action>, w2: World)
    requires Leads(w, run, w1) && Leads(w1, more, w2)
    ensures Leads(w, run + more, w2)
    decreases |run|
  {
    if run == [] {
      assert run + more == more;
    } else {
      LeadsOn(Step(w, run[0]), run[1..], w1, more, w2);
      LeadsFirst(w, run[0], Step(w, run[0]), run[1..] + more, w2);
      assert [run[0]] + (run[1..] + more) == run + more;
    }
  }

  /** Module 2 has stubs, module 3 has none. Nothing has run yet. */
  const AT_FIRST := World(Fresh(), UNPROTECTED, map[2 := Module([], 0, 1)], Outside(UNPROTECTED))

  /** Module 3 is registered as the portal of thread 1. */
  const REGISTERED :=
    World(Sched([Thread(1, 3, 3, 0, Registered)], None, [], 2, false, MAX_THREADS - 1),
          UNPROTECTED, map[2 := Module([], 0, 1)], Outside(UNPROTECTED))

  /** Thread 1 runs in module 3. */
  const STARTED :=
    World(Sched([], Some(Thread(1, 3, 3, 0, Running)), [], 2, true, MAX_THREADS - 1),
          UNPROTECTED, map[2 := Module([], 0, 1)], Outside(3))

  /** It has called module 2, which has yielded and, with nobody else to run, gone on. */
  const WENT_ON :=
    World(Sched([], Some(Thread(1, 2, 2, RETURN_ENTRY, Running)), [], 2, true, MAX_THREADS - 1),
          UNPROTECTED, map[2 := Module([], 1, 1)], Inside(2, 3))

  /** Back in module 3, it has registered module 2 as the portal of thread 2. */
  const TWO_THREADS :=
    World(Sched([Thread(2, 2, 2, 0, Registered)], Some(Thread(1, 2, 2, RETURN_ENTRY, Running)), [], 3, true,
      MAX_THREADS - 2),
          UNPROTECTED, map[2 := Module([], 1, 1)], Outside(3))

  function Registering(who: ModuleId, sm: ModuleId): seq<Action> {
    [Leap(SCHEDULER, Call(REGISTER, who, Arguments(sm, sm, 0))), Arrive, Arrive]
  }

  const STARTING: seq<Action> := [Leap(SCHEDULER, Call(START, UNPROTECTED, NO_ARGUMENTS)), Arrive, Arrive]

  const YIELDING: seq<Action> :=
    [Leap(2, Call(0, 3, NO_ARGUMENTS)), Arrive, CallOut(SCHEDULER, YIELD, NO_ARGUMENTS), Arrive, Arrive]

  lemma LeadsThree(w: World, a: Action, w1: World, b: Action, w2: World, c: Action, w3: World)
    requires Enabled(w, a) && Proper(w, a) && Step(w, a) == w1
    requires Enabled(w1, b) && Proper(w1, b) && Step(w1, b) == w2
    requires Enabled(w2, c) && Proper(w2, c) && Step(w2, c) == w3
    ensures Leads(w, [a, b, c], w3)
  {
    hide Step, Proper, Leads;
    LeadsTwo(w1, b, w2, c, w3);
    LeadsFirst(w, a, w1, [b, c], w3);
    assert [a] + [b, c] == [a, b, c];
  }

  /** Somebody without stubs registers a portal. */
  lemma RegistersIt(w: World, who: ModuleId, sm: ModuleId)
    requires w.pc == Outside(who) && who !in w.modules && who != SCHEDULER && SCHEDULER !in w.modules
    requires w.sched.free > 0
    ensures Leads(w, Registering(who, sm), w.(sched := Register(w.sched, sm, sm, 0).value))
  {
    hide Leads;
    var call := Call(REGISTER, who, Arguments(sm, sm, 0));
    var w1 := w.(pc := Jump(who, SCHEDULER, call));
    var w2 := w.(sched := Register(w.sched, sm, sm, 0).value, pc := Jump(SCHEDULER, who, Return(false)));
    LeadsThree(w, Leap(SCHEDULER, call), w1, Arrive, w2, Arrive, w.(sched := w2.sched));
  }

  lemma StartsIt()
    ensures Leads(REGISTERED, STARTING, STARTED)
  {
    hide Leads;
    var call := Call(START, UNPROTECTED, NO_ARGUMENTS);
    var w1 := REGISTERED.(pc := Jump(UNPROTECTED, SCHEDULER, call));
    var w2 := STARTED.(pc := Jump(SCHEDULER, 3, Call(0, SCHEDULER, NO_ARGUMENTS)));
    assert Start(REGISTERED.sched) == STARTED.sched;
    LeadsThree(REGISTERED, Leap(SCHEDULER, call), w1, Arrive, w2, Arrive, STARTED);
  }

  lemma YieldsAndGoesOn()
    ensures Leads(STARTED, YIELDING, WENT_ON)
  {
    hide Leads;
    var enter := Call(0, 3, NO_ARGUMENTS);
    var w1 := STARTED.(pc := Jump(3, 2, enter));
    var w2 := STARTED.(modules := map[2 := Module([], 1, 1)], pc := Inside(2, 3));
    assert Step(w1, Arrive) == w2;
    LeadsTwo(STARTED, Leap(2, enter), w1, Arrive, w2);
    var waiting := map[2 := Module([Exit(SCHEDULER, YIELD, 3, 1)], 1, 1)];
    var w3 := w2.(modules := waiting, pc := Jump(2, SCHEDULER, Call(YIELD, 2, NO_ARGUMENTS)));
    var w4 := WENT_ON.(modules := waiting, pc := Jump(SCHEDULER, 2, Return(false)));
    assert Pushed(w2.modules[2], Exit(SCHEDULER, YIELD, 3, 1)) == waiting[2];
    assert w2.modules[2 := waiting[2]] == waiting;
    assert Step(w2, CallOut(SCHEDULER, YIELD, NO_ARGUMENTS)) == w3;
    assert Yield(w3.sched, 2, 2) == w4.sched;
    assert Step(w4, Arrive) == WENT_ON;
    LeadsThree(w2, CallOut(SCHEDULER, YIELD, NO_ARGUMENTS), w3, Arrive, w4, Arrive, WENT_ON);
    LeadsOn(STARTED, [Leap(2, enter), Arrive], w2, [CallOut(SCHEDULER, YIELD, NO_ARGUMENTS), Arrive, Arrive], WENT_ON);
    assert [Leap(2, enter), Arrive] + [CallOut(SCHEDULER, YIELD, NO_ARGUMENTS), Arrive, Arrive] == YIELDING;
  }

  /** From the very start and by proper steps only: thread 1 yields in module 2, goes on,
      comes back, and thread 2 is registered. */
  const TO_TWO_THREADS: seq<Action> :=
    Registering(UNPROTECTED, 3) + STARTING + YIELDING + [Back, Arrive] + Registering(3, 2)

  lemma ReachesTwoThreads()
    ensures Started(AT_FIRST) && Leads(AT_FIRST, TO_TWO_THREADS, TWO_THREADS)
  {
    hide Leads, Step;
    RegistersIt(AT_FIRST, UNPROTECTED, 3);
    assert REGISTERED == AT_FIRST.(sched := Register(AT_FIRST.sched, 3, 3, 0).value);
    StartsIt();
    YieldsAndGoesOn();
    ComesBack();
    var w := WENT_ON.(pc := Outside(3));
    RegistersIt(w, 3, 2);
    assert TWO_THREADS == w.(sched := Register(w.sched, 2, 2, 0).value);
    LeadsOn(AT_FIRST, Registering(UNPROTECTED, 3), REGISTERED, STARTING, STARTED);
    LeadsOn(AT_FIRST, Registering(UNPROTECTED, 3) + STARTING, STARTED, YIELDING, WENT_ON);
    LeadsOn(AT_FIRST, Registering(UNPROTECTED, 3) + STARTING + YIELDING, WENT_ON, [Back, Arrive], w);
    LeadsOn(AT_FIRST, Registering(UNPROTECTED, 3) + STARTING + YIELDING + [Back, Arrive], w, Registering(3, 2),
      TWO_THREADS);
  }

  lemma ComesBack()
    ensures Leads(WENT_ON, [Back, Arrive], WENT_ON.(pc := Outside(3)))
  {
    LeadsTwo(WENT_ON, Back, WENT_ON.(pc := Jump(2, 3, Return(false))), Arrive, WENT_ON.(pc := Outside(3)));
  }

  const MIXING: seq<Action> :=
    [Leap(SCHEDULER, Return(true)), Arrive, Arrive, CallOut(SCHEDULER, SCHEDULER_ENTRIES, NO_ARGUMENTS), Arrive, Arrive]

  /** Why a thread that runs on after a yield must not be reported busy. The system gets
      to two threads properly. Then module 3 reports thread 1 busy; thread 2 enters
      module 2, calls the scheduler at no entry of its and is killed; and thread 1 is
      resumed in the frame that thread 2 left. Only the report is improper. */
  lemma SpuriousBusyMixesThreads()
    ensures Started(AT_FIRST) && Leads(AT_FIRST, TO_TWO_THREADS, TWO_THREADS) && Inv(TWO_THREADS)
    ensures Plays(TWO_THREADS, MIXING)
    ensures var w := Played(TWO_THREADS, MIXING);
      w.pc == Inside(2, SCHEDULER) && Current(w) == 1 && 2 in w.modules && w.modules[2].thr == 2
  {
    ReachesTwoThreads();
    StartedInv(AT_FIRST);
    ProperRunIsSafe(AT_FIRST, TO_TWO_THREADS);
    RunKeeps(AT_FIRST, TO_TWO_THREADS);
    Mixes();
  }

  lemma Mixes()
    ensures Plays(TWO_THREADS, MIXING)
    ensures var w := Played(TWO_THREADS, MIXING);
      w.pc == Inside(2, SCHEDULER) && Current(w) == 1 && 2 in w.modules && w.modules[2].thr == 2
  {
    var w0 := TWO_THREADS;
    var w1 := Step(w0, Leap(SCHEDULER, Return(true)));
    var w2 := Step(w1, Arrive);
    assert w2.pc == Jump(SCHEDULER, 2, Call(0, SCHEDULER, NO_ARGUMENTS)) && Current(w2) == 2;
    var w3 := Step(w2, Arrive);
    assert w3.pc == Inside(2, SCHEDULER) && w3.modules[2] == Module([], 2, 1);
    var w4 := Step(w3, CallOut(SCHEDULER, SCHEDULER_ENTRIES, NO_ARGUMENTS));
    assert w4.modules[2].stack == [Exit(SCHEDULER, SCHEDULER_ENTRIES, SCHEDULER, 2)];
    var w5 := Step(w4, Arrive);
    assert w5.pc == Jump(SCHEDULER, 2, Return(false)) && Current(w5) == 1;
    var w6 := Step(w5, Arrive);
    assert w6.pc == Inside(2, SCHEDULER);
    PlayedSix(w0, Leap(SCHEDULER, Return(true)), Arrive, Arrive, CallOut(SCHEDULER, SCHEDULER_ENTRIES, NO_ARGUMENTS),
      Arrive, Arrive);
  }

  lemma PlayedSix(w: World, a: Action, b: Action, c: Action, d: Action, e: Action, f: Action)
    requires Enabled(w, a) && Enabled(Step(w, a), b)
    requires var w2 := Step(Step(w, a), b); Enabled(w2, c) && Enabled(Step(w2, c), d)
    requires var w4 := Step(Step(Step(Step(w, a), b), c), d); Enabled(w4, e) && Enabled(Step(w4, e), f)
    ensures Plays(w, [a, b, c, d, e, f])
    ensures Played(w, [a, b, c, d, e, f]) == Step(Step(Step(Step(Step(Step(w, a), b), c), d), e), f)
  {
    hide Step, Enabled;
    var w2 := Step(Step(w, a), b);
    var w4 := Step(Step(w2, c), d);
    PlayedTwo(w4, e, f, []);
    assert [e, f] + [] == [e, f];
    PlayedTwo(w2, c, d, [e, f]);
    assert [c, d] + [e, f] == [c, d, e, f];
    PlayedTwo(w, a, b, [c, d, e, f]);
    assert [a, b] + [c, d, e, f] == [a, b, c, d, e, f];
  }

  lemma PlayedTwo(w: World, a: Action, b: Action, run: seq<Action>)
    requires Enabled(w, a) && Enabled(Step(w, a), b) && Plays(Step(Step(w, a), b), run)
    ensures Plays(w, [a, b] + run) && Played(w, [a, b] + run) == Played(Step(Step(w, a), b), run)
  {
    hide Step, Enabled;
    var r := [a, b] + run;
    assert r[1..] == [b] + run && r[1..][1..] == run;
    assert Plays(Step(w, a), r[1..]);
  }
}
