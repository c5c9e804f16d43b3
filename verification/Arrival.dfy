/** What every jump to a stub leads to, one step at a time and over whole runs. */
module Arrivals {
  import opened Scheduling
  import opened Protocols

  // -------------------------------------------------------------- arriving at a module

  /** The call names an entry the module has, and a return address of its caller. */
  predicate Legal(m: Module, from: ModuleId, msg: Message)
    requires msg.Call?
  {
    msg.entry < m.entries && msg.ret == from
  }

  /** The module reports `from` to the scheduler. */
  function Reporting(x: ModuleId, from: ModuleId): Control {
    Jump(x, SCHEDULER, Call(REPORT, x, Arguments(from, 0, 0)))
  }

  /** A call runs the module exactly if it is legal and the module is idle or in the same
      thread. A legal call from another thread is answered busy, an illegal one reported,
      and then nothing changes. */
  lemma CallArrives(w: World)
    requires w.pc.Jump? && w.pc.to != SCHEDULER && w.pc.to in w.modules && w.pc.msg.Call?
    ensures var x, m, w' := w.pc.to, w.modules[w.pc.to], Step(w, Arrive);
      if !Legal(m, w.pc.from, w.pc.msg) then w' == w.(pc := Reporting(x, w.pc.from))
      else if m.stack != [] && m.thr != Current(w) then w' == w.(pc := Jump(x, w.pc.from, Return(true)))
      else w' == w.(modules := w.modules[x := m.(thr := Current(w))], pc := Inside(x, w.pc.from))
  {
    assert w.modules[w.pc.to := w.modules[w.pc.to]] == w.modules;
  }

  /** Somebody returns who was called last, in the thread of the call, which is not asked
      of the scheduler. */
  predicate Expected(m: Module, from: ModuleId, cur: nat) {
    m.stack != [] && Callee(Top(m)) == from && (from == SCHEDULER || cur == m.thr)
  }

  /** A return is accepted exactly if it is expected. A busy one is put aside until the
      scheduler gives the thread its next turn; another one takes the top frame off, and
      resumes that activation, or repeats the call that was put aside. An unexpected
      return is reported, and nothing changes. */
  lemma ReturnArrives(w: World)
    requires w.pc.Jump? && w.pc.to != SCHEDULER && w.pc.to in w.modules && w.pc.msg.Return?
    requires FramesOk(w.modules[w.pc.to], w.sched.counter)
    ensures var x, m, w' := w.pc.to, w.modules[w.pc.to], Step(w, Arrive);
      if !Expected(m, w.pc.from, Current(w)) then w' == w.(pc := Reporting(x, w.pc.from))
      else if w.pc.msg.busy then
        && w'.modules == w.modules[x := m.(stack := m.stack + [Retry(Current(w))])]
        && w'.pc == Jump(x, SCHEDULER, Call(YIELD, x, NO_ARGUMENTS)) && w'.sched == w.sched
      else
        && w'.modules == w.modules[x := m.(stack := m.stack[..|m.stack| - 1])] && w'.sched == w.sched
        && if Top(m).Exit? then w'.pc == Inside(x, Top(m).ret)
           else
             && |m.stack| > 1 && m.stack[|m.stack| - 2].Exit?
             && var f := m.stack[|m.stack| - 2]; w'.pc == Jump(x, f.callee, Call(f.entry, x, NO_ARGUMENTS))
  {
    assert w.modules[w.pc.to := w.modules[w.pc.to]] == w.modules;
  }

  /** A call out leaves a frame that says whom the module called, at which entry, where the
      caller goes on later and in which thread; leaving for good leaves none; and others
      jump where they like, with what they like. */
  lemma Leaves(w: World, a: Action)
    requires Enabled(w, a) && !a.Arrive?
    ensures var x, w' := w.pc.m, Step(w, a);
      match a
      case CallOut(to, entry, args) =>
        && w'.modules == w.modules[x := w.modules[x].(
             stack := w.modules[x].stack + [Exit(to, entry, w.pc.ret, Current(w))])]
        && w'.pc == Jump(x, to, Call(entry, x, args)) && w'.sched == w.sched && w'.starter == w.starter
      case Back => w' == w.(pc := Jump(x, w.pc.ret, Return(false)))
      case Leap(to, msg) => w' == w.(pc := Jump(x, to, msg))
      case Arrive => false
  {
  }

  /** Who has no stubs is simply reached. */
  lemma ReachesOutside(w: World)
    requires w.pc.Jump? && w.pc.to != SCHEDULER && w.pc.to !in w.modules
    ensures Step(w, Arrive) == w.(pc := Outside(w.pc.to))
  {
  }

  /** Step `n` of the run starts an activation of module `x`. */
  ghost predicate Activates(w: World, run: seq<Action>, n: nat, x: ModuleId)
    requires Plays(w, run) && n < |run| && Plays(w, run[..n])
  {
    var w1 := Played(w, run[..n]);
    && w1.pc.Jump? && w1.pc.to == x && w1.pc.msg.Call? && run[n].Arrive? && x in w1.modules
    && Step(w1, Arrive).pc.Inside?
  }

  lemma {:induction false} PlaysPrefix(w: World, run: seq<Action>, n: nat)
    requires Plays(w, run) && n <= |run|
    ensures Plays(w, run[..n])
    ensures n < |run| ==> Enabled(Played(w, run[..n]), run[n])
    decreases n
  {
    hide Step, Enabled;
    if n > 0 {
      PlaysPrefix(Step(w, run[0]), run[1..], n - 1);
      assert run[..n][1..] == run[1..][..n - 1] && run[..n][0] == run[0];
    }
  }

  lemma {:induction false} SameEntries(w: World, run: seq<Action>, x: ModuleId)
    requires Plays(w, run) && x in w.modules && SCHEDULER !in w.modules
    ensures x in Played(w, run).modules && SCHEDULER !in Played(w, run).modules
    ensures Played(w, run).modules[x].entries == w.modules[x].entries
    decreases |run|
  {
    if run != [] {
      assert SCHEDULER !in Step(w, run[0]).modules;
      SameEntries(Step(w, run[0]), run[1..], x);
    }
  }

  /** In every run, whatever jumps where: each activation of a module was started at an
      entry the module has, by whom it will return to, in the thread the module saved. */
  lemma LegalActivations(w: World, run: seq<Action>, n: nat, x: ModuleId)
    requires Plays(w, run) && n < |run| && Plays(w, run[..n]) && Activates(w, run, n, x)
    requires x in w.modules && SCHEDULER !in w.modules
    ensures var w1 := Played(w, run[..n]); var w2 := Step(w1, Arrive);
      && w1.pc.msg.entry < w.modules[x].entries && w1.pc.msg.ret == w1.pc.from
      && w2.pc == Inside(x, w1.pc.from) && x in w2.modules && w2.modules[x].thr == Current(w1)
  {
    hide Step, Plays, Played;
    var w1 := Played(w, run[..n]);
    SameEntries(w, run[..n], x);
    CallArrives(w1);
  }

  // ---------------------------------------------------------- arriving at the scheduler

  /** What a jump means to a running scheduler, if anything. */
  function Meaning(from: ModuleId, msg: Message): Option<Event> {
    match msg
    case Return(busy) => Some(if busy then Postponed else Retired(from, Finished))
    case Call(entry, ret, args) =>
      if ret != from || entry >= SCHEDULER_ENTRIES then Some(Retired(from, Killed))
      else if entry == YIELD then Some(Yielded(from, ret))
      else if entry == REPORT then Some(Retired(args.sm, Killed))
      else if entry == REGISTER then Some(Registration(args.sm, args.start, args.entry))
      else None
  }

  /** The jump by which the scheduler starts a thread or goes on with it. */
  function Into(t: Thread): Control {
    Jump(SCHEDULER, t.start, if t.entry == RETURN_ENTRY then Return(false) else Call(t.entry, SCHEDULER, NO_ARGUMENTS))
  }

  /** An arrival at a running scheduler is the event it stands for. A decision ends with a
      jump into the thread that was first in the queue; if nobody waits, into the one that
      was put aside, or, if there is none, back to where scheduling was started. The
      modules are left alone. */
  lemma ArrivalIsEvent(w: World)
    requires Active(w.sched) && w.pc.Jump? && w.pc.to == SCHEDULER
    requires w.pc.msg.Return? ==> w.pc.from != UNPROTECTED
    ensures var w', s := Step(w, Arrive), w.sched;
      && w'.modules == w.modules && w'.starter == w.starter
      && match Meaning(w.pc.from, w.pc.msg)
         case None => w' == w.(pc := Jump(SCHEDULER, w.pc.from, Return(false)))
         case Some(e) =>
           if e.Registration? then
             if s.free == 0 then w' == w.(pc := Halted)
             else Possible(s, e) && w'.sched == After(s, e) && w'.pc == Jump(SCHEDULER, w.pc.from, Return(false))
           else
             && Possible(s, e)
             && (s.ready != [] ==> w'.sched.cur == Some(s.ready[0].(state := Running)))
             && if s.ready != [] || !e.Retired?
                then w'.sched == After(s, e) && w'.sched.cur.Some? && w'.pc == Into(w'.sched.cur.value)
                else w'.sched == After(s, e).(running := false) && w'.pc == Jump(SCHEDULER, w.starter, Return(false))
  {
  }

  /** A thread that yields, or is sent back because its module was busy, is put behind all
      the others: to go on in the module that yielded, or to be started where it was to be
      started before. */
  lemma PutLast(w: World)
    requires Active(w.sched) && w.pc.Jump? && w.pc.to == SCHEDULER && w.sched.ready != []
    requires Meaning(w.pc.from, w.pc.msg).Some? && (w.pc.msg.Return? ==> w.pc.from != UNPROTECTED)
    ensures var e, t, q := Meaning(w.pc.from, w.pc.msg).value, w.sched.cur.value, Step(w, Arrive).sched.ready;
      && (e.Yielded? ==>
            q == w.sched.ready[1..] + [Thread(t.id, w.pc.from, w.pc.from, RETURN_ENTRY, Ready)])
      && (e.Postponed? ==> q == w.sched.ready[1..] + [t.(state := Busy)])
      && (e.Retired? ==>
            && q == w.sched.ready[1..]
            && Step(w, Arrive).sched.done == [t.(sm := e.sm, state := e.state)] + w.sched.done)
  {
    assert (w.sched.ready + [w.sched.cur.value])[1..] == w.sched.ready[1..] + [w.sched.cur.value];
  }

  /** A scheduler that is not running sends everybody back who calls it, starts at the
      first thread of the queue, and otherwise stops the machine. */
  lemma ArrivalWhenOff(w: World)
    requires Valid(w.sched) && !w.sched.running && w.pc.Jump? && w.pc.to == SCHEDULER
    ensures var w', s := Step(w, Arrive), w.sched;
      && w'.modules == w.modules
      && match w.pc.msg
         case Return(_) => w' == w.(pc := Halted)
         case Call(entry, ret, args) =>
           if ret != w.pc.from || entry >= SCHEDULER_ENTRIES || entry == REPORT then w' == w.(pc := Halted)
           else if entry == REGISTER then
             if s.free == 0 then w' == w.(pc := Halted)
             else
               && w'.sched == s.(ready := s.ready + [Thread(s.counter, args.sm, args.start, args.entry, Registered)],
                                 counter := s.counter + 1, free := s.free - 1)
               && w'.starter == w.starter && w'.pc == Jump(SCHEDULER, ret, Return(false))
           else if entry == START && s.ready != [] then
             && w'.sched == s.(ready := s.ready[1..], cur := Some(s.ready[0].(state := Running)), running := true)
             && w'.starter == ret && w'.pc == Into(s.ready[0])
           else
             && w'.starter == w.starter && w'.pc == Jump(SCHEDULER, ret, Return(false))
             && w'.sched == s.(running := entry == START, cur := if entry == START then None else s.cur)
  {
    RegisterValid(w.sched, 0, 0, 0);
  }

  /** Unprotected code that returns to a running scheduler ends the scheduling. */
  lemma UnprotectedReturns(w: World)
    requires w.pc.Jump? && w.pc.to == SCHEDULER && w.pc.msg.Return? && w.pc.from == UNPROTECTED && w.sched.running
    ensures Step(w, Arrive) ==
      w.(sched := w.sched.(running := false), pc := Jump(SCHEDULER, w.starter, Return(false)))
  {
  }

  /** A scheduler that was started with nobody to run stops the machine as soon as it would
      have to put somebody aside. */
  lemma ArrivalWithNobody(w: World)
    requires Valid(w.sched) && w.sched.running && w.sched.cur.None? && w.pc.Jump? && w.pc.to == SCHEDULER
    requires Meaning(w.pc.from, w.pc.msg).Some? && !Meaning(w.pc.from, w.pc.msg).value.Registration?
    requires w.pc.msg.Return? ==> w.pc.from != UNPROTECTED
    ensures Step(w, Arrive) == w.(pc := Halted)
  {
  }

  // ------------------------------------------------------------- bounded waiting, in runs

  /** The next step is a decision of the scheduler. */
  ghost predicate Decides(w: World, a: Action) {
    && a.Arrive? && w.pc.Jump? && w.pc.to == SCHEDULER
    && Meaning(w.pc.from, w.pc.msg).Some? && !Meaning(w.pc.from, w.pc.msg).value.Registration?
  }

  /** How many decisions there are in a run. */
  ghost function Turns(w: World, run: seq<Action>): nat
    requires Plays(w, run)
    decreases |run|
  {
    if run == [] then 0 else (if Decides(w, run[0]) then 1 else 0) + Turns(Step(w, run[0]), run[1..])
  }

  /** One step moves a waiting thread one place forward if it is a decision, and not at all
      if it is none. */
  lemma StepForward(w: World, a: Action, k: nat)
    requires Inv(w) && Enabled(w, a) && Safe(w, a) && w.sched.running && k < |w.sched.ready|
    ensures var s, s' := w.sched, Step(w, a).sched;
      && s'.running
      && (!Decides(w, a) ==> k < |s'.ready| && s'.ready[k] == s.ready[k] && s'.cur == s.cur)
      && (Decides(w, a) && k > 0 ==> k - 1 < |s'.ready| && s'.ready[k - 1] == s.ready[k])
      && (Decides(w, a) && k == 0 ==>
            s'.cur == Some(s.ready[0].(state := Running)) && Step(w, a).pc == Into(s.ready[0]))
  {
    hide Monothreaded, SuspendedOk, StarterOk, ControlOk, Valid;
    if a.Arrive? && w.pc.to == SCHEDULER {
      ArrivalIsEvent(w);
    }
  }

  /** Round robin over whole runs of the system: while a thread waits at place `k` of the
      queue, it stays in its place for as many decisions as there are threads before it,
      and somebody else runs; and the next decision jumps into it, where it is to be
      started or where it yielded. */
  lemma {:induction false} WaitsItsTurn(w: World, run: seq<Action>, k: nat)
    requires Inv(w) && PlaysSafely(w, run) && w.sched.running && k < |w.sched.ready|
    requires Plays(w, run) && Turns(w, run) <= k
    ensures var t, w', n := w.sched.ready[k], Played(w, run), Turns(w, run);
      && Inv(w') && w'.sched.running
      && k - n < |w'.sched.ready| && w'.sched.ready[k - n] == t && Current(w') != t.id
      && forall a :: n == k && Enabled(w', a) && Safe(w', a) && Decides(w', a) ==>
           Step(w', a).sched.cur == Some(t.(state := Running)) && Step(w', a).pc == Into(t)
    decreases |run|
  {
    hide Inv, Step, Safe, Decides, Enabled;
    if run == [] {
      NotCurrent(w, k);
      forall a | k == 0 && Enabled(w, a) && Safe(w, a) && Decides(w, a)
        ensures Step(w, a).sched.cur == Some(w.sched.ready[k].(state := Running))
        ensures Step(w, a).pc == Into(w.sched.ready[k])
      {
        StepForward(w, a, k);
      }
    } else {
      StepForward(w, run[0], k);
      StepKeeps(w, run[0]);
      WaitsItsTurn(Step(w, run[0]), run[1..], if Decides(w, run[0]) then k - 1 else k);
    }
  }
}
