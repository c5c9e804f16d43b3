/** The entry and exit stubs as code that changes a private stack, and the scheduler's
    stub on top of its control blocks. */
module Stubs {
  import opened Scheduling
  import opened Schedulers
  import opened Protocols

  /** A module with its stubs. `stack` is what lies between __sm_stack_init and __sm_sp,
      frame by frame, and `thr` is __sm_thr. */
  class ProtectedModule {
    const entries: nat
    var stack: seq<Frame>
    var thr: nat

    constructor (entries: nat)
      ensures Abs() == Module([], 0, entries)
    {
      this.entries, stack, thr := entries, [], 0;
    }

    ghost function Abs(): Module
      reads this
    {
      Module(stack, thr, entries)
    }

    /** __sm_entry. `cur` is the answer of __get_cur_thr_id. */
    method SmEntry(from: ModuleId, msg: Message, cur: nat) returns (reaction: Reaction)
      modifies this
      ensures (Abs(), reaction) == Enter(old(Abs()), from, msg, cur)
    {
      match msg
      case Return(busy) =>
        if stack == [] {
          return Violation;
        }
        // The callee id is taken off to be compared, and put back at once: until the
        // thread check has passed, the frame stays open.
        var callee := Callee(stack[|stack| - 1]);
        if callee != from {
          return Violation;
        }
        if from != SCHEDULER && cur != thr {
          return Violation;
        }
        reaction := RetEntry(busy, cur);
      case Call(entry, ret, args) =>
        if entry >= entries {
          return Violation;
        }
        if ret != from {
          return Violation;
        }
        if stack == [] {
          thr := cur;
        } else if cur != thr {
          return SendsBusy;
        }
        reaction := Runs(from);
    }

    /** __ret_entry, do_yield and __sm_retry_exit_call. */
    method RetEntry(busy: bool, cur: nat) returns (reaction: Reaction)
      requires stack != []
      modifies this`stack
      ensures (Abs(), reaction) == Enter(old(Abs()), SCHEDULER, Return(busy), cur)
           || Callee(old(stack)[|old(stack)| - 1]) != SCHEDULER
      ensures Callee(old(stack)[|old(stack)| - 1]) != SCHEDULER ==>
        if busy then Abs() == Pushed(old(Abs()), Retry(cur)) && reaction == WaitsItsTurn
        else Abs() == Popped(old(Abs())) && reaction == Resumes(old(stack)[|old(stack)| - 1].ret)
    {
      if busy {
        stack := stack + [Retry(cur)];
        return WaitsItsTurn;
      }
      var f := stack[|stack| - 1];
      if f.Exit? {
        stack := stack[..|stack| - 1];
        return Resumes(f.ret);
      }
      if |stack| > 1 && stack[|stack| - 2].Exit? {
        stack := stack[..|stack| - 1];
        var g := stack[|stack| - 1];
        return Repeats(g.callee, g.entry);
      }
      reaction := Violation;
    }

    /** __sm_exit: saves what the return will be checked against. */
    method SmExit(to: ModuleId, entry: nat, ret: ModuleId, cur: nat)
      modifies this`stack
      ensures Abs() == Pushed(old(Abs()), Exit(to, entry, ret, cur))
    {
      stack := stack + [Exit(to, entry, ret, cur)];
    }
  }

  /** The scheduler with its stub. */
  class SchedulerModule {
    const sched: Scheduler
    var starter: ModuleId

    constructor ()
      ensures sched.Valid() && sched.Abs() == Fresh() && fresh(sched) && fresh(sched.pool) && starter == UNPROTECTED
    {
      sched := new Scheduler();
      starter := UNPROTECTED;
    }

    /** __sched_br_next and __sched_final_ret. */
    method Continue(next: Next) returns (pc: Control)
      requires sched.Valid() && (next.NoneLeft? ==> sched.initDone && sched.running && sched.cur == null)
      modifies sched`running
      ensures sched.Valid()
      ensures sched.Abs() == if next.NoneLeft? then old(sched.Abs()).(running := false) else old(sched.Abs())
      ensures match next
        case Run(start, entry) =>
          pc == Jump(SCHEDULER, start,
                     if entry == RETURN_ENTRY then Return(false) else Call(entry, SCHEDULER, NO_ARGUMENTS))
        case NoneLeft => pc == Jump(SCHEDULER, starter, Return(false))
        case Stop => pc == Halted
    {
      match next
      case Run(start, entry) =>
        pc := Jump(SCHEDULER, start,
                   if entry == RETURN_ENTRY then Return(false) else Call(entry, SCHEDULER, NO_ARGUMENTS));
      case NoneLeft =>
        sched.EndScheduling();
        pc := Jump(SCHEDULER, starter, Return(false));
      case Stop =>
        pc := Halted;
    }

    /** kill_get_next behind either of its callers. */
    method Kill(violator: ModuleId, ghost w: World) returns (pc: Control)
      requires sched.Valid() && sched.Started() && w.sched == sched.Abs() && w.starter == starter
      modifies sched, sched.pool
      ensures sched.Valid()
      ensures sched.Abs() == Killing(w, violator).sched && pc == Killing(w, violator).pc
      ensures starter == Killing(w, violator).starter && w.modules == Killing(w, violator).modules
    {
      hide Scheduler.Valid;
      var next := sched.DoneGetNext(violator, Killed);
      pc := Continue(next);
    }

    /** __sched_ret_entry: a module returned, busy or for good. */
    method Returned(from: ModuleId, busy: bool, ghost w: World) returns (pc: Control)
      requires sched.Valid() && sched.Started() && w.sched == sched.Abs() && w.starter == starter && from != UNPROTECTED
      modifies sched, sched.pool
      ensures sched.Valid()
      ensures var w' := EnterScheduler(w, from, Return(busy));
        sched.Abs() == w'.sched && starter == w'.starter && pc == w'.pc && w.modules == w'.modules
    {
      hide Scheduler.Valid;
      var next;
      if busy {
        next := sched.BusyGetNext(from);
      } else {
        next := sched.DoneGetNext(from, Finished);
      }
      pc := Continue(next);
    }

    /** __sm_entry of the scheduler. */
    method SmEntry(from: ModuleId, msg: Message, ghost w: World) returns (pc: Control)
      requires sched.Valid() && sched.Started() && w.sched == sched.Abs() && w.starter == starter
      requires msg.Return? ==> from != UNPROTECTED
      modifies this, sched, sched.pool
      ensures sched.Valid()
      ensures var w' := EnterScheduler(w, from, msg);
        sched.Abs() == w'.sched && starter == w'.starter && pc == w'.pc && w.modules == w'.modules
    {
      hide Scheduler.Valid, Killing;
      if msg.Return? {
        pc := Returned(from, msg.busy, w);
        return;
      }
      var entry, ret, args := msg.entry, msg.ret, msg.args;
      if ret != from || entry >= SCHEDULER_ENTRIES {
        pc := Kill(from, w);
      } else if entry == YIELD {
        var next := sched.YieldGetNext(from, ret);
        pc := Continue(next);
      } else if entry == REPORT {
        pc := Kill(args.sm, w);
      } else if entry == REGISTER {
        var ok := sched.RegisterThreadPortal(args.sm, args.start, args.entry);
        pc := if ok then Jump(SCHEDULER, ret, Return(false)) else Halted;
      } else if entry == START {
        var next := sched.StartScheduling();
        if next.Run? {
          starter := ret;
          pc := Continue(next);
        } else {
          pc := Jump(SCHEDULER, ret, Return(false));
        }
      } else {
        pc := Jump(SCHEDULER, ret, Return(false));
      }
    }
  }
}
