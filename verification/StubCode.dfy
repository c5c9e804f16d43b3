/** The exit stub of a module, instruction by instruction, over the words of the private
    stack, and how these stand for the frames of the protocol. */
module StubCode {
  import opened Scheduling
  import opened Protocols

  /** What the linker and the registration of the scheduler have put into the module: its
      own entry, the addresses behind a yield and behind the question for the thread, the
      scheduler's address and id, and the numbers of its yield and current-thread
      entries. `owner` is sancus_get_id, and a stub that cannot reach the scheduler hangs
      at `exit`. */
  datatype Links = Links(
    smEntry: nat,
    retry: nat,
    asked: nat,
    exit: nat,
    sad: nat,
    sid: nat,
    yep: nat,
    gep: nat,
    owner: nat -> nat)

  /** The check before every jump to the scheduler. */
  predicate HasScheduler(l: Links) {
    l.sad != 0 && l.owner(l.sad) == l.sid
  }

  datatype Regs = Regs(
    r4: nat, r5: nat, r6: nat, r7: nat, r8: nat, r9: nat, r10: nat, r11: nat,
    r12: nat, r13: nat, r14: nat, r15: nat)

  datatype Stack = Bottom | Onto(top: nat, rest: Stack)

  /** The registers, the private stack, and where to go on. */
  datatype Cpu = Cpu(regs: Regs, stack: Stack, pc: nat)

  /** The words of an open call: four from whoever calls __sm_exit, eight from it. */
  datatype Words = Words(
    ret: nat, r6: nat, r7: nat, r8: nat,
    r4: nat, r5: nat, r9: nat, r10: nat, r11: nat,
    log: nat, phys: nat, callee: nat)

  /** What is on the stack when __sm_exit is called. */
  function Prepared(w: Words, base: Stack): Stack {
    Onto(w.r8, Onto(w.r7, Onto(w.r6, Onto(w.ret, base))))
  }

  function Open(w: Words, base: Stack): Stack {
    Onto(w.callee, Onto(w.phys, Onto(w.log,
      Onto(w.r11, Onto(w.r10, Onto(w.r9, Onto(w.r5, Onto(w.r4, Prepared(w, base)))))))))
  }

  // ---------------------------------------------------------------- what the code does

  /** What is left of the registers when a call leaves the module: nothing but the
      arguments that its mask names, one of them twice. */
  function Passed(l: Links, r: Regs): Regs {
    var a12 := if r.r7 % 2 == 0 then 0 else r.r12;
    var a13 := if r.r7 % 4 == 0 then 0 else r.r13;
    var a14 := if r.r7 % 8 == 0 then 0 else r.r14;
    var a15 := if r.r7 % 16 == 0 then 0 else r.r15;
    Regs(a15, 0, r.r6, l.smEntry, r.r8, 0, 0, 0, a12, a13, a14, a15)
  }

  /** The call that __sm_exit opens over what `w` holds of its caller. */
  function Opening(l: Links, w: Words, r: Regs): Words {
    Words(w.ret, w.r6, w.r7, w.r8, r.r4, r.r5, r.r9, r.r10, r.r11, r.r6, r.r8, l.owner(r.r8))
  }

  /** The registers of an open call, with the results of the callee. */
  function Restored(w: Words, r: Regs): Regs {
    Regs(w.r4, w.r5, w.r6, w.r7, w.r8, w.r9, w.r10, w.r11, r.r12, r.r13, r.r14, r.r15)
  }

  /** What a stub puts on the stack before it calls the scheduler to come back at `ret`. */
  function Caller(ret: nat, r: Regs): Words {
    Words(ret, r.r6, r.r7, r.r8, 0, 0, 0, 0, 0, 0, 0, 0)
  }

  /** The registers with which a stub calls entry `entry` of the scheduler. */
  function ToScheduler(l: Links, entry: nat, r: Regs): Regs {
    r.(r6 := entry, r7 := 0, r8 := l.sad, r15 := l.sid)
  }

  /** The state at the jump to entry `entry` of the scheduler. */
  function Calling(l: Links, ret: nat, entry: nat, r: Regs, stack: Stack): Cpu {
    var r' := ToScheduler(l, entry, r);
    Cpu(Passed(l, r'), Open(Opening(l, Caller(ret, r), r'), stack), l.sad)
  }

  // ---------------------------------------------------------------------------- the code

  class ModuleCode {
    const l: Links
    var regs: Regs
    var stack: Stack
    var pc: nat

    constructor (l: Links, c: Cpu)
      ensures this.l == l && State() == c
    {
      this.l, regs, stack, pc := l, c.regs, c.stack, c.pc;
    }

    ghost function State(): Cpu
      reads this
    {
      Cpu(regs, stack, pc)
    }

    method Push(x: nat)
      modifies this`stack
      ensures stack == Onto(x, old(stack))
    {
      stack := Onto(x, stack);
    }

    method Pop() returns (x: nat)
      requires stack.Onto?
      modifies this`stack
      ensures old(stack) == Onto(x, stack)
    {
      x := stack.top;
      stack := stack.rest;
    }

    /** rra r7; only the four lowest bits of the mask are ever looked at. */
    method ShiftMask() returns (carry: bool)
      modifies this`regs
      ensures regs == old(regs).(r7 := old(regs).r7 / 2) && carry == (old(regs).r7 % 2 == 1)
    {
      carry := regs.r7 % 2 == 1;
      regs := regs.(r7 := regs.r7 / 2);
    }

    /** The registers that the mask does not name are cleared. */
    method ClearUnused()
      modifies this`regs
      ensures var r := old(regs); var p := Passed(l, r);
        regs == r.(r7 := regs.r7, r12 := p.r12, r13 := p.r13, r14 := p.r14, r15 := p.r15)
    {
      Bits(regs.r7);
      var carry := ShiftMask();
      if !carry {
        regs := regs.(r12 := 0);
        carry := ShiftMask();
        if !carry {
          regs := regs.(r13 := 0);
          carry := ShiftMask();
          if !carry {
            regs := regs.(r14 := 0);
            carry := ShiftMask();
            if !carry {
              regs := regs.(r15 := 0);
            }
          }
        }
      }
    }

    /** __sm_exit */
    method SmExit(ghost w: Words, ghost base: Stack)
      requires stack == Prepared(w, base)
      modifies this
      ensures State() == Cpu(Passed(l, old(regs)), Open(Opening(l, w, old(regs)), base), old(regs).r8)
      ensures regs.r5 == regs.r9 == regs.r10 == regs.r11 == 0 && regs.r4 == regs.r15
      ensures regs.r12 == (if old(regs).r7 % 2 == 0 then 0 else old(regs).r12)
      ensures regs.r13 == (if old(regs).r7 % 4 == 0 then 0 else old(regs).r13)
      ensures regs.r14 == (if old(regs).r7 % 8 == 0 then 0 else old(regs).r14)
      ensures regs.r15 == (if old(regs).r7 % 16 == 0 then 0 else old(regs).r15)
    {
      Push(regs.r4);
      regs := regs.(r4 := 0);
      Push(regs.r5);
      regs := regs.(r5 := 0);
      Push(regs.r9);
      regs := regs.(r9 := 0);
      Push(regs.r10);
      regs := regs.(r10 := 0);
      Push(regs.r11);
      regs := regs.(r11 := 0);
      ClearUnused();
      Push(regs.r6);
      Push(regs.r8);
      regs := regs.(r4 := regs.r15);
      regs := regs.(r15 := regs.r8);
      regs := regs.(r15 := l.owner(regs.r15));
      Push(regs.r15);
      regs := regs.(r15 := regs.r4);
      regs := regs.(r7 := l.smEntry);
      pc := regs.r8;
    }

    /** The part of __ret_entry that goes on behind the call. */
    method GoOn(ghost w: Words, ghost base: Stack)
      requires stack == Open(w, base)
      modifies this
      ensures State() == Cpu(Restored(w, old(regs)), base, w.ret)
    {
      var x := Pop();
      x := Pop();
      x := Pop();
      x := Pop();
      regs := regs.(r11 := x);
      x := Pop();
      regs := regs.(r10 := x);
      x := Pop();
      regs := regs.(r9 := x);
      x := Pop();
      regs := regs.(r5 := x);
      x := Pop();
      regs := regs.(r4 := x);
      x := Pop();
      regs := regs.(r8 := x);
      x := Pop();
      regs := regs.(r7 := x);
      x := Pop();
      regs := regs.(r6 := x);
      pc := Pop();
    }

    /** A call of the scheduler's entry `entry` that comes back at `ret`: what do_yield and
        __get_cur_thr_id have in common. */
    method CallScheduler(ret: nat, entry: nat)
      modifies this
      ensures HasScheduler(l) ==> State() == Calling(l, ret, entry, old(regs), old(stack))
      ensures !HasScheduler(l) ==> pc == l.exit && stack == old(stack)
    {
      ghost var r, base := regs, stack;
      if l.sad == 0 {
        pc := l.exit;
        return;
      }
      regs := regs.(r15 := l.sad);
      regs := regs.(r15 := l.owner(regs.r15));
      if regs.r15 != l.sid {
        pc := l.exit;
        return;
      }
      Push(ret);
      Push(regs.r6);
      Push(regs.r7);
      Push(regs.r8);
      regs := regs.(r6 := entry, r7 := 0, r8 := l.sad);
      SmExit(Caller(ret, r), base);
    }

    /** __ret_entry and do_yield */
    method RetEntry(ghost w: Words, ghost base: Stack)
      requires stack == Open(w, base)
      modifies this
      ensures old(regs).r8 == 0 ==> State() == Cpu(Restored(w, old(regs)), base, w.ret)
      ensures old(regs).r8 != 0 && HasScheduler(l) ==> State() == Calling(l, l.retry, l.yep, old(regs), old(stack))
      ensures old(regs).r8 != 0 && !HasScheduler(l) ==> pc == l.exit && stack == old(stack)
    {
      if regs.r8 != 0 {
        CallScheduler(l.retry, l.yep);
      } else {
        GoOn(w, base);
      }
    }

    /** __sm_retry_exit_call */
    method RetryExitCall(ghost w: Words, ghost base: Stack)
      requires stack == Open(w, base)
      modifies this
      ensures State() == Cpu(old(regs).(r4 := w.callee, r6 := w.log, r7 := l.smEntry, r8 := w.phys), old(stack), w.phys)
    {
      var x := Pop();
      regs := regs.(r4 := x);
      x := Pop();
      regs := regs.(r8 := x);
      x := Pop();
      regs := regs.(r6 := x);
      Push(regs.r6);
      Push(regs.r8);
      Push(regs.r4);
      regs := regs.(r7 := l.smEntry);
      pc := regs.r8;
    }

    // ------------------------------------------------------------------ whole exchanges

    /** A call that is served: whatever the registers hold when it comes back, the caller
        finds its own registers and its stack again, and the results. */
    method CallAndReturn(back: Regs, ghost w: Words, ghost base: Stack)
      requires stack == Prepared(w, base) && back.r8 == 0
      modifies this
      ensures stack == base && pc == w.ret
      ensures regs.r4 == old(regs).r4 && regs.r5 == old(regs).r5
      ensures regs.r9 == old(regs).r9 && regs.r10 == old(regs).r10 && regs.r11 == old(regs).r11
      ensures regs.r6 == w.r6 && regs.r7 == w.r7 && regs.r8 == w.r8
      ensures regs.r12 == back.r12 && regs.r13 == back.r13 && regs.r14 == back.r14 && regs.r15 == back.r15
    {
      ghost var r := regs;
      SmExit(w, base);
      regs := back;
      RetEntry(Opening(l, w, r), base);
    }

    /** A call that finds a busy callee: when its turn comes, it is made again, at the same
        address, with the same entry, from the same stack. The argument registers are
        what the scheduler left in them: the arguments went with the first try. */
    method CallAndRetry(busy: Regs, resumed: Regs, ghost w: Words, ghost base: Stack)
        returns (ghost first: Cpu, ghost waiting: Cpu)
      requires stack == Prepared(w, base) && HasScheduler(l) && busy.r8 != 0 && resumed.r8 == 0
      modifies this
      ensures first == Cpu(Passed(l, old(regs)), Open(Opening(l, w, old(regs)), base), old(regs).r8)
      ensures pc == first.pc && stack == first.stack
      ensures regs.r6 == first.regs.r6 && regs.r7 == first.regs.r7 == l.smEntry && regs.r8 == first.regs.r8
      ensures waiting.pc == l.sad && waiting.regs.r6 == l.yep
      ensures waiting.regs.r12 == waiting.regs.r13 == waiting.regs.r14 == waiting.regs.r15 == 0
      ensures regs.r12 == resumed.r12 && regs.r13 == resumed.r13 && regs.r14 == resumed.r14 && regs.r15 == resumed.r15
    {
      ghost var open := Opening(l, w, regs);
      SmExit(w, base);
      first := State();
      regs := busy;
      RetEntry(open, base);
      waiting := State();
      regs := resumed;
      RetEntry(Opening(l, Caller(l.retry, busy), ToScheduler(l, l.yep, busy)), first.stack);
      RetryExitCall(open, base);
    }

    /** The question for the current thread, inside __sm_entry. Everything is as before but
        three argument registers: with a scheduler, r12 to r14 come from its answer. */
    method AskThread(answer: Regs) returns (id: nat, ghost door: Cpu)
      requires answer.r8 == 0 && (l.sad != 0 ==> HasScheduler(l))
      modifies this
      ensures stack == old(stack)
      ensures l.sad == 0 ==> id == 0 && regs == old(regs)
      ensures l.sad != 0 ==>
        && id == answer.r15 && door.pc == l.sad && door.regs.r6 == l.gep
        && door.regs.r12 == door.regs.r13 == door.regs.r14 == door.regs.r15 == 0
        && regs == old(regs).(r12 := answer.r12, r13 := answer.r13, r14 := answer.r14)
    {
      ghost var base, r := stack, regs;
      Push(regs.r15);
      if l.sad == 0 {
        regs := regs.(r15 := 0);
        door := State();
      } else {
        CallScheduler(l.asked, l.gep);
        door := State();
        regs := answer;
        RetEntry(Opening(l, Caller(l.asked, r), ToScheduler(l, l.gep, r)), Onto(r.r15, base));
      }
      id := regs.r15;
      var x := Pop();
      regs := regs.(r15 := x);
    }

    /** What a return runs, up to where it leaves the stubs. */
    method Return(ghost ws: seq<Words>)
      requires Sane(l, ws) && ws != [] && stack == Laid(ws)
      requires regs.r8 != 0 ==> ws[|ws| - 1].ret != l.retry
      modifies this
      ensures var o := Returned(l, ws, old(regs)); State() == Cpu(o.regs, Laid(o.calls), o.pc)
    {
      ghost var n := |ws| - 1;
      ghost var r := regs;
      var busy := regs.r8 != 0;
      RetEntry(ws[n], Laid(ws[..n]));
      if busy {
        ghost var y := Opening(l, Caller(l.retry, r), ToScheduler(l, l.yep, r));
        LaidOn(ws, y);
      } else if pc == l.retry {
        assert ws[..n][..n - 1] == ws[..n - 1];
        RetryExitCall(ws[n - 1], Laid(ws[..n - 1]));
      }
    }
  }

  // ------------------------------------------------------------- the frames of the protocol

  /** The stack of the calls `ws`, the last one on top. */
  ghost function Laid(ws: seq<Words>): Stack {
    if ws == [] then Bottom else Open(ws[|ws| - 1], Laid(ws[..|ws| - 1]))
  }

  lemma LaidOn(ws: seq<Words>, w: Words)
    ensures Laid(ws + [w]) == Open(w, Laid(ws))
  {
    assert (ws + [w])[..|ws|] == ws;
  }

  /** The frame that twelve words stand for. */
  ghost function FrameOf(l: Links, w: Words, thr: nat): Frame {
    if w.ret == l.retry then Retry(thr) else Exit(w.callee, w.log, l.owner(w.r7), thr)
  }

  ghost function Frames(l: Links, ws: seq<Words>, thr: nat): (s: seq<Frame>)
    ensures |s| == |ws| && forall i :: 0 <= i < |ws| ==> s[i] == FrameOf(l, ws[i], thr)
  {
    seq(|ws|, i requires 0 <= i < |ws| => FrameOf(l, ws[i], thr))
  }

  /** The scheduler is there, every call remembers whom it calls, and a call of the
      scheduler that waits for a retry lies on the call to retry. */
  ghost predicate Sane(l: Links, ws: seq<Words>) {
    && HasScheduler(l) && l.sid == SCHEDULER
    && (forall i :: 0 <= i < |ws| ==> ws[i].callee == l.owner(ws[i].phys))
    && (forall i :: 0 <= i < |ws| && ws[i].ret == l.retry ==>
          ws[i].callee == SCHEDULER && i > 0 && ws[i - 1].ret != l.retry)
  }

  datatype Outcome = Outcome(calls: seq<Words>, regs: Regs, pc: nat)

  ghost function Returned(l: Links, ws: seq<Words>, r: Regs): Outcome
    requires Sane(l, ws) && ws != []
  {
    var n := |ws| - 1;
    if r.r8 != 0 then
      var r' := ToScheduler(l, l.yep, r);
      Outcome(ws + [Opening(l, Caller(l.retry, r), r')], Passed(l, r'), l.sad)
    else if ws[n].ret != l.retry then Outcome(ws[..n], Restored(ws[n], r), ws[n].ret)
    else
      var v := ws[n - 1];
      Outcome(ws[..n], Restored(ws[n], r).(r4 := v.callee, r6 := v.log, r7 := l.smEntry, r8 := v.phys), v.phys)
  }

  /** __sm_exit pushes the words of one exit frame. */
  lemma CallRefines(l: Links, ws: seq<Words>, w: Words, r: Regs, thr: nat, entries: nat)
    requires Sane(l, ws) && w.ret != l.retry
    ensures Sane(l, ws + [Opening(l, w, r)]) && Laid(ws + [Opening(l, w, r)]) == Open(Opening(l, w, r), Laid(ws))
    ensures Module(Frames(l, ws + [Opening(l, w, r)], thr), thr, entries)
      == Pushed(Module(Frames(l, ws, thr), thr, entries), Exit(l.owner(r.r8), r.r6, l.owner(w.r7), thr))
  {
    LaidOn(ws, Opening(l, w, r));
  }

  /** What the stub does with the words on a return is what the protocol does with the
      frames: resume the caller, repeat the call, or wait for a turn. */
  lemma ReturnRefines(l: Links, ws: seq<Words>, r: Regs, from: ModuleId, cur: nat, thr: nat, entries: nat)
    requires Sane(l, ws) && ws != [] && ws[|ws| - 1].callee == from && (from == SCHEDULER || cur == thr)
    requires r.r8 != 0 ==> cur == thr && ws[|ws| - 1].ret != l.retry
    ensures var o := Returned(l, ws, r);
      var (m, reaction) := Enter(Module(Frames(l, ws, thr), thr, entries), from, Return(r.r8 != 0), cur);
      && Sane(l, o.calls) && m == Module(Frames(l, o.calls, thr), thr, entries)
      && match reaction
         case Resumes(ret) => o.pc == ws[|ws| - 1].ret && l.owner(o.regs.r7) == ret
         case Repeats(callee, entry) => l.owner(o.pc) == callee && o.regs.r6 == entry && o.regs.r7 == l.smEntry
         case WaitsItsTurn => o.pc == l.sad && o.regs.r6 == l.yep && o.regs.r7 == l.smEntry
         case _ => false
  {
    var n := |ws| - 1;
    var F := Frames(l, ws, thr);
    var o := Returned(l, ws, r);
    assert F[n] == FrameOf(l, ws[n], thr);
    if r.r8 == 0 {
      assert Frames(l, ws[..n], thr) == F[..n];
    } else {
      assert Frames(l, o.calls, thr) == F + [Retry(cur)];
    }
  }

  /** Nothing leaves the module in its registers but what the call is about: where it goes,
      and the arguments that its mask names. */
  lemma NothingElseLeaves(l: Links, r: Regs, r': Regs)
    requires r'.r6 == r.r6 && r'.r7 == r.r7 && r'.r8 == r.r8
    requires (r.r7 % 2 != 0 ==> r'.r12 == r.r12) && (r.r7 % 4 != 0 ==> r'.r13 == r.r13)
    requires (r.r7 % 8 != 0 ==> r'.r14 == r.r14) && (r.r7 % 16 != 0 ==> r'.r15 == r.r15)
    ensures Passed(l, r') == Passed(l, r)
  {
  }

  lemma Bits(m: nat)
    ensures m % 4 == 0 <==> m % 2 == 0 && m / 2 % 2 == 0
    ensures m % 8 == 0 <==> m % 4 == 0 && m / 2 / 2 % 2 == 0
    ensures m % 16 == 0 <==> m % 8 == 0 && m / 2 / 2 / 2 % 2 == 0
  {
    var a := m / 2;
    var b := a / 2;
    var c := b / 2;
    var d := c / 2;
    Quotient(m, 4, b, 2 * (a % 2) + m % 2);
    Quotient(m, 8, c, 4 * (b % 2) + 2 * (a % 2) + m % 2);
    Quotient(m, 16, d, 8 * (c % 2) + 4 * (b % 2) + 2 * (a % 2) + m % 2);
  }

  lemma Quotient(m: nat, n: nat, q: nat, r: nat)
    requires n in {4, 8, 16} && m == n * q + r && r < n
    ensures m % n == r
  {
    if n == 4 {
      assert m == 4 * q + r;
    } else if n == 8 {
      assert m == 8 * q + r;
    }
  }
}
