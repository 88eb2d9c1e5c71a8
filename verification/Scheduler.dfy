/**
 The tick scheduler: handle_sched_on_pit_tick, run_next_proc, and runs of timer ticks.
 */
module Scheduler {
  import opened Common
  import Align

  const PROCESS_RUN_TIME := 50
  const KERNEL_PID := 1
  const KERNEL_CS := 0x08
  const KERNEL_SS := 0x10

  /** cpu_state */
  datatype Context = Context(
    r15: nat, r14: nat, r13: nat, r12: nat, rbp: nat, rbx: nat,
    r11: nat, r10: nat, r9: nat, r8: nat, rax: nat, rcx: nat, rdx: nat, rsi: nat, rdi: nat,
    eflags: nat, rip: nat, rsp: nat)

  /** What the interrupt pushed: the machine's registers, with the code segment of the interrupted code. */
  datatype Registers = Registers(cpu: Context, cs: nat, ss: nat)

  datatype Status = Ready | Waiting | Zombie

  datatype Pcb = Pcb(pid: nat, status: Status, context: Context)

  /** The globals; processes are named by the addresses of their control blocks. */
  datatype Sched = Sched(procs: seq<nat>, pcbs: map<nat, Pcb>, current: Option<nat>, last: nat, skipped: bool)

  predicate Known(s: Sched) {
    && (forall i :: 0 <= i < |s.procs| ==> s.procs[i] in s.pcbs)
    && (s.current.Some? ==> s.current.value in s.pcbs)
  }

  // ---------------------------------------------------------------- one tick

  /** Where a process is in the list, or the list's length. */
  function IndexOf(list: seq<nat>, p: nat): (i: nat)
    ensures i <= |list| && (i < |list| ==> list[i] == p)
    ensures forall k :: 0 <= k < i ==> list[k] != p
  {
    if list == [] || list[0] == p then 0 else 1 + IndexOf(list[1..], p)
  }

  /** The process behind the current one in the list, or the first. */
  function Successor(s: Sched): (p: nat)
    requires s.procs != []
    ensures p in s.procs
  {
    if s.current.None? then s.procs[0]
    else
      var i := IndexOf(s.procs, s.current.value);
      if i + 1 < |s.procs| then s.procs[i + 1] else s.procs[0]
  }

  predicate Dispatchable(b: Pcb) { b.pid != 0 && b.pid != KERNEL_PID && b.status == Ready }

  /** The time is up, or the last attempt found nobody to run. */
  predicate Due(s: Sched, now: nat) { (now as int - s.last) % WORD_64 >= PROCESS_RUN_TIME || s.skipped }

  predicate Passes(s: Sched, now: nat, regs: Registers) {
    regs.cs % 4 != 0 && s.procs != [] && Due(s, now)
  }

  /** The current process's registers are kept in its control block. */
  function Saved(s: Sched, regs: Registers): map<nat, Pcb> {
    if s.current.Some? && s.current.value in s.pcbs
    then s.pcbs[s.current.value := s.pcbs[s.current.value].(context := regs.cpu)]
    else s.pcbs
  }

  function ClearInterruptFlag(eflags: nat): nat { if eflags / 512 % 2 == 1 then eflags - 512 else eflags }

  /** The handler's state, the process to run if any, and the registers it returns to. */
  function Handle(s: Sched, now: nat, regs: Registers, runNext: nat, stack: nat): (Sched, Option<nat>, Registers)
    requires Known(s)
  {
    if !Passes(s, now, regs) then (s, None, regs)
    else
      var saved := s.(last := now, pcbs := Saved(s, regs));
      var p := Successor(s);
      if Dispatchable(s.pcbs[p])
      then (saved.(skipped := false), Some(p),
            Registers(regs.cpu.(rip := runNext, rsp := stack, eflags := ClearInterruptFlag(regs.cpu.eflags)), KERNEL_CS, KERNEL_SS))
      else (saved.(skipped := true), None, regs)
  }

  /** A tick, and the run_next_proc it returns to: the process dispatched becomes the current one. */
  function Tick(s: Sched, now: nat, regs: Registers): (Sched, Option<nat>)
    requires Known(s)
  {
    var h := Handle(s, now, regs, 0, 0);
    if h.1.Some? then (h.0.(current := h.1), h.1) else (h.0, None)
  }

  /** Where run_next_proc and its stack lie makes no difference to the choice, and who is chosen is known. */
  lemma HandleAnywhere(s: Sched, now: nat, regs: Registers, runNext: nat, stack: nat)
    requires Known(s)
    ensures var h, h0 := Handle(s, now, regs, runNext, stack), Handle(s, now, regs, 0, 0);
            && h.0 == h0.0 && h.1 == h0.1 && (h.1.None? ==> h.2 == regs)
            && (h.1.Some? ==> h.1.value in h.0.pcbs)
  {
    hide Successor, Dispatchable, ClearInterruptFlag, Passes;
    if s.procs != [] { SuccessorKnown(s); }
    NoneToPass(s, now, regs);
  }

  class Kernel {
    var procs: seq<nat>
    var pcbs: map<nat, Pcb>
    var current: Option<nat>
    var last: nat
    var skipped: bool
    var toRun: Option<nat>
    var triggered: bool

    ghost function State(): Sched
      reads this
    {
      Sched(procs, pcbs, current, last, skipped)
    }

    /** to_cpu_state_from_syscall, register by register. */
    method SaveContext(regs: Registers) returns (c: Context)
      ensures c == regs.cpu
    {
      c := Context(
        regs.cpu.r15, regs.cpu.r14, regs.cpu.r13, regs.cpu.r12, regs.cpu.rbp, regs.cpu.rbx,
        regs.cpu.r11, regs.cpu.r10, regs.cpu.r9, regs.cpu.r8, regs.cpu.rax, regs.cpu.rcx,
        regs.cpu.rdx, regs.cpu.rsi, regs.cpu.rdi, regs.cpu.eflags, regs.cpu.rip, regs.cpu.rsp);
    }

    /** The list node behind the current process's, by walking the list. */
    method NextInList() returns (p: nat)
      requires procs != []
      ensures p == Successor(State())
    {
      if current.None? { return procs[0]; }
      var i := 0;
      assert procs[0..] == procs;
      while i < |procs| && procs[i] != current.value
        invariant 0 <= i <= |procs|
        invariant IndexOf(procs, current.value) == i + IndexOf(procs[i..], current.value)
      {
        assert procs[i..][1..] == procs[i + 1..];
        i := i + 1;
      }
      if i + 1 < |procs| { return procs[i + 1]; }
      return procs[0];
    }

    /** handle_sched_on_pit_tick */
    method HandleTick(now: nat, regs: Registers, runNext: nat, stack: nat) returns (out: Registers)
      requires Known(State())
      modifies this
      ensures (State(), if triggered then toRun else None, out) == Handle(old(State()), now, regs, runNext, stack)
      ensures triggered ==> toRun.Some?
    {
      triggered := false;
      out := regs;
      if regs.cs % 4 == 0 { return; }
      if procs == [] || ((now as int - last) % WORD_64 < PROCESS_RUN_TIME && !skipped) { return; }
      last := now;
      var p := NextInList();
      if current.Some? {
        var c := SaveContext(regs);
        pcbs := pcbs[current.value := pcbs[current.value].(context := c)];
      }
      toRun := Some(p);
      if pcbs[p].pid != 0 && pcbs[p].pid != KERNEL_PID && pcbs[p].status == Ready {
        out := Registers(regs.cpu.(rip := runNext, rsp := stack, eflags := ClearInterruptFlag(regs.cpu.eflags)), KERNEL_CS, KERNEL_SS);
        triggered := true;
        skipped := false;
      } else {
        skipped := true;
      }
    }

    /** run_next_proc: the context it jumps to is the one in the control block. */
    method RunNext() returns (c: Context)
      requires toRun.Some? && toRun.value in pcbs
      modifies this`current
      ensures current == toRun && c == pcbs[toRun.value].context
    {
      current := toRun;
      c := pcbs[toRun.value].context;
    }

    /**
     A timer interrupt and what it returns to: the interrupted code, or run_next_proc and from there
     the context of the process dispatched.
     */
    method OnTick(now: nat, regs: Registers, runNext: nat, stack: nat) returns (dispatched: Option<nat>, resumed: Context)
      requires Known(State())
      modifies this
      ensures (State(), dispatched) == Tick(old(State()), now, regs)
      ensures dispatched.None? ==> resumed == regs.cpu
      ensures dispatched.Some? ==> dispatched.value in pcbs && resumed == pcbs[dispatched.value].context
    {
      hide Saved, Successor, Dispatchable, ClearInterruptFlag, Passes;
      HandleAnywhere(State(), now, regs, runNext, stack);
      var out := HandleTick(now, regs, runNext, stack);
      dispatched, resumed := None, out.cpu;
      if triggered {
        dispatched := toRun;
        resumed := RunNext();
      }
    }
  }

  /**
   A dispatch interrupts user code only.  It returns to run_next_proc on its own stack, in the
   kernel's segments, with the interrupt flag clear and every other flag and register as it was;
   no tick passes there.
   */
  lemma EntersKernel(s: Sched, now: nat, regs: Registers, runNext: nat, stack: nat, later: nat)
    requires Known(s) && Handle(s, now, regs, runNext, stack).1.Some?
    ensures var h := Handle(s, now, regs, runNext, stack);
            && regs.cs % 4 != 0 && !Passes(h.0, later, h.2)
            && h.2.cs == 0x08 && h.2.ss == 0x10 && h.2.cpu.rip == runNext && h.2.cpu.rsp == stack
            && h.2.cpu.(rip := regs.cpu.rip, rsp := regs.cpu.rsp, eflags := regs.cpu.eflags) == regs.cpu
            && var e, e' := regs.cpu.eflags, h.2.cpu.eflags;
            e' / 512 % 2 == 0 && e' % 512 == e % 512 && e' / 1024 == e / 1024
  {
    hide Successor, Dispatchable, Saved, ClearInterruptFlag;
    FlagCleared(regs.cpu.eflags);
  }

  lemma FlagCleared(e: nat)
    ensures var e' := ClearInterruptFlag(e);
            e' / 512 % 2 == 0 && e' % 512 == e % 512 && e' / 1024 == e / 1024
  {
    if e / 512 % 2 == 1 {
      Align.DivModUnique(e - 512, 512, e / 512 - 1, e % 512);
      var q, r := e / 1024, e % 1024;
      Align.DivModUnique(e - 512, 1024, q, r - 512);
    }
  }

  // ---------------------------------------------------------------- steps

  /** A tick, or something other code does: a status set, a process added at the head, a process run. */
  datatype Event =
    | At(now: nat, regs: Registers)
    | SetStatus(p: nat, status: Status)
    | Spawn(p: nat, pcb: Pcb)
    | Exec(p: nat)

  function Step(s: Sched, e: Event): (Sched, Option<nat>)
    requires Known(s)
  {
    match e
    case At(now, regs) => Tick(s, now, regs)
    case SetStatus(p, status) =>
      (if p in s.pcbs then s.(pcbs := s.pcbs[p := s.pcbs[p].(status := status)]) else s, None)
    case Spawn(p, pcb) =>
      (if p in s.pcbs then s else s.(procs := [p] + s.procs, pcbs := s.pcbs[p := pcb]), None)
    case Exec(p) => (if p in s.pcbs then s.(current := Some(p)) else s, None)
  }

  lemma StepKnown(s: Sched, e: Event)
    requires Known(s)
    ensures Known(Step(s, e).0)
    ensures Step(s, e).1.Some? ==> e.At? && Step(s, e).1.value in Step(s, e).0.pcbs
  {}

  function Run(s: Sched, es: seq<Event>): (r: Sched)
    requires Known(s)
    ensures Known(r)
    decreases |es|
  {
    if es == [] then s else
      StepKnown(s, es[0]);
      Run(Step(s, es[0]).0, es[1..])
  }

  /** A dispatch: when, which process, and its control block as it starts to run. */
  datatype Dispatch = Dispatch(now: nat, p: nat, pcb: Pcb)

  function Dispatches(s: Sched, es: seq<Event>): seq<Dispatch>
    requires Known(s)
    decreases |es|
  {
    if es == [] then [] else
      StepKnown(s, es[0]);
      var r := Step(s, es[0]);
      (if r.1.Some? then [Dispatch(es[0].now, r.1.value, r.0.pcbs[r.1.value])] else [])
      + Dispatches(r.0, es[1..])
  }

  // ---------------------------------------------------------------- dispatches are far apart

  /** The clock never goes back, and has not wrapped. */
  predicate ClockFrom(es: seq<Event>, t: nat)
    decreases |es|
  {
    es == [] ||
    if es[0].At? then t <= es[0].now < WORD_64 && ClockFrom(es[1..], es[0].now) else ClockFrom(es[1..], t)
  }

  /** Nothing can be dispatched before t0 + 50. */
  predicate Holds(s: Sched, t0: nat) {
    s.last >= t0 && (s.skipped ==> s.last >= t0 + PROCESS_RUN_TIME)
  }

  lemma ElapsedIs(now: nat, last: nat)
    requires last <= now < WORD_64
    ensures (now as int - last) % WORD_64 == now - last
  {}

  lemma StepLast(s: Sched, e: Event, t: nat)
    requires Known(s) && s.last <= t && (e.At? ==> t <= e.now < WORD_64)
    ensures var r := Step(s, e);
            && r.0.last <= (if e.At? then e.now else t)
            && (r.1.Some? ==> e.At? && Holds(r.0, e.now))
  {
    hide Saved, Successor, Dispatchable, ClearInterruptFlag, Passes;
  }

  lemma StepHolds(s: Sched, e: Event, t: nat, t0: nat)
    requires Known(s) && s.last <= t && Holds(s, t0) && (e.At? ==> t <= e.now < WORD_64)
    ensures var r := Step(s, e);
            && r.0.last <= (if e.At? then e.now else t)
            && Holds(r.0, t0)
            && (r.1.Some? ==> e.At? && e.now >= t0 + PROCESS_RUN_TIME)
  {
    hide Saved, Successor, Dispatchable, ClearInterruptFlag;
    if e.At? { ElapsedIs(e.now, s.last); }
  }

  lemma {:induction false} DispatchesLater(s: Sched, es: seq<Event>, t: nat, t0: nat)
    requires Known(s) && s.last <= t && Holds(s, t0) && ClockFrom(es, t)
    ensures forall i :: 0 <= i < |Dispatches(s, es)| ==> Dispatches(s, es)[i].now >= t0 + PROCESS_RUN_TIME
    decreases |es|
  {
    hide Step, Holds;
    if es != [] {
      StepKnown(s, es[0]);
      StepHolds(s, es[0], t, t0);
      DispatchesLater(Step(s, es[0]).0, es[1..], if es[0].At? then es[0].now else t, t0);
    }
  }

  /** Over any run, two dispatches are at least 50 ms apart, skipped attempts or not. */
  lemma {:induction false} DispatchesApart(s: Sched, es: seq<Event>, t: nat, i: nat, j: nat)
    requires Known(s) && s.last <= t && ClockFrom(es, t) && i < j < |Dispatches(s, es)|
    ensures Dispatches(s, es)[i].now + 50 <= Dispatches(s, es)[j].now
    decreases |es|
  {
    hide Step, Holds;
    StepKnown(s, es[0]);
    var r := Step(s, es[0]);
    var t' := if es[0].At? then es[0].now else t;
    StepLast(s, es[0], t);
    var rest := Dispatches(r.0, es[1..]);
    if r.1.Some? {
      if i == 0 {
        DispatchesLater(r.0, es[1..], t', es[0].now);
        assert Dispatches(s, es)[j] == rest[j - 1];
      } else {
        DispatchesApart(r.0, es[1..], t', i - 1, j - 1);
      }
    } else {
      assert Dispatches(s, es) == rest;
      DispatchesApart(r.0, es[1..], t', i, j);
    }
  }

  // ---------------------------------------------------------------- who is dispatched

  /** Only ready processes other than the idle and the kernel one are ever dispatched, and they become current. */
  lemma {:induction false} OnlyReady(s: Sched, es: seq<Event>, i: nat)
    requires Known(s) && i < |Dispatches(s, es)|
    ensures var b := Dispatches(s, es)[i].pcb; b.pid != 0 && b.pid != 1 && b.status == Ready
    decreases |es|
  {
    hide Step;
    StepKnown(s, es[0]);
    StepReady(s, es[0]);
    var r := Step(s, es[0]);
    if r.1.None? {
      assert Dispatches(s, es) == Dispatches(r.0, es[1..]);
      OnlyReady(r.0, es[1..], i);
    } else if i > 0 {
      assert Dispatches(s, es)[i] == Dispatches(r.0, es[1..])[i - 1];
      OnlyReady(r.0, es[1..], i - 1);
    }
  }

  lemma StepReady(s: Sched, e: Event)
    requires Known(s)
    ensures var r := Step(s, e);
            r.1.Some? ==> r.1.value in r.0.pcbs && Dispatchable(r.0.pcbs[r.1.value]) && r.0.current == r.1
  {
    hide ClearInterruptFlag, Passes, Successor;
    if e.At? && s.procs != [] { SuccessorKnown(s); }
  }

  lemma SuccessorKnown(s: Sched)
    requires Known(s) && s.procs != []
    ensures Successor(s) in s.pcbs
  {}

  // ---------------------------------------------------------------- round robin

  predicate OnlyTicks(es: seq<Event>) { forall i :: 0 <= i < |es| ==> es[i].At? }

  /** An index, around the list. */
  function Turn(i: nat, n: nat): (r: nat)
    requires n > 0
    ensures r < n
  {
    i % n
  }

  /** The index of the process that is next. */
  function NextIndex(s: Sched): (i: nat)
    ensures s.procs != [] ==> i < |s.procs| && s.procs[i] == Successor(s)
  {
    if s.current.None? then 0
    else
      var i := IndexOf(s.procs, s.current.value);
      if i + 1 < |s.procs| then i + 1 else 0
  }

  lemma IndexUnique(list: seq<nat>, i: nat)
    requires Distinct(list) && i < |list|
    ensures IndexOf(list, list[i]) == i
  {}

  /** A tick dispatches the next process or nobody; the list stays. */
  lemma TickRobin(s: Sched, now: nat, regs: Registers)
    requires Known(s) && Distinct(s.procs)
    ensures var r := Tick(s, now, regs);
            && r.0.procs == s.procs
            && (r.1.None? ==> NextIndex(r.0) == NextIndex(s))
            && (r.1.Some? ==>
                  && s.procs != [] && r.1.value == s.procs[NextIndex(s)]
                  && NextIndex(r.0) == Turn(NextIndex(s) + 1, |s.procs|))
  {
    hide Tick, Distinct, NextIndex, Successor, Turn;
    TickShape(s, now, regs);
    var r := Tick(s, now, regs);
    if r.1.Some? {
      NextAfter(s, r.0);
    } else {
      SameNext(s, r.0);
    }
  }

  lemma SameNext(s: Sched, s': Sched)
    requires s'.procs == s.procs && s'.current == s.current
    ensures NextIndex(s') == NextIndex(s)
  {}

  lemma NextAfter(s: Sched, s': Sched)
    requires s.procs != [] && Distinct(s.procs) && s'.procs == s.procs && s'.current == Some(Successor(s))
    ensures Successor(s) == s.procs[NextIndex(s)]
    ensures NextIndex(s') == Turn(NextIndex(s) + 1, |s.procs|)
  {
    hide Distinct, Successor, IndexOf, Turn;
    var n, i := |s.procs|, NextIndex(s);
    IndexUnique(s.procs, i);
    TurnNext(i, n);
  }

  lemma TurnNext(i: nat, n: nat)
    requires i < n
    ensures Turn(i + 1, n) == (if i + 1 < n then i + 1 else 0) && Turn(i, n) == i
  {
    Align.SmallMod(i, n);
    if i + 1 < n { Align.SmallMod(i + 1, n); }
  }

  /** What a tick leaves as it is. */
  lemma TickShape(s: Sched, now: nat, regs: Registers)
    requires Known(s)
    ensures var r := Tick(s, now, regs);
            && r.0.procs == s.procs && r.0.pcbs.Keys == s.pcbs.Keys && Known(r.0)
            && (forall p :: p in s.pcbs ==> r.0.pcbs[p].pid == s.pcbs[p].pid && r.0.pcbs[p].status == s.pcbs[p].status)
            && (if r.1.Some? then s.procs != [] && r.1.value == Successor(s) && r.0.current == r.1
                else r.0.current == s.current)
  {
    hide ClearInterruptFlag, Passes, Successor;
    if s.procs != [] { SuccessorKnown(s); }
    NoneToPass(s, now, regs);
  }

  lemma NoneToPass(s: Sched, now: nat, regs: Registers)
    ensures s.procs == [] ==> !Passes(s, now, regs)
  {}

  /** The k-th dispatch of a run of ticks runs the k-th process in turn. */
  lemma {:induction false} Robin(s: Sched, es: seq<Event>, k: nat)
    requires Known(s) && Distinct(s.procs) && OnlyTicks(es) && k < |Dispatches(s, es)|
    ensures s.procs != [] && Dispatches(s, es)[k].p == s.procs[Turn(NextIndex(s) + k, |s.procs|)]
    decreases |es|
  {
    hide Tick, Distinct, NextIndex, Known, Turn;
    StepKnown(s, es[0]);
    TickRobin(s, es[0].now, es[0].regs);
    var r := Step(s, es[0]);
    var rest := Dispatches(r.0, es[1..]);
    if r.1.None? {
      assert Dispatches(s, es) == rest;
      Robin(r.0, es[1..], k);
    } else if k > 0 {
      assert Dispatches(s, es)[k] == rest[k - 1];
      Robin(r.0, es[1..], k - 1);
      ModNext(NextIndex(s), k - 1, |s.procs|);
    } else {
      TurnNext(NextIndex(s), |s.procs|);
    }
  }

  lemma ModNext(i: nat, k: nat, n: nat)
    requires n > 0
    ensures Turn(Turn(i + 1, n) + k, n) == Turn(i + (k + 1), n)
  {
    var q, r := (i + 1) / n, (i + 1) % n;
    var q', r' := (r + k) / n, (r + k) % n;
    Distributes(q, q', n);
    Align.DivModUnique(i + (k + 1), n, q + q', r');
  }

  lemma Distributes(a: int, b: int, n: int)
    ensures (a + b) * n == a * n + b * n
  {}

  /** Among n consecutive dispatches of n processes each process runs exactly once. */
  lemma EachOnce(s: Sched, es: seq<Event>, w: nat, p: nat) returns (k: nat)
    requires Known(s) && Distinct(s.procs) && OnlyTicks(es) && p in s.procs
    requires w + |s.procs| <= |Dispatches(s, es)|
    ensures w <= k < w + |s.procs| && Dispatches(s, es)[k].p == p
    ensures forall j :: w <= j < w + |s.procs| && Dispatches(s, es)[j].p == p ==> j == k
  {
    hide NextIndex, Known, Dispatches, Distinct, Turn;
    var n, d := |s.procs|, Dispatches(s, es);
    var i :| 0 <= i < n && s.procs[i] == p;
    var base := NextIndex(s) + w;
    var r := (i - base) % n;
    k := w + r;
    Robin(s, es, k);
    Reaches(base, i, n);
    IndexUnique(s.procs, i);
    forall j | w <= j < w + n && d[j].p == p ensures j == k {
      Robin(s, es, j);
      IndexUnique(s.procs, Turn(base + (j - w), n));
      SameResidue(base + (j - w), base + r, n);
    }
  }

  lemma Reaches(base: nat, i: nat, n: nat)
    requires i < n
    ensures Turn(base + (i - base) % n, n) == i
  {
    var q := (i - base) / n;
    var r := (i - base) % n;
    assert i - base == q * n + r;
    assert base + r == (0 - q) * n + i;
    Align.DivModUnique(base + r, n, 0 - q, i);
  }

  lemma SameResidue(x: nat, y: nat, n: nat)
    requires n > 0 && Turn(x, n) == Turn(y, n) && y < x + n && x < y + n
    ensures x == y
  {
    var q, q' := x / n, y / n;
    assert x == q * n + x % n && y == q' * n + y % n;
    if q > q' {
      Distributes(q - q', q', n);
      Align.AtLeastOnce(q - q', n);
    } else if q' > q {
      Distributes(q' - q, q, n);
      Align.AtLeastOnce(q' - q, n);
    }
  }

  // ---------------------------------------------------------------- contexts

  /** p is neither dispatched by the tick nor run by other code. */
  predicate LeavesAlone(s: Sched, e: Event, p: nat)
    requires Known(s)
  {
    Step(s, e).1 != Some(p) && e != Exec(p)
  }

  ghost predicate NeverRuns(s: Sched, es: seq<Event>, p: nat)
    requires Known(s)
    decreases |es|
  {
    es != [] ==>
      LeavesAlone(s, es[0], p) && (StepKnown(s, es[0]); NeverRuns(Step(s, es[0]).0, es[1..], p))
  }

  lemma StepContext(s: Sched, e: Event, p: nat)
    requires Known(s) && p in s.pcbs && s.current != Some(p) && LeavesAlone(s, e, p)
    ensures var r := Step(s, e).0;
            p in r.pcbs && r.pcbs[p].context == s.pcbs[p].context && r.current != Some(p)
  {
    hide Successor, Passes, Dispatchable, ClearInterruptFlag;
  }

  lemma {:induction false} ContextKept(s: Sched, es: seq<Event>, p: nat)
    requires Known(s) && p in s.pcbs && s.current != Some(p) && NeverRuns(s, es, p)
    ensures var r := Run(s, es);
            p in r.pcbs && r.pcbs[p].context == s.pcbs[p].context && r.current != Some(p)
    decreases |es|
  {
    hide Step, LeavesAlone;
    if es != [] {
      StepKnown(s, es[0]);
      StepContext(s, es[0], p);
      ContextKept(Step(s, es[0]).0, es[1..], p);
    }
  }

  /** What follows a tick that interrupted p: p itself is dispatched, or p waits for a later tick to dispatch it. */
  ghost predicate NextTurn(s: Sched, now: nat, regs: Registers, es: seq<Event>, now': nat, regs': Registers, p: nat)
    requires Known(s)
  {
    TickKnown(s, now, regs);
    var (s1, first) := Tick(s, now, regs);
    if first == Some(p) then true
    else first.Some? && NeverRuns(s1, es, p) && Tick(Run(s1, es), now', regs').1 == Some(p)
  }

  lemma TickKnown(s: Sched, now: nat, regs: Registers)
    requires Known(s)
    ensures Known(Tick(s, now, regs).0)
  {
    StepKnown(s, At(now, regs));
  }

  /** The state in which p starts its next turn. */
  ghost function Resumption(s: Sched, now: nat, regs: Registers, es: seq<Event>, now': nat, regs': Registers, p: nat): Sched
    requires Known(s)
  {
    TickKnown(s, now, regs);
    var (s1, first) := Tick(s, now, regs);
    if first == Some(p) then s1 else Tick(Run(s1, es), now', regs').0
  }

  /**
   A process that a tick interrupted, to dispatch it again or another one, starts its next turn with
   exactly the registers it was interrupted with, whatever ran in between.
   */
  lemma ResumesWhere(s: Sched, now: nat, regs: Registers, es: seq<Event>, now': nat, regs': Registers, p: nat)
    requires Known(s) && s.current == Some(p) && NextTurn(s, now, regs, es, now', regs', p)
    ensures var r := Resumption(s, now, regs, es, now', regs', p);
            p in r.pcbs && r.current == Some(p) && r.pcbs[p].context == regs.cpu
  {
    hide Run, NeverRuns, Tick, Known;
    TickKnown(s, now, regs);
    var s1 := Tick(s, now, regs).0;
    Interrupted(s, now, regs, p);
    if Tick(s, now, regs).1 != Some(p) {
      ContextKept(s1, es, p);
      Resumed(Run(s1, es), now', regs', p);
    }
  }

  lemma Interrupted(s: Sched, now: nat, regs: Registers, p: nat)
    requires Known(s) && s.current == Some(p) && Tick(s, now, regs).1.Some?
    ensures var (r, first) := Tick(s, now, regs); p in r.pcbs && r.current == first && r.pcbs[p].context == regs.cpu
  {
    hide Successor, Passes, Dispatchable, ClearInterruptFlag;
  }

  lemma Resumed(s: Sched, now: nat, regs: Registers, p: nat)
    requires Known(s) && s.current != Some(p) && p in s.pcbs && Tick(s, now, regs).1 == Some(p)
    ensures var r := Tick(s, now, regs).0;
            p in r.pcbs && r.current == Some(p) && r.pcbs[p].context == s.pcbs[p].context
  {
    hide Successor, Passes, Dispatchable, ClearInterruptFlag;
  }

  // ---------------------------------------------------------------- a process that is not ready

  /** p is ready, and neither process 0 nor the kernel's process 1. */
  predicate NextUp(s: Sched, p: nat) {
    p in s.pcbs && s.pcbs[p].pid != 0 && s.pcbs[p].pid != 1 && s.pcbs[p].status == Ready
  }

  /** Whose turn it is: the process behind the current one around the list, and the first if there is none. */
  lemma SuccessorIs(s: Sched, i: nat)
    requires Distinct(s.procs) && i < |s.procs|
    ensures s.current == Some(s.procs[i]) ==> Successor(s) == s.procs[(i + 1) % |s.procs|]
    ensures s.current.None? || s.current.value !in s.procs ==> Successor(s) == s.procs[0]
  {
    IndexUnique(s.procs, i);
    TurnNext(i, |s.procs|);
  }

  /**
   A user-mode tick after 50 ms that finds the next process not ready leaves the attempt open: until
   somebody is dispatched, and whatever else happens, any later user-mode tick at any time dispatches
   the process whose turn it is exactly when that one is ready.
   */
  lemma AttemptStaysOpen(s: Sched, now: nat, regs: Registers, es: seq<Event>, now': nat, regs': Registers)
    requires Known(s) && s.procs != [] && regs.cs % 4 != 0 && (now as int - s.last) % WORD_64 >= 50
    requires Tick(s, now, regs).1.None?
    requires Known(Tick(s, now, regs).0) && Dispatches(Tick(s, now, regs).0, es) == []
    requires regs'.cs % 4 != 0
    ensures var s' := Run(Tick(s, now, regs).0, es);
            && s'.procs != []
            && Tick(s', now', regs').1 == if NextUp(s', Successor(s')) then Some(Successor(s')) else None
  {
    hide Run, Tick, Dispatches, Successor, Known;
    var s1 := Tick(s, now, regs).0;
    AttemptOpens(s, now, regs);
    StaysOpen(s1, es);
    OpenDispatches(Run(s1, es), now', regs');
  }

  lemma AttemptOpens(s: Sched, now: nat, regs: Registers)
    requires Known(s) && s.procs != [] && regs.cs % 4 != 0 && (now as int - s.last) % WORD_64 >= 50
    requires Tick(s, now, regs).1.None?
    ensures Tick(s, now, regs).0.skipped && Tick(s, now, regs).0.procs != []
  {
    hide Saved, Successor, Dispatchable, ClearInterruptFlag;
  }

  lemma OpenDispatches(s: Sched, now: nat, regs: Registers)
    requires Known(s) && s.procs != [] && s.skipped && regs.cs % 4 != 0
    ensures Tick(s, now, regs).1 == if NextUp(s, Successor(s)) then Some(Successor(s)) else None
  {
    hide Saved, Successor, ClearInterruptFlag;
    SuccessorKnown(s);
  }

  lemma StepStaysOpen(s: Sched, e: Event)
    requires Known(s) && s.procs != [] && s.skipped && Step(s, e).1.None?
    ensures Step(s, e).0.procs != [] && Step(s, e).0.skipped
  {
    hide Saved, Successor, Dispatchable, ClearInterruptFlag;
  }

  lemma {:induction false} StaysOpen(s: Sched, es: seq<Event>)
    requires Known(s) && s.procs != [] && s.skipped && Dispatches(s, es) == []
    ensures Run(s, es).procs != [] && Run(s, es).skipped
    decreases |es|
  {
    hide Step;
    if es != [] {
      StepKnown(s, es[0]);
      StepStaysOpen(s, es[0]);
      StaysOpen(Step(s, es[0]).0, es[1..]);
    }
  }

  /** Ticks alone ever dispatch something exactly when the next process in the list is ready. */
  lemma StuckIff(s: Sched, t: nat)
    requires Known(s) && s.last <= t < WORD_64 - 50
    ensures (exists es :: OnlyTicks(es) && ClockFrom(es, t) && Dispatches(s, es) != []) <==>
            s.procs != [] && NextUp(s, Successor(s))
  {
    hide Successor;
    if s.procs != [] { SuccessorKnown(s); }
    if s.procs != [] && Dispatchable(s.pcbs[Successor(s)]) {
      var es := Soon(t);
      SoonDispatches(s, t);
      assert OnlyTicks(es) && ClockFrom(es, t) && Dispatches(s, es) != [];
    } else {
      forall es | OnlyTicks(es) ensures Dispatches(s, es) == [] {
        StuckForever(s, es);
      }
    }
  }

  const ANY: Context := Context(0, 0, 0, 0, 0, 0, 0, 0, 0, 0, 0, 0, 0, 0, 0, 0, 0, 0)

  /** One tick out of user code, 50 ms on. */
  function Soon(t: nat): seq<Event> { [At(t + 50, Registers(ANY, 0x1b, 0x23))] }

  lemma SoonDispatches(s: Sched, t: nat)
    requires Known(s) && s.last <= t < WORD_64 - 50 && s.procs != []
    requires Successor(s) in s.pcbs && Dispatchable(s.pcbs[Successor(s)])
    ensures OnlyTicks(Soon(t)) && ClockFrom(Soon(t), t) && Dispatches(s, Soon(t)) != []
  {
    hide Successor, Dispatchable, Saved, ClearInterruptFlag;
    ElapsedIs(t + 50, s.last);
    var e := Soon(t)[0];
    assert Step(s, e).1.Some?;
    assert Soon(t)[1..] == [];
  }

  /** A tick that finds the next process not ready leaves the same process next. */
  lemma {:induction false} StuckForever(s: Sched, es: seq<Event>)
    requires Known(s) && OnlyTicks(es)
    requires s.procs == [] || (Successor(s) in s.pcbs && !Dispatchable(s.pcbs[Successor(s)]))
    ensures Dispatches(s, es) == []
    decreases |es|
  {
    hide Tick, Known, Successor;
    if es != [] {
      StepKnown(s, es[0]);
      StuckTick(s, es[0].now, es[0].regs);
      StuckForever(Step(s, es[0]).0, es[1..]);
    }
  }

  lemma StuckTick(s: Sched, now: nat, regs: Registers)
    requires Known(s)
    requires s.procs == [] || (Successor(s) in s.pcbs && !Dispatchable(s.pcbs[Successor(s)]))
    ensures var r := Tick(s, now, regs);
            && r.1.None? && r.0.procs == s.procs && r.0.current == s.current
            && (s.procs != [] ==> Successor(r.0) == Successor(s) && Successor(s) in r.0.pcbs &&
                                  !Dispatchable(r.0.pcbs[Successor(s)]))
  {
    hide IndexOf, ClearInterruptFlag, Passes;
    NoneToPass(s, now, regs);
  }
}
