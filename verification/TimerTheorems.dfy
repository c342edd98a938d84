/** What every run of the timer engine guarantees. */
module TimerTheorems {
  import opened Options
  import opened TimerTable
  import TimerEngine
  import Scheduler
  import Arith

  /** What drives the machine between callbacks: device requests, tick1() and tickn(). */
  datatype Cmd = Request(op: Op) | Tick1 | Tickn(n: nat)

  function Elapsed(cmds: seq<Cmd>): nat {
    if cmds == [] then 0 else
    (match cmds[0] case Request(_) => 0 case Tick1 => 1 case Tickn(n) => n) + Elapsed(cmds[1..])
  }

  ghost predicate CmdsBounded(cmds: seq<Cmd>, bound: nat) {
    forall k :: 0 <= k < |cmds| && cmds[k].Request? ==> OpBounded(cmds[k].op, bound)
  }

  function EngineStep(e: TimerEngine.Engine, cmd: Cmd, script: Script): (r: TimerEngine.Engine)
    requires e.table.WellFormed()
    ensures r.table.WellFormed()
  {
    match cmd
    case Request(op) => TimerEngine.Apply(e, op)
    case Tick1 => TimerEngine.Tick1(e, script)
    case Tickn(n) => TimerEngine.Tick1s(e, n, script)
  }

  function EngineRun(e: TimerEngine.Engine, cmds: seq<Cmd>, script: Script): (r: TimerEngine.Engine)
    requires e.table.WellFormed()
    ensures r.table.WellFormed()
    decreases |cmds|
  {
    if cmds == [] then e else EngineRun(EngineStep(e, cmds[0], script), cmds[1..], script)
  }

  function SchedulerStep(s: Scheduler.Sched, cmd: Cmd, script: Script): (r: Scheduler.Sched)
    requires s.WellFormed()
    ensures r.WellFormed()
    ensures r.now == s.now + (match cmd case Request(_) => 0 case Tick1 => 1 case Tickn(n) => n)
  {
    match cmd
    case Request(op) => Scheduler.Apply(s, op)
    case Tick1 => Scheduler.Tick(s, script)
    case Tickn(n) => Scheduler.Ticks(s, n, script)
  }

  function SchedulerRun(s: Scheduler.Sched, cmds: seq<Cmd>, script: Script): (r: Scheduler.Sched)
    requires s.WellFormed()
    ensures r.WellFormed() && r.now == s.now + Elapsed(cmds)
    decreases |cmds|
  {
    if cmds == [] then s else SchedulerRun(SchedulerStep(s, cmds[0], script), cmds[1..], script)
  }

  lemma SchedulerStepGrows(s: Scheduler.Sched, cmd: Cmd, script: Script)
    requires s.WellFormed()
    ensures s.log <= SchedulerStep(s, cmd, script).log
  {
    match cmd
    case Request(op) =>
    case Tick1 => Scheduler.TickGrows(s, script);
    case Tickn(n) => Scheduler.TicksGrow(s, n, script);
  }

  lemma {:induction false} SchedulerRunGrows(s: Scheduler.Sched, cmds: seq<Cmd>, script: Script)
    requires s.WellFormed()
    ensures s.log <= SchedulerRun(s, cmds, script).log
    decreases |cmds|
  {
    if cmds != [] {
      SchedulerStepGrows(s, cmds[0], script);
      SchedulerRunGrows(SchedulerStep(s, cmds[0], script), cmds[1..], script);
    }
  }

  // ----- The countdown engine is the naive scheduler -----

  lemma StepGrows(e: TimerEngine.Engine, cmd: Cmd, script: Script)
    requires e.table.WellFormed()
    ensures e.log <= EngineStep(e, cmd, script).log
  {
    match cmd
    case Request(op) =>
    case Tick1 => TimerEngine.Tick1Grows(e, script);
    case Tickn(n) => TimerEngine.Tick1sGrow(e, n, script);
  }

  lemma {:induction false} RunGrows(e: TimerEngine.Engine, cmds: seq<Cmd>, script: Script)
    requires e.table.WellFormed()
    ensures e.log <= EngineRun(e, cmds, script).log
    decreases |cmds|
  {
    if cmds != [] {
      StepGrows(e, cmds[0], script);
      RunGrows(EngineStep(e, cmds[0], script), cmds[1..], script);
    }
  }

  /** The engine is in a reachable state; no request made in this run, by a device or by a callback it calls,
      names more than `bound` ticks; and its end plus `bound` stays below 2^64 - 1. */
  ghost predicate CanRun(e: TimerEngine.Engine, cmds: seq<Cmd>, script: Script, bound: nat) {
    && TimerEngine.Inv(e, bound) && CmdsBounded(cmds, bound)
    && CallsBounded(script, e.log, EngineRun(e, cmds, script).log, bound)
    && TimerEngine.Fits(TimerEngine.Now(e) + Elapsed(cmds), bound)
  }

  lemma StepRefines(e: TimerEngine.Engine, cmd: Cmd, script: Script, bound: nat)
    requires CanRun(e, [cmd], script, bound)
    ensures var r := EngineStep(e, cmd, script);
      TimerEngine.Inv(r, bound) && TimerEngine.Abs(r) == SchedulerStep(TimerEngine.Abs(e), cmd, script)
  {
    assert EngineRun(e, [cmd], script) == EngineStep(e, cmd, script);
    match cmd
    case Request(op) =>
      assert [cmd][0].Request?;
      TimerEngine.ApplyRefines(e, op, bound);
    case Tick1 => TimerEngine.Tick1Refines(e, script, bound);
    case Tickn(n) => TimerEngine.Tick1sRefine(e, n, script, bound);
  }

  /** Whatever devices and callbacks request, and however time is batched, the engine's calls, slots
      and clock are those of the scheduler that looks at every tick. */
  lemma {:induction false} RunRefines(e: TimerEngine.Engine, cmds: seq<Cmd>, script: Script, bound: nat)
    requires CanRun(e, cmds, script, bound)
    ensures var r := EngineRun(e, cmds, script);
      TimerEngine.Inv(r, bound) && TimerEngine.Abs(r) == SchedulerRun(TimerEngine.Abs(e), cmds, script)
    decreases |cmds|
  {
    if cmds != [] {
      assert cmds[0] == [cmds[0]][0] && [cmds[0]][1..] == [];
      assert Elapsed([cmds[0]]) + Elapsed(cmds[1..]) == Elapsed(cmds);
      var r := EngineStep(e, cmds[0], script);
      assert EngineRun(e, [cmds[0]], script) == r;
      StepGrows(e, cmds[0], script);
      RunGrows(r, cmds[1..], script);
      CallsBoundedSplit(script, e.log, r.log, EngineRun(e, cmds, script).log, bound);
      StepRefines(e, cmds[0], script, bound);
      RunRefines(r, cmds[1..], script, bound);
    }
  }

  /** From power-on: the same calls in the same order at the same ticks, the clock counts exactly the
      ticks given, the countdown is positive and fits 32 bits, and no due time is behind it. */
  lemma RunsFromPowerOn(cmds: seq<Cmd>, script: Script, bound: nat)
    requires NULL_TIMER_INTERVAL <= bound && CmdsBounded(cmds, bound)
    requires CallsBounded(script, [], EngineRun(TimerEngine.Initial(), cmds, script).log, bound)
    requires TimerEngine.Fits(Elapsed(cmds), bound)
    ensures var e, s := EngineRun(TimerEngine.Initial(), cmds, script),
                        SchedulerRun(TimerEngine.Abs(TimerEngine.Initial()), cmds, script);
      && e.log == s.log && e.table == s.table
      && TimerEngine.TimeTicks(e) == Elapsed(cmds) == s.now
      && 0 < e.currCountdown <= e.currCountdownPeriod <= NULL_TIMER_INTERVAL
      && forall i :: 0 <= i < e.table.numTimers && e.table.slots[i].active ==>
           Elapsed(cmds) < e.ticksTotal + e.currCountdownPeriod <= e.table.slots[i].timeToFire
  {
    TimerEngine.InitialInv(bound);
    RunRefines(TimerEngine.Initial(), cmds, script, bound);
    var e := EngineRun(TimerEngine.Initial(), cmds, script);
    TimerEngine.NarrowingIsExact(e, bound);
    forall i | 0 <= i < e.table.numTimers && e.table.slots[i].active
      ensures Elapsed(cmds) < e.ticksTotal + e.currCountdownPeriod <= e.table.slots[i].timeToFire
    {
      assert TimerEngine.SlotInv(e.table.slots[i], e, bound);
    }
  }

  // ----- The table of 64 slots -----

  /** Registration is refused, and changes nothing, exactly when `numTimers` is 64, whatever slots are free. */
  lemma RegistrationIsRefusedWhenFull(cmds: seq<Cmd>, script: Script, op: Op)
    requires op.Register?
    ensures var e := EngineRun(TimerEngine.Initial(), cmds, script);
      TimerEngine.Apply(e, op) == e <==> e.table.numTimers == MAX_TIMERS
  {
    RegistrationChangesTable(EngineRun(TimerEngine.Initial(), cmds, script), op);
  }

  lemma RegistrationChangesTable(e: TimerEngine.Engine, op: Op)
    requires e.table.WellFormed() && op.Register?
    ensures TimerEngine.Apply(e, op) == e <==> e.table.numTimers == MAX_TIMERS
  {
    var t := e.table;
    if t.numTimers < MAX_TIMERS {
      var i := FreeSlot(t, 1);
      var r := Registered(t, op, Arith.U64(TimerEngine.TimeTicks(e) + Period(op.ticks)));
      assert r.slots[i].inUse;
      assert i == t.numTimers || !t.slots[i].inUse;
      assert TimerEngine.Apply(e, op).table == r;
    }
  }

  /** The tables differ in slot `i` only, which was the first free one and now holds a timer. */
  ghost predicate TakesFirstFree(before: Table, after: Table, i: TimerId, funct: Option<Handler>) {
    && |before.slots| == |after.slots| == MAX_TIMERS
    && !before.slots[i].inUse && (forall k :: 1 <= k < i ==> before.slots[k].inUse)
    && after.slots[i].inUse && after.slots[i].funct == funct
    && forall k :: 0 <= k < MAX_TIMERS && k != i ==> after.slots[k] == before.slots[k]
  }

  /** Once all 64 slots are scanned, unregistering an inactive timer makes room for a registration if and only
      if it has the last slot; the new timer then gets the first free slot. */
  lemma OnlyTheLastSlotMakesRoom(cmds: seq<Cmd>, script: Script, id: TimerId, op: Op, e: TimerEngine.Engine,
                                 u: TimerEngine.Engine, r: TimerEngine.Engine)
    requires e == EngineRun(TimerEngine.Initial(), cmds, script) && e.table.numTimers == MAX_TIMERS
    requires !e.table.slots[id].active && op.Register?
    requires u == TimerEngine.Apply(e, Unregister(id)) && r == TimerEngine.Apply(u, op)
    ensures r != u <==> id == 63
    ensures r != u ==> exists i: TimerId :: TakesFirstFree(u.table, r.table, i, op.funct)
  {
    RegistrationChangesTable(u, op);
    if id == 63 {
      var i: TimerId := FreeSlot(u.table, 1);
      assert TakesFirstFree(u.table, r.table, i, op.funct);
    }
  }

  function Repeated(cmd: Cmd, n: nat): seq<Cmd> {
    seq(n, _ => cmd)
  }

  /** All slots below `numTimers` but the null timer's are taken and silent. */
  predicate AllTaken(t: Table) {
    |t.slots| == MAX_TIMERS && 1 <= t.numTimers <= MAX_TIMERS
    && forall k :: 1 <= k < t.numTimers ==> t.slots[k].inUse && !t.slots[k].active
  }

  lemma {:induction false} NoneFree(t: Table, i: nat)
    requires AllTaken(t) && 1 <= i <= t.numTimers
    ensures FreeSlot(t, i) == t.numTimers
    decreases t.numTimers - i
  {
    if i < t.numTimers { NoneFree(t, i + 1); }
  }

  lemma {:induction false} RegistrationsFill(e: TimerEngine.Engine, op: Op, n: nat, rest: seq<Cmd>, script: Script)
    returns (r: TimerEngine.Engine)
    requires AllTaken(e.table) && e.table.numTimers + n <= MAX_TIMERS && op.Register? && !op.active
    ensures AllTaken(r.table) && r.table.numTimers == e.table.numTimers + n
    ensures EngineRun(e, Repeated(Request(op), n) + rest, script) == EngineRun(r, rest, script)
    decreases n
  {
    var cmds := Repeated(Request(op), n) + rest;
    if n == 0 {
      assert cmds == rest;
      r := e;
    } else {
      NoneFree(e.table, 1);
      assert cmds[0] == Request(op) && cmds[1..] == Repeated(Request(op), n - 1) + rest;
      r := RegistrationsFill(TimerEngine.Apply(e, op), op, n - 1, rest, script);
    }
  }

  /** A slot below a full `numTimers` may be free all the same: 63 registrations and an unregistration. */
  lemma FullWithAFreeSlot(op: Op, script: Script)
    requires op.Register? && !op.active
    ensures var e := EngineRun(TimerEngine.Initial(), Repeated(Request(op), 63) + [Request(Unregister(1))], script);
      e.table.numTimers == MAX_TIMERS && !e.table.slots[1].inUse && TimerEngine.Apply(e, op) == e
  {
    var last := [Request(Unregister(1))];
    var r := RegistrationsFill(TimerEngine.Initial(), op, 63, last, script);
    assert last[1..] == [];
    assert EngineRun(r, last, script) == TimerEngine.Apply(r, Unregister(1));
  }
}
