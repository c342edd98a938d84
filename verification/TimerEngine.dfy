/** The state of bx_pc_system_c's timers and what each operation does to it, with the
    32-bit countdown and the machine arithmetic of the source. */
module TimerEngine {
  import opened Arith
  import opened Options
  import opened TimerTable
  import Scheduler

  datatype Engine = Engine(
    table: Table,
    currCountdown: nat,
    currCountdownPeriod: nat,
    ticksTotal: nat,
    log: seq<Call>)

  /** time_ticks(). */
  function TimeTicks(e: Engine): nat {
    U64(e.ticksTotal + U32(e.currCountdownPeriod - e.currCountdown))
  }

  /** A timer due before the current countdown ends shortens the countdown and its period alike. */
  function Skewed(e: Engine, ticks: nat): Engine {
    if ticks < e.currCountdown then
      e.(currCountdownPeriod := U32(e.currCountdownPeriod - U32(e.currCountdown - U32(ticks))),
         currCountdown := U32(ticks))
    else e
  }

  function Apply(e: Engine, op: Op): (r: Engine)
    requires e.table.WellFormed()
    ensures r.table.WellFormed() && r.log == e.log
  {
    match op
    case Register(ticks, _, active, _) =>
      if e.table.numTimers >= MAX_TIMERS then e else
      var r := e.(table := Registered(e.table, op, U64(TimeTicks(e) + Period(ticks))));
      if active then Skewed(r, Period(ticks)) else r
    case Activate(_, ticks, _) =>
      Skewed(e.(table := Activated(e.table, op, U64(TimeTicks(e) + Period(ticks)))), Period(ticks))
    case Deactivate(id) => e.(table := Deactivated(e.table, id))
    case Unregister(id) => e.(table := Unregistered(e.table, id))
  }

  function ApplyAll(e: Engine, ops: seq<Op>): (r: Engine)
    requires e.table.WellFormed()
    ensures r.table.WellFormed() && r.log == e.log
    decreases |ops|
  {
    if ops == [] then e else ApplyAll(Apply(e, ops[0]), ops[1..])
  }

  function Advance(slot: Slot, now: nat): Slot {
    if !Scheduler.IsDue(slot, now) then slot
    else if slot.continuous then slot.(timeToFire := U64(slot.timeToFire + slot.period))
    else slot.(active := false)
  }

  function Advanced(t: Table, now: nat): (r: Table)
    requires t.WellFormed()
    ensures r.WellFormed() && r.numTimers == t.numTimers
  {
    t.(slots := seq(MAX_TIMERS, i requires 0 <= i < MAX_TIMERS =>
      if i < t.numTimers then Advance(t.slots[i], now) else t.slots[i]))
  }

  /** The earliest due time among the active slots below `n`, or the largest 64-bit value. */
  function MinTimeToFire(slots: seq<Slot>, n: nat): nat
    requires n <= |slots|
  {
    if n == 0 then BIT64 - 1
    else
      var m := MinTimeToFire(slots, n - 1);
      if slots[n - 1].active && slots[n - 1].timeToFire < m then slots[n - 1].timeToFire else m
  }

  lemma {:induction false} MinTimeToFireIsLeast(slots: seq<Slot>, n: nat)
    requires n <= |slots|
    ensures var m := MinTimeToFire(slots, n);
      && (forall i :: 0 <= i < n && slots[i].active ==> m <= slots[i].timeToFire)
      && (m == BIT64 - 1 || exists i :: 0 <= i < n && slots[i].active && m == slots[i].timeToFire)
  {
    if n > 0 { MinTimeToFireIsLeast(slots, n - 1); }
  }

  lemma {:induction false} MinTimeToFirePrefix(a: seq<Slot>, b: seq<Slot>, n: nat)
    requires n <= |a| && n <= |b| && a[..n] == b[..n]
    ensures MinTimeToFire(a, n) == MinTimeToFire(b, n)
  {
    if n > 0 {
      assert a[..n][..n - 1] == a[..n - 1] && b[..n][..n - 1] == b[..n - 1];
      assert a[n - 1] == a[..n][n - 1] == b[..n][n - 1] == b[n - 1];
      MinTimeToFirePrefix(a, b, n - 1);
    }
  }

  function Invoke(e: Engine, i: nat, script: Script): (r: Engine)
    requires e.table.WellFormed() && i < MAX_TIMERS && e.table.slots[i].funct.Some?
    ensures r.table.WellFormed()
    ensures r.log == e.log + [Call(TimeTicks(e), i, e.table.slots[i].funct.value)]
  {
    var funct := e.table.slots[i].funct.value;
    var called := e.(log := e.log + [Call(TimeTicks(e), i, funct)]);
    if funct == NULL_TIMER then called else ApplyAll(called, script(called.log))
  }

  function Fire(e: Engine, due: seq<bool>, i: nat, script: Script): (r: Engine)
    requires e.table.WellFormed() && i <= |due| <= MAX_TIMERS
    ensures r.table.WellFormed()
    decreases |due| - i
  {
    if i == |due| then e
    else if due[i] && e.table.slots[i].funct.Some? then Fire(Invoke(e, i, script), due, i + 1, script)
    else Fire(e, due, i + 1, script)
  }

  /** The state when countdownEvent() starts calling: the next countdown is already set. */
  function Rebased(e: Engine): (r: Engine)
    requires e.table.WellFormed()
    ensures r.table.WellFormed() && r.table.numTimers == e.table.numTimers
  {
    var total := U64(e.ticksTotal + e.currCountdownPeriod);
    var table := Advanced(e.table, total);
    var left := U32(MinTimeToFire(table.slots, table.numTimers) - total);
    Engine(table, left, left, total, e.log)
  }

  function CountdownEvent(e: Engine, script: Script): (r: Engine)
    requires e.table.WellFormed()
    ensures r.table.WellFormed()
  {
    Fire(Rebased(e), Scheduler.Due(e.table, U64(e.ticksTotal + e.currCountdownPeriod)), 0, script)
  }

  function Tick1(e: Engine, script: Script): (r: Engine)
    requires e.table.WellFormed()
    ensures r.table.WellFormed()
  {
    var d := e.(currCountdown := U32(e.currCountdown - 1));
    if d.currCountdown == 0 then CountdownEvent(d, script) else d
  }

  /** `n` calls of tick1(). */
  function Tick1s(e: Engine, n: nat, script: Script): (r: Engine)
    requires e.table.WellFormed()
    ensures r.table.WellFormed()
    decreases n
  {
    if n == 0 then e else Tick1s(Tick1(e, script), n - 1, script)
  }

  // ----- Logs only grow -----

  lemma {:induction false} FireGrows(e: Engine, due: seq<bool>, i: nat, script: Script)
    requires e.table.WellFormed() && i <= |due| <= MAX_TIMERS
    ensures e.log <= Fire(e, due, i, script).log
    decreases |due| - i
  {
    if i < |due| {
      if due[i] && e.table.slots[i].funct.Some? {
        FireGrows(Invoke(e, i, script), due, i + 1, script);
      } else {
        FireGrows(e, due, i + 1, script);
      }
    }
  }

  lemma EventGrows(e: Engine, script: Script)
    requires e.table.WellFormed()
    ensures e.log <= CountdownEvent(e, script).log
  {
    FireGrows(Rebased(e), Scheduler.Due(e.table, U64(e.ticksTotal + e.currCountdownPeriod)), 0, script);
  }

  lemma Tick1Grows(e: Engine, script: Script)
    requires e.table.WellFormed()
    ensures e.log <= Tick1(e, script).log
  {
    EventGrows(e.(currCountdown := U32(e.currCountdown - 1)), script);
  }

  lemma {:induction false} Tick1sGrow(e: Engine, n: nat, script: Script)
    requires e.table.WellFormed()
    ensures e.log <= Tick1s(e, n, script).log
    decreases n
  {
    if n > 0 {
      Tick1Grows(e, script);
      Tick1sGrow(Tick1(e, script), n - 1, script);
    }
  }

  // ----- The invariant -----

  /** An active, scanned timer is never due before the countdown ends, nor more than `bound` ticks ahead. */
  ghost predicate SlotInv(slot: Slot, e: Engine, bound: nat) {
    slot.active ==>
      && MIN_PERIOD <= slot.period <= bound
      && e.ticksTotal + e.currCountdownPeriod <= slot.timeToFire
      && slot.timeToFire <= e.ticksTotal + (e.currCountdownPeriod - e.currCountdown) + bound
  }

  ghost predicate NullTimerInv(slot: Slot, e: Engine) {
    && slot.inUse && slot.active && slot.continuous && slot.period == NULL_TIMER_INTERVAL
    && slot.funct == Some(NULL_TIMER)
    && slot.timeToFire <= e.ticksTotal + NULL_TIMER_INTERVAL
  }

  /** Holds at call boundaries and, with currCountdown > 0, at every callback's entry. */
  ghost predicate Inv0(e: Engine, bound: nat) {
    && e.table.WellFormed()
    && NULL_TIMER_INTERVAL <= bound
    && e.currCountdown <= e.currCountdownPeriod
    && 0 < e.currCountdownPeriod
    && NullTimerInv(e.table.slots[0], e)
    && (forall i :: 0 <= i < e.table.numTimers ==> SlotInv(e.table.slots[i], e, bound))
  }

  ghost predicate Inv(e: Engine, bound: nat) {
    Inv0(e, bound) && 0 < e.currCountdown
  }

  /** No due time computed up to `now` reaches the value the source uses for "none". */
  ghost predicate Fits(now: nat, bound: nat) { now + bound < BIT64 - 1 }

  function Now(e: Engine): (r: int) {
    e.ticksTotal + e.currCountdownPeriod - e.currCountdown
  }

  /** What the naive scheduler sees of an engine: its slots, its calls and the time; no countdown. */
  function Abs(e: Engine): Scheduler.Sched
    requires e.currCountdown <= e.currCountdownPeriod
  {
    Scheduler.Sched(e.table, Now(e), e.log)
  }

  // ----- No narrowing loses anything -----

  lemma NarrowingIsExact(e: Engine, bound: nat)
    requires Inv0(e, bound) && Fits(Now(e), bound)
    ensures e.currCountdown <= e.currCountdownPeriod <= NULL_TIMER_INTERVAL
    ensures TimeTicks(e) == Now(e)
    ensures U64(e.ticksTotal + e.currCountdownPeriod) == e.ticksTotal + e.currCountdownPeriod
  {
    assert SlotInv(e.table.slots[0], e, bound);
  }

  // ----- Each operation refines the scheduler's -----

  lemma SkewIsExact(e: Engine, ticks: nat)
    requires e.currCountdown <= e.currCountdownPeriod < BIT32
    ensures Skewed(e, ticks) ==
      if ticks < e.currCountdown
      then e.(currCountdown := ticks, currCountdownPeriod := e.currCountdownPeriod - (e.currCountdown - ticks))
      else e
  {}

  /** Writing slot `i` with a timer due `ticks` from now, then skewing, keeps the invariant. */
  lemma SetTimerKeepsInv(e: Engine, i: nat, slot: Slot, numTimers: nat, ticks: nat, bound: nat)
    requires Inv(e, bound) && Fits(Now(e), bound)
    requires 1 <= i < MAX_TIMERS
    requires numTimers == e.table.numTimers || i == e.table.numTimers == numTimers - 1
    requires MIN_PERIOD <= ticks <= bound && slot.period == ticks && slot.timeToFire == Now(e) + ticks
    ensures var r := e.(table := Table(e.table.slots[i := slot], numTimers));
      && Abs(r) == Abs(e).(table := r.table)
      && (!slot.active ==> Inv(r, bound))
      && Inv(Skewed(r, ticks), bound)
      && Abs(Skewed(r, ticks)) == Abs(r)
      && Skewed(r, ticks).ticksTotal == e.ticksTotal
  {
    NarrowingIsExact(e, bound);
    var r := e.(table := Table(e.table.slots[i := slot], numTimers));
    SkewIsExact(r, ticks);
    var q := Skewed(r, ticks);
    forall k | 0 <= k < numTimers
      ensures SlotInv(r.table.slots[k], q, bound) && (!slot.active ==> SlotInv(r.table.slots[k], r, bound))
    {
      if k != i { assert SlotInv(e.table.slots[k], e, bound); }
    }
  }

  /** So does silencing slot `i`, and dropping it from the end of the scanned slots. */
  lemma SilenceKeepsInv(e: Engine, i: nat, slot: Slot, numTimers: nat, bound: nat)
    requires Inv(e, bound) && 1 <= i < MAX_TIMERS && 1 <= numTimers <= e.table.numTimers
    requires !slot.active
    ensures var r := e.(table := Table(e.table.slots[i := slot], numTimers));
      Inv(r, bound) && Abs(r) == Abs(e).(table := r.table)
  {
    var r := e.(table := Table(e.table.slots[i := slot], numTimers));
    forall k | 0 <= k < numTimers ensures SlotInv(r.table.slots[k], r, bound) {
      if k != i { assert SlotInv(e.table.slots[k], e, bound); }
    }
  }

  lemma RegisterRefines(e: Engine, op: Op, bound: nat)
    requires Inv(e, bound) && op.Register? && op.ticks <= bound && Fits(Now(e), bound)
    ensures var r := Apply(e, op);
      Inv(r, bound) && Abs(r) == Scheduler.Apply(Abs(e), op) && r.ticksTotal == e.ticksTotal
  {
    NarrowingIsExact(e, bound);
    var fire := Now(e) + Period(op.ticks);
    assert U64(TimeTicks(e) + Period(op.ticks)) == fire;
    if e.table.numTimers < MAX_TIMERS {
      var t := Registered(e.table, op, fire);
      var i := FreeSlot(e.table, 1);
      SetTimerKeepsInv(e, i, t.slots[i], t.numTimers, Period(op.ticks), bound);
    }
  }

  lemma ActivateRefines(e: Engine, op: Op, bound: nat)
    requires Inv(e, bound) && op.Activate? && op.ticks <= bound && Fits(Now(e), bound)
    ensures var r := Apply(e, op);
      Inv(r, bound) && Abs(r) == Scheduler.Apply(Abs(e), op) && r.ticksTotal == e.ticksTotal
  {
    NarrowingIsExact(e, bound);
    var fire := Now(e) + Period(op.ticks);
    assert U64(TimeTicks(e) + Period(op.ticks)) == fire;
    var t := Activated(e.table, op, fire);
    SetTimerKeepsInv(e, op.id, t.slots[op.id], t.numTimers, Period(op.ticks), bound);
  }

  /** Every request refines the scheduler's, and keeps the invariant. */
  lemma ApplyRefines(e: Engine, op: Op, bound: nat)
    requires Inv(e, bound) && OpBounded(op, bound) && Fits(Now(e), bound)
    ensures var r := Apply(e, op);
      Inv(r, bound) && Abs(r) == Scheduler.Apply(Abs(e), op) && r.ticksTotal == e.ticksTotal
  {
    match op {
      case Register(_, _, _, _) => RegisterRefines(e, op, bound);
      case Activate(_, _, _) => ActivateRefines(e, op, bound);
      case Deactivate(id) =>
        SilenceKeepsInv(e, id, e.table.slots[id].(active := false), e.table.numTimers, bound);
      case Unregister(id) =>
        var t := Unregistered(e.table, id);
        if !e.table.slots[id].active { SilenceKeepsInv(e, id, t.slots[id], t.numTimers, bound); }
    }
  }

  lemma {:induction false} ApplyAllRefines(e: Engine, ops: seq<Op>, bound: nat)
    requires Inv(e, bound) && OpsBounded(ops, bound) && Fits(Now(e), bound)
    ensures var r := ApplyAll(e, ops);
      Inv(r, bound) && Abs(r) == Scheduler.ApplyAll(Abs(e), ops) && r.ticksTotal == e.ticksTotal
    decreases |ops|
  {
    if ops != [] {
      ApplyRefines(e, ops[0], bound);
      ApplyAllRefines(Apply(e, ops[0]), ops[1..], bound);
    }
  }

  lemma LoggingKeepsInv(e: Engine, called: Engine, bound: nat)
    requires Inv(e, bound) && called == e.(log := called.log)
    ensures Inv(called, bound)
  {
    forall k | 0 <= k < e.table.numTimers ensures SlotInv(called.table.slots[k], called, bound) {
      assert SlotInv(e.table.slots[k], e, bound);
    }
  }

  lemma InvokeRefines(e: Engine, i: nat, script: Script, bound: nat)
    requires Inv(e, bound) && Fits(Now(e), bound)
    requires i < MAX_TIMERS && e.table.slots[i].funct.Some?
    requires CallsBounded(script, e.log, Invoke(e, i, script).log, bound)
    ensures var r := Invoke(e, i, script);
      Inv(r, bound) && Abs(r) == Scheduler.Invoke(Abs(e), i, script) && r.ticksTotal == e.ticksTotal
  {
    NarrowingIsExact(e, bound);
    var called := e.(log := e.log + [Call(Now(e), i, e.table.slots[i].funct.value)]);
    LoggingKeepsInv(e, called, bound);
    assert called.log[..|called.log|] == called.log;
    if e.table.slots[i].funct.value != NULL_TIMER {
      assert OpsBounded(RequestsOfLast(script, called.log[..|called.log|]), bound);
      ApplyAllRefines(called, script(called.log), bound);
    }
  }

  /** The requests of one turn and of the turns after it are among those of the whole snapshot. */
  lemma TurnBounded(e: Engine, due: seq<bool>, i: nat, script: Script, bound: nat)
    requires e.table.WellFormed() && i < |due| <= MAX_TIMERS && due[i] && e.table.slots[i].funct.Some?
    requires CallsBounded(script, e.log, Fire(e, due, i, script).log, bound)
    ensures var called := Invoke(e, i, script);
      && Fire(e, due, i, script) == Fire(called, due, i + 1, script)
      && CallsBounded(script, e.log, called.log, bound)
      && CallsBounded(script, called.log, Fire(called, due, i + 1, script).log, bound)
  {
    var called := Invoke(e, i, script);
    FireGrows(called, due, i + 1, script);
    CallsBoundedSplit(script, e.log, called.log, Fire(e, due, i, script).log, bound);
  }

  lemma {:induction false} FireRefines(e: Engine, due: seq<bool>, i: nat, script: Script, bound: nat)
    requires Inv(e, bound) && Fits(Now(e), bound) && i <= |due| <= MAX_TIMERS
    requires CallsBounded(script, e.log, Fire(e, due, i, script).log, bound)
    ensures var r := Fire(e, due, i, script);
      Inv(r, bound) && Abs(r) == Scheduler.Fire(Abs(e), due, i, script) && r.ticksTotal == e.ticksTotal
    decreases |due| - i
  {
    if i < |due| {
      if due[i] && e.table.slots[i].funct.Some? {
        TurnBounded(e, due, i, script, bound);
        InvokeRefines(e, i, script, bound);
        FireRefines(Invoke(e, i, script), due, i + 1, script, bound);
      } else {
        FireRefines(e, due, i + 1, script, bound);
      }
    }
  }

  /** Advancing agrees with the unbounded scheduler and leaves nothing due now or earlier. */
  lemma AdvanceIsExact(slot: Slot, e: Engine, bound: nat)
    requires Inv0(e, bound) && e.currCountdown == 0 && Fits(Now(e), bound) && SlotInv(slot, e, bound)
    ensures var r := Advance(slot, Now(e));
      && r == Scheduler.Advance(slot, Now(e))
      && (r.active ==> Now(e) < r.timeToFire <= Now(e) + bound && MIN_PERIOD <= r.period <= bound)
  {}

  /** When the countdown has run out, the new one is positive, fits 32 bits and overshoots no due time. */
  lemma RebasedKeepsInv(e: Engine, bound: nat)
    requires Inv0(e, bound) && e.currCountdown == 0 && Fits(Now(e), bound)
    ensures var r := Rebased(e);
      && Inv(r, bound)
      && Abs(r) == Scheduler.Sched(Scheduler.Advanced(e.table, Now(e)), Now(e), e.log)
  {
    NarrowingIsExact(e, bound);
    AdvancedIsExact(e, bound);
    var r, now := Rebased(e), Now(e);
    assert U64(e.ticksTotal + e.currCountdownPeriod) == now && r.table == Advanced(e.table, now);
    var m := MinTimeToFire(r.table.slots, r.table.numTimers);
    NextEventIsNear(r.table, now, bound, m);
    assert r.currCountdown == r.currCountdownPeriod == m - now;
    forall i | 0 <= i < r.table.numTimers ensures SlotInv(r.table.slots[i], r, bound) {
      assert AheadOf(r.table.slots[i], now, bound);
    }
  }

  /** Due after `now`, but not by more than `bound` ticks. */
  ghost predicate AheadOf(slot: Slot, now: nat, bound: nat) {
    slot.active ==> now < slot.timeToFire <= now + bound && MIN_PERIOD <= slot.period <= bound
  }

  /** After the first loop of an event every slot is that of the scheduler, and none is due now or earlier. */
  lemma AdvancedIsExact(e: Engine, bound: nat)
    requires Inv0(e, bound) && e.currCountdown == 0 && Fits(Now(e), bound)
    ensures var t := Advanced(e.table, Now(e));
      && t == Scheduler.Advanced(e.table, Now(e))
      && (forall i :: 0 <= i < t.numTimers ==> AheadOf(t.slots[i], Now(e), bound))
      && t.slots[0].(timeToFire := 0) == e.table.slots[0].(timeToFire := 0)
      && t.slots[0].timeToFire <= Now(e) + NULL_TIMER_INTERVAL
  {
    var t := Advanced(e.table, Now(e));
    forall i | 0 <= i < e.table.numTimers
      ensures t.slots[i] == Scheduler.Advance(e.table.slots[i], Now(e)) && AheadOf(t.slots[i], Now(e), bound)
    {
      AdvanceIsExact(e.table.slots[i], e, bound);
    }
    assert t.slots == Scheduler.Advanced(e.table, Now(e)).slots;
  }

  /** The next due time is ahead, and the null timer keeps it near. */
  lemma NextEventIsNear(t: Table, now: nat, bound: nat, m: nat)
    requires t.WellFormed() && m == MinTimeToFire(t.slots, t.numTimers) && now + NULL_TIMER_INTERVAL < BIT64 - 1
    requires forall i :: 0 <= i < t.numTimers ==> AheadOf(t.slots[i], now, bound)
    requires t.slots[0].active && t.slots[0].timeToFire <= now + NULL_TIMER_INTERVAL
    ensures now < m <= now + NULL_TIMER_INTERVAL && U32(m - now) == m - now
    ensures forall i :: 0 <= i < t.numTimers && t.slots[i].active ==> m <= t.slots[i].timeToFire
  {
    MinTimeToFireIsLeast(t.slots, t.numTimers);
    U32Exact(m - now);
  }

  /** Decrementing the countdown without passing an event keeps every due time ahead. */
  lemma CountdownStepKeepsInv0(e: Engine, n: nat, bound: nat)
    requires Inv(e, bound) && n <= e.currCountdown
    ensures Inv0(e.(currCountdown := e.currCountdown - n), bound)
  {
    var d := e.(currCountdown := e.currCountdown - n);
    forall i | 0 <= i < e.table.numTimers ensures SlotInv(e.table.slots[i], d, bound) {
      assert SlotInv(e.table.slots[i], e, bound);
    }
  }

  /** The event at the end of a countdown does what the scheduler does at that tick. */
  lemma EventRefines(e: Engine, script: Script, bound: nat)
    requires Inv0(e, bound) && e.currCountdown == 0 && Fits(Now(e), bound)
    requires CallsBounded(script, e.log, CountdownEvent(e, script).log, bound)
    ensures var r := CountdownEvent(e, script);
      && Inv(r, bound)
      && Abs(r) == Scheduler.Tick(Abs(e).(now := Now(e) - 1), script)
  {
    NarrowingIsExact(e, bound);
    RebasedKeepsInv(e, bound);
    FireRefines(Rebased(e), Scheduler.Due(e.table, Now(e)), 0, script, bound);
  }

  lemma QuietStep(e: Engine, script: Script, bound: nat)
    requires Inv(e, bound) && 1 < e.currCountdown && Fits(Now(e) + 1, bound)
    ensures Tick1(e, script) == e.(currCountdown := e.currCountdown - 1)
    ensures Inv(Tick1(e, script), bound)
    ensures Scheduler.Tick(Abs(e), script) == Abs(e).(now := Now(e) + 1)
  {
    NarrowingIsExact(e, bound);
    CountdownStepKeepsInv0(e, 1, bound);
    forall i | 0 <= i < e.table.numTimers ensures !Scheduler.IsDue(e.table.slots[i], Now(e) + 1) {
      assert SlotInv(e.table.slots[i], e, bound);
    }
    Scheduler.QuietTick(Abs(e), script);
  }

  /** One tick of the countdown engine is one tick of the naive scheduler. */
  lemma Tick1Refines(e: Engine, script: Script, bound: nat)
    requires Inv(e, bound) && Fits(Now(e) + 1, bound)
    requires CallsBounded(script, e.log, Tick1(e, script).log, bound)
    ensures var r := Tick1(e, script);
      Inv(r, bound) && Abs(r) == Scheduler.Tick(Abs(e), script)
  {
    if e.currCountdown == 1 {
      var d := e.(currCountdown := 0);
      assert Inv0(d, bound) by { CountdownStepKeepsInv0(e, 1, bound); }
      assert Tick1(e, script) == CountdownEvent(d, script) && Now(d) == Now(e) + 1;
      EventRefines(d, script, bound);
      assert Abs(d).(now := Now(d) - 1) == Abs(e);
    } else {
      QuietStep(e, script, bound);
    }
  }

  // ----- Runs of ticks -----

  /** After the constructor and initialize(). */
  function Initial(): Engine {
    var unused := Slot(false, 0, 0, false, false, None);
    var heartbeat := Slot(true, NULL_TIMER_INTERVAL, NULL_TIMER_INTERVAL, true, true, Some(NULL_TIMER));
    Engine(Table(seq(MAX_TIMERS, _ => unused)[0 := heartbeat], 1), NULL_TIMER_INTERVAL, NULL_TIMER_INTERVAL, 0, [])
  }

  lemma InitialInv(bound: nat)
    requires NULL_TIMER_INTERVAL <= bound
    ensures Inv(Initial(), bound)
  {}

  /** `n` ticks refine `n` ticks of the scheduler. */
  lemma {:induction false} Tick1sRefine(e: Engine, n: nat, script: Script, bound: nat)
    requires Inv(e, bound) && Fits(Now(e) + n, bound)
    requires CallsBounded(script, e.log, Tick1s(e, n, script).log, bound)
    ensures var r := Tick1s(e, n, script);
      Inv(r, bound) && Abs(r) == Scheduler.Ticks(Abs(e), n, script)
    decreases n
  {
    if n > 0 {
      var d := Tick1(e, script);
      Tick1Grows(e, script);
      Tick1sGrow(d, n - 1, script);
      CallsBoundedSplit(script, e.log, d.log, Tick1s(e, n, script).log, bound);
      Tick1Refines(e, script, bound);
      assert Now(d) == Now(e) + 1;
      Tick1sRefine(d, n - 1, script, bound);
    }
  }

  /** time_ticks() advances by exactly the number of ticks. */
  lemma TimeAdvances(e: Engine, n: nat, script: Script, bound: nat)
    requires Inv(e, bound) && Fits(Now(e) + n, bound)
    requires CallsBounded(script, e.log, Tick1s(e, n, script).log, bound)
    ensures TimeTicks(Tick1s(e, n, script)) == TimeTicks(e) + n
  {
    Tick1sRefine(e, n, script, bound);
    NarrowingIsExact(e, bound);
    NarrowingIsExact(Tick1s(e, n, script), bound);
  }

  /** Fewer ticks than the countdown call nothing and change nothing else. */
  lemma {:induction false} ShortBatch(e: Engine, n: nat, script: Script, bound: nat)
    requires Inv(e, bound) && n < e.currCountdown && Fits(Now(e) + n, bound)
    ensures Tick1s(e, n, script) == e.(currCountdown := e.currCountdown - n)
    decreases n
  {
    if n > 0 {
      var d := e.(currCountdown := e.currCountdown - 1);
      assert Tick1(e, script) == d && Inv(d, bound) by { QuietStep(e, script, bound); }
      assert Now(d) == Now(e) + 1;
      ShortBatch(d, n - 1, script, bound);
    }
  }

  lemma {:induction false} Tick1sCompose(e: Engine, m: nat, n: nat, script: Script)
    requires e.table.WellFormed()
    ensures Tick1s(e, m + n, script) == Tick1s(Tick1s(e, m, script), n, script)
    decreases m
  {
    if m > 0 { Tick1sCompose(Tick1(e, script), m - 1, n, script); }
  }

  lemma LastStep(e: Engine, n: nat, script: Script)
    requires e.table.WellFormed() && e.currCountdown == 1 && 0 < n
    ensures Tick1s(e, n, script) == Tick1s(CountdownEvent(e.(currCountdown := 0), script), n - 1, script)
  {
    assert Tick1(e, script) == CountdownEvent(e.(currCountdown := 0), script);
  }

  /** Running the countdown out at once and serving the event is the same as getting there tick by tick. */
  lemma BatchedEvent(e: Engine, n: nat, script: Script, bound: nat)
    requires Inv(e, bound) && e.currCountdown <= n && Fits(Now(e) + n, bound)
    ensures Tick1s(e, n, script)
         == Tick1s(CountdownEvent(e.(currCountdown := 0), script), n - e.currCountdown, script)
  {
    var c := e.currCountdown;
    var d := e.(currCountdown := 1);
    Tick1sCompose(e, c - 1, n - (c - 1), script);
    assert Tick1s(e, c - 1, script) == d by { ShortBatch(e, c - 1, script, bound); }
    LastStep(d, n - (c - 1), script);
    assert d.(currCountdown := 0) == e.(currCountdown := 0);
  }

  /** The requests of the event at the end of the countdown and of the ticks after it are among those of the
      whole batch. */
  lemma BatchBounded(e: Engine, n: nat, script: Script, bound: nat)
    requires Inv(e, bound) && e.currCountdown <= n && Fits(Now(e) + n, bound)
    requires CallsBounded(script, e.log, Tick1s(e, n, script).log, bound)
    ensures var r := CountdownEvent(e.(currCountdown := 0), script);
      && Tick1s(e, n, script) == Tick1s(r, n - e.currCountdown, script)
      && CallsBounded(script, e.log, r.log, bound)
      && CallsBounded(script, r.log, Tick1s(e, n, script).log, bound)
  {
    var r := CountdownEvent(e.(currCountdown := 0), script);
    BatchedEvent(e, n, script, bound);
    EventGrows(e.(currCountdown := 0), script);
    Tick1sGrow(r, n - e.currCountdown, script);
    CallsBoundedSplit(script, e.log, r.log, Tick1s(e, n, script).log, bound);
  }

  /** Slots that are not due may be passed over. */
  lemma {:induction false} FireSkips(e: Engine, due: seq<bool>, i: nat, j: nat, script: Script)
    requires e.table.WellFormed() && i <= j <= |due| <= MAX_TIMERS
    requires forall k :: i <= k < j ==> !due[k]
    ensures Fire(e, due, i, script) == Fire(e, due, j, script)
    decreases j - i
  {
    if i < j { FireSkips(e, due, i + 1, j, script); }
  }
}
