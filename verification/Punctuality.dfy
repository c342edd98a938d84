/** A timer that is left alone: a continuous one is called at multiples of its period, a one-shot timer once
    and a deactivated one not at all, wherever in a run that begins and however time is batched. */
module Punctuality {
  import opened Options
  import opened TimerTable
  import opened TimerTheorems
  import TimerEngine
  import Scheduler
  import Arith

  /** What a registered timer is about to do. */
  datatype Kind = Idle | OneShot | Repeating

  function KindOf(slot: Slot): Kind {
    if !slot.active then Idle else if slot.continuous then Repeating else OneShot
  }

  /** The request changes what timer `id` does. Deactivating an idle timer does not, and unregistering an
      active one is refused; a one-shot timer becomes idle when it fires. */
  predicate Touches(op: Op, id: TimerId, kind: Kind) {
    match op
    case Register(_, _, _, _) => false
    case Activate(i, _, _) => i == id
    case Deactivate(i) => i == id && !kind.Idle?
    case Unregister(i) => i == id && !kind.Repeating?
  }

  ghost predicate OpsSpare(ops: seq<Op>, id: TimerId, kind: Kind) {
    forall k :: 0 <= k < |ops| ==> !Touches(ops[k], id, kind)
  }

  ghost predicate CmdsSpare(cmds: seq<Cmd>, id: TimerId, kind: Kind) {
    forall k :: 0 <= k < |cmds| && cmds[k].Request? ==> !Touches(cmds[k].op, id, kind)
  }

  /** None of the callbacks called after `from` and up to `log` touches timer `id`. */
  ghost predicate CallsSpare(script: Script, from: seq<Call>, log: seq<Call>, id: TimerId, kind: Kind) {
    forall k :: |from| < k <= |log| ==> OpsSpare(RequestsOfLast(script, log[..k]), id, kind)
  }

  lemma CallsSpareSplit(script: Script, from: seq<Call>, mid: seq<Call>, log: seq<Call>, id: TimerId, kind: Kind)
    requires from <= mid <= log && CallsSpare(script, from, log, id, kind)
    ensures CallsSpare(script, from, mid, id, kind) && CallsSpare(script, mid, log, id, kind)
  {
    assert forall k :: 0 <= k <= |mid| ==> mid[..k] == log[..k];
  }

  /** The ticks at which slot `id` was called. */
  function CallsTo(log: seq<Call>, id: nat): seq<nat> {
    if log == [] then []
    else
      var last := log[|log| - 1];
      var before := CallsTo(log[..|log| - 1], id);
      if last.slot == id then before + [last.tick] else before
  }

  // ----- A slot nobody touches -----

  /** Slot `id` is registered and holds `slot`. */
  ghost predicate Holds(t: Table, id: TimerId, slot: Slot) {
    t.WellFormed() && id < t.numTimers && t.slots[id] == slot && slot.inUse
  }

  /** Doing what `kind` says, or done with it. */
  predicate Doing(slot: Slot, kind: Kind) {
    KindOf(slot) == kind || (kind.OneShot? && !slot.active)
  }

  lemma ApplyKeeps(s: Scheduler.Sched, op: Op, id: TimerId, slot: Slot, kind: Kind)
    requires Holds(s.table, id, slot) && Doing(slot, kind) && !Touches(op, id, kind)
    ensures Holds(Scheduler.Apply(s, op).table, id, slot)
  {}

  lemma {:induction false} ApplyAllKeeps(s: Scheduler.Sched, ops: seq<Op>, id: TimerId, slot: Slot, kind: Kind)
    requires Holds(s.table, id, slot) && Doing(slot, kind) && OpsSpare(ops, id, kind)
    ensures Holds(Scheduler.ApplyAll(s, ops).table, id, slot)
    decreases |ops|
  {
    if ops != [] {
      ApplyKeeps(s, ops[0], id, slot, kind);
      ApplyAllKeeps(Scheduler.Apply(s, ops[0]), ops[1..], id, slot, kind);
    }
  }

  lemma InvokeKeeps(s: Scheduler.Sched, i: nat, script: Script, id: TimerId, slot: Slot, kind: Kind)
    requires Holds(s.table, id, slot) && Doing(slot, kind) && i < MAX_TIMERS && s.table.slots[i].funct.Some?
    requires CallsSpare(script, s.log, Scheduler.Invoke(s, i, script).log, id, kind)
    ensures var r := Scheduler.Invoke(s, i, script);
      && Holds(r.table, id, slot)
      && CallsTo(r.log, id) == if i == id then CallsTo(s.log, id) + [s.now] else CallsTo(s.log, id)
  {
    var funct := s.table.slots[i].funct.value;
    var called := s.(log := s.log + [Call(s.now, i, funct)]);
    assert called.log[..|s.log|] == s.log;
    if funct != NULL_TIMER {
      assert called.log[..|called.log|] == called.log;
      assert OpsSpare(RequestsOfLast(script, called.log[..|called.log|]), id, kind);
      ApplyAllKeeps(called, script(called.log), id, slot, kind);
    }
  }

  /** Slot `id` is flagged in a snapshot served from slot `turn` on. */
  predicate TurnToCome(due: seq<bool>, turn: nat, id: TimerId) {
    turn <= id < |due| && due[id]
  }

  /** Serving a snapshot calls slot `id` exactly if it is flagged and still to come, and has a function. */
  lemma {:induction false} FireKeeps(s: Scheduler.Sched, due: seq<bool>, i: nat, script: Script,
                                     id: TimerId, slot: Slot, kind: Kind)
    requires Holds(s.table, id, slot) && Doing(slot, kind) && i <= |due| <= MAX_TIMERS
    requires CallsSpare(script, s.log, Scheduler.Fire(s, due, i, script).log, id, kind)
    ensures var r := Scheduler.Fire(s, due, i, script);
      && Holds(r.table, id, slot)
      && CallsTo(r.log, id)
         == if TurnToCome(due, i, id) && slot.funct.Some? then CallsTo(s.log, id) + [s.now] else CallsTo(s.log, id)
    decreases |due| - i
  {
    if i == |due| {
    } else if due[i] && s.table.slots[i].funct.Some? {
      var called := Scheduler.Invoke(s, i, script);
      Scheduler.FireGrows(called, due, i + 1, script);
      CallsSpareSplit(script, s.log, called.log, Scheduler.Fire(s, due, i, script).log, id, kind);
      InvokeKeeps(s, i, script, id, slot, kind);
      FireKeeps(called, due, i + 1, script, id, slot, kind);
    } else {
      FireKeeps(s, due, i + 1, script, id, slot, kind);
    }
  }

  /** One tick calls slot `id` exactly if it falls due then, and moves it on or switches it off. */
  lemma TickKeeps(s: Scheduler.Sched, script: Script, id: TimerId, slot: Slot, kind: Kind)
    requires Holds(s.table, id, slot) && Doing(slot, kind)
    requires CallsSpare(script, s.log, Scheduler.Tick(s, script).log, id, kind)
    ensures var r, now := Scheduler.Tick(s, script), s.now + 1;
      && Holds(r.table, id, Scheduler.Advance(slot, now))
      && CallsTo(r.log, id)
         == if Scheduler.IsDue(slot, now) && slot.funct.Some? then CallsTo(s.log, id) + [now] else CallsTo(s.log, id)
  {
    var now := s.now + 1;
    var a := Scheduler.Sched(Scheduler.Advanced(s.table, now), now, s.log);
    FireKeeps(a, Scheduler.Due(s.table, now), 0, script, id, Scheduler.Advance(slot, now), kind);
  }

  // ----- What is expected of it -----

  /** The first `k` due times of a timer with period `p` started at `t0`. */
  function DueTimes(t0: nat, p: nat, k: nat): seq<nat> {
    seq(k, j requires 0 <= j < k => t0 + (j + 1) * p)
  }

  /** The due times up to `now` of a timer that is due at `fire` only. */
  function Once(fire: nat, now: nat): seq<nat> {
    if fire <= now then [fire] else []
  }

  /** How often a timer with period `p` started at `t0` falls due up to `now`, and when it next does. */
  function TimesDue(t0: nat, p: nat, now: nat): nat
    requires 1 <= p && t0 <= now
  {
    (now - t0) / p
  }

  function NextDue(t0: nat, p: nat, now: nat): nat
    requires 1 <= p && t0 <= now
  {
    t0 + (TimesDue(t0, p, now) + 1) * p
  }

  /** The slot is idle, or was started at `t0`. */
  predicate Begun(slot: Slot, t0: nat) {
    slot.active ==> 1 <= slot.period && slot.timeToFire == t0 + slot.period
  }

  /** What the slot holds at `now` if nobody touched it since `t0`. */
  function Later(slot: Slot, t0: nat, now: nat): Slot
    requires Begun(slot, t0) && t0 <= now
  {
    match KindOf(slot)
    case Idle => slot
    case OneShot => if now < slot.timeToFire then slot else slot.(active := false)
    case Repeating => slot.(timeToFire := NextDue(t0, slot.period, now))
  }

  /** When it is called meanwhile. */
  function DueUpTo(slot: Slot, t0: nat, now: nat): seq<nat>
    requires Begun(slot, t0) && t0 <= now
  {
    if slot.funct == None then []
    else match KindOf(slot)
      case Idle => []
      case OneShot => Once(slot.timeToFire, now)
      case Repeating => DueTimes(t0, slot.period, TimesDue(t0, slot.period, now))
  }

  lemma ScheduleStep(t0: nat, p: nat, now: nat, base: seq<nat>)
    requires 1 <= p && t0 <= now
    ensures var fire, k, k' := NextDue(t0, p, now), TimesDue(t0, p, now), TimesDue(t0, p, now + 1);
      && now < fire
      && NextDue(t0, p, now + 1) == (if now + 1 == fire then fire + p else fire)
      && base + DueTimes(t0, p, k')
         == if now + 1 == fire then base + DueTimes(t0, p, k) + [now + 1] else base + DueTimes(t0, p, k)
  {
    var k := TimesDue(t0, p, now);
    Arith.DivStep(now - t0, p);
    assert (k + 2) * p == (k + 1) * p + p;
    assert base + DueTimes(t0, p, k + 1) == base + DueTimes(t0, p, k) + [t0 + (k + 1) * p];
  }

  /** One tick of it. */
  lemma PlanStep(slot: Slot, t0: nat, now: nat, base: seq<nat>)
    requires Begun(slot, t0) && t0 <= now
    ensures var held := Later(slot, t0, now);
      && Scheduler.Advance(held, now + 1) == Later(slot, t0, now + 1) && held.funct == slot.funct
      && base + DueUpTo(slot, t0, now + 1)
         == if Scheduler.IsDue(held, now + 1) && slot.funct.Some?
            then base + DueUpTo(slot, t0, now) + [now + 1] else base + DueUpTo(slot, t0, now)
  {
    match KindOf(slot)
    case Idle =>
    case OneShot =>
      assert now + 1 == slot.timeToFire ==> base + [] + [now + 1] == base + [now + 1];
    case Repeating => ScheduleStep(t0, slot.period, now, base);
  }

  /** Untouched since `t0`, slot `id` was called exactly when expected, after the calls `base` it had before. */
  ghost predicate OnPlan(s: Scheduler.Sched, id: TimerId, slot: Slot, t0: nat, base: seq<nat>) {
    && t0 <= s.now && Begun(slot, t0)
    && Holds(s.table, id, Later(slot, t0, s.now))
    && CallsTo(s.log, id) == base + DueUpTo(slot, t0, s.now)
  }

  lemma TickKeepsPlan(s: Scheduler.Sched, script: Script, id: TimerId, slot: Slot, t0: nat, base: seq<nat>)
    requires OnPlan(s, id, slot, t0, base)
    requires CallsSpare(script, s.log, Scheduler.Tick(s, script).log, id, KindOf(slot))
    ensures OnPlan(Scheduler.Tick(s, script), id, slot, t0, base)
  {
    PlanStep(slot, t0, s.now, base);
    TickKeeps(s, script, id, Later(slot, t0, s.now), KindOf(slot));
  }

  lemma {:induction false} TicksKeepPlan(s: Scheduler.Sched, n: nat, script: Script,
                                         id: TimerId, slot: Slot, t0: nat, base: seq<nat>)
    requires OnPlan(s, id, slot, t0, base)
    requires CallsSpare(script, s.log, Scheduler.Ticks(s, n, script).log, id, KindOf(slot))
    ensures OnPlan(Scheduler.Ticks(s, n, script), id, slot, t0, base)
    decreases n
  {
    if n > 0 {
      var next := Scheduler.Tick(s, script);
      TicksSpareSplit(s, n, script, id, KindOf(slot));
      TickKeepsPlan(s, script, id, slot, t0, base);
      TicksKeepPlan(next, n - 1, script, id, slot, t0, base);
    }
  }

  lemma TicksSpareSplit(s: Scheduler.Sched, n: nat, script: Script, id: TimerId, kind: Kind)
    requires s.WellFormed() && n > 0
    requires CallsSpare(script, s.log, Scheduler.Ticks(s, n, script).log, id, kind)
    ensures var next := Scheduler.Tick(s, script);
      && CallsSpare(script, s.log, next.log, id, kind)
      && CallsSpare(script, next.log, Scheduler.Ticks(next, n - 1, script).log, id, kind)
  {
    var next := Scheduler.Tick(s, script);
    Scheduler.TickGrows(s, script);
    Scheduler.TicksGrow(next, n - 1, script);
    CallsSpareSplit(script, s.log, next.log, Scheduler.Ticks(s, n, script).log, id, kind);
  }

  lemma StepKeepsPlan(s: Scheduler.Sched, cmd: Cmd, script: Script,
                      id: TimerId, slot: Slot, t0: nat, base: seq<nat>)
    requires OnPlan(s, id, slot, t0, base)
    requires CallsSpare(script, s.log, SchedulerStep(s, cmd, script).log, id, KindOf(slot))
    requires cmd.Request? ==> !Touches(cmd.op, id, KindOf(slot))
    ensures OnPlan(SchedulerStep(s, cmd, script), id, slot, t0, base)
  {
    match cmd
    case Request(op) => ApplyKeeps(s, op, id, Later(slot, t0, s.now), KindOf(slot));
    case Tick1 => TickKeepsPlan(s, script, id, slot, t0, base);
    case Tickn(n) => TicksKeepPlan(s, n, script, id, slot, t0, base);
  }

  lemma {:induction false} RunKeepsPlan(s: Scheduler.Sched, cmds: seq<Cmd>, script: Script,
                                        id: TimerId, slot: Slot, t0: nat, base: seq<nat>)
    requires OnPlan(s, id, slot, t0, base) && CmdsSpare(cmds, id, KindOf(slot))
    requires CallsSpare(script, s.log, SchedulerRun(s, cmds, script).log, id, KindOf(slot))
    ensures OnPlan(SchedulerRun(s, cmds, script), id, slot, t0, base)
    decreases |cmds|
  {
    if cmds != [] {
      var next := SchedulerStep(s, cmds[0], script);
      SchedulerStepGrows(s, cmds[0], script);
      SchedulerRunGrows(next, cmds[1..], script);
      CallsSpareSplit(script, s.log, next.log, SchedulerRun(s, cmds, script).log, id, KindOf(slot));
      StepKeepsPlan(s, cmds[0], script, id, slot, t0, base);
      RunKeepsPlan(next, cmds[1..], script, id, slot, t0, base);
    }
  }

  // ----- The moments of a run -----

  /** A moment between two requests or calls: the requests still to be made by the device or callback at
      work, the snapshot being served and the slot whose turn is next, and the commands still to come. */
  datatype Moment = Moment(s: Scheduler.Sched, ops: seq<Op>, due: seq<bool>, turn: nat, cmds: seq<Cmd>)

  ghost predicate Sound(m: Moment) {
    m.s.WellFormed() && m.turn <= |m.due| <= MAX_TIMERS
  }

  function Begin(s: Scheduler.Sched, cmds: seq<Cmd>): Moment {
    Moment(s, [], [], 0, cmds)
  }

  /** One request, one turn of the snapshot, or the start of one command. */
  function Next(m: Moment, script: Script): (r: Moment)
    requires Sound(m)
    ensures Sound(r)
  {
    if m.ops != [] then m.(s := Scheduler.Apply(m.s, m.ops[0]), ops := m.ops[1..])
    else if m.turn < |m.due| then NextTurn(m, script)
    else if m.cmds != [] then NextCommand(m)
    else m
  }

  function NextTurn(m: Moment, script: Script): (r: Moment)
    requires Sound(m) && m.turn < |m.due|
    ensures Sound(r)
  {
    var funct := m.s.table.slots[m.turn].funct;
    if m.due[m.turn] && funct.Some? then
      var log := m.s.log + [Call(m.s.now, m.turn, funct.value)];
      m.(s := m.s.(log := log), ops := if funct.value == NULL_TIMER then [] else script(log), turn := m.turn + 1)
    else m.(turn := m.turn + 1)
  }

  function NextCommand(m: Moment): (r: Moment)
    requires Sound(m) && m.cmds != []
    ensures Sound(r)
  {
    var rest := m.cmds[1..];
    match m.cmds[0]
    case Request(op) => Moment(m.s, [op], [], 0, rest)
    case Tick1 =>
      var now := m.s.now + 1;
      Moment(Scheduler.Sched(Scheduler.Advanced(m.s.table, now), now, m.s.log), [],
             Scheduler.Due(m.s.table, now), 0, rest)
    case Tickn(n) => Moment(m.s, [], [], 0, if n == 0 then rest else [Tick1, Tickn(n - 1)] + rest)
  }

  function After(m: Moment, n: nat, script: Script): (r: Moment)
    requires Sound(m)
    ensures Sound(r)
  {
    if n == 0 then m else Next(After(m, n - 1, script), script)
  }

  /** Where the run ends from here. */
  function End(m: Moment, script: Script): Scheduler.Sched
    requires Sound(m)
  {
    SchedulerRun(Scheduler.Fire(Scheduler.ApplyAll(m.s, m.ops), m.due, m.turn, script), m.cmds, script)
  }

  lemma NextKeepsEnd(m: Moment, script: Script)
    requires Sound(m)
    ensures End(Next(m, script), script) == End(m, script)
  {
    if m.ops == [] && m.turn == |m.due| && m.cmds != [] {
      CommandKeepsEnd(m, script);
    }
  }

  lemma TicknIsTicks(s: Scheduler.Sched, n: nat, rest: seq<Cmd>, script: Script)
    requires s.WellFormed() && n > 0
    ensures SchedulerRun(s, [Tick1, Tickn(n - 1)] + rest, script)
         == SchedulerRun(Scheduler.Ticks(s, n, script), rest, script)
  {
    var cmds, t := [Tick1, Tickn(n - 1)] + rest, Scheduler.Tick(s, script);
    assert cmds[1..] == [Tickn(n - 1)] + rest && cmds[1..][1..] == rest;
    assert SchedulerRun(s, cmds, script) == SchedulerRun(t, cmds[1..], script);
  }

  lemma RequestKeepsEnd(m: Moment, op: Op, rest: seq<Cmd>, script: Script)
    requires Sound(m) && m.ops == [] && m.turn == |m.due| && m.cmds == [Request(op)] + rest
    ensures End(NextCommand(m), script) == End(m, script)
  {
    var s, next := Scheduler.Apply(m.s, op), NextCommand(m);
    assert m.cmds[1..] == rest && next.ops[1..] == [];
    assert Scheduler.ApplyAll(m.s, next.ops) == Scheduler.ApplyAll(s, next.ops[1..]) == s;
    Scheduler.FireNothing(s, next.due, next.turn, script);
  }

  lemma TicknKeepsEnd(m: Moment, n: nat, rest: seq<Cmd>, script: Script)
    requires Sound(m) && m.ops == [] && m.turn == |m.due| && m.cmds == [Tickn(n)] + rest
    ensures End(NextCommand(m), script) == End(m, script)
  {
    assert m.cmds[1..] == rest;
    assert End(m, script) == SchedulerRun(m.s, m.cmds, script);
    if n > 0 { TicknIsTicks(m.s, n, rest, script); }
  }

  lemma CommandKeepsEnd(m: Moment, script: Script)
    requires Sound(m) && m.ops == [] && m.turn == |m.due| && m.cmds != []
    ensures End(NextCommand(m), script) == End(m, script)
  {
    var rest := m.cmds[1..];
    match m.cmds[0] {
      case Request(op) => RequestKeepsEnd(m, op, rest, script);
      case Tick1 =>
      case Tickn(n) => TicknKeepsEnd(m, n, rest, script);
    }
  }

  /** Every moment of a run leads to its end. */
  lemma {:induction false} MomentsLeadToTheEnd(s: Scheduler.Sched, cmds: seq<Cmd>, n: nat, script: Script)
    requires s.WellFormed()
    ensures End(After(Begin(s, cmds), n, script), script) == SchedulerRun(s, cmds, script)
  {
    if n == 0 {
      BeginLeadsToTheEnd(s, cmds, script);
    } else {
      MomentsLeadToTheEnd(s, cmds, n - 1, script);
      NextKeepsEnd(After(Begin(s, cmds), n - 1, script), script);
    }
  }

  lemma BeginLeadsToTheEnd(s: Scheduler.Sched, cmds: seq<Cmd>, script: Script)
    requires s.WellFormed()
    ensures End(Begin(s, cmds), script) == SchedulerRun(s, cmds, script)
  {
    var m := Begin(s, cmds);
    assert Scheduler.ApplyAll(s, m.ops) == s;
    Scheduler.FireNothing(s, m.due, m.turn, script);
  }

  // ----- Left alone from any moment on -----

  /** From this moment on, in a run that makes the calls of `log`, nobody touches timer `id`: neither whoever
      is at work, nor a callback called from now on, nor a command still to come. */
  ghost predicate LeftAlone(m: Moment, id: TimerId, kind: Kind, log: seq<Call>, script: Script) {
    OpsSpare(m.ops, id, kind) && CallsSpare(script, m.s.log, log, id, kind) && CmdsSpare(m.cmds, id, kind)
  }

  /** An untouched slot is on plan once the snapshot being served is finished. */
  lemma PlanBegins(s: Scheduler.Sched, id: TimerId, slot: Slot, base: seq<nat>)
    requires Holds(s.table, id, slot) && Begun(slot, s.now) && CallsTo(s.log, id) == base
    ensures OnPlan(s, id, slot, s.now, base)
  {
    if slot.active { assert TimesDue(s.now, slot.period, s.now) == 0; }
    assert DueUpTo(slot, s.now, s.now) == [] && base + [] == base;
  }

  /** What the calls of slot `id` are by the end: those it had, one at `t0` if the slot is flagged in the
      snapshot being served with its turn to come, and the expected ones. */
  function CallsByEnd(m: Moment, id: TimerId, slot: Slot, end: nat): seq<nat>
    requires Begun(slot, m.s.now) && m.s.now <= end
  {
    CallsTo(m.s.log, id) + (if TurnToCome(m.due, m.turn, id) && slot.funct.Some? then [m.s.now] else [])
      + DueUpTo(slot, m.s.now, end)
  }

  lemma RepeatingPlan(m: Moment, id: TimerId, slot: Slot, p: nat, t0: nat, t: nat, calls: seq<nat>)
    requires KindOf(slot) == Repeating && slot.funct.Some? && slot.period == p
    requires Begun(slot, t0) && t0 == m.s.now <= t && calls == CallsByEnd(m, id, slot, t)
    ensures calls
         == CallsTo(m.s.log, id) + (if TurnToCome(m.due, m.turn, id) then [t0] else [])
            + DueTimes(t0, p, TimesDue(t0, p, t))
    ensures |calls| == |CallsTo(m.s.log, id)| + TimesDue(t0, p, t) <==> !TurnToCome(m.due, m.turn, id)
  {}

  lemma OneShotPlan(m: Moment, id: TimerId, slot: Slot, p: nat, t0: nat, t: nat, calls: seq<nat>)
    requires KindOf(slot) == OneShot && slot.funct.Some? && slot.period == p
    requires Begun(slot, t0) && t0 == m.s.now <= t && calls == CallsByEnd(m, id, slot, t)
    ensures calls
         == CallsTo(m.s.log, id) + (if TurnToCome(m.due, m.turn, id) then [t0] else [])
            + Once(t0 + p, t)
  {}

  lemma IdlePlan(m: Moment, id: TimerId, slot: Slot, t0: nat, t: nat)
    requires KindOf(slot) == Idle && Begun(slot, t0) && t0 == m.s.now <= t
    ensures CallsByEnd(m, id, slot, t)
         == CallsTo(m.s.log, id) + if TurnToCome(m.due, m.turn, id) && slot.funct.Some? then [t0] else []
  {
    var before := CallsTo(m.s.log, id) + if TurnToCome(m.due, m.turn, id) && slot.funct.Some? then [t0] else [];
    assert before + [] == before;
  }

  lemma {:induction false} LeftAloneFollowsPlan(m: Moment, id: TimerId, slot: Slot, end: Scheduler.Sched,
                                                script: Script)
    requires Sound(m) && Holds(m.s.table, id, slot) && Begun(slot, m.s.now) && end == End(m, script)
    requires LeftAlone(m, id, KindOf(slot), end.log, script)
    ensures end.now == m.s.now + Elapsed(m.cmds)
    ensures CallsTo(end.log, id) == CallsByEnd(m, id, slot, end.now)
  {
    var kind, t0 := KindOf(slot), m.s.now;
    ApplyAllKeeps(m.s, m.ops, id, slot, kind);
    var applied := Scheduler.ApplyAll(m.s, m.ops);
    var served := Scheduler.Fire(applied, m.due, m.turn, script);
    Scheduler.FireGrows(applied, m.due, m.turn, script);
    SchedulerRunGrows(served, m.cmds, script);
    CallsSpareSplit(script, m.s.log, served.log, end.log, id, kind);
    FireKeeps(applied, m.due, m.turn, script, id, slot, kind);
    PlanBegins(served, id, slot, CallsTo(served.log, id));
    RunKeepsPlan(served, m.cmds, script, id, slot, t0, CallsTo(served.log, id));
    assert CallsTo(m.s.log, id) + [] == CallsTo(m.s.log, id);
  }

  /** The same from the moment `m` of a run at which a request is about to be made. */
  lemma {:induction false} SchedulerFollowsPlan(s: Scheduler.Sched, cmds: seq<Cmd>, n: nat, m: Moment,
      id: TimerId, slot: Slot, end: Scheduler.Sched, script: Script)
    requires s.WellFormed() && m == After(Begin(s, cmds), n, script) && end == SchedulerRun(s, cmds, script)
    requires m.ops != [] && Holds(Scheduler.Apply(m.s, m.ops[0]).table, id, slot) && Begun(slot, m.s.now)
    requires LeftAlone(Next(m, script), id, KindOf(slot), end.log, script)
    ensures end.now == m.s.now + Elapsed(m.cmds)
    ensures CallsTo(end.log, id) == CallsByEnd(m, id, slot, end.now)
  {
    MomentsLeadToTheEnd(s, cmds, n, script);
    NextKeepsEnd(m, script);
    LeftAloneFollowsPlan(Next(m, script), id, slot, end, script);
  }

  /** And of the countdown engine. */
  lemma {:induction false} EngineFollowsPlan(e: TimerEngine.Engine, cmds: seq<Cmd>, n: nat, m: Moment,
      id: TimerId, slot: Slot, end: TimerEngine.Engine, script: Script, bound: nat)
    requires CanRun(e, cmds, script, bound) && m == After(Begin(TimerEngine.Abs(e), cmds), n, script)
    requires end == EngineRun(e, cmds, script) && m.ops != []
    requires Holds(Scheduler.Apply(m.s, m.ops[0]).table, id, slot) && Begun(slot, m.s.now)
    requires LeftAlone(Next(m, script), id, KindOf(slot), end.log, script)
    ensures TimerEngine.TimeTicks(end) == m.s.now + Elapsed(m.cmds)
    ensures CallsTo(end.log, id) == CallsByEnd(m, id, slot, m.s.now + Elapsed(m.cmds))
  {
    RunRefines(e, cmds, script, bound);
    EndFits(e, cmds, script, bound);
    SchedulerFollowsPlan(TimerEngine.Abs(e), cmds, n, m, id, slot, TimerEngine.Abs(end), script);
  }

  lemma {:induction false} EndFits(e: TimerEngine.Engine, cmds: seq<Cmd>, script: Script, bound: nat)
    requires CanRun(e, cmds, script, bound)
    ensures var r := EngineRun(e, cmds, script);
      TimerEngine.Inv(r, bound) && TimerEngine.TimeTicks(r) == TimerEngine.Abs(r).now
  {
    RunRefines(e, cmds, script, bound);
    var r := EngineRun(e, cmds, script);
    TimerEngine.NarrowingIsExact(r, bound);
  }

  // ----- Started, or deactivated -----

  ghost predicate Registered(t: Table, id: TimerId) {
    t.WellFormed() && id < t.numTimers && t.slots[id].inUse
  }

  /** The request starts slot `id` as a timer of period `p`: an activation of a registered timer, or the
      registration of an active one. */
  ghost predicate Starts(s: Scheduler.Sched, op: Op, id: TimerId, p: nat, continuous: bool)
    requires s.WellFormed()
  {
    match op
    case Activate(i, ticks, cont) =>
      i == id && cont == continuous && p == Period(ticks) && Registered(s.table, id) && s.table.slots[id].funct.Some?
    case Register(ticks, cont, active, funct) =>
      cont == continuous && active && funct.Some? && p == Period(ticks)
      && s.table.numTimers < MAX_TIMERS && FreeSlot(s.table, 1) == id
    case _ => false
  }

  lemma StartsSlot(s: Scheduler.Sched, op: Op, id: TimerId, p: nat, continuous: bool) returns (slot: Slot)
    requires s.WellFormed() && Starts(s, op, id, p, continuous)
    ensures Holds(Scheduler.Apply(s, op).table, id, slot) && Begun(slot, s.now)
    ensures slot.period == p && slot.timeToFire == s.now + p
    ensures KindOf(slot) == (if continuous then Repeating else OneShot) && slot.funct.Some?
  {
    slot := Scheduler.Apply(s, op).table.slots[id];
  }

  lemma StartedFollowsPlan(e: TimerEngine.Engine, cmds: seq<Cmd>, n: nat, m: Moment, id: TimerId, p: nat,
                           continuous: bool, t: nat, end: TimerEngine.Engine, script: Script, bound: nat)
    returns (slot: Slot)
    requires CanRun(e, cmds, script, bound) && m == After(Begin(TimerEngine.Abs(e), cmds), n, script)
    requires m.ops != [] && Starts(m.s, m.ops[0], id, p, continuous) && end == EngineRun(e, cmds, script)
    requires LeftAlone(Next(m, script), id, if continuous then Repeating else OneShot, end.log, script)
    requires t == TimerEngine.TimeTicks(end)
    ensures KindOf(slot) == (if continuous then Repeating else OneShot) && slot.funct.Some?
    ensures Begun(slot, m.s.now) && slot.period == p
    ensures t == m.s.now + Elapsed(m.cmds) && CallsTo(end.log, id) == CallsByEnd(m, id, slot, t)
  {
    slot := StartsSlot(m.s, m.ops[0], id, p, continuous);
    EngineFollowsPlan(e, cmds, n, m, id, slot, end, script, bound);
    assert t == m.s.now + Elapsed(m.cmds);
  }

  /** Take any run, and any moment of it at which a device or a callback starts slot `id` as a continuous
      timer of period `p`, by activation or by registration, and suppose that in the rest of this run nobody
      activates it again or deactivates it. Then by the end it has been called exactly at t0 + p, t0 + 2p, ...,
      that is floor((t - t0) / p) times, and also at t0 itself if and only if a snapshot in which the slot is
      flagged is being served and its turn is still to come. */
  lemma {:induction false} ContinuousTimerIsPunctual(e: TimerEngine.Engine, cmds: seq<Cmd>, n: nat, m: Moment,
      id: TimerId, p: nat, t0: nat, t: nat, end: TimerEngine.Engine, script: Script, bound: nat)
    requires CanRun(e, cmds, script, bound) && m == After(Begin(TimerEngine.Abs(e), cmds), n, script)
    requires m.ops != [] && Starts(m.s, m.ops[0], id, p, true)
    requires end == EngineRun(e, cmds, script) && LeftAlone(Next(m, script), id, Repeating, end.log, script)
    requires t0 == m.s.now && t == TimerEngine.TimeTicks(end)
    ensures t == t0 + Elapsed(m.cmds)
    ensures CallsTo(end.log, id)
      == CallsTo(m.s.log, id) + (if TurnToCome(m.due, m.turn, id) then [t0] else [])
         + DueTimes(t0, p, TimesDue(t0, p, t))
    ensures |CallsTo(end.log, id)| == |CallsTo(m.s.log, id)| + TimesDue(t0, p, t) <==> !TurnToCome(m.due, m.turn, id)
  {
    var slot := StartedFollowsPlan(e, cmds, n, m, id, p, true, t, end, script, bound);
    RepeatingPlan(m, id, slot, p, t0, t, CallsTo(end.log, id));
  }

  /** Likewise a one-shot timer that nobody activates, deactivates or unregisters is called exactly once, at
      t0 + p, and before that at t0 itself in the same case. */
  lemma {:induction false} OneShotIsCalledOnce(e: TimerEngine.Engine, cmds: seq<Cmd>, n: nat, m: Moment,
      id: TimerId, p: nat, t0: nat, t: nat, end: TimerEngine.Engine, script: Script, bound: nat)
    requires CanRun(e, cmds, script, bound) && m == After(Begin(TimerEngine.Abs(e), cmds), n, script)
    requires m.ops != [] && Starts(m.s, m.ops[0], id, p, false)
    requires end == EngineRun(e, cmds, script) && LeftAlone(Next(m, script), id, OneShot, end.log, script)
    requires t0 == m.s.now && t == TimerEngine.TimeTicks(end)
    ensures t == t0 + Elapsed(m.cmds)
    ensures CallsTo(end.log, id)
      == CallsTo(m.s.log, id) + (if TurnToCome(m.due, m.turn, id) then [t0] else [])
         + Once(t0 + p, t)
  {
    var slot := StartedFollowsPlan(e, cmds, n, m, id, p, false, t, end, script, bound);
    OneShotPlan(m, id, slot, p, t0, t, CallsTo(end.log, id));
  }

  /** And a registered timer that is deactivated, and that nobody activates or unregisters in the rest of the
      run, is not called any more, but for one call at t0 itself if and only if its slot is flagged in the
      snapshot being served with its turn to come, and it has a function. */
  lemma {:induction false} DeactivatedIsSilent(e: TimerEngine.Engine, cmds: seq<Cmd>, n: nat, m: Moment,
      id: TimerId, t0: nat, end: TimerEngine.Engine, script: Script, bound: nat)
    requires CanRun(e, cmds, script, bound) && m == After(Begin(TimerEngine.Abs(e), cmds), n, script)
    requires m.ops != [] && m.ops[0] == Deactivate(id) && Registered(m.s.table, id)
    requires end == EngineRun(e, cmds, script) && LeftAlone(Next(m, script), id, Idle, end.log, script)
    requires t0 == m.s.now
    ensures CallsTo(end.log, id)
      == CallsTo(m.s.log, id)
         + if TurnToCome(m.due, m.turn, id) && m.s.table.slots[id].funct.Some? then [t0] else []
  {
    var slot := Scheduler.Apply(m.s, m.ops[0]).table.slots[id];
    EngineFollowsPlan(e, cmds, n, m, id, slot, end, script, bound);
    IdlePlan(m, id, slot, m.s.now, m.s.now + Elapsed(m.cmds));
  }
}
