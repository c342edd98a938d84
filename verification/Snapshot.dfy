/** Which callbacks a tick calls. The due set is fixed before any callback runs, but the function of a slot
    is looked up at its turn, so only requests that empty or fill the slot in between matter. */
module Snapshot {
  import opened Options
  import opened TimerTable
  import opened TimerTheorems
  import TimerEngine
  import Scheduler
  import Sequences

  /** What a request does to the functions of the slots. */
  datatype Effect = Nothing | Emptied(id: TimerId) | Filled(slot: nat, funct: Option<Handler>)

  /** Unregistering an inactive timer empties its slot; a registration fills the first free one. */
  function EffectOf(t: Table, op: Op): Effect
    requires t.WellFormed()
  {
    match op
    case Unregister(id) => if t.slots[id].active then Nothing else Emptied(id)
    case Register(_, _, _, funct) => if t.numTimers >= MAX_TIMERS then Nothing else Filled(FreeSlot(t, 1), funct)
    case _ => Nothing
  }

  /** The effects of requests made one after the other. */
  function Effects(s: Scheduler.Sched, ops: seq<Op>): seq<Effect>
    requires s.WellFormed()
    decreases |ops|
  {
    if ops == [] then [] else [EffectOf(s.table, ops[0])] + Effects(Scheduler.Apply(s, ops[0]), ops[1..])
  }

  /** The function of slot `k` after some effects: the last one on the slot decides. */
  function FunctAfter(funct: Option<Handler>, effects: seq<Effect>, k: nat): Option<Handler> {
    if effects == [] then funct
    else
      var last := effects[|effects| - 1];
      if last.Emptied? && last.id == k then None
      else if last.Filled? && last.slot == k then last.funct
      else FunctAfter(funct, effects[..|effects| - 1], k)
  }

  /** The requests made at the turn of slot `i`, by its callback if it is called. */
  function TurnEffects(s: Scheduler.Sched, due: seq<bool>, i: nat, script: Script): seq<Effect>
    requires s.WellFormed() && i < |due| <= MAX_TIMERS
  {
    var funct := s.table.slots[i].funct;
    if !due[i] || funct == None || funct == Some(NULL_TIMER) then []
    else
      var log := s.log + [Call(s.now, i, funct.value)];
      Effects(s.(log := log), script(log))
  }

  /** The state after the turn of slot `i`. */
  function Served(s: Scheduler.Sched, due: seq<bool>, i: nat, script: Script): (r: Scheduler.Sched)
    requires s.WellFormed() && i < |due| <= MAX_TIMERS
    ensures r.WellFormed() && r.now == s.now
  {
    if due[i] && s.table.slots[i].funct.Some? then Scheduler.Invoke(s, i, script) else s
  }

  /** The state at the turn of slot `k`. */
  function AtTurn(s: Scheduler.Sched, due: seq<bool>, k: nat, script: Script): (r: Scheduler.Sched)
    requires s.WellFormed() && k <= |due| <= MAX_TIMERS
    ensures r.WellFormed() && r.now == s.now
  {
    if k == 0 then s else Served(AtTurn(s, due, k - 1, script), due, k - 1, script)
  }

  /** The effects of all requests made by the callbacks called before the turn of slot `k`. */
  function EffectsBefore(s: Scheduler.Sched, due: seq<bool>, k: nat, script: Script): seq<Effect>
    requires s.WellFormed() && k <= |due| <= MAX_TIMERS
  {
    if k == 0 then []
    else EffectsBefore(s, due, k - 1, script) + TurnEffects(AtTurn(s, due, k - 1, script), due, k - 1, script)
  }

  /** The function slot `k` has at its turn. */
  function FunctAtTurn(s: Scheduler.Sched, due: seq<bool>, k: nat, script: Script): Option<Handler>
    requires s.WellFormed() && k <= |due| <= MAX_TIMERS && k < MAX_TIMERS
  {
    FunctAfter(s.table.slots[k].funct, EffectsBefore(s, due, k, script), k)
  }

  /** The call made at the turn of slot `k`: if it was due and its function is there. */
  function CallAtTurn(s: Scheduler.Sched, due: seq<bool>, k: nat, script: Script): seq<Call>
    requires s.WellFormed() && k < |due| <= MAX_TIMERS
  {
    var funct := FunctAtTurn(s, due, k, script);
    if due[k] && funct.Some? then [Call(s.now, k, funct.value)] else []
  }

  function CallsFrom(s: Scheduler.Sched, due: seq<bool>, k: nat, script: Script): seq<Call>
    requires s.WellFormed() && k <= |due| <= MAX_TIMERS
    decreases |due| - k
  {
    if k == |due| then [] else CallAtTurn(s, due, k, script) + CallsFrom(s, due, k + 1, script)
  }

  // ----- The scheduler makes exactly these calls -----

  lemma {:induction false} FunctAfterJoins(funct: Option<Handler>, a: seq<Effect>, b: seq<Effect>, k: nat)
    ensures FunctAfter(funct, a + b, k) == FunctAfter(FunctAfter(funct, a, k), b, k)
  {
    if b == [] {
      assert a + b == a;
    } else {
      FunctAfterJoins(funct, a, b[..|b| - 1], k);
      assert (a + b)[..|a + b| - 1] == a + b[..|b| - 1];
    }
  }

  lemma ApplyHasEffect(s: Scheduler.Sched, op: Op, k: nat)
    requires s.WellFormed() && k < MAX_TIMERS
    ensures Scheduler.Apply(s, op).table.slots[k].funct
         == FunctAfter(s.table.slots[k].funct, [EffectOf(s.table, op)], k)
  {
    assert [EffectOf(s.table, op)][..0] == [];
  }

  lemma {:induction false} ApplyAllHasEffects(s: Scheduler.Sched, ops: seq<Op>, k: nat)
    requires s.WellFormed() && k < MAX_TIMERS
    ensures Scheduler.ApplyAll(s, ops).table.slots[k].funct
         == FunctAfter(s.table.slots[k].funct, Effects(s, ops), k)
    decreases |ops|
  {
    if ops != [] {
      ApplyHasEffect(s, ops[0], k);
      var next := Scheduler.Apply(s, ops[0]);
      ApplyAllHasEffects(next, ops[1..], k);
      FunctAfterJoins(s.table.slots[k].funct, [EffectOf(s.table, ops[0])], Effects(next, ops[1..]), k);
    }
  }

  lemma TurnHasEffects(s: Scheduler.Sched, due: seq<bool>, i: nat, script: Script, k: nat)
    requires s.WellFormed() && i < |due| <= MAX_TIMERS && k < MAX_TIMERS
    ensures Served(s, due, i, script).table.slots[k].funct
         == FunctAfter(s.table.slots[k].funct, TurnEffects(s, due, i, script), k)
  {
    var funct := s.table.slots[i].funct;
    if due[i] && funct.Some? && funct.value != NULL_TIMER {
      var log := s.log + [Call(s.now, i, funct.value)];
      ApplyAllHasEffects(s.(log := log), script(log), k);
    }
  }

  /** What the slot holds at its turn follows from the requests made before. */
  lemma {:induction false} AtTurnHasEffects(s: Scheduler.Sched, due: seq<bool>, i: nat, script: Script, k: nat)
    requires s.WellFormed() && i <= |due| <= MAX_TIMERS && k < MAX_TIMERS
    ensures AtTurn(s, due, i, script).table.slots[k].funct
         == FunctAfter(s.table.slots[k].funct, EffectsBefore(s, due, i, script), k)
  {
    if i > 0 {
      AtTurnHasEffects(s, due, i - 1, script, k);
      var t := AtTurn(s, due, i - 1, script);
      TurnHasEffects(t, due, i - 1, script, k);
      FunctAfterJoins(s.table.slots[k].funct, EffectsBefore(s, due, i - 1, script),
                      TurnEffects(t, due, i - 1, script), k);
    }
  }

  lemma TurnMakesItsCall(s: Scheduler.Sched, due: seq<bool>, k: nat, script: Script)
    requires s.WellFormed() && k < |due| <= MAX_TIMERS
    ensures AtTurn(s, due, k + 1, script).log == AtTurn(s, due, k, script).log + CallAtTurn(s, due, k, script)
  {
    AtTurnHasEffects(s, due, k, script, k);
  }

  lemma {:induction false} FireMakesTheCalls(s: Scheduler.Sched, due: seq<bool>, k: nat, script: Script,
                                             t: Scheduler.Sched)
    requires s.WellFormed() && k <= |due| <= MAX_TIMERS && t == AtTurn(s, due, k, script)
    ensures Scheduler.Fire(t, due, k, script).log == t.log + CallsFrom(s, due, k, script)
    decreases |due| - k
  {
    if k < |due| {
      var next := Served(t, due, k, script);
      assert next == AtTurn(s, due, k + 1, script);
      TurnMakesItsCall(s, due, k, script);
      FireMakesTheCalls(s, due, k + 1, script, next);
      assert Scheduler.Fire(t, due, k, script) == Scheduler.Fire(next, due, k + 1, script);
      Sequences.Associates(t.log, CallAtTurn(s, due, k, script), CallsFrom(s, due, k + 1, script));
    }
  }

  /** The scheduler at the start of a tick, after one-shot timers were switched off and others moved on. */
  function TickStart(t: Table, now: nat, log: seq<Call>): Scheduler.Sched
    requires t.WellFormed()
  {
    Scheduler.Sched(Scheduler.Advanced(t, now), now, log)
  }

  /** Whatever callbacks do, a tick calls, in slot order, exactly the slots that were due when it began and
      have a function at their turn: the one given by the last request of an earlier callback of this tick
      that emptied or filled the slot, or the one it had. Deactivating a slot does not cancel its call. */
  lemma TickCallsExactlyTheDue(e: TimerEngine.Engine, script: Script, bound: nat, s: Scheduler.Sched, due: seq<bool>)
    requires TimerEngine.Inv(e, bound)
    requires CallsBounded(script, e.log, TimerEngine.Tick1(e, script).log, bound)
    requires TimerEngine.Fits(TimerEngine.Now(e) + 1, bound)
    requires s == TickStart(e.table, TimerEngine.Now(e) + 1, e.log)
    requires due == Scheduler.Due(e.table, TimerEngine.Now(e) + 1)
    ensures TimerEngine.Tick1(e, script).log == e.log + CallsFrom(s, due, 0, script)
  {
    TimerEngine.Tick1Refines(e, script, bound);
    FireMakesTheCalls(s, due, 0, script, s);
  }

  // ----- Three inputs -----

  /** Slots 1 and 2 are registered as one-shot timers due at tick 1. */
  function TwoOneShots(): seq<Cmd> {
    [Request(Register(1, false, true, Some(1))), Request(Register(1, false, true, Some(2))), Tick1]
  }

  function OneShot(active: bool, funct: Handler): Slot {
    Slot(true, 1, 1, active, false, Some(funct))
  }

  /** Where that run is when tick 1 begins. */
  ghost predicate AtTickOne(s: Scheduler.Sched, active: bool) {
    && s.table.WellFormed() && s.table.numTimers == 3
    && s.table.slots[0] == TimerEngine.Initial().table.slots[0]
    && s.table.slots[1] == OneShot(active, 1) && s.table.slots[2] == OneShot(active, 2)
    && s.log == []
  }

  lemma TwoOneShotsRun(script: Script) returns (s: Scheduler.Sched)
    ensures AtTickOne(s, true) && s.now == 0
    ensures SchedulerRun(TimerEngine.Abs(TimerEngine.Initial()), TwoOneShots(), script) == Scheduler.Tick(s, script)
  {
    var s0 := TimerEngine.Abs(TimerEngine.Initial());
    var cmds := TwoOneShots();
    assert FreeSlot(s0.table, 1) == 1;
    var s1 := Scheduler.Apply(s0, cmds[0].op);
    assert s1.table.numTimers == 2 && s1.table.slots[1] == OneShot(true, 1);
    assert FreeSlot(s1.table, 1) == FreeSlot(s1.table, 2) == 2;
    s := Scheduler.Apply(s1, cmds[1].op);
    assert cmds[1..][0] == cmds[1] && cmds[1..][1..] == [Tick1] && [Tick1][1..] == [];
  }

  lemma LastTurn(s: Scheduler.Sched, due: seq<bool>, i: nat, script: Script)
    requires s.WellFormed() && |due| == i + 1 <= MAX_TIMERS && due[i]
    ensures Scheduler.Fire(s, due, i, script)
         == if s.table.slots[i].funct.Some? then Scheduler.Invoke(s, i, script) else s
  {}

  /** Serving the snapshot of tick 1: the call of slot 1, its requests, and slot 2 if it has a function. */
  lemma TickOne(s: Scheduler.Sched, script: Script, ops: seq<Op>) returns (t: Scheduler.Sched)
    requires AtTickOne(s, true) && s.now == 0 && ops == script([Call(1, 1, 1)])
    ensures AtTickOne(t.(log := []), false) && t.now == 1 && t.log == [Call(1, 1, 1)]
    ensures var r := Scheduler.ApplyAll(t, ops);
      Scheduler.Tick(s, script) == if r.table.slots[2].funct.Some? then Scheduler.Invoke(r, 2, script) else r
  {
    var a, due := TickStart(s.table, 1, s.log), Scheduler.Due(s.table, 1);
    assert due == [false, true, true];
    assert a.table.slots[1] == OneShot(false, 1) && a.table.slots[2] == OneShot(false, 2);
    t := a.(log := [Call(1, 1, 1)]);
    assert a.log + [Call(1, 1, 1)] == [Call(1, 1, 1)];
    var r := Scheduler.ApplyAll(t, ops);
    assert Scheduler.Invoke(a, 1, script) == r;
    assert Scheduler.Fire(a, due, 0, script) == Scheduler.Fire(a, due, 1, script) == Scheduler.Fire(r, due, 2, script);
    LastTurn(r, due, 2, script);
  }

  /** A timer deactivated by an earlier callback of the tick is called all the same. */
  lemma DeactivatedIsStillCalled(script: Script)
    requires script([Call(1, 1, 1)]) == [Deactivate(2)]
    ensures SchedulerRun(TimerEngine.Abs(TimerEngine.Initial()), TwoOneShots(), script).log
         == [Call(1, 1, 1), Call(1, 2, 2)]
  {
    var s := TwoOneShotsRun(script);
    var t := TickOne(s, script, [Deactivate(2)]);
    assert [Deactivate(2)][1..] == [];
    assert Scheduler.ApplyAll(t, [Deactivate(2)]) == Scheduler.Apply(t, Deactivate(2));
  }

  /** A timer registered into a slot that was due is called at once, nine ticks early. */
  lemma FreshTimerIsCalledAtOnce(script: Script)
    requires script([Call(1, 1, 1)]) == [Unregister(2), Register(10, false, true, Some(7))]
    ensures SchedulerRun(TimerEngine.Abs(TimerEngine.Initial()), TwoOneShots(), script).log
         == [Call(1, 1, 1), Call(1, 2, 7)]
  {
    var s := TwoOneShotsRun(script);
    var ops := [Unregister(2), Register(10, false, true, Some(7))];
    var t := TickOne(s, script, ops);
    assert ops[1..] == [ops[1]] && ops[1..][1..] == [];
    var emptied := Scheduler.Apply(t, ops[0]);
    assert emptied.table.numTimers == 2 && emptied.table.slots[1] == OneShot(false, 1);
    assert FreeSlot(emptied.table, 1) == FreeSlot(emptied.table, 2) == 2;
    assert Scheduler.ApplyAll(t, ops) == Scheduler.Apply(emptied, ops[1]);
  }

  /** A continuous timer of period 10 started at tick 1 in a slot that is due and still to come is called
      at tick 1 as well as at tick 11. */
  lemma ActivatedTimerIsCalledAtItsStart(script: Script)
    requires script([Call(1, 1, 1)]) == [Activate(2, 10, true)] && script([Call(1, 1, 1), Call(1, 2, 2)]) == []
    ensures var r := SchedulerRun(TimerEngine.Abs(TimerEngine.Initial()), TwoOneShots(), script);
      && r.log == [Call(1, 1, 1), Call(1, 2, 2)]
      && r.table.slots[2].active && r.table.slots[2].timeToFire == 11
  {
    var s := TwoOneShotsRun(script);
    var t := TickOne(s, script, [Activate(2, 10, true)]);
    assert [Activate(2, 10, true)][1..] == [];
    assert Scheduler.ApplyAll(t, [Activate(2, 10, true)]) == Scheduler.Apply(t, Activate(2, 10, true));
    assert [Call(1, 1, 1)] + [Call(1, 2, 2)] == [Call(1, 1, 1), Call(1, 2, 2)];
  }
}
