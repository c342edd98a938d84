/** The reference: a naive scheduler over unbounded time that looks at every tick and
    calls, in slot order, whatever was due when the tick began. */
module Scheduler {
  import opened Options
  import opened TimerTable

  datatype Sched = Sched(table: Table, now: nat, log: seq<Call>) {
    ghost predicate WellFormed() { table.WellFormed() }
  }

  function Apply(s: Sched, op: Op): (r: Sched)
    requires s.WellFormed()
    ensures r.WellFormed() && r.now == s.now && r.log == s.log
  {
    match op
    case Register(ticks, _, _, _) =>
      if s.table.numTimers >= MAX_TIMERS then s
      else s.(table := Registered(s.table, op, s.now + Period(ticks)))
    case Activate(_, ticks, _) => s.(table := Activated(s.table, op, s.now + Period(ticks)))
    case Deactivate(id) => s.(table := Deactivated(s.table, id))
    case Unregister(id) => s.(table := Unregistered(s.table, id))
  }

  function ApplyAll(s: Sched, ops: seq<Op>): (r: Sched)
    requires s.WellFormed()
    ensures r.WellFormed() && r.now == s.now && r.log == s.log
    decreases |ops|
  {
    if ops == [] then s else ApplyAll(Apply(s, ops[0]), ops[1..])
  }

  predicate IsDue(slot: Slot, now: nat) {
    slot.active && slot.timeToFire == now
  }

  /** The snapshot of what is due, taken before any callback runs. */
  function Due(t: Table, now: nat): (r: seq<bool>)
    requires t.WellFormed()
    ensures |r| == t.numTimers
  {
    seq(t.numTimers, i requires 0 <= i < t.numTimers => IsDue(t.slots[i], now))
  }

  /** A due one-shot timer is switched off; a due continuous one moves on by its period. */
  function Advance(slot: Slot, now: nat): Slot {
    if !IsDue(slot, now) then slot
    else if slot.continuous then slot.(timeToFire := slot.timeToFire + slot.period)
    else slot.(active := false)
  }

  function Advanced(t: Table, now: nat): (r: Table)
    requires t.WellFormed()
    ensures r.WellFormed() && r.numTimers == t.numTimers
  {
    t.(slots := seq(MAX_TIMERS, i requires 0 <= i < MAX_TIMERS =>
      if i < t.numTimers then Advance(t.slots[i], now) else t.slots[i]))
  }

  /** Call the function in slot `i`, which then makes its requests; the null timer makes none. */
  function Invoke(s: Sched, i: nat, script: Script): (r: Sched)
    requires s.WellFormed() && i < MAX_TIMERS && s.table.slots[i].funct.Some?
    ensures r.WellFormed() && r.now == s.now
    ensures r.log == s.log + [Call(s.now, i, s.table.slots[i].funct.value)]
  {
    var funct := s.table.slots[i].funct.value;
    var called := s.(log := s.log + [Call(s.now, i, funct)]);
    if funct == NULL_TIMER then called else ApplyAll(called, script(called.log))
  }

  /** Serve the snapshot from slot `i` on, skipping a slot whose function is gone at its turn. */
  function Fire(s: Sched, due: seq<bool>, i: nat, script: Script): (r: Sched)
    requires s.WellFormed() && i <= |due| <= MAX_TIMERS
    ensures r.WellFormed() && r.now == s.now
    decreases |due| - i
  {
    if i == |due| then s
    else if due[i] && s.table.slots[i].funct.Some? then Fire(Invoke(s, i, script), due, i + 1, script)
    else Fire(s, due, i + 1, script)
  }

  function Tick(s: Sched, script: Script): (r: Sched)
    requires s.WellFormed()
    ensures r.WellFormed() && r.now == s.now + 1
  {
    var now := s.now + 1;
    Fire(Sched(Advanced(s.table, now), now, s.log), Due(s.table, now), 0, script)
  }

  function Ticks(s: Sched, n: nat, script: Script): (r: Sched)
    requires s.WellFormed()
    ensures r.WellFormed() && r.now == s.now + n
    decreases n
  {
    if n == 0 then s else Ticks(Tick(s, script), n - 1, script)
  }

  /** The log only grows. */
  lemma {:induction false} FireGrows(s: Sched, due: seq<bool>, i: nat, script: Script)
    requires s.WellFormed() && i <= |due| <= MAX_TIMERS
    ensures s.log <= Fire(s, due, i, script).log
    decreases |due| - i
  {
    if i < |due| {
      if due[i] && s.table.slots[i].funct.Some? {
        FireGrows(Invoke(s, i, script), due, i + 1, script);
      } else {
        FireGrows(s, due, i + 1, script);
      }
    }
  }

  lemma TickGrows(s: Sched, script: Script)
    requires s.WellFormed()
    ensures s.log <= Tick(s, script).log
  {
    var now := s.now + 1;
    FireGrows(Sched(Advanced(s.table, now), now, s.log), Due(s.table, now), 0, script);
  }

  lemma {:induction false} TicksGrow(s: Sched, n: nat, script: Script)
    requires s.WellFormed()
    ensures s.log <= Ticks(s, n, script).log
    decreases n
  {
    if n > 0 {
      TickGrows(s, script);
      TicksGrow(Tick(s, script), n - 1, script);
    }
  }

  lemma {:induction false} FireNothing(s: Sched, due: seq<bool>, i: nat, script: Script)
    requires s.WellFormed() && i <= |due| <= MAX_TIMERS
    requires forall k :: i <= k < |due| ==> !due[k]
    ensures Fire(s, due, i, script) == s
    decreases |due| - i
  {
    if i < |due| { FireNothing(s, due, i + 1, script); }
  }

  /** A tick at which nothing is due only moves the clock. */
  lemma QuietTick(s: Sched, script: Script)
    requires s.WellFormed()
    requires forall i :: 0 <= i < s.table.numTimers ==> !IsDue(s.table.slots[i], s.now + 1)
    ensures Tick(s, script) == s.(now := s.now + 1)
  {
    assert Advanced(s.table, s.now + 1).slots == s.table.slots;
    FireNothing(Sched(s.table, s.now + 1, s.log), Due(s.table, s.now + 1), 0, script);
  }
}
