/** bx_pc_system_c's timer methods, updating the slot array and the countdown in place.
    Every method is proved to do what TimerEngine says to the whole state and, through it,
    what the naive scheduler does to the visible part. */
module PcSystem {
  import opened Arith
  import opened Options
  import opened TimerTable
  import opened TimerEngine
  import Scheduler

  class PcSystem {
    const timer: array<Slot>
    var numTimers: nat
    var triggeredTimer: nat
    var currCountdown: nat
    var currCountdownPeriod: nat
    var ticksTotal: nat
    /** Every callback invocation so far, and what callbacks do in return. */
    var log: seq<Call>
    const script: Script
    /** No request of the run names more ticks than this. */
    ghost const bound: nat

    ghost function State(): Engine
      reads this, timer
    {
      Engine(Table(timer[..], numTimers), currCountdown, currCountdownPeriod, ticksTotal, log)
    }

    ghost predicate Valid()
      reads this, timer
    {
      Inv(State(), bound)
    }

    /** The part of the state a naive scheduler has. */
    ghost function View(): Scheduler.Sched
      requires Valid()
      reads this, timer
    {
      Abs(State())
    }

    constructor (script: Script, ghost bound: nat)
      requires NULL_TIMER_INTERVAL <= bound
      ensures fresh(timer) && this.script == script && this.bound == bound
      ensures State() == Initial() && Valid() && triggeredTimer == 0
    {
      var unused := Slot(false, 0, 0, false, false, None);
      var slots := new Slot[MAX_TIMERS](_ => unused);
      slots[0] := Slot(true, NULL_TIMER_INTERVAL, 0, true, true, Some(NULL_TIMER));
      // initialize()
      slots[0] := slots[0].(timeToFire := NULL_TIMER_INTERVAL);
      timer := slots;
      numTimers := 1;
      ticksTotal := 0;
      currCountdown := NULL_TIMER_INTERVAL;
      currCountdownPeriod := NULL_TIMER_INTERVAL;
      triggeredTimer := 0;
      log := [];
      this.script := script;
      this.bound := bound;
      new;
      assert timer[..] == Initial().table.slots;
      InitialInv(bound);
    }

    /** time_ticks(). */
    function TimeTicksNow(): nat
      reads this
    {
      U64(ticksTotal + U32(currCountdownPeriod - currCountdown))
    }

    /** The search of register_timer_ticks(). */
    method FindSlot() returns (i: nat)
      requires State().table.WellFormed()
      ensures i == FreeSlot(State().table, 1)
    {
      i := 1;
      while i < numTimers && timer[i].inUse
        invariant 1 <= i <= numTimers
        invariant FreeSlot(State().table, i) == FreeSlot(State().table, 1)
      {
        i := i + 1;
      }
    }

    /** Shorten the countdown to `ticks` when it is longer. */
    method Skew(ticks: nat)
      modifies this`currCountdown, this`currCountdownPeriod
      ensures State() == Skewed(old(State()), ticks)
    {
      if ticks < currCountdown {
        currCountdownPeriod := U32(currCountdownPeriod - U32(currCountdown - U32(ticks)));
        currCountdown := U32(ticks);
      }
    }

    method RegisterTimerTicks(funct: Option<Handler>, ticks: nat, continuous: bool, active: bool) returns (id: int)
      requires State().table.WellFormed()
      modifies this`numTimers, this`currCountdown, this`currCountdownPeriod, timer
      ensures State() == Apply(old(State()), Register(ticks, continuous, active, funct))
      ensures id == if old(numTimers) >= MAX_TIMERS then -1 else FreeSlot(old(State().table), 1)
    {
      var period := ticks;
      if period < MIN_PERIOD { period := MIN_PERIOD; }
      var i := FindSlot();
      if numTimers >= MAX_TIMERS { return -1; }
      timer[i] := Slot(true, period, U64(TimeTicksNow() + period), active, continuous, funct);
      assert timer[..] == old(timer[..])[i := timer[i]];
      if active { Skew(period); }
      if i == numTimers { numTimers := numTimers + 1; }
      return i;
    }

    method ActivateTimerTicks(i: TimerId, ticks: nat, continuous: bool)
      requires State().table.WellFormed()
      modifies this`currCountdown, this`currCountdownPeriod, timer
      ensures State() == Apply(old(State()), Activate(i, ticks, continuous))
    {
      var period := ticks;
      if period < MIN_PERIOD { period := MIN_PERIOD; }
      timer[i] := timer[i].(period := period, timeToFire := U64(TimeTicksNow() + period),
                            active := true, continuous := continuous);
      Skew(period);
    }

    method DeactivateTimer(i: TimerId)
      requires State().table.WellFormed()
      modifies timer
      ensures State() == Apply(old(State()), Deactivate(i))
    {
      timer[i] := timer[i].(active := false);
    }

    method UnregisterTimer(i: TimerId) returns (ok: bool)
      requires State().table.WellFormed()
      modifies this`numTimers, timer
      ensures State() == Apply(old(State()), Unregister(i))
      ensures ok <==> !old(timer[i].active)
    {
      if timer[i].active { return false; }
      timer[i] := Slot(false, MAX_BIT64S, MAX_BIT64S, false, false, None);
      if i == numTimers - 1 { numTimers := numTimers - 1; }
      return true;
    }

    method Request(op: Op)
      requires State().table.WellFormed()
      modifies this`numTimers, this`currCountdown, this`currCountdownPeriod, timer
      ensures State() == Apply(old(State()), op)
      ensures old(Valid() && OpBounded(op, bound) && Fits(Now(State()), bound)) ==>
        Valid() && View() == Scheduler.Apply(old(View()), op)
    {
      if Valid() && OpBounded(op, bound) && Fits(Now(State()), bound) { ApplyRefines(State(), op, bound); }
      match op
      case Register(ticks, continuous, active, funct) =>
        var _ := RegisterTimerTicks(funct, ticks, continuous, active);
      case Activate(id, ticks, continuous) => ActivateTimerTicks(id, ticks, continuous);
      case Deactivate(id) => DeactivateTimer(id);
      case Unregister(id) => var _ := UnregisterTimer(id);
    }

    /** Call the function in slot `i`. The invariant holds on entry to every callback. */
    method CallHandler(i: nat)
      requires Valid() && Fits(Now(State()), bound) && i < MAX_TIMERS && timer[i].funct.Some?
      modifies this`numTimers, this`currCountdown, this`currCountdownPeriod, this`log, timer
      ensures State() == Invoke(old(State()), i, script)
    {
      var funct := timer[i].funct.value;
      ghost var e := State();
      log := log + [Call(TimeTicksNow(), i, funct)];
      assert State() == e.(log := e.log + [Call(TimeTicks(e), i, funct)]);
      if funct != NULL_TIMER {
        MakeRequests(script(log));
      }
    }

    /** What a callback's body does to the timers. */
    method MakeRequests(ops: seq<Op>)
      requires State().table.WellFormed()
      modifies this`numTimers, this`currCountdown, this`currCountdownPeriod, timer
      ensures State() == ApplyAll(old(State()), ops)
    {
      ghost var called := State();
      for k := 0 to |ops|
        invariant State().table.WellFormed()
        invariant ApplyAll(State(), ops[k..]) == ApplyAll(called, ops)
      {
        assert ops[k..][1..] == ops[k + 1..];
        Request(ops[k]);
      }
    }

    /** One turn of countdownEvent()'s first loop: switch off or move on slot `i` if due, and lower the minimum. */
    method ServeSlot(i: nat, min: nat) returns (fired: bool, minTimeToFire: nat)
      requires i < timer.Length
      modifies timer
      ensures timer[..] == old(timer[..])[i := Advance(old(timer[i]), ticksTotal)]
      ensures fired == Scheduler.IsDue(old(timer[i]), ticksTotal)
      ensures minTimeToFire == if timer[i].active && timer[i].timeToFire < min then timer[i].timeToFire else min
    {
      fired, minTimeToFire := false, min;
      if timer[i].active {
        if ticksTotal == timer[i].timeToFire {
          fired := true;
          if !timer[i].continuous {
            timer[i] := timer[i].(active := false);
          } else {
            timer[i] := timer[i].(timeToFire := U64(timer[i].timeToFire + timer[i].period));
            if timer[i].timeToFire < minTimeToFire { minTimeToFire := timer[i].timeToFire; }
          }
        } else {
          if timer[i].timeToFire < minTimeToFire { minTimeToFire := timer[i].timeToFire; }
        }
      }
    }

    /** The first loop of countdownEvent(): flag and advance what is due, and find the next due time. */
    method ServeDue(triggered: array<bool>) returns (first: nat, last: nat, minTimeToFire: nat)
      requires State().table.WellFormed() && triggered.Length == MAX_TIMERS
      requires timer as object != triggered
      modifies timer, triggered
      ensures timer[..] == Advanced(old(State().table), ticksTotal).slots
      ensures triggered[..numTimers] == Scheduler.Due(old(State().table), ticksTotal)
      ensures minTimeToFire == MinTimeToFire(timer[..], numTimers)
      ensures forall k :: 0 <= k < numTimers && triggered[k] ==> first <= k <= last
      ensures first <= numTimers && last < numTimers
    {
      ghost var before := timer[..];
      first, last, minTimeToFire := numTimers, 0, BIT64 - 1;
      for i := 0 to numTimers
        invariant forall k :: 0 <= k < i ==> timer[k] == Advance(before[k], ticksTotal)
        invariant forall k :: i <= k < MAX_TIMERS ==> timer[k] == before[k]
        invariant forall k :: 0 <= k < i ==> triggered[k] == Scheduler.IsDue(before[k], ticksTotal)
        invariant minTimeToFire == MinTimeToFire(timer[..], i)
        invariant forall k :: 0 <= k < i && triggered[k] ==> first <= k <= last
        invariant first <= numTimers && last < numTimers
      {
        ghost var slots := timer[..];
        triggered[i], minTimeToFire := ServeSlot(i, minTimeToFire);
        assert minTimeToFire == MinTimeToFire(timer[..], i + 1) by { MinTimeToFirePrefix(slots, timer[..], i); }
        if triggered[i] {
          if i < first { first := i; }
          last := i;
        }
      }
      var t := Table(before, numTimers);
      assert timer[..] == Advanced(t, ticksTotal).slots;
      assert triggered[..numTimers] == Scheduler.Due(t, ticksTotal);
    }

    /** countdownEvent() up to its first call. */
    method Rebase() returns (triggered: array<bool>, first: nat, last: nat)
      requires State().table.WellFormed()
      modifies this`ticksTotal, this`currCountdown, this`currCountdownPeriod, timer
      ensures State() == Rebased(old(State()))
      ensures fresh(triggered) && triggered.Length == MAX_TIMERS
      ensures triggered[..numTimers] == Scheduler.Due(old(State().table), ticksTotal)
      ensures forall k :: 0 <= k < numTimers && triggered[k] ==> first <= k <= last
      ensures first <= numTimers && last < numTimers
    {
      triggered := new bool[MAX_TIMERS](_ => false);
      ticksTotal := U64(ticksTotal + currCountdownPeriod);
      var minTimeToFire;
      first, last, minTimeToFire := ServeDue(triggered);
      currCountdownPeriod := U32(minTimeToFire - ticksTotal);
      currCountdown := currCountdownPeriod;
    }

    method CountdownEvent()
      requires Inv0(State(), bound) && currCountdown == 0 && Fits(Now(State()), bound)
      requires CallsBounded(script, log, TimerEngine.CountdownEvent(State(), script).log, bound)
      modifies this, timer
      ensures State() == TimerEngine.CountdownEvent(old(State()), script)
      ensures Valid() && Now(State()) == old(Now(State()))
    {
      RebasedKeepsInv(State(), bound);
      var triggered, first, last := Rebase();
      ghost var due := triggered[..numTimers];
      FireSkips(State(), due, 0, first, script);
      CallDue(triggered, due, first, last);
    }

    /** The second loop of countdownEvent(). */
    method CallDue(triggered: array<bool>, ghost due: seq<bool>, first: nat, last: nat)
      requires Valid() && Fits(Now(State()), bound)
      requires |due| <= triggered.Length == MAX_TIMERS && first <= |due| && last < |due|
      requires triggered[..|due|] == due
      requires forall k :: 0 <= k < |due| && due[k] ==> first <= k <= last
      requires CallsBounded(script, log, Fire(State(), due, first, script).log, bound)
      modifies this, timer
      ensures State() == Fire(old(State()), due, first, script)
      ensures Valid() && Now(State()) == old(Now(State()))
    {
      ghost var before, cur := State(), State();
      var i := first;
      while i <= last
        invariant first <= i && (i <= last + 1 || i == first)
        invariant i <= |due|
        invariant State() == cur && Inv(cur, bound) && Now(cur) == Now(before)
        invariant triggered[..|due|] == due
        invariant Fire(cur, due, i, script) == Fire(before, due, first, script)
        invariant CallsBounded(script, cur.log, Fire(cur, due, i, script).log, bound)
        decreases last + 1 - i
      {
        assert triggered[i] == due[i];
        if triggered[i] && timer[i].funct.Some? { CallTurn(due, i); }
        cur := State();
        i := i + 1;
      }
      FireSkips(cur, due, i, |due|, script);
    }

    /** One turn of it that makes a call. */
    method CallTurn(ghost due: seq<bool>, i: nat)
      requires Valid() && Fits(Now(State()), bound)
      requires i < |due| <= MAX_TIMERS && due[i] && timer[i].funct.Some?
      requires CallsBounded(script, log, Fire(State(), due, i, script).log, bound)
      modifies this, timer
      ensures State() == Invoke(old(State()), i, script)
      ensures Valid() && Now(State()) == old(Now(State()))
      ensures Fire(State(), due, i + 1, script) == old(Fire(State(), due, i, script))
      ensures CallsBounded(script, log, Fire(State(), due, i + 1, script).log, bound)
    {
      TurnBounded(State(), due, i, script, bound);
      InvokeRefines(State(), i, script, bound);
      triggeredTimer := i;
      CallHandler(i);
      triggeredTimer := 0;
    }

    method Tick1()
      requires Valid() && Fits(Now(State()) + 1, bound)
      requires CallsBounded(script, log, TimerEngine.Tick1(State(), script).log, bound)
      modifies this, timer
      ensures State() == TimerEngine.Tick1(old(State()), script)
      ensures Valid() && View() == Scheduler.Tick(old(View()), script)
    {
      Tick1Refines(State(), script, bound);
      Decrement();
      if currCountdown == 0 { CountdownEvent(); }
    }

    /** The decrement of tick1(): the countdown does not wrap around. */
    method Decrement()
      requires Valid() && Fits(Now(State()), bound)
      modifies this`currCountdown
      ensures State() == old(State()).(currCountdown := U32(old(currCountdown) - 1))
      ensures currCountdown == old(currCountdown) - 1 && Inv0(State(), bound)
    {
      NarrowingIsExact(State(), bound);
      CountdownStepKeepsInv0(State(), 1, bound);
      currCountdown := U32(currCountdown - 1);
    }

    /** The body of tickn()'s loop. */
    method RunOut()
      requires Valid() && Fits(Now(State()) + currCountdown, bound)
      requires CallsBounded(script, log, TimerEngine.CountdownEvent(State().(currCountdown := 0), script).log, bound)
      modifies this, timer
      ensures State() == TimerEngine.CountdownEvent(old(State()).(currCountdown := 0), script)
      ensures Valid() && Now(State()) == old(Now(State()) + currCountdown)
    {
      CountdownStepKeepsInv0(State(), currCountdown, bound);
      currCountdown := 0;
      CountdownEvent();
    }

    /** However often callbacks shorten the countdown, tickn(n) is exactly n calls of tick1(). */
    method Tickn(n: nat)
      requires Valid() && Fits(Now(State()) + n, bound)
      requires CallsBounded(script, log, Tick1s(State(), n, script).log, bound)
      modifies this, timer
      ensures State() == Tick1s(old(State()), n, script)
      ensures Valid() && View() == Scheduler.Ticks(old(View()), n, script)
    {
      Tick1sRefine(State(), n, script, bound);
      RunBatch(n);
    }

    /** The loop of tickn() and the ticks left over. */
    method RunBatch(n: nat)
      requires Valid() && Fits(Now(State()) + n, bound)
      requires CallsBounded(script, log, Tick1s(State(), n, script).log, bound)
      modifies this, timer
      ensures State() == Tick1s(old(State()), n, script)
    {
      var left: nat := n;
      ghost var goal, end := Tick1s(State(), n, script), Now(State()) + n;
      while left >= currCountdown
        invariant Valid() && Now(State()) + left == end && Tick1s(State(), left, script) == goal
        invariant CallsBounded(script, log, goal.log, bound)
        decreases left
      {
        left := ServeOne(left);
      }
      RunShort(left);
    }

    /** One turn of the loop: the ticks up to the next event, and the event. */
    method ServeOne(n: nat) returns (left: nat)
      requires Valid() && Fits(Now(State()) + n, bound) && currCountdown <= n
      requires CallsBounded(script, log, Tick1s(State(), n, script).log, bound)
      modifies this, timer
      ensures Valid() && left < n && Now(State()) + left == old(Now(State()) + n)
      ensures Tick1s(State(), left, script) == old(Tick1s(State(), n, script))
      ensures CallsBounded(script, log, Tick1s(State(), left, script).log, bound)
    {
      BatchBounded(State(), n, script, bound);
      left := n - currCountdown;
      RunOut();
    }

    /** Ticks that do not reach the next event. */
    method RunShort(n: nat)
      requires Valid() && Fits(Now(State()) + n, bound) && n < currCountdown
      modifies this`currCountdown
      ensures State() == Tick1s(old(State()), n, script)
    {
      assert U32(currCountdown - n) == currCountdown - n by { NarrowingIsExact(State(), bound); }
      ShortBatch(State(), n, script, bound);
      currCountdown := U32(currCountdown - n);
    }
  }
}
