/** The timer slots of pc_system.h and the operations a device may request on them.
    Everything here is shared by the countdown engine and by the naive scheduler. */
module TimerTable {
  import opened Options

  /** Slots are numbered below MAX_TIMERS; slot 0 holds the null timer. */
  const MAX_TIMERS: nat := 64
  const NULL_TIMER_INTERVAL: nat := 0xffff_ffff
  const MIN_PERIOD: nat := 1
  const MAX_BIT64S: nat := 0x7fff_ffff_ffff_ffff

  /** A slot a device may name: any but the null timer's. */
  type TimerId = i: nat | 1 <= i < 64 witness 1

  /** The identity of a callback; the null pointer is `None` in a slot. */
  type Handler = nat
  const NULL_TIMER: Handler := 0

  datatype Slot = Slot(
    inUse: bool,
    period: nat,
    timeToFire: nat,
    active: bool,
    continuous: bool,
    funct: Option<Handler>)

  /** The slots and the exclusive bound `numTimers` of those ever scanned. */
  datatype Table = Table(slots: seq<Slot>, numTimers: nat) {
    ghost predicate WellFormed() {
      |slots| == MAX_TIMERS && 1 <= numTimers <= MAX_TIMERS
    }
  }

  /** A request to the timer framework, from a device or from inside a callback. A registration may carry
      the null function; its timer is then never called. */
  datatype Op =
    | Register(ticks: nat, continuous: bool, active: bool, funct: Option<Handler>)
    | Activate(id: TimerId, ticks: nat, continuous: bool)
    | Deactivate(id: TimerId)
    | Unregister(id: TimerId)

  /** One invocation of a callback: when, for which slot, and which function. */
  datatype Call = Call(tick: nat, slot: nat, funct: Handler)

  /** What callbacks do: given every call so far, the last being the current one, the requests it makes.
      Arbitrary, so a callback may depend on the whole past of the machine. */
  type Script = seq<Call> -> seq<Op>

  /** A period is at least one tick. */
  function Period(ticks: nat): (p: nat)
    ensures 1 <= p && ticks <= p && (1 <= ticks ==> p == ticks)
  {
    if ticks < MIN_PERIOD then MIN_PERIOD else ticks
  }

  /** The first slot from `i` on that is free, or `numTimers`. */
  function FreeSlot(t: Table, i: nat): (r: nat)
    requires t.WellFormed() && 1 <= i <= t.numTimers
    ensures i <= r <= t.numTimers
    ensures r < t.numTimers ==> !t.slots[r].inUse
    ensures forall k :: i <= k < r ==> t.slots[k].inUse
    decreases t.numTimers - i
  {
    if i == t.numTimers || !t.slots[i].inUse then i else FreeSlot(t, i + 1)
  }

  /** Fill the first free slot; `fire` is the absolute due time. */
  function Registered(t: Table, op: Op, fire: nat): Table
    requires t.WellFormed() && t.numTimers < MAX_TIMERS && op.Register?
  {
    var i := FreeSlot(t, 1);
    Table(t.slots[i := Slot(true, Period(op.ticks), fire, op.active, op.continuous, op.funct)],
          if i == t.numTimers then t.numTimers + 1 else t.numTimers)
  }

  function Activated(t: Table, op: Op, fire: nat): Table
    requires t.WellFormed() && op.Activate?
  {
    t.(slots := t.slots[op.id := t.slots[op.id].(
      period := Period(op.ticks), timeToFire := fire, active := true, continuous := op.continuous)])
  }

  function Deactivated(t: Table, id: TimerId): Table
    requires t.WellFormed()
  {
    t.(slots := t.slots[id := t.slots[id].(active := false)])
  }

  /** An active timer cannot be unregistered: the request fails and changes nothing. */
  function Unregistered(t: Table, id: TimerId): Table
    requires t.WellFormed()
  {
    if t.slots[id].active then t
    else Table(t.slots[id := Slot(false, MAX_BIT64S, MAX_BIT64S, false, false, None)],
               if id == t.numTimers - 1 then t.numTimers - 1 else t.numTimers)
  }

  /** Requests whose tick counts are at most `bound`. */
  ghost predicate OpsBounded(ops: seq<Op>, bound: nat) {
    forall k :: 0 <= k < |ops| ==> OpBounded(ops[k], bound)
  }

  ghost predicate OpBounded(op: Op, bound: nat) {
    (op.Register? || op.Activate?) ==> op.ticks <= bound
  }

  /** The requests made by the last callback called in `log`; the null timer makes none. */
  function RequestsOfLast(script: Script, log: seq<Call>): seq<Op>
    requires log != []
  {
    if log[|log| - 1].funct == NULL_TIMER then [] else script(log)
  }

  /** The callbacks called after `from` and up to `log` request at most `bound` ticks. */
  ghost predicate CallsBounded(script: Script, from: seq<Call>, log: seq<Call>, bound: nat) {
    forall k :: |from| < k <= |log| ==> OpsBounded(RequestsOfLast(script, log[..k]), bound)
  }

  lemma CallsBoundedSplit(script: Script, from: seq<Call>, mid: seq<Call>, log: seq<Call>, bound: nat)
    requires from <= mid <= log && CallsBounded(script, from, log, bound)
    ensures CallsBounded(script, from, mid, bound) && CallsBounded(script, mid, log, bound)
  {
    assert forall k :: 0 <= k <= |mid| ==> mid[..k] == log[..k];
  }
}
