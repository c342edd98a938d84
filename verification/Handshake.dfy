/** bochs_core_uwp.cpp: the pause, resume and shutdown handshake between the emulator thread and any
    number of controller threads. Each critical section, and each return from a condition wait, is one
    step; a waiter may be woken by a notification, by a time-out or for no reason at all. */
module Handshake {
  import opened Options

  /** The four globals guarded by g_controlMutex. */
  datatype Flags = Flags(running: bool, pauseRequested: bool, pauseObserved: bool, shutdownRequested: bool)

  /** Where the emulator thread is: not in a run, running between polls, or inside poll()'s wait. */
  datatype Emulator = Outside | Executing | Parked

  /** `waiting` are the controllers inside wait_until_paused()'s wait. A thread is notified when a
      notification has reached it that it has not woken up for yet. */
  datatype State = State(
    flags: Flags,
    emulator: Emulator,
    waiting: set<nat>,
    emulatorNotified: bool,
    notified: set<nat>)

  datatype Action =
    | EnterRun
    | ExitRun
    | Poll
    | PollWake
    | Pause
    | Resume
    | RequestShutdown
    | Wait(who: nat)
    | WaitWake(who: nat, timedOut: bool)

  // ----- The critical sections -----

  function EnteredRun(f: Flags): Flags {
    f.(shutdownRequested := false, pauseObserved := false, running := true)
  }

  function CoreRunning(f: Flags, running: bool): Flags {
    f.(running := running, pauseObserved := running && f.pauseObserved)
  }

  function Resumed(f: Flags): Flags { f.(pauseRequested := false, pauseObserved := false) }

  function ShutDown(f: Flags): Flags {
    f.(shutdownRequested := true, pauseRequested := false, pauseObserved := false)
  }

  /** What poll() waits for. */
  predicate Released(f: Flags) { !f.pauseRequested || f.shutdownRequested }

  /** What wait_until_paused() waits for. */
  predicate Settled(f: Flags) {
    !f.running || !f.pauseRequested || f.pauseObserved || f.shutdownRequested
  }

  function Answer(b: bool): Option<int> { Some(if b then 1 else 0) }

  // ----- Steps -----

  predicate Enabled(s: State, a: Action) {
    match a
    case EnterRun => s.emulator.Outside?
    case ExitRun => s.emulator.Executing?
    case Poll => s.emulator.Executing?
    case PollWake => s.emulator.Parked?
    case Wait(who) => who !in s.waiting
    case WaitWake(who, _) => who in s.waiting
    case _ => true
  }

  /** notify_all(): reaches whoever waits at that moment. */
  function NotifyAll(s: State): State {
    s.(emulatorNotified := s.emulator.Parked?, notified := s.waiting)
  }

  function Next(s: State, a: Action): State
    requires Enabled(s, a)
  {
    var f := s.flags;
    match a
    case EnterRun => NotifyAll(s.(flags := EnteredRun(f), emulator := Executing))
    case ExitRun => NotifyAll(s.(flags := CoreRunning(f, false), emulator := Outside))
    case Poll =>
      if f.shutdownRequested || !f.pauseRequested then s
      else NotifyAll(s.(flags := f.(pauseObserved := true))).(emulator := Parked)
    case PollWake =>
      if Released(f) then s.(flags := f.(pauseObserved := false), emulator := Executing, emulatorNotified := false)
      else s.(emulatorNotified := false)
    case Pause => NotifyAll(s.(flags := f.(pauseRequested := true)))
    case Resume => NotifyAll(s.(flags := Resumed(f)))
    case RequestShutdown => NotifyAll(s.(flags := ShutDown(f)))
    case Wait(who) => if Settled(f) then s else s.(waiting := s.waiting + {who})
    case WaitWake(who, timedOut) =>
      if Settled(f) || timedOut then s.(waiting := s.waiting - {who}, notified := s.notified - {who})
      else s.(notified := s.notified - {who})
  }

  /** What the step returns to its caller; None while the call has not returned. */
  function Result(s: State, a: Action): Option<int>
    requires Enabled(s, a)
  {
    var f := s.flags;
    match a
    case Poll => if f.shutdownRequested then Answer(true) else if f.pauseRequested then None else Answer(false)
    case PollWake => if Released(f) then Answer(f.shutdownRequested) else None
    case Wait(_) =>
      if !f.running || !f.pauseRequested || f.shutdownRequested then Answer(true)
      else if Settled(f) then Answer(true) else None
    case WaitWake(_, timedOut) => if Settled(f) || timedOut then Answer(Settled(f)) else None
    case _ => None
  }

  predicate IsRun(s: State, acts: seq<Action>)
    decreases |acts|
  {
    acts == [] || (Enabled(s, acts[0]) && IsRun(Next(s, acts[0]), acts[1..]))
  }

  function After(s: State, acts: seq<Action>): State
    requires IsRun(s, acts)
    decreases |acts|
  {
    if acts == [] then s else After(Next(s, acts[0]), acts[1..])
  }

  const INITIAL := State(Flags(false, false, false, false), Outside, {}, false, {})

  // ----- The invariant -----

  predicate Inv(s: State) {
    && (s.flags.running <==> !s.emulator.Outside?)
    && (s.flags.pauseObserved ==> s.emulator.Parked? && s.flags.pauseRequested && !s.flags.shutdownRequested)
    && (s.emulator.Parked? && Released(s.flags) ==> s.emulatorNotified)
    && (Settled(s.flags) ==> s.waiting <= s.notified)
  }

  lemma {:induction false} InvHolds(s: State, acts: seq<Action>)
    requires Inv(s) && IsRun(s, acts)
    ensures Inv(After(s, acts))
    decreases |acts|
  {
    if acts != [] { InvHolds(Next(s, acts[0]), acts[1..]); }
  }

  /** In every interleaving: an observed pause means the emulator thread is inside the wait, with the pause
      still requested and no shutdown. And no wake-up is ever lost: whoever waits for something that has
      come true has an undelivered notification. */
  lemma ObservedMeansParked(acts: seq<Action>)
    requires IsRun(INITIAL, acts)
    ensures var s := After(INITIAL, acts);
      && (s.flags.pauseObserved ==>
            s.emulator.Parked? && s.flags.running && s.flags.pauseRequested && !s.flags.shutdownRequested)
      && (s.emulator.Parked? && Released(s.flags) ==> s.emulatorNotified)
      && (forall c :: c in s.waiting && Settled(s.flags) ==> c in s.notified)
  {
    InvHolds(INITIAL, acts);
  }

  predicate IsEmulatorStep(a: Action) { a.EnterRun? || a.ExitRun? || a.Poll? || a.PollWake? }

  predicate Releases(a: Action) { a.Resume? || a.RequestShutdown? }

  predicate NoRelease(acts: seq<Action>) { forall k :: 0 <= k < |acts| ==> !Releases(acts[k]) }

  /** Once observed, and until a resume or a shutdown, the emulator thread stays in the wait whatever
      happens: its only possible step is to wake up and go back to waiting. */
  lemma {:induction false} ObservedStaysParked(s: State, acts: seq<Action>)
    requires Inv(s) && s.flags.pauseObserved && IsRun(s, acts) && NoRelease(acts)
    ensures var r := After(s, acts); Inv(r) && r.flags.pauseObserved && r.emulator.Parked?
    ensures forall a :: IsEmulatorStep(a) && Enabled(After(s, acts), a) ==>
      var r := After(s, acts); Result(r, a) == None && Next(r, a) == r.(emulatorNotified := false)
    decreases |acts|
  {
    if acts != [] { ObservedStaysParked(Next(s, acts[0]), acts[1..]); }
  }

  /** wait_until_paused() returns 1 exactly if, at that moment, the core is not running, no pause is
      requested, shutdown is requested, or the emulator thread is parked on this pause. So a 1 while
      running, pause-requested and not shutting down means it is parked. */
  lemma WaitAnswersHonestly(acts: seq<Action>, a: Action)
    requires IsRun(INITIAL, acts) && (a.Wait? || a.WaitWake?) && Enabled(After(INITIAL, acts), a)
    requires Result(After(INITIAL, acts), a).Some?
    ensures var s := After(INITIAL, acts);
      && (Result(s, a) == Some(1) <==>
            !s.flags.running || !s.flags.pauseRequested || s.flags.shutdownRequested || s.flags.pauseObserved)
      && (Result(s, a) == Some(1) && s.flags.running && s.flags.pauseRequested && !s.flags.shutdownRequested ==>
            s.emulator.Parked?)
      && (Result(s, a) == Some(0) ==> a.WaitWake? && a.timedOut)
  {
    InvHolds(INITIAL, acts);
  }

  predicate NoEntry(acts: seq<Action>) { forall k :: 0 <= k < |acts| ==> !acts[k].EnterRun? }

  /** After a shutdown request, and until a run is entered, every poll that returns, returns 1. */
  lemma {:induction false} ShutdownSticks(s: State, acts: seq<Action>, a: Action)
    requires s.flags.shutdownRequested && IsRun(s, acts) && NoEntry(acts)
    requires (a.Poll? || a.PollWake?) && Enabled(After(s, acts), a)
    ensures After(s, acts).flags.shutdownRequested && Result(After(s, acts), a) == Some(1)
    decreases |acts|
  {
    if acts != [] { ShutdownSticks(Next(s, acts[0]), acts[1..], a); }
  }

  /** Some shutdown request has no run entry after it. */
  predicate ShutdownStands(acts: seq<Action>)
    decreases |acts|
  {
    acts != [] && (ShutdownStands(acts[1..]) || (acts[0].RequestShutdown? && NoEntry(acts[1..])))
  }

  lemma {:induction false} ShutdownAfter(s: State, acts: seq<Action>)
    requires IsRun(s, acts)
    ensures After(s, acts).flags.shutdownRequested
       <==> ShutdownStands(acts) || (s.flags.shutdownRequested && NoEntry(acts))
    decreases |acts|
  {
    if acts != [] {
      ShutdownAfter(Next(s, acts[0]), acts[1..]);
      assert NoEntry(acts) <==> !acts[0].EnterRun? && NoEntry(acts[1..]);
    }
  }

  /** Some pause request has no resume and no shutdown request after it. */
  predicate PauseStands(acts: seq<Action>)
    decreases |acts|
  {
    acts != [] && (PauseStands(acts[1..]) || (acts[0].Pause? && NoRelease(acts[1..])))
  }

  lemma {:induction false} PauseAfter(s: State, acts: seq<Action>)
    requires IsRun(s, acts)
    ensures After(s, acts).flags.pauseRequested
       <==> PauseStands(acts) || (s.flags.pauseRequested && NoRelease(acts))
    decreases |acts|
  {
    if acts != [] {
      PauseAfter(Next(s, acts[0]), acts[1..]);
      assert NoRelease(acts) <==> !Releases(acts[0]) && NoRelease(acts[1..]);
    }
  }

  /** When a poll holds the emulator thread, and when it lets it go: over every run, a pause is requested exactly
      if some pause request was neither resumed nor overtaken by a shutdown request since. A poll, or a wake-up
      in its wait, leaves the thread parked exactly if such a pause stands and no shutdown does. Otherwise the
      thread goes on executing, and the answer says whether to shut down. */
  lemma PollHoldsWhilePauseStands(acts: seq<Action>, a: Action)
    requires IsRun(INITIAL, acts) && (a.Poll? || a.PollWake?) && Enabled(After(INITIAL, acts), a)
    ensures var s := After(INITIAL, acts);
      && (s.flags.pauseRequested <==> PauseStands(acts))
      && (Result(s, a) == None <==> PauseStands(acts) && !ShutdownStands(acts))
      && Next(s, a).emulator == (if PauseStands(acts) && !ShutdownStands(acts) then Parked else Executing)
      && (Result(s, a).Some? ==> Result(s, a) == Some(if ShutdownStands(acts) then 1 else 0))
  {
    PauseAfter(INITIAL, acts);
    ShutdownAfter(INITIAL, acts);
  }

  lemma {:induction false} PauseStandsJoins(acts: seq<Action>, last: Action)
    ensures PauseStands(acts + [last]) <==> last.Pause? || (PauseStands(acts) && !Releases(last))
    decreases |acts|
  {
    if acts == [] {
      assert [last][1..] == [] && acts + [last] == [last];
    } else {
      assert (acts + [last])[1..] == acts[1..] + [last];
      PauseStandsJoins(acts[1..], last);
      var rest := acts[1..] + [last];
      assert NoRelease(rest) <==> NoRelease(acts[1..]) && !Releases(last) by {
        assert rest[|acts| - 1] == last && forall k :: 0 <= k < |acts| - 1 ==> rest[k] == acts[1..][k];
      }
    }
  }

  lemma {:induction false} RunJoins(s: State, acts: seq<Action>, last: Action)
    requires IsRun(s, acts) && Enabled(After(s, acts), last)
    ensures IsRun(s, acts + [last]) && After(s, acts + [last]) == Next(After(s, acts), last)
    decreases |acts|
  {
    if acts == [] {
      assert [last][1..] == [] && acts + [last] == [last];
    } else {
      assert (acts + [last])[1..] == acts[1..] + [last];
      RunJoins(Next(s, acts[0]), acts[1..], last);
    }
  }

  /** A resume releases a parked thread: it is notified, and its next wake-up, should nobody pause it again
      before, returns from the poll with the thread executing. */
  lemma ResumeReleases(acts: seq<Action>)
    requires IsRun(INITIAL, acts) && After(INITIAL, acts).emulator.Parked?
    ensures var s := Next(After(INITIAL, acts), Resume);
      && s.emulatorNotified && !s.flags.pauseRequested && Enabled(s, PollWake)
      && Result(s, PollWake).Some? && Next(s, PollWake).emulator == Executing
  {
    RunJoins(INITIAL, acts, Resume);
    PauseStandsJoins(acts, Resume);
    PollHoldsWhilePauseStands(acts + [Resume], PollWake);
  }

  /** A call of wait_until_paused() is inside the wait exactly from the step that did not answer it to the one
      that does, and no step of anybody else moves it. */
  lemma WaitsUntilAnswered(s: State, a: Action, who: nat)
    requires Enabled(s, a)
    ensures who in Next(s, a).waiting
       <==> if IsStepOf(a, who) then Result(s, a) == None else who in s.waiting
  {}

  /** The step belongs to this controller's call of wait_until_paused(). */
  predicate IsStepOf(a: Action, who: nat) {
    match a case Wait(w) => w == who case WaitWake(w, _) => w == who case _ => false
  }

  /** Run entry forgets earlier requests: a poll, whether it returns at once or after a wake-up, answers 1
      exactly if a shutdown was requested and no run was entered since. */
  lemma PollSeesShutdownSinceEntry(acts: seq<Action>, a: Action)
    requires IsRun(INITIAL, acts) && (a.Poll? || a.PollWake?) && Enabled(After(INITIAL, acts), a)
    ensures Result(After(INITIAL, acts), a) == Some(1) <==> ShutdownStands(acts)
  {
    ShutdownAfter(INITIAL, acts);
  }

  /** A run in which the request is forgotten: shutdown, then run entry, and the poll answers 0. */
  lemma EntryForgetsShutdown()
    ensures IsRun(INITIAL, [RequestShutdown, EnterRun])
    ensures var s := After(INITIAL, [RequestShutdown, EnterRun]);
      s.flags.running && Enabled(s, Poll) && Result(s, Poll) == Some(0)
  {
    assert [RequestShutdown, EnterRun][1..] == [EnterRun] && [EnterRun][1..] == [];
    var s := Next(INITIAL, RequestShutdown);
    assert After(s, [EnterRun]) == Next(s, EnterRun);
  }

  // ----- The observation that a quick resume and pause loses -----

  /** While the thread stays in one wait, the pause is observed as long as nobody released it. */
  lemma {:induction false} ObservedUntilReleased(s: State, acts: seq<Action>)
    requires Inv(s) && s.flags.pauseObserved && IsRun(s, acts)
    requires forall k :: 0 <= k < |acts| ==> !acts[k].Poll?
    requires After(s, acts).emulator.Parked?
    ensures After(s, acts).flags.pauseObserved <==> NoRelease(acts)
    decreases |acts|
  {
    if acts != [] {
      var t := Next(s, acts[0]);
      if Releases(acts[0]) {
        UnobservedWithoutPoll(t, acts[1..]);
      } else {
        ObservedUntilReleased(t, acts[1..]);
        assert NoRelease(acts) <==> NoRelease(acts[1..]);
      }
    }
  }

  lemma {:induction false} UnobservedWithoutPoll(s: State, acts: seq<Action>)
    requires !s.flags.pauseObserved && IsRun(s, acts)
    requires forall k :: 0 <= k < |acts| ==> !acts[k].Poll?
    ensures !After(s, acts).flags.pauseObserved
    decreases |acts|
  {
    if acts != [] { UnobservedWithoutPoll(Next(s, acts[0]), acts[1..]); }
  }

  /** Parked on a requested pause, but not observed. */
  predicate ParkedUnobserved(s: State) {
    s.emulator.Parked? && s.flags.running && s.flags.pauseRequested
      && !s.flags.shutdownRequested && !s.flags.pauseObserved
  }

  /** A resume and a pause before the thread wakes up leave it so. */
  lemma FastResumePause(s: State)
    requires Inv(s) && s.flags.pauseObserved
    ensures IsRun(s, [Resume, Pause]) && ParkedUnobserved(After(s, [Resume, Pause]))
  {
    assert [Resume, Pause][1..] == [Pause] && [Pause][1..] == [];
  }

  const FAST_RESUME_PAUSE: seq<Action> := [EnterRun, Pause, Poll, Resume, Pause]

  /** Such a state is reached from power-on. */
  lemma FastResumePauseIsReachable()
    ensures IsRun(INITIAL, FAST_RESUME_PAUSE) && ParkedUnobserved(After(INITIAL, FAST_RESUME_PAUSE))
  {
    var acts := FAST_RESUME_PAUSE;
    var s1 := Next(INITIAL, EnterRun);
    var s2 := Next(s1, Pause);
    var t := Next(s2, Poll);
    assert acts[1..][0] == Pause && acts[1..][1..][0] == Poll && acts[1..][1..][1..] == [Resume, Pause];
    FastResumePause(t);
    assert IsRun(s2, acts[1..][1..]) && After(s2, acts[1..][1..]) == After(t, [Resume, Pause]);
    assert IsRun(s1, acts[1..]) && After(s1, acts[1..]) == After(s2, acts[1..][1..]);
  }

  /** From then on, until the next release, the thread stays parked and yet no wait is answered with 1. */
  lemma {:induction false} UnobservedStaysSo(s: State, acts: seq<Action>, a: Action)
    requires ParkedUnobserved(s) && IsRun(s, acts) && NoRelease(acts)
    requires (a.Wait? || a.WaitWake?) && Enabled(After(s, acts), a)
    ensures ParkedUnobserved(After(s, acts)) && Result(After(s, acts), a) != Some(1)
    decreases |acts|
  {
    if acts != [] { UnobservedStaysSo(Next(s, acts[0]), acts[1..], a); }
  }

  // ----- The flags in place -----

  /** The globals of the file, changed in place by each critical section. A wait gives up the mutex, so
      the sections before and after it are separate; None means the caller goes on waiting. */
  class ControlBlock {
    var running: bool
    var pauseRequested: bool
    var pauseObserved: bool
    var shutdownRequested: bool

    ghost function Value(): Flags
      reads this
    {
      Flags(running, pauseRequested, pauseObserved, shutdownRequested)
    }

    constructor ()
      ensures Value() == INITIAL.flags
    {
      running, pauseRequested, pauseObserved, shutdownRequested := false, false, false, false;
    }

    method RunEntry()
      modifies this
      ensures forall s: State :: s.flags == old(Value()) && Enabled(s, EnterRun) ==> Next(s, EnterRun).flags == Value()
    {
      shutdownRequested := false;
      pauseObserved := false;
      running := true;
    }

    method SetCoreRunning(running: bool)
      modifies this
      ensures Value() == CoreRunning(old(Value()), running)
      ensures forall s: State :: !running && s.flags == old(Value()) && Enabled(s, ExitRun) ==>
        Next(s, ExitRun).flags == Value()
    {
      this.running := running;
      if !running { pauseObserved := false; }
    }

    method RequestPause()
      modifies this
      ensures forall s: State :: s.flags == old(Value()) ==> Next(s, Pause).flags == Value()
    {
      pauseRequested := true;
    }

    method RequestResume()
      modifies this
      ensures forall s: State :: s.flags == old(Value()) ==> Next(s, Resume).flags == Value()
    {
      pauseRequested := false;
      pauseObserved := false;
    }

    method Shutdown()
      modifies this
      ensures forall s: State :: s.flags == old(Value()) ==> Next(s, RequestShutdown).flags == Value()
    {
      shutdownRequested := true;
      pauseRequested := false;
      pauseObserved := false;
    }

    /** wait_until_paused() up to its wait. */
    method WaitUntilPaused() returns (answer: Option<int>)
      ensures forall s: State, who: nat :: s.flags == Value() && Enabled(s, Wait(who)) ==>
        answer == Result(s, Wait(who))
    {
      if !running || !pauseRequested || shutdownRequested { return Some(1); }
      if !running || !pauseRequested || pauseObserved || shutdownRequested { return Some(1); }
      return None;
    }

    /** wait_until_paused() from a wake-up or time-out on. */
    method WaitWoken(timedOut: bool) returns (answer: Option<int>)
      ensures forall s: State, who: nat :: s.flags == Value() && Enabled(s, WaitWake(who, timedOut)) ==>
        answer == Result(s, WaitWake(who, timedOut))
    {
      if !running || !pauseRequested || pauseObserved || shutdownRequested { return Some(1); }
      return if timedOut then Some(0) else None;
    }

    /** poll() up to its wait, which it always reaches if a pause is requested: nothing between the two
        tests of the flags can have changed them. */
    method PollEntry() returns (answer: Option<int>)
      modifies this
      ensures forall s: State :: s.flags == old(Value()) && Enabled(s, Poll) ==>
        Next(s, Poll).flags == Value() && answer == Result(s, Poll)
    {
      if shutdownRequested { return Some(1); }
      if pauseRequested {
        pauseObserved := true;
        return None;
      }
      return Some(0);
    }

    /** poll() from a wake-up on. */
    method PollWoken() returns (answer: Option<int>)
      modifies this
      ensures forall s: State :: s.flags == old(Value()) && Enabled(s, PollWake) ==>
        Next(s, PollWake).flags == Value() && answer == Result(s, PollWake)
    {
      if pauseRequested && !shutdownRequested { return None; }
      pauseObserved := false;
      return Some(if shutdownRequested then 1 else 0);
    }
  }
}
