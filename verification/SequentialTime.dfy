/** pc_system.cc: the microsecond clock that never answers the same time twice. The clock itself is
    a parameter of every reading. */
module SequentialTime {
  import opened Arith

  /** The last time read, and how many microseconds were handed out beyond it. */
  datatype State = State(lastTime: nat, since: nat)

  predicate Word(s: State) {
    s.lastTime < BIT64 && s.since < BIT64
  }

  /** The answer given last, or 0 before the first. */
  function Answered(s: State): nat {
    s.lastTime + s.since
  }

  /** One reading, on 64-bit unsigned words. */
  function Read(s: State, now: nat): State {
    var diff := U64(now - s.lastTime);
    var since := if now == s.lastTime then s.since else if diff >= s.since then 0 else s.since - diff;
    State(now, U64(since + 1))
  }

  function Answer(s: State, now: nat): nat {
    U64(now + Read(s, now).since)
  }

  /** While no word overflows, a reading of a clock that did not go back is the larger of the previous
      answer and the time, plus one. */
  lemma NextAnswer(s: State, now: nat)
    requires Word(s) && s.lastTime <= now && Max(Answered(s), now) + 1 < BIT64
    ensures Answer(s, now) == Max(Answered(s), now) + 1
    ensures Answered(Read(s, now)) == Answer(s, now) && Word(Read(s, now))
  {
    U64Exact(now - s.lastTime);
    var since := if now - s.lastTime >= s.since then 0 else s.since - (now - s.lastTime);
    U64Exact(since + 1);
    assert Read(s, now) == State(now, since + 1);
    U64Exact(now + since + 1);
  }

  /** The answers grow exactly when the clock did not go back. */
  lemma GrowsUnlessTheClockGoesBack(s: State, now: nat)
    requires Word(s) && Max(Answered(s), now) + 1 < BIT64
    ensures Answer(s, now) > Answered(s) <==> s.lastTime <= now
  {
    if s.lastTime <= now {
      NextAnswer(s, now);
    } else {
      assert U64(now - s.lastTime) == now - s.lastTime + BIT64;
      assert Read(s, now).since == 1;
    }
  }

  predicate NonDecreasing(start: nat, times: seq<nat>)
    decreases times
  {
    times == [] || (start <= times[0] && NonDecreasing(times[0], times[1..]))
  }

  /** The answers to readings at each of `times`. */
  function Answers(s: State, times: seq<nat>): (r: seq<nat>)
    ensures |r| == |times|
    decreases times
  {
    if times == [] then [] else [Answer(s, times[0])] + Answers(Read(s, times[0]), times[1..])
  }

  /** What answer `i` should be: the larger of the previous answer and the time, plus one. */
  predicate Follows(previous: nat, times: seq<nat>, answers: seq<nat>, i: nat)
    requires i < |times| == |answers|
  {
    answers[i] == Max(if i == 0 then previous else answers[i - 1], times[i]) + 1
  }

  predicate Sequential(previous: nat, times: seq<nat>, answers: seq<nat>)
    requires |times| == |answers|
  {
    forall i :: 0 <= i < |times| ==> Follows(previous, times, answers, i)
  }

  /** Over any run of readings of a clock that never goes back, and for as long as the latest time plus
      the number of readings is a 64-bit word, the answers are sequential. */
  lemma {:induction false} AnswersAreSequential(s: State, times: seq<nat>, latest: nat)
    requires Word(s) && NonDecreasing(s.lastTime, times)
    requires (forall i :: 0 <= i < |times| ==> times[i] <= latest)
    requires Max(Answered(s), latest) + |times| < BIT64
    ensures Sequential(Answered(s), times, Answers(s, times))
    decreases times
  {
    if times != [] {
      var first, rest := times[0], times[1..];
      NextAnswer(s, first);
      AnswersAreSequential(Read(s, first), rest, latest);
      var later := Answers(Read(s, first), rest);
      assert Sequential(Answered(Read(s, first)), rest, later);
      var answers := Answers(s, times);
      assert answers == [Answer(s, first)] + later;
      forall i | 0 <= i < |times| ensures Follows(Answered(s), times, answers, i) {
        assert i > 0 ==> Follows(Answered(Read(s, first)), rest, later, i - 1);
      }
    }
  }

  /** Sequential answers strictly increase, and none is behind the clock. */
  lemma {:induction false} SequentialIncrease(previous: nat, times: seq<nat>, answers: seq<nat>, i: nat, j: nat)
    requires |times| == |answers| && Sequential(previous, times, answers) && i < j < |answers|
    ensures previous < answers[i] < answers[j] && times[j] < answers[j]
    decreases j
  {
    assert Follows(previous, times, answers, j);
    if i < j - 1 {
      SequentialIncrease(previous, times, answers, i, j - 1);
    } else if i > 0 {
      SequentialIncrease(previous, times, answers, i - 1, i);
    } else {
      assert Follows(previous, times, answers, 0);
    }
  }

  /** So the answers of a run from the state initialize() leaves strictly increase and are ahead of the
      clock, as those of a run from any other state it can reach. */
  lemma {:induction false} AnswersIncrease(s: State, times: seq<nat>, latest: nat)
    requires Word(s) && NonDecreasing(s.lastTime, times)
    requires (forall i :: 0 <= i < |times| ==> times[i] <= latest)
    requires Max(Answered(s), latest) + |times| < BIT64
    ensures var answers := Answers(s, times);
      && (forall i :: 0 <= i < |times| ==> Answered(s) < answers[i] && times[i] < answers[i])
      && (forall i, j :: 0 <= i < j < |times| ==> answers[i] < answers[j])
  {
    AnswersAreSequential(s, times, latest);
    var answers := Answers(s, times);
    forall i | 0 <= i < |times| ensures Answered(s) < answers[i] && times[i] < answers[i] {
      assert Follows(Answered(s), times, answers, i);
      if i > 0 { SequentialIncrease(Answered(s), times, answers, 0, i); }
    }
    forall i, j | 0 <= i < j < |times| ensures answers[i] < answers[j] {
      SequentialIncrease(Answered(s), times, answers, i, j);
    }
  }

  class UsecClock {
    var lastTimeUsec: nat
    var usecSinceLast: nat

    constructor ()
      ensures lastTimeUsec == 0 && usecSinceLast == 0
    {
      lastTimeUsec, usecSinceLast := 0, 0;
    }

    /** time_usec_sequential(), with the result of time_usec() as argument. */
    method TimeUsecSequential(thisTimeUsec: nat) returns (r: nat)
      requires thisTimeUsec < BIT64 && lastTimeUsec < BIT64 && usecSinceLast < BIT64
      modifies this
      ensures State(lastTimeUsec, usecSinceLast) == Read(old(State(lastTimeUsec, usecSinceLast)), thisTimeUsec)
      ensures r == Answer(old(State(lastTimeUsec, usecSinceLast)), thisTimeUsec)
      ensures lastTimeUsec < BIT64 && usecSinceLast < BIT64
    {
      if thisTimeUsec != lastTimeUsec {
        var diffUsec := U64(thisTimeUsec - lastTimeUsec);
        lastTimeUsec := thisTimeUsec;
        if diffUsec >= usecSinceLast {
          usecSinceLast := 0;
        } else {
          usecSinceLast := usecSinceLast - diffUsec;
        }
      }
      usecSinceLast := U64(usecSinceLast + 1);
      r := U64(thisTimeUsec + usecSinceLast);
    }
  }
}
