/** The standalone IdleTimer of timeout.go: a flag `activityStarted`, kept by
    its loop, and a one-shot timer that is armed at construction and re-armed
    by every reset. An expiry prints the separator when the flag is set; the
    flag is never cleared.

    Nothing in the program constructs an IdleTimer: the live idle logic is the
    output loop of the Tailer (module Output). This module states how the two
    policies differ, and that their printed output nevertheless agrees when
    the timer is driven the way the output loop is. As in module Output,
    `Elapsed` stands for one whole timeout passing with no reset; an expiry
    happens then only if the timer is armed. */
module Timeout {
  import opened Output

  /** What the timer's loop reacts to: a value on its reset channel, or one
      full timeout passing. */
  datatype Signal = Reset | Elapsed

  datatype TimerState = TimerState(activityStarted: bool, armed: bool)

  /** NewIdleTimer: the timer is armed with the full delay, the flag is false. */
  const Initial: TimerState := TimerState(false, true)

  /** One iteration of IdleTimer.run. A reset sets the flag and re-arms the
      timer with the full timeout. When a timeout passes, an armed timer
      expires once (printing the separator if the flag is set) and is then
      disarmed; a disarmed timer does nothing. */
  function TimerStep(s: TimerState, sig: Signal): (TimerState, seq<Printed>)
  {
    match sig
    case Reset => (TimerState(true, true), [])
    case Elapsed =>
      if s.armed then (s.(armed := false), if s.activityStarted then [Separator] else [])
      else (s, [])
  }

  function TimerRun(s: TimerState, sigs: seq<Signal>): seq<Printed>
    decreases |sigs|
  {
    if sigs == [] then []
    else TimerStep(s, sigs[0]).1 + TimerRun(TimerStep(s, sigs[0]).0, sigs[1..])
  }

  function TimerAfter(s: TimerState, sigs: seq<Signal>): TimerState
    decreases |sigs|
  {
    if sigs == [] then s else TimerAfter(TimerStep(s, sigs[0]).0, sigs[1..])
  }

  function Elapses(n: nat): (r: seq<Signal>)
    ensures |r| == n && forall i | 0 <= i < n :: r[i] == Elapsed
  {
    seq(n, i => Elapsed)
  }

  class IdleTimer {
    const timeout: nat
    var activityStarted: bool
    var armed: bool

    function State(): TimerState
      reads this
    {
      TimerState(activityStarted, armed)
    }

    /** NewIdleTimer(delay). */
    constructor (delay: nat)
      ensures timeout == delay && State() == Initial
    {
      timeout := delay;
      activityStarted := false;
      armed := true;
    }

    /** The reset branch of the loop: the flag is set and the countdown
        restarts from the full timeout. */
    method Reset()
      modifies this
      ensures activityStarted && armed
      ensures State() == TimerStep(old(State()), Signal.Reset).0
    {
      activityStarted := true;
      armed := true;
    }

    /** A full timeout passes: the expiry branch of the loop runs when the
        timer is armed; the flag is left as it was. */
    method Elapse() returns (printed: seq<Printed>)
      modifies this
      ensures printed == if old(armed) && old(activityStarted) then [Separator] else []
      ensures !armed && activityStarted == old(activityStarted)
    {
      printed := [];
      if armed {
        armed := false;
        if activityStarted {
          printed := [Separator];
        }
      }
    }

    /** IdleTimer.run over a finite stretch of its input. */
    method Run(sigs: seq<Signal>) returns (printed: seq<Printed>)
      modifies this
      ensures printed == TimerRun(old(State()), sigs)
      ensures State() == TimerAfter(old(State()), sigs)
    {
      printed := [];
      for i := 0 to |sigs|
        invariant printed == TimerRun(old(State()), sigs[..i])
        invariant State() == TimerAfter(old(State()), sigs[..i])
      {
        TimerRunAppend(old(State()), sigs[..i], [sigs[i]]);
        assert sigs[..i + 1] == sigs[..i] + [sigs[i]];
        assert [sigs[i]][1..] == [];
        match sigs[i]
        case Reset =>
          Reset();
        case Elapsed =>
          var out := Elapse();
          printed := printed + out;
      }
      assert sigs[..|sigs|] == sigs;
    }
  }

  lemma {:induction false} TimerRunAppend(s: TimerState, a: seq<Signal>, b: seq<Signal>)
    ensures TimerRun(s, a + b) == TimerRun(s, a) + TimerRun(TimerAfter(s, a), b)
    ensures TimerAfter(s, a + b) == TimerAfter(TimerAfter(s, a), b)
    decreases |a|
  {
    if a != [] {
      assert (a + b)[0] == a[0];
      assert (a + b)[1..] == a[1..] + b;
      TimerRunAppend(TimerStep(s, a[0]).0, a[1..], b);
    } else {
      assert a + b == b;
    }
  }

  /** Before any reset, expiries print nothing: the timer is armed at
      construction but the flag is still false. */
  lemma {:induction false} NoSeparatorBeforeFirstReset(s: TimerState, n: nat)
    requires !s.activityStarted
    ensures TimerRun(s, Elapses(n)) == []
    ensures !TimerAfter(s, Elapses(n)).activityStarted
    decreases n
  {
    if n > 0 {
      assert Elapses(n)[1..] == Elapses(n - 1);
      NoSeparatorBeforeFirstReset(TimerStep(s, Elapsed).0, n - 1);
    }
  }

  /** The flag is never set back to false: once a reset has happened, or the
      flag was already set, it stays set whatever follows. */
  lemma {:induction false} FlagNeverCleared(s: TimerState, sigs: seq<Signal>)
    requires s.activityStarted || Reset in sigs
    ensures TimerAfter(s, sigs).activityStarted
    decreases |sigs|
  {
    if sigs != [] {
      if sigs[0] != Reset {
        assert Reset in sigs[1..] || s.activityStarted by {
          if Reset in sigs {
            var k :| 0 <= k < |sigs| && sigs[k] == Reset;
            assert sigs[1..][k - 1] == Reset;
          }
        }
      }
      FlagNeverCleared(TimerStep(s, sigs[0]).0, sigs[1..]);
    }
  }

  /** The timer is one-shot: a quiet period of any length prints at most one
      separator, exactly one when the timer is armed and the flag set, and a
      disarmed timer prints nothing until the next reset. */
  lemma {:induction false} OneShot(s: TimerState, n: nat)
    ensures TimerRun(s, Elapses(n)) == if n > 0 && s.armed && s.activityStarted then [Separator] else []
    ensures n > 0 ==> !TimerAfter(s, Elapses(n)).armed
    decreases n
  {
    if n > 0 {
      assert Elapses(n)[1..] == Elapses(n - 1);
      OneShot(TimerStep(s, Elapsed).0, n - 1);
    }
  }

  /** After the first reset, every later expiry prints a separator: whatever
      happened since, if the timer is armed when a timeout passes, it prints. */
  lemma ExpiryAfterAnyResetPrints(s: TimerState, sigs: seq<Signal>)
    requires Reset in sigs
    requires TimerAfter(s, sigs).armed
    ensures TimerRun(s, sigs + [Elapsed]) == TimerRun(s, sigs) + [Separator]
  {
    TimerRunAppend(s, sigs, [Elapsed]);
    FlagNeverCleared(s, sigs);
  }

  /** The output loop's flag is cleared by a separator; the IdleTimer's is
      not. After one line and one quiet timeout the two flags disagree. */
  lemma FlagsDiverge(a: Activity)
    ensures LiveSeen(false, [Delivered(a), Tick]) == false
    ensures TimerAfter(Initial, [Reset, Elapsed]).activityStarted == true
  {
    assert [Delivered(a), Tick][1..] == [Tick];
    assert LiveSeen(true, [Tick]) == LiveSeen(false, []);
    assert [Reset, Elapsed][1..] == [Elapsed];
  }

  /** The IdleTimer driven the way the output loop is: each line received is
      printed and resets the timer; each quiet timeout is an `Elapsed`. */
  function WiredRun(s: TimerState, es: seq<Input>): seq<Printed>
    decreases |es|
  {
    if es == [] then []
    else match es[0]
      case Delivered(a) => [Text(a.text)] + WiredRun(TimerStep(s, Reset).0, es[1..])
      case Tick => TimerStep(s, Elapsed).1 + WiredRun(TimerStep(s, Elapsed).0, es[1..])
  }

  /** Although the IdleTimer never clears its flag, its one-shot timer makes
      up for it: wired to the lines, it prints exactly what the output loop
      prints. Its "armed and started" plays the part of `activitySeen`. */
  lemma {:induction false} WiredTimerMatchesOutputLoop(s: TimerState, seen: bool, es: seq<Input>)
    requires seen == (s.armed && s.activityStarted)
    ensures WiredRun(s, es) == LiveRun(seen, es)
    decreases |es|
  {
    if es != [] {
      match es[0]
      case Delivered(a) =>
        WiredTimerMatchesOutputLoop(TimerStep(s, Reset).0, true, es[1..]);
      case Tick =>
        WiredTimerMatchesOutputLoop(TimerStep(s, Elapsed).0, false, es[1..]);
    }
  }

  /** From their initial states the two agree on every input. */
  lemma FromStartWiredTimerMatchesOutputLoop(es: seq<Input>)
    ensures WiredRun(Initial, es) == LiveRun(false, es)
  {
    WiredTimerMatchesOutputLoop(Initial, false, es);
  }
}
