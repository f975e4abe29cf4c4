/**
 * The App component of App.tsx as an object: one field per `useState` value
 * and `useRef`, one method per handler. Each method performs the matching
 * transition of AppState in place.
 */
module App {
  import opened Wrappers
  import opened Types
  import opened Utils
  import AppState
  import Numpad

  class MagicStopwatch {
    var stage: Stage
    var trickMode: TrickMode
    var fixedTrickSeconds: nat
    var elapsedTime: int
    var isRunning: bool
    var laps: seq<int>
    var hasStartedOnce: bool
    var startTime: int        // startTimeRef.current
    var previousElapsed: int  // previousElapsedRef.current
    var frameLoops: nat       // live requestAnimationFrame chains

    function State(): AppState.Session
      reads this
    {
      AppState.Session(stage, trickMode, fixedTrickSeconds, elapsedTime, isRunning, laps,
                       hasStartedOnce, startTime, previousElapsed, frameLoops)
    }

    ghost predicate Valid()
      reads this
    {
      AppState.Valid(State())
    }

    constructor ()
      ensures Valid() && State() == AppState.Initial
    {
      stage, trickMode, fixedTrickSeconds := ModeSelection, CurrentTime, 0;
      elapsedTime, isRunning, laps, hasStartedOnce := 0, false, [], false;
      startTime, previousElapsed, frameLoops := 0, 0, 0;
    }

    method ModeSelect(mode: TrickMode)
      requires Valid()
      modifies this
      ensures Valid() && State() == AppState.ModeSelect(old(State()), mode)
    {
      trickMode := mode;
      if mode == FixedTime {
        stage := SetupTrickTime;
      } else {
        stage := ActiveStopwatch;
      }
    }

    method TrickTimeSet(seconds: nat)
      requires Valid()
      modifies this
      ensures Valid() && State() == AppState.TrickTimeSet(old(State()), seconds)
    {
      fixedTrickSeconds := seconds;
      stage := ActiveStopwatch;
    }

    /** One frame of `animate`, at clock reading `now`. */
    method Animate(now: int)
      requires Valid() && frameLoops > 0
      modifies this
      ensures Valid() && State() == AppState.Animate(old(State()), now)
    {
      elapsedTime := previousElapsed + (now - startTime);
    }

    method Start(now: int)
      requires Valid()
      modifies this
      ensures Valid() && State() == AppState.Start(old(State()), now)
    {
      isRunning := true;
      hasStartedOnce := true;
      startTime := now;
      frameLoops := frameLoops + 1;
    }

    method Stop()
      requires Valid()
      modifies this
      ensures Valid() && State() == AppState.Stop(old(State()))
    {
      isRunning := false;
      if frameLoops > 0 {
        frameLoops := frameLoops - 1;
      }
      previousElapsed := elapsedTime;
    }

    method Reset()
      requires Valid()
      modifies this
      ensures Valid() && State() == AppState.Reset(old(State()))
    {
      isRunning := false;
      hasStartedOnce := false;
      elapsedTime := 0;
      previousElapsed := 0;
      laps := [];
    }

    method Lap()
      requires Valid()
      modifies this
      ensures Valid() && State() == AppState.Lap(old(State()))
    {
      laps := [elapsedTime] + laps;
    }

    method Back()
      requires Valid()
      modifies this
      ensures Valid() && State() == AppState.Back(old(State()))
    {
      Reset();
      stage := ModeSelection;
    }

    /** A click, at clock reading `now`, on one of the stopwatch's state-dependent controls. */
    method Press(c: AppState.Control, now: int)
      requires Valid()
      modifies this
      ensures Valid()
      ensures State() == AppState.Perform(old(State()), AppState.Dispatch(old(State()), c), now)
    {
      var action := AppState.Dispatch(State(), c);
      match action
      case StartAction => Start(now);
      case StopAction => Stop();
      case ResetAction => Reset();
      case LapAction => Lap();
      case NoAction =>
    }
  }

  /**
   * The fixed-time trick end to end: choose FIXED_TIME, type 1, 1, 5 on the
   * pad (shown as 01:15), confirm, start, let a frame pass, stop. The face
   * then reads "00:01" ".15", whatever the true elapsed time.
   */
  method FixedTimeScenario(startAt: int, stopAt: int, hour: Hour, minute: Minute) returns (face: Face)
    requires startAt < stopAt
    ensures face == Face("00:01", ".15")
  {
    var app := new MagicStopwatch();
    app.ModeSelect(FixedTime);
    assert app.stage == SetupTrickTime;

    var confirmed := EnterOneFifteen();
    app.TrickTimeSet(confirmed.value as nat);
    app.Press(AppState.RoundStart, startAt);
    app.Animate(stopAt);
    assert app.isRunning && app.elapsedTime == stopAt - startAt;
    app.Press(AppState.Right, stopAt);
    assert !app.isRunning && app.elapsedTime != 0 && app.fixedTrickSeconds == 75;

    var shown := AppState.DisplayTimeMs(app.State(), hour, minute);
    assert shown == FixedTimeMs(75);
    face := FormatStopwatch(shown);
    FixedTimeExample(75);
  }

  /** Typing 1, 1, 5 on a fresh pad shows 01:15 and confirms 75 seconds. */
  method EnterOneFifteen() returns (confirmed: Option<int>)
    ensures confirmed == Some(75)
  {
    var pad := new Numpad.NumpadInput();
    pad.PressDigit(1);
    pad.PressDigit(1);
    pad.PressDigit(5);
    assert pad.input == "115";
    confirmed := pad.Confirm();
    OneFifteen();
  }

  lemma OneFifteen()
    ensures Digits.ParseDecimal("115") == 115
    ensures Numpad.MmssSeconds(115) == 75
  {
    assert "115"[..2] == "11" && "11"[..1] == "1" && "1"[..0] == "";
  }
}
