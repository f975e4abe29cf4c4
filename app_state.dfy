/**
 * The stopwatch engine and the stage controller of App.tsx, as transitions on
 * a snapshot of the component's state. The class App.MagicStopwatch performs
 * these transitions in place; the lemmas here state what they promise.
 *
 * The animation loop (`requestAnimationFrame(animate)`, which re-requests
 * itself on every frame) is counted in `frameLoops`: the number of live
 * chains of frame requests. A frame fires only while one is live.
 */
module AppState {
  import opened Types
  import opened Utils
  import opened Digits

  /** Every `useState` value and `useRef` of App.tsx:10-26. */
  datatype Session = Session(
    stage: Stage,
    trickMode: TrickMode,
    fixedTrickSeconds: nat,
    elapsed: int,
    isRunning: bool,
    laps: seq<int>,
    hasStartedOnce: bool,
    startTime: int,        // startTimeRef
    previousElapsed: int,  // previousElapsedRef
    frameLoops: nat)       // live requestAnimationFrame chains

  /** The state on first render. */
  const Initial: Session :=
    Session(ModeSelection, CurrentTime, 0, 0, false, [], false, 0, 0, 0)

  /** What every reachable state satisfies: a running watch has started and has a live frame loop. */
  predicate Valid(s: Session) {
    s.isRunning ==> s.hasStartedOnce && s.frameLoops > 0
  }

  /** A frame loop is alive, so `animate` keeps updating `elapsed`. */
  predicate Ticking(s: Session) {
    s.frameLoops > 0
  }

  /** `handleModeSelect`. */
  function ModeSelect(s: Session, mode: TrickMode): (r: Session)
    ensures Valid(r) <==> Valid(s)
    ensures r.trickMode == mode && r.stage != ModeSelection
  {
    s.(trickMode := mode,
       stage := if mode == FixedTime then SetupTrickTime else ActiveStopwatch)
  }

  /** `handleTrickTimeSet`, called by the Numpad's confirm. */
  function TrickTimeSet(s: Session, seconds: nat): (r: Session)
    ensures Valid(r) <==> Valid(s)
    ensures r.fixedTrickSeconds == seconds && r.stage == ActiveStopwatch
  {
    s.(fixedTrickSeconds := seconds, stage := ActiveStopwatch)
  }

  /**
   * One frame of `animate`. Its guard `startTimeRef.current !== undefined`
   * always holds (the ref starts at 0), so every frame writes elapsed and
   * requests the next frame.
   */
  function Animate(s: Session, now: int): (r: Session)
    requires Ticking(s)
    ensures Valid(r) <==> Valid(s)
    ensures Ticking(r) && r.elapsed - s.previousElapsed == now - s.startTime
  {
    s.(elapsed := s.previousElapsed + (now - s.startTime))
  }

  /** `handleStart`: no guard of its own; it starts one more frame loop. */
  function Start(s: Session, now: int): (r: Session)
    ensures Valid(r) && Ticking(r) && r.isRunning && r.hasStartedOnce && r.startTime == now
  {
    s.(isRunning := true, hasStartedOnce := true, startTime := now,
       frameLoops := s.frameLoops + 1)
  }

  /**
   * `handleStop`: cancels the frame last requested, which ends one loop, and
   * saves the elapsed time so that a later start resumes from it.
   */
  function Stop(s: Session): (r: Session)
    ensures Valid(r) && !r.isRunning && r.previousElapsed == s.elapsed
    ensures r.frameLoops <= s.frameLoops
  {
    s.(isRunning := false,
       frameLoops := if s.frameLoops > 0 then s.frameLoops - 1 else 0,
       previousElapsed := s.elapsed)
  }

  /** `handleReset`: it cancels no frame, so a live loop stays live. */
  function Reset(s: Session): (r: Session)
    ensures Valid(r) && !r.isRunning && r.elapsed == 0 && r.laps == []
  {
    s.(isRunning := false, hasStartedOnce := false, elapsed := 0,
       previousElapsed := 0, laps := [])
  }

  /** `handleLap`: the current elapsed value goes in front, most recent first. */
  function Lap(s: Session): (r: Session)
    ensures Valid(r) <==> Valid(s)
    ensures |r.laps| == |s.laps| + 1 && r.laps[0] == s.elapsed
  {
    s.(laps := [s.elapsed] + s.laps)
  }

  /** `handleBack`. */
  function Back(s: Session): (r: Session)
    ensures Valid(r) && r.stage == ModeSelection && !r.isRunning && r.elapsed == 0
  {
    Reset(s).(stage := ModeSelection)
  }

  /**
   * `getDisplayTimeMs`, with the clock reading of `getTrickTimeMs` as
   * parameters: the true elapsed time while running, zero right after a
   * reset, otherwise the disguised value of the current trick mode.
   */
  function DisplayTimeMs(s: Session, hour: Hour, minute: Minute): (ms: int)
    ensures s.isRunning ==> ms == s.elapsed
    ensures !s.isRunning ==> ms >= 0
    ensures !s.isRunning && s.elapsed != 0 && s.trickMode == CurrentTime ==> ms / 1000 == hour && ms % 1000 == minute * 10
  {
    if s.isRunning then s.elapsed
    else if s.elapsed == 0 then 0
    else if s.trickMode == CurrentTime then TrickTimeMs(hour, minute)
    else FixedTimeMs(s.fixedTrickSeconds)
  }

  /** The handler a control invokes, chosen by the engine's state. */
  datatype Action = StartAction | StopAction | ResetAction | LapAction | NoAction

  /** The round start button, shown only before the first start (App.tsx:194-208). */
  function StartButton(s: Session): (a: Action)
    ensures a == StartAction <==> !s.hasStartedOnce
    ensures a == StartAction || a == NoAction
  {
    if !s.hasStartedOnce then StartAction else NoAction
  }

  /**
   * The left button (App.tsx:219-226): reset when stopped, lap when running,
   * disabled when stopped at zero; not clickable before the first start.
   */
  function LeftButton(s: Session): (a: Action)
    ensures !s.hasStartedOnce ==> a == NoAction
    ensures a != StartAction && a != StopAction
    ensures a == LapAction ==> s.isRunning
    ensures a == ResetAction ==> !s.isRunning && s.elapsed != 0
  {
    if !s.hasStartedOnce then NoAction
    else if !s.isRunning && s.elapsed == 0 then NoAction
    else if !s.isRunning then ResetAction
    else LapAction
  }

  /** The right button (App.tsx:235-241): stop when running, start otherwise; not clickable before the first start. */
  function RightButton(s: Session): (a: Action)
    ensures !s.hasStartedOnce ==> a == NoAction
    ensures a != LapAction && a != ResetAction
    ensures a == StopAction ==> s.isRunning
    ensures a == StartAction ==> !s.isRunning
  {
    if !s.hasStartedOnce then NoAction
    else if s.isRunning then StopAction
    else StartAction
  }

  /** The three stopwatch controls whose handler depends on the state. */
  datatype Control = RoundStart | Left | Right

  function Dispatch(s: Session, c: Control): (a: Action)
    ensures s.stage != ActiveStopwatch ==> a == NoAction
    ensures a == StartAction ==> !s.isRunning || !s.hasStartedOnce
    ensures a == StopAction || a == LapAction ==> s.isRunning
  {
    if s.stage != ActiveStopwatch then NoAction
    else match c
    case RoundStart => StartButton(s)
    case Left => LeftButton(s)
    case Right => RightButton(s)
  }

  function Perform(s: Session, a: Action, now: int): Session {
    match a
    case StartAction => Start(s, now)
    case StopAction => Stop(s)
    case ResetAction => Reset(s)
    case LapAction => Lap(s)
    case NoAction => s
  }

  // ---- Properties ----

  /** Every handler keeps the invariant. */
  lemma HandlersPreserveValid(s: Session, mode: TrickMode, seconds: nat, a: Action, now: int)
    requires Valid(s)
    ensures Valid(ModeSelect(s, mode)) && Valid(TrickTimeSet(s, seconds))
    ensures Ticking(s) ==> Valid(Animate(s, now))
    ensures Valid(Start(s, now)) && Valid(Stop(s)) && Valid(Reset(s)) && Valid(Lap(s)) && Valid(Back(s))
    ensures Valid(Perform(s, a, now))
  {
  }

  lemma InitialIsIdle()
    ensures Valid(Initial) && !Ticking(Initial)
    ensures Initial.stage == ModeSelection && Initial.elapsed == 0 && Initial.laps == []
  {
  }

  /** Mode select records the mode; FIXED_TIME leads to the Numpad, CURRENT_TIME to the stopwatch. */
  lemma ModeSelectSpec(s: Session, mode: TrickMode)
    ensures ModeSelect(s, mode).trickMode == mode
    ensures ModeSelect(s, FixedTime).stage == SetupTrickTime
    ensures ModeSelect(s, CurrentTime).stage == ActiveStopwatch
    ensures ModeSelect(s, mode).(stage := s.stage, trickMode := s.trickMode) == s
  {
  }

  /** Setting the trick time stores it and opens the stopwatch without touching the engine. */
  lemma TrickTimeSetSpec(s: Session, seconds: nat)
    ensures TrickTimeSet(s, seconds).fixedTrickSeconds == seconds
    ensures TrickTimeSet(s, seconds).stage == ActiveStopwatch
    ensures TrickTimeSet(s, seconds).(stage := s.stage, fixedTrickSeconds := s.fixedTrickSeconds) == s
  {
  }

  /** The elapsed values read after each of a series of frames. */
  function ElapsedReads(s: Session, nows: seq<int>): (r: seq<int>)
    requires Ticking(s)
    ensures |r| == |nows|
    decreases |nows|
  {
    if nows == [] then []
    else
      var next := Animate(s, nows[0]);
      [next.elapsed] + ElapsedReads(next, nows[1..])
  }

  predicate NonDecreasing(xs: seq<int>) {
    forall i, j :: 0 <= i <= j < |xs| ==> xs[i] <= xs[j]
  }

  /**
   * Each frame sets elapsed to previousElapsed + (now - startTime); so with a
   * clock that does not go back, successive reads never decrease.
   */
  lemma {:induction false} ElapsedReadsSpec(s: Session, nows: seq<int>)
    requires Ticking(s)
    ensures forall i :: 0 <= i < |nows| ==>
      ElapsedReads(s, nows)[i] == s.previousElapsed + (nows[i] - s.startTime)
    ensures NonDecreasing(nows) ==> NonDecreasing(ElapsedReads(s, nows))
    decreases |nows|
  {
    if nows != [] {
      var next := Animate(s, nows[0]);
      ElapsedReadsSpec(next, nows[1..]);
      var r := ElapsedReads(s, nows);
      assert r == [next.elapsed] + ElapsedReads(next, nows[1..]);
      assert forall i :: 1 <= i < |nows| ==> r[i] == ElapsedReads(next, nows[1..])[i - 1];
    }
  }

  /** Start opens one more frame loop, records the start time, and changes nothing else. */
  lemma StartSpec(s: Session, now: int)
    ensures Start(s, now).frameLoops == s.frameLoops + 1
    ensures Start(s, now).(isRunning := s.isRunning, hasStartedOnce := s.hasStartedOnce,
                           startTime := s.startTime, frameLoops := s.frameLoops) == s
  {
  }

  /** A frame changes elapsed and nothing else. */
  lemma AnimateSpec(s: Session, now: int)
    requires Ticking(s)
    ensures Animate(s, now).(elapsed := s.elapsed) == s
  {
  }

  /**
   * Back while running, then a new round: two loops are live, and the stop
   * button ends only one of them, so frames keep coming after the stop.
   */
  lemma RestartAfterBackKeepsTwoLoops(s: Session, now: int)
    requires Valid(s) && s.isRunning && s.frameLoops == 1
    ensures var b := ModeSelect(Back(s), CurrentTime);
      Dispatch(b, RoundStart) == StartAction &&
      var r := Start(b, now);
      r.frameLoops == 2 && Dispatch(r, Right) == StopAction && Ticking(Stop(r))
  {
  }

  /** Stop saves the elapsed time; a later start and frame add only the new run's duration to it. */
  lemma StopThenStartResumes(s: Session, restart: int, now: int)
    requires Valid(s) && s.isRunning
    ensures Stop(s).previousElapsed == s.elapsed && !Stop(s).isRunning
    ensures Stop(s).frameLoops == s.frameLoops - 1
    ensures s.frameLoops == 1 ==> !Ticking(Stop(s))
    ensures Stop(s).(isRunning := s.isRunning, previousElapsed := s.previousElapsed, frameLoops := s.frameLoops) == s
    ensures Animate(Start(Stop(s), restart), now).elapsed == s.elapsed + (now - restart)
    ensures now >= restart ==> Animate(Start(Stop(s), restart), now).elapsed >= s.elapsed
  {
  }

  /** Reset zeroes the engine whatever its state, so applying it twice equals applying it once. */
  lemma ResetSpec(s: Session)
    ensures var r := Reset(s);
      r.elapsed == 0 && r.previousElapsed == 0 && r.laps == [] && !r.isRunning && !r.hasStartedOnce
    ensures Reset(Reset(s)) == Reset(s)
    ensures Reset(s).frameLoops == s.frameLoops
    ensures Reset(s).(elapsed := s.elapsed, previousElapsed := s.previousElapsed, laps := s.laps,
                      isRunning := s.isRunning, hasStartedOnce := s.hasStartedOnce) == s
  {
  }

  /** Lap puts the current elapsed value in front and keeps the earlier laps in order. */
  lemma LapSpec(s: Session)
    ensures |Lap(s).laps| == |s.laps| + 1
    ensures Lap(s).laps[0] == s.elapsed && Lap(s).laps[1..] == s.laps
    ensures Lap(s).(laps := s.laps) == s
  {
  }

  /** Laps recorded at 100, 250 and 400 read most recent first. */
  lemma LapOrder(s: Session)
    requires s.laps == []
    ensures Lap(Lap(Lap(s.(elapsed := 100)).(elapsed := 250)).(elapsed := 400)).laps == [400, 250, 100]
  {
  }

  /**
   * Back returns to mode selection with the engine reset, but it cancels no
   * frame: a loop that was live stays live.
   */
  lemma BackSpec(s: Session)
    ensures var b := Back(s);
      b.stage == ModeSelection && b.elapsed == 0 && b.laps == [] && !b.isRunning &&
      !b.hasStartedOnce && b.frameLoops == s.frameLoops
    ensures var b := Back(s);
      b.previousElapsed == 0 && b.trickMode == s.trickMode &&
      b.fixedTrickSeconds == s.fixedTrickSeconds && b.startTime == s.startTime
  {
  }

  /**
   * Back while running leaves the frame loop alive: the next frame writes a
   * non-zero elapsed time into the stopped, reset watch, which then shows the
   * trick value.
   */
  lemma BackWhileRunningKeepsTicking(s: Session, now: int, hour: Hour, minute: Minute)
    requires Valid(s) && s.isRunning && now > s.startTime
    ensures Ticking(Back(s))
    ensures var t := Animate(Back(s), now);
      t.elapsed == now - s.startTime > 0 && !t.isRunning && !t.hasStartedOnce &&
      DisplayTimeMs(t, hour, minute) ==
        if s.trickMode == CurrentTime then TrickTimeMs(hour, minute) else FixedTimeMs(s.fixedTrickSeconds)
  {
  }

  /** The three display rules of `getDisplayTimeMs`. */
  lemma DisplayRules(s: Session, hour: Hour, minute: Minute)
    ensures s.isRunning ==> DisplayTimeMs(s, hour, minute) == s.elapsed
    ensures !s.isRunning && s.elapsed == 0 ==> DisplayTimeMs(s, hour, minute) == 0
    ensures !s.isRunning && s.elapsed != 0 && s.trickMode == CurrentTime ==>
      DisplayTimeMs(s, hour, minute) == hour * 1000 + minute * 10
    ensures !s.isRunning && s.elapsed != 0 && s.trickMode == FixedTime ==>
      DisplayTimeMs(s, hour, minute) == FixedTimeMs(s.fixedTrickSeconds)
  {
  }

  /**
   * What the stopped face shows: at clock time hh:mm, "00:hh" and ".mm" in
   * current-time mode; for a stored MM * 60 + SS below an hour, "00:MM" and ".SS".
   */
  lemma StoppedFaceShowsTrick(s: Session, hour: Hour, minute: Minute)
    requires !s.isRunning && s.elapsed != 0
    ensures s.trickMode == CurrentTime ==>
      FormatStopwatch(DisplayTimeMs(s, hour, minute)) == Face("00:" + Pad2(hour), "." + Pad2(minute))
    ensures s.trickMode == FixedTime && s.fixedTrickSeconds < 3600 ==>
      var f := s.fixedTrickSeconds;
      FormatStopwatch(DisplayTimeMs(s, hour, minute)) == Face("00:" + Pad2(f / 60), "." + Pad2(f % 60))
  {
    if s.trickMode == CurrentTime {
      ClockPun(hour, minute);
    } else if s.fixedTrickSeconds < 3600 {
      FixedTimePunOfTotal(s.fixedTrickSeconds);
    }
  }

  /**
   * The left button: nothing before the first start (its container ignores
   * clicks); afterwards lap exactly when running, disabled exactly when stopped at zero.
   */
  lemma LeftButtonSpec(s: Session)
    ensures LeftButton(s) == LapAction <==> s.hasStartedOnce && s.isRunning
    ensures LeftButton(s) == ResetAction <==> s.hasStartedOnce && !s.isRunning && s.elapsed != 0
    ensures LeftButton(s) == NoAction <==> !s.hasStartedOnce || (!s.isRunning && s.elapsed == 0)
  {
  }

  /** The right button: nothing before the first start; afterwards stop exactly when running, start otherwise. */
  lemma RightButtonSpec(s: Session)
    ensures RightButton(s) == StopAction <==> s.hasStartedOnce && s.isRunning
    ensures RightButton(s) == StartAction <==> s.hasStartedOnce && !s.isRunning
    ensures RightButton(s) == NoAction <==> !s.hasStartedOnce
  {
  }

  /** `handleStart` has no guard, but no control reaches it while the watch runs. */
  lemma StartOnlyWhenStopped(s: Session, c: Control)
    requires Valid(s)
    ensures Dispatch(s, c) == StartAction ==> !s.isRunning
    ensures Dispatch(s, c) == StopAction ==> s.isRunning
    ensures Dispatch(s, c) == LapAction ==> s.isRunning
  {
  }
}
