/** Whole sessions: the repository's handlers driven by a sequence of events
    (satellite fixes, motion samples, timer ticks and the lifecycle calls), and
    the properties that hold across any such sequence. */
module PerformanceSession {
  import opened Common
  import Motion
  import opened PerformanceRepository

  /** One input to the repository, in the order it is handled. */
  datatype Event =
    | LocationFix(location: Location)
    | MotionSampled(sample: Motion.Sample)
    | TimerFired
    | StartRequested(now: real)
    | PauseRequested
    | ResumeRequested
    | StopRequested
  {
    /** Motion samples carry the roots the handler takes. */
    predicate WellFormed() {
      MotionSampled? ==> sample.WellFormed()
    }
  }

  /** The handler of one event, dispatched as `PerformanceRepository`'s
      sinks and lifecycle calls are. */
  function Step(s: Repository, e: Event, dist: Geodesic): (r: Repository)
    ensures !e.StopRequested? ==> r.maxSpeed >= s.maxSpeed && r.distance >= s.distance
    ensures r.bestZeroToHundred.AtMost(s.bestZeroToHundred)
    ensures r.bestZeroToTwoHundred.AtMost(s.bestZeroToTwoHundred)
    ensures s.isPaused && (e.LocationFix? || e.TimerFired?) ==> r == s
    ensures s.Valid() && e.WellFormed() ==> r.Valid()
  {
    match e
    case LocationFix(loc) => OnLocation(s, loc, dist)
    case MotionSampled(x) => OnMotionSample(s, x)
    case TimerFired => OnTick(s)
    case StartRequested(now) => Start(s, now)
    case PauseRequested => PauseTracking(s)
    case ResumeRequested => ResumeTracking(s)
    case StopRequested => StopTracking(s).state
  }

  predicate AllWellFormed(evs: seq<Event>) {
    forall i :: 0 <= i < |evs| ==> evs[i].WellFormed()
  }

  predicate NoStop(evs: seq<Event>) {
    forall i :: 0 <= i < |evs| ==> !evs[i].StopRequested?
  }

  /** The repository after handling `evs` in order; the invariant holds after
      every well-formed history. */
  function Run(s: Repository, evs: seq<Event>, dist: Geodesic): (r: Repository)
    ensures s.Valid() && AllWellFormed(evs) ==> r.Valid()
    decreases |evs|
  {
    if |evs| == 0 then s
    else
      var prefix := evs[..|evs| - 1];
      assert AllWellFormed(evs) ==> AllWellFormed(prefix);
      Step(Run(s, prefix, dist), evs[|evs| - 1], dist)
  }

  /** Handling `a` then `b` is handling `a + b`. */
  lemma {:induction false} RunAppend(s: Repository, a: seq<Event>, b: seq<Event>, dist: Geodesic)
    ensures Run(s, a + b, dist) == Run(Run(s, a, dist), b, dist)
    decreases |b|
  {
    if |b| == 0 {
      assert a + b == a;
    } else {
      assert (a + b)[..|a + b| - 1] == a + b[..|b| - 1];
      assert (a + b)[|a + b| - 1] == b[|b| - 1];
      RunAppend(s, a, b[..|b| - 1], dist);
    }
  }

  /** The best times never increase, whatever happens, stops included. */
  lemma {:induction false} BestsNeverIncrease(s: Repository, evs: seq<Event>, dist: Geodesic)
    ensures Run(s, evs, dist).bestZeroToHundred.AtMost(s.bestZeroToHundred)
    ensures Run(s, evs, dist).bestZeroToTwoHundred.AtMost(s.bestZeroToTwoHundred)
    decreases |evs|
  {
    if |evs| > 0 {
      var prefix := evs[..|evs| - 1];
      BestsNeverIncrease(s, prefix, dist);
      var mid := Run(s, prefix, dist);
      AtMostTransitive(Run(s, evs, dist).bestZeroToHundred, mid.bestZeroToHundred, s.bestZeroToHundred);
      AtMostTransitive(Run(s, evs, dist).bestZeroToTwoHundred, mid.bestZeroToTwoHundred, s.bestZeroToTwoHundred);
    }
  }

  /** Until a stop, the maximum speed and the distance never decrease. */
  lemma {:induction false} MetricsGrowUntilStop(s: Repository, evs: seq<Event>, dist: Geodesic)
    requires NoStop(evs)
    ensures Run(s, evs, dist).maxSpeed >= s.maxSpeed
    ensures Run(s, evs, dist).distance >= s.distance
    decreases |evs|
  {
    if |evs| > 0 {
      MetricsGrowUntilStop(s, evs[..|evs| - 1], dist);
    }
  }

  /** The speed after any prefix of a stop-free history is at most the
      maximum speed at its end. */
  lemma PrefixSpeedBounded(s: Repository, evs: seq<Event>, k: nat, dist: Geodesic)
    requires s.Valid() && AllWellFormed(evs) && NoStop(evs)
    requires k <= |evs|
    ensures Run(s, evs[..k], dist).speed <= Run(s, evs, dist).maxSpeed
  {
    var mid := Run(s, evs[..k], dist);
    assert AllWellFormed(evs[..k]);
    assert mid.speed <= mid.maxSpeed by {
      assert mid.Valid();
    }
    assert evs[..k] + evs[k..] == evs;
    RunAppend(s, evs[..k], evs[k..], dist);
    assert NoStop(evs[k..]);
    MetricsGrowUntilStop(mid, evs[k..], dist);
  }

  /** Since the last stop, the maximum speed bounds the speed reported at every
      point of the history. */
  lemma MaxSpeedBoundsHistory(s: Repository, evs: seq<Event>, dist: Geodesic)
    requires s.Valid() && AllWellFormed(evs) && NoStop(evs)
    ensures forall k :: 0 <= k <= |evs| ==> Run(s, evs[..k], dist).speed <= Run(s, evs, dist).maxSpeed
  {
    forall k | 0 <= k <= |evs|
      ensures Run(s, evs[..k], dist).speed <= Run(s, evs, dist).maxSpeed
    {
      PrefixSpeedBounded(s, evs, k, dist);
    }
  }

  /** While paused, fixes and timer ticks change nothing at all. */
  lemma {:induction false} PausedIgnoresFixesAndTicks(s: Repository, evs: seq<Event>, dist: Geodesic)
    requires s.isPaused
    requires forall i :: 0 <= i < |evs| ==> evs[i].LocationFix? || evs[i].TimerFired?
    ensures Run(s, evs, dist) == s
    decreases |evs|
  {
    if |evs| > 0 {
      PausedIgnoresFixesAndTicks(s, evs[..|evs| - 1], dist);
    }
  }

  /** Pause then resume leaves no window armed, no trigger and a cleared
      detector: nothing timed before the pause can complete after it. */
  lemma PauseResumeDisarms(s: Repository)
    ensures var r := ResumeTracking(PauseTracking(s));
              && !r.isPaused
              && r.zeroToHundredStart.None? && r.zeroToTwoHundredStart.None?
              && !r.accelStartTriggered && r.motion.Cleared()
              && r.lastProcessedSpeed == s.lastProcessedSpeed && r.lastProcessedTime == s.lastProcessedTime
    ensures var r := ResumeTrackingIntended(PauseTracking(s));
              && !r.isPaused
              && r.zeroToHundredStart.None? && r.zeroToTwoHundredStart.None?
              && !r.accelStartTriggered && r.motion.Cleared()
              && r.lastProcessedSpeed.None? && r.lastProcessedTime.None?
  {
  }

  // ---------------------------------------------------------------------
  // The accelerometer start path

  /** The events delivering the samples `xs` in order. */
  function MotionEvents(xs: seq<Motion.Sample>): (evs: seq<Event>)
    ensures |evs| == |xs|
    ensures forall i :: 0 <= i < |xs| ==> evs[i] == MotionSampled(xs[i])
  {
    seq(|xs|, i requires 0 <= i < |xs| => MotionSampled(xs[i]))
  }

  /** Motion samples drive the motion state exactly as the manager's handler
      does, and as long as no onset is stamped they neither arm a window nor
      set the trigger. */
  lemma {:induction false} MotionHistoryTracksMotion(s: Repository, xs: seq<Motion.Sample>, dist: Geodesic)
    ensures Run(s, MotionEvents(xs), dist).motion == Motion.Samples(s.motion, xs)
    ensures Run(s, MotionEvents(xs), dist).isPaused == s.isPaused
    ensures Motion.Samples(s.motion, xs).movementDetectedAt.None? ==>
              var r := Run(s, MotionEvents(xs), dist);
                && r.zeroToHundredStart == s.zeroToHundredStart
                && r.zeroToTwoHundredStart == s.zeroToTwoHundredStart
                && r.accelStartTriggered == s.accelStartTriggered
    decreases |xs|
  {
    if |xs| > 0 {
      var init := xs[..|xs| - 1];
      assert MotionEvents(xs)[..|xs| - 1] == MotionEvents(init);
      MotionHistoryTracksMotion(s, init, dist);
    }
  }

  /** The accelerometer start, end to end: six qualifying samples fed to a
      running, untriggered, unarmed session with a cleared detector arm both
      windows at the sixth sample's time minus 0.06 s and set the trigger. */
  lemma SixSamplesArmBothWindows(s: Repository, xs: seq<Motion.Sample>, dist: Geodesic)
    requires !s.isPaused && !s.accelStartTriggered && s.zeroToHundredStart.None?
    requires s.motion.movementDetectedAt.None? && s.motion.sustainedAccelCount == 0
    requires |xs| == Motion.SustainedSampleCount
    requires forall i :: 0 <= i < |xs| ==> Motion.Qualifies(xs[i])
    ensures var r := Run(s, MotionEvents(xs), dist);
              && r.zeroToHundredStart == Some(xs[5].now - 0.06)
              && r.zeroToTwoHundredStart == Some(xs[5].now - 0.06)
              && r.accelStartTriggered
  {
    var init := xs[..5];
    assert MotionEvents(xs)[..|xs| - 1] == MotionEvents(init);
    assert xs[..|xs| - 1] == init;
    Motion.DebounceMatchesReference(s.motion, init);
    Motion.NoOnsetBeforeSix(init);
    MotionHistoryTracksMotion(s, init, dist);
    Motion.SixQualifyingSamplesStampOnset(s.motion, xs);
  }

  /** With the corrected resume, the first fix after a pause times nothing
      across it: the "0-100" best is untouched, and a window it arms starts
      at the fix itself, so any elapsed time it records is zero. */
  lemma IntendedResumeTimesNothingAcrossPause(s: Repository, loc: Location, dist: Geodesic)
    ensures var r := OnLocation(ResumeTrackingIntended(PauseTracking(s)), loc, dist);
              && r.bestZeroToHundred == s.bestZeroToHundred
              && r.zeroToHundredStart == r.zeroToTwoHundredStart
              && (r.zeroToHundredStart.None? || r.zeroToHundredStart == Some(loc.timestamp))
              && (r.zeroToHundred == s.zeroToHundred || r.zeroToHundred == 0.0)
              && (r.zeroToTwoHundred == s.zeroToTwoHundred || r.zeroToTwoHundred == 0.0)
              && (ReportedSpeed(loc) < SecondMilestone ==> r.bestZeroToTwoHundred == s.bestZeroToTwoHundred)
              && (ReportedSpeed(loc) >= SecondMilestone ==>
                    r.bestZeroToTwoHundred == s.bestZeroToTwoHundred.Improve(0.0))
  {
  }

  /** A fix that crosses 50 km/h while running captures the "0-100" window:
      both interpolation branches give the fix-to-fix interpolation (the
      integrated speed was just synced to the fix), the window disarms, the
      trigger clears and movement detection restarts. */
  lemma FixCapturesFirstMilestone(s: Repository, loc: Location, dist: Geodesic)
    requires !s.isPaused
    requires ReportedSpeed(loc) >= FirstMilestone
    requires s.PreviousBelow(FirstMilestone)
    ensures var r := OnLocation(s, loc, dist);
            var armed := Arm(SyncedForFix(s, loc, dist), ReportedSpeed(loc), loc.timestamp);
              && armed.zeroToHundredStart.Some?
              && r.zeroToHundred == FirstDurationFromFixes(armed, ReportedSpeed(loc), loc.timestamp)
              && r.zeroToHundred >= 0.0
              && r.bestZeroToHundred == s.bestZeroToHundred.Improve(r.zeroToHundred)
              && r.zeroToHundredStart.None? && !r.accelStartTriggered && r.motion.Cleared()
  {
  }

  // ---------------------------------------------------------------------
  // Concrete histories

  /** A distance that is the difference of latitudes. */
  function LatitudeDistance(a: Position, b: Position): NonNegReal {
    if a.latitude >= b.latitude then a.latitude - b.latitude else b.latitude - a.latitude
  }

  /** Fixes at 0 km/h (t = 0), 80 km/h (t = 1) and 80 km/h (t = 2): the
      "0-100" window arms at t = 0 and is captured at the 50 km/h crossing,
      0.625 s in; the next fix re-arms both windows, moving the 0-200 start
      from 0 to 2 s. */
  lemma FiftyCrossingScenario()
    ensures var s0 := Start(Init(true), 0.0);
            var s1 := OnLocation(s0, Location(Position(0.0, 0.0), 0.0, 0.0), LatitudeDistance);
            var s2 := OnLocation(s1, Location(Position(0.0, 0.0), 80.0 / 3.6, 1.0), LatitudeDistance);
            var s3 := OnLocation(s2, Location(Position(0.0, 0.0), 80.0 / 3.6, 2.0), LatitudeDistance);
              && s2.zeroToHundred == 0.625
              && s2.bestZeroToHundred == Finite(0.625)
              && s2.zeroToHundredStart.None?
              && s2.zeroToTwoHundredStart == Some(0.0)
              && s3.zeroToHundredStart == Some(2.0)
              && s3.zeroToTwoHundredStart == Some(2.0)
  {
  }

  /** Fixes at 0 km/h (t = 0) and 40 km/h (t = 10) after a start at 0 s. */
  function RollingStart(): Repository {
    var s0 := Start(Init(true), 0.0);
    var s1 := OnLocation(s0, Location(Position(0.0, 0.0), 0.0, 0.0), LatitudeDistance);
    OnLocation(s1, Location(Position(0.0, 0.0), 40.0 / 3.6, 10.0), LatitudeDistance)
  }

  /** The 60 km/h fix at t = 100 that follows the pause. */
  function LateFix(): Location {
    Location(Position(0.0, 0.0), 60.0 / 3.6, 100.0)
  }

  /** The rolling start armed "0-100" at 0 s by extrapolation, has 10 s on
      it, and has 40 km/h at 10 s as its previously processed fix. */
  lemma RollingStartState()
    ensures var s := RollingStart();
              && !s.isPaused && s.Valid()
              && s.zeroToHundredStart == Some(0.0) && s.zeroToHundred == 10.0
              && s.bestZeroToHundred == Infinity && s.bestZeroToTwoHundred == Infinity
              && s.lastProcessedSpeed == Some(40.0) && s.lastProcessedTime == Some(10.0)
  {
    var s0 := Start(Init(true), 0.0);
    var s1 := OnLocation(s0, Location(Position(0.0, 0.0), 0.0, 0.0), LatitudeDistance);
    assert s1.lastProcessedSpeed == Some(0.0) && s1.zeroToHundredStart.None?;
  }

  /** `PerformanceRepository.resumeTracking()` keeps the previously processed fix, and the first
      fix after it interpolates against that fix across the whole pause.
      After the rolling start, a pause and a resume, the 60 km/h fix at
      t = 100 re-arms at 100 s and places the 50 km/h crossing halfway
      between 10 s and 100 s: the clamped "0-100" is 0 s, a best no later
      run can beat. */
  lemma ResumeTimesAcrossPause()
    ensures var r := OnLocation(ResumeTracking(PauseTracking(RollingStart())), LateFix(), LatitudeDistance);
              r.zeroToHundred == 0.0 && r.bestZeroToHundred == Finite(0.0)
  {
    RollingStartState();
  }

  /** A single standing fix at t = 10 before the pause: the first fix after
      the resume records 75 s, most of it the pause. */
  lemma ResumeTimesStandingStartAcrossPause()
    ensures var s0 := Start(Init(true), 0.0);
            var s1 := OnLocation(s0, Location(Position(0.0, 0.0), 0.0, 10.0), LatitudeDistance);
            var r := OnLocation(ResumeTracking(PauseTracking(s1)), LateFix(), LatitudeDistance);
              r.zeroToHundred == 75.0 && r.bestZeroToHundred == Finite(75.0)
  {
  }

  /** The same history as `ResumeTimesAcrossPause` with the corrected resume
      records nothing: the 10 s elapsed before the pause stays and there is
      still no best. */
  lemma IntendedResumeScenario()
    ensures var r := OnLocation(ResumeTrackingIntended(PauseTracking(RollingStart())), LateFix(), LatitudeDistance);
              r.zeroToHundred == 10.0 && r.bestZeroToHundred == Infinity
  {
    RollingStartState();
    IntendedResumeTimesNothingAcrossPause(RollingStart(), LateFix(), LatitudeDistance);
  }

  /** A session whose first fix already reads 210 km/h arms both windows at
      that fix, and the "0-200" window, armed without a crossing, records
      0 s and offers it as the best: a best no later run can beat. */
  lemma FirstFixAboveTwoHundredRecordsZero()
    ensures var r := OnLocation(Start(Init(true), 0.0), Location(Position(0.0, 0.0), 210.0 / 3.6, 5.0), LatitudeDistance);
              && r.zeroToTwoHundredStart == Some(5.0)
              && r.zeroToTwoHundred == 0.0 && r.bestZeroToTwoHundred == Finite(0.0)
  {
  }

  /** The corrected window at that fix keeps the best: without a previous
      fix there is no crossing, so nothing is offered. */
  lemma IntendedSecondWindowWithoutPreviousFix(s: Repository, v: real, t: real)
    requires s.lastProcessedSpeed.None?
    ensures SecondWindowIntended(s, v, t).bestZeroToTwoHundred == s.bestZeroToTwoHundred
    ensures v >= SecondMilestone && s.zeroToTwoHundredStart == Some(t) ==>
              && SecondWindow(s, v, t).zeroToTwoHundred == 0.0
              && SecondWindow(s, v, t).bestZeroToTwoHundred == s.bestZeroToTwoHundred.Improve(0.0)
  {
  }

  /** A usable motion sample whose acceleration exceeds half a g while the
      reported speed is within 97..103 km/h overwrites the braking latch with
      the last fix, whatever the latch held. */
  lemma SampleLatchesBraking(s: Repository, x: Motion.Sample)
    requires Motion.GravityUsable(x)
    requires LatchesBraking(s, Motion.ForwardAcceleration(x))
    ensures OnMotionSample(s, x).brakingStartLocation == s.lastLocation
  {
  }

  /** A running fix at or below 2 km/h with a latch set records the distance
      from the latched fix and clears the latch. */
  lemma FixCapturesBraking(s: Repository, loc: Location, dist: Geodesic)
    requires !s.isPaused
    requires ReportedSpeed(loc) <= MovingThreshold
    requires s.brakingStartLocation.Some?
    ensures OnLocation(s, loc, dist).brakingDistance == dist(loc.position, s.brakingStartLocation.value.position)
    ensures OnLocation(s, loc, dist).brakingStartLocation.None?
  {
  }

  /** Without a latch, a fix records no braking distance and sets no latch:
      one latch gives at most one capture. */
  lemma FixWithoutLatchKeepsBraking(s: Repository, loc: Location, dist: Geodesic)
    requires s.brakingStartLocation.None?
    ensures OnLocation(s, loc, dist).brakingDistance == s.brakingDistance
    ensures OnLocation(s, loc, dist).brakingStartLocation.None?
  {
  }

  /** A latching sample followed by a standing fix records the distance from
      the fix that was current at the latch, exactly once: a further fix
      without a new latch records nothing more. */
  lemma BrakingCapturedOnce(s: Repository, x: Motion.Sample, stop: Location, later: Location, dist: Geodesic)
    requires !s.isPaused && s.lastLocation.Some?
    requires Motion.GravityUsable(x)
    requires LatchesBraking(s, Motion.ForwardAcceleration(x))
    requires ReportedSpeed(stop) <= MovingThreshold
    ensures var s3 := OnLocation(OnMotionSample(s, x), stop, dist);
              && s3.brakingDistance == dist(stop.position, s.lastLocation.value.position)
              && OnLocation(s3, later, dist).brakingDistance == s3.brakingDistance
  {
  }

  /** Stopping a short session signals "not saved"; stopping one past 0.1 km
      at 10 km/h saves the metrics held just before the reset. Both zero the
      metrics. */
  lemma StopScenarios(s: Repository)
    requires s.speed == 10.0
    ensures var short := StopTracking(s.(distance := 0.05));
              short.saved.None? && short.state.distance == 0.0 && short.state.maxSpeed == 0.0
    ensures var long := StopTracking(s.(distance := 0.2));
              && long.saved.Some?
              && long.saved.value.distance == 0.2 && long.saved.value.maxSpeed == s.maxSpeed
              && long.state.distance == 0.0 && long.state.speed == 0.0
  {
  }
}
