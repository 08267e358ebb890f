/** `PerformanceRepository`: the session and milestone state machine. Each
    Combine sink becomes an event handler over an immutable record; the
    satellite fix handler drives `processPerformanceMetrics`, which arms the
    timing windows, captures the "0-100" (at 50 km/h) and 0-200 crossings
    with linear interpolation, and captures the braking distance. */
module PerformanceRepository {
  import opened Common
  import Motion

  /** m/s to km/h. */
  const KmhPerMs: real := 3.6
  /** Below this speed (km/h) the car counts as standing: no distance accrues,
      no window is armed, and braking ends. */
  const MovingThreshold: real := 2.0
  /** The "0-100" window is captured when 50 km/h is crossed. */
  const FirstMilestone: real := 50.0
  /** The 0-200 window is captured when 200 km/h is crossed. */
  const SecondMilestone: real := 200.0
  /** Acceleration magnitude (m/s²) that latches a braking start: half a g. */
  const BrakingAcceleration: real := 0.5 * 9.81
  /** Speed band (km/h) in which a hard deceleration latches a braking start. */
  const BrakingBandLow: real := 97.0
  const BrakingBandHigh: real := 103.0
  /** A g-force reading must exceed this to become the session peak. */
  const MinGForce: real := 0.1
  /** A session is saved only above this distance (km) ... */
  const MinSavedDistance: real := 0.1
  /** ... and above this final speed (km/h). */
  const MinSavedSpeed: real := 5.0
  /** The session clock's tick. */
  const TickSeconds: real := 1.0
  const MetersPerKm: real := 1000.0

  datatype Position = Position(latitude: real, longitude: real)

  /** A satellite fix: position, speed in m/s (negative when invalid) and the
      fix's own timestamp in seconds. */
  datatype Location = Location(position: Position, speedMs: real, timestamp: real)

  /** `CLLocation.distance(from:)` in metres, left uninterpreted apart from
      being non-negative. */
  type Geodesic = (Position, Position) -> NonNegReal

  /** A best time, `Double.infinity` until the first capture. */
  datatype Best = Infinity | Finite(seconds: real) {
    /** `d < this`. */
    predicate Exceeds(d: real) {
      Infinity? || d < seconds
    }

    /** `this <= other` in the extended order. */
    predicate AtMost(other: Best) {
      other.Infinity? || (Finite? && seconds <= other.seconds)
    }

    /** `if d < best { best = d }`: the minimum of the old best and `d`. */
    function Improve(d: real): (b: Best)
      ensures b.AtMost(this) && b.AtMost(Finite(d))
      ensures b == this || b == Finite(d)
    {
      if Exceeds(d) then Finite(d) else this
    }
  }

  lemma AtMostTransitive(a: Best, b: Best, c: Best)
    requires a.AtMost(b) && b.AtMost(c)
    ensures a.AtMost(c)
  {
  }

  datatype Repository = Repository(
    speed: real,
    maxSpeed: real,
    distance: real,
    sessionTime: real,
    zeroToHundred: real,
    zeroToTwoHundred: real,
    brakingDistance: real,
    gForce: real,
    bestZeroToHundred: Best,
    bestZeroToTwoHundred: Best,
    isPaused: bool,
    startTime: Option<real>,
    startLocation: Option<Location>,
    lastLocation: Option<Location>,
    zeroToHundredStart: Option<real>,
    zeroToTwoHundredStart: Option<real>,
    brakingStartLocation: Option<Location>,
    lastProcessedSpeed: Option<real>,
    lastProcessedTime: Option<real>,
    accelStartTriggered: bool,
    motion: Motion.MotionState)
  {
    /** What every handler keeps: speeds and accumulated metrics are
        non-negative, the current speed never exceeds the maximum, the
        accelerometer trigger implies an armed window, and the previous fix's
        speed and time come together. */
    predicate Valid() {
      && 0.0 <= speed <= maxSpeed
      && distance >= 0.0
      && sessionTime >= 0.0
      && gForce >= 0.0
      && brakingDistance >= 0.0
      && (bestZeroToHundred.Finite? ==> bestZeroToHundred.seconds >= 0.0)
      && (accelStartTriggered ==> zeroToHundredStart.Some?)
      && (lastProcessedSpeed.Some? <==> lastProcessedTime.Some?)
      && (lastProcessedSpeed.Some? ==> lastProcessedSpeed.value >= 0.0)
      && motion.Valid()
    }

    /** The previous fix was below `level`, so a crossing can be interpolated. */
    predicate PreviousBelow(level: real) {
      lastProcessedSpeed.Some? && lastProcessedTime.Some? && lastProcessedSpeed.value < level
    }
  }

  /** The repository as constructed; `motionAvailable` is the platform's
      device-motion capability. */
  function Init(motionAvailable: bool): (s: Repository)
    ensures s.Valid()
    ensures s.bestZeroToHundred.Infinity? && s.bestZeroToTwoHundred.Infinity?
    ensures s.zeroToHundredStart.None? && s.zeroToTwoHundredStart.None? && !s.isPaused
    ensures s.speed == 0.0 && s.maxSpeed == 0.0 && s.distance == 0.0 && s.sessionTime == 0.0
    ensures s.zeroToHundred == 0.0 && s.zeroToTwoHundred == 0.0 && s.brakingDistance == 0.0 && s.gForce == 0.0
    ensures s.startTime.None? && s.startLocation.None? && s.lastLocation.None? && s.brakingStartLocation.None?
    ensures s.lastProcessedSpeed.None? && s.lastProcessedTime.None? && !s.accelStartTriggered
    ensures s.motion == Motion.Init(motionAvailable)
  {
    Repository(0.0, 0.0, 0.0, 0.0, 0.0, 0.0, 0.0, 0.0, Infinity, Infinity, false,
               None, None, None, None, None, None, None, None, false, Motion.Init(motionAvailable))
  }

  // ---------------------------------------------------------------------
  // Interpolation

  /** The fraction `(level − v1)/(v − v1)` of a fix interval at which the
      straight line from `v1` to `v` meets `level`. */
  function Fraction(level: real, v1: real, v: real): (k: real)
    requires v1 < v
    ensures v1 + k * (v - v1) == level
    ensures v1 < level <= v ==> 0.0 < k <= 1.0
    ensures level <= v1 ==> k <= 0.0
  {
    var k := (level - v1) / (v - v1);
    FractionBounds(level, v1, v, k);
    k
  }

  /** Where the meeting point lies for a fraction `k` with
      `k·(v − v1) = level − v1`. */
  lemma FractionBounds(level: real, v1: real, v: real, k: real)
    requires v1 < v
    requires k * (v - v1) == level - v1
    ensures v1 + k * (v - v1) == level
    ensures v1 < level <= v ==> 0.0 < k <= 1.0
    ensures level <= v1 ==> k <= 0.0
  {
    var d := v - v1;
    if k > 1.0 {
      assert (k - 1.0) * d > 0.0;
      assert k * d > d;
    }
    if k > 0.0 {
      assert k * d > 0.0;
    }
    if k <= 0.0 {
      assert k * d <= 0.0;
    }
  }

  /** The duration of a window started at `start` whose crossing lies the
      fraction `k` into the fix interval `[t1, t]`, clamped at zero. */
  function CrossingDuration(start: real, t1: real, t: real, k: real): (d: real)
    ensures d >= 0.0
    ensures d >= (t1 + (t - t1) * k) - start
    ensures d == 0.0 || d == (t1 + (t - t1) * k) - start
  {
    Max(0.0, (t1 - start) + (t - t1) * k)
  }

  // ---------------------------------------------------------------------
  // Motion sinks

  /** The g-force sink: while running, a reading above both the current peak
      and 0.1 becomes the new peak. */
  function OnGForce(s: Repository, value: real): (r: Repository)
    ensures r.gForce >= s.gForce
    ensures r.gForce == s.gForce || (!s.isPaused && r.gForce == value && value > MinGForce)
    ensures !s.isPaused && value > MinGForce ==> r.gForce >= value
    ensures r.(gForce := s.gForce) == s
  {
    if !s.isPaused && s.gForce < value && value > MinGForce then s.(gForce := value) else s
  }

  /** The accelerometer start trigger, fired with a newly stamped onset. It
      arms both windows at that instant exactly when the session runs, the
      accelerometer has not triggered this cycle and no window is armed. */
  function OnMovementDetected(s: Repository, detectedAt: real): (r: Repository)
    ensures (r != s) <==> (!s.isPaused && !s.accelStartTriggered && s.zeroToHundredStart.None?)
    ensures r != s ==>
              && r.zeroToHundredStart == Some(detectedAt)
              && r.zeroToTwoHundredStart == Some(detectedAt)
              && r.accelStartTriggered
              && r.(zeroToHundredStart := s.zeroToHundredStart,
                    zeroToTwoHundredStart := s.zeroToTwoHundredStart,
                    accelStartTriggered := s.accelStartTriggered) == s
  {
    if !s.isPaused && !s.accelStartTriggered && s.zeroToHundredStart.None? then
      s.(zeroToHundredStart := Some(detectedAt), zeroToTwoHundredStart := Some(detectedAt),
         accelStartTriggered := true)
    else s
  }

  /** True when an acceleration reading latches the braking start. */
  predicate LatchesBraking(s: Repository, acc: real) {
    !s.isPaused && acc > BrakingAcceleration && BrakingBandLow <= s.speed <= BrakingBandHigh
  }

  /** The braking latch: every qualifying reading overwrites the latch with
      the last fix, even one already latched, and even with no fix at all
      (last wins). Nothing else changes. */
  function OnForwardAcceleration(s: Repository, acc: real): (r: Repository)
    ensures LatchesBraking(s, acc) ==> r.brakingStartLocation == s.lastLocation
    ensures !LatchesBraking(s, acc) ==> r == s
    ensures r.(brakingStartLocation := s.brakingStartLocation) == s
  {
    if LatchesBraking(s, acc) then s.(brakingStartLocation := s.lastLocation) else s
  }

  /** One device-motion sample: the motion handler runs, then the sinks of
      what it published see the new values (the g-force always, the forward
      acceleration when the gravity reference was usable, the onset when it
      was just stamped). */
  function OnMotionSample(s: Repository, x: Motion.Sample): (r: Repository)
    ensures r.motion == Motion.OnSample(s.motion, x)
    ensures r.speed == s.speed && r.maxSpeed == s.maxSpeed && r.distance == s.distance
    ensures r.bestZeroToHundred == s.bestZeroToHundred && r.bestZeroToTwoHundred == s.bestZeroToTwoHundred
    ensures r.isPaused == s.isPaused && r.lastLocation == s.lastLocation
    ensures r.lastProcessedSpeed == s.lastProcessedSpeed && r.lastProcessedTime == s.lastProcessedTime
    ensures r.brakingDistance == s.brakingDistance && r.sessionTime == s.sessionTime
    ensures s.isPaused ==> r == s.(motion := r.motion)
    ensures r.gForce == OnGForce(s, x.totalG).gForce
    ensures Motion.GravityUsable(x) ==>
              r.brakingStartLocation == OnForwardAcceleration(s, Motion.ForwardAcceleration(x)).brakingStartLocation
    ensures !Motion.GravityUsable(x) ==> r.brakingStartLocation == s.brakingStartLocation
    ensures var onset := Motion.GravityUsable(x) && s.motion.movementDetectedAt.None?
                         && r.motion.movementDetectedAt.Some?;
            if onset && !s.isPaused && !s.accelStartTriggered && s.zeroToHundredStart.None? then
              && r.zeroToHundredStart == r.motion.movementDetectedAt
              && r.zeroToTwoHundredStart == r.motion.movementDetectedAt
              && r.accelStartTriggered
            else
              && r.zeroToHundredStart == s.zeroToHundredStart
              && r.zeroToTwoHundredStart == s.zeroToTwoHundredStart
              && r.accelStartTriggered == s.accelStartTriggered
    ensures s.Valid() && x.WellFormed() ==> r.Valid()
  {
    var m := Motion.OnSample(s.motion, x);
    var s1 := OnGForce(s.(motion := m), m.totalGForce);
    if !Motion.GravityUsable(x) then s1
    else
      var s2 := OnForwardAcceleration(s1, m.forwardAcceleration);
      if s.motion.movementDetectedAt.None? && m.movementDetectedAt.Some? then
        OnMovementDetected(s2, m.movementDetectedAt.value)
      else s2
  }

  // ---------------------------------------------------------------------
  // processPerformanceMetrics, step by step

  /** Arming from a fix: with no window armed and the speed at least
      2 km/h, both windows start at the same instant. When the previous fix was
      below 2 km/h, the instant is where the straight line through the two
      fixes meets 0 km/h (it lies at or before the previous fix); otherwise
      it is this fix's time. */
  function Arm(s: Repository, v: real, t: real): (r: Repository)
    ensures s.zeroToHundredStart.Some? || v < MovingThreshold ==> r == s
    ensures s.zeroToHundredStart.None? && v >= MovingThreshold ==>
              && r.zeroToHundredStart.Some?
              && r.zeroToTwoHundredStart == r.zeroToHundredStart
              && r == s.(zeroToHundredStart := r.zeroToHundredStart,
                         zeroToTwoHundredStart := r.zeroToTwoHundredStart)
    ensures s.zeroToHundredStart.None? && v >= MovingThreshold && !s.PreviousBelow(MovingThreshold) ==>
              r.zeroToHundredStart == Some(t)
    ensures s.zeroToHundredStart.None? && v >= MovingThreshold && s.PreviousBelow(MovingThreshold) ==>
              var v1, t1, start := s.lastProcessedSpeed.value, s.lastProcessedTime.value, r.zeroToHundredStart.value;
              && (start - t1) * (v - v1) == (0.0 - v1) * (t - t1)
              && (v1 >= 0.0 && t1 <= t ==> start <= t1)
    ensures s.Valid() ==> r.Valid()
  {
    if v >= MovingThreshold && s.zeroToHundredStart.None? then
      if s.PreviousBelow(MovingThreshold) then
        var v1, t1 := s.lastProcessedSpeed.value, s.lastProcessedTime.value;
        var ratio := Fraction(0.0, v1, v);
        var start := t1 + (t - t1) * ratio;
        assert (start - t1) * (v - v1) == (0.0 - v1) * (t - t1) by {
          assert start - t1 == (t - t1) * ratio;
          assert ratio * (v - v1) == 0.0 - v1;
        }
        assert v1 >= 0.0 && t1 <= t ==> start <= t1 by {
          if v1 >= 0.0 && t1 <= t {
            assert ratio <= 0.0;
            assert (t - t1) * ratio <= 0.0;
          }
        }
        s.(zeroToHundredStart := Some(start), zeroToTwoHundredStart := Some(start))
      else
        s.(zeroToHundredStart := Some(t), zeroToTwoHundredStart := Some(t))
    else s
  }

  /** True when a fix at `v` captures the "0-100" window: it is armed, the
      speed has reached 50 km/h and the previous fix was below it. */
  predicate CapturesFirst(s: Repository, v: real) {
    s.zeroToHundredStart.Some? && v >= FirstMilestone && s.PreviousBelow(FirstMilestone)
  }

  /** The "0-100" duration as interpolated between the two fixes. */
  function FirstDurationFromFixes(s: Repository, v: real, t: real): (d: real)
    requires CapturesFirst(s, v)
    ensures d >= 0.0
  {
    var k := Fraction(FirstMilestone, s.lastProcessedSpeed.value, v);
    CrossingDuration(s.zeroToHundredStart.value, s.lastProcessedTime.value, t, k)
  }

  /** The "0-100" window at a fix. Armed and below 50 km/h, it records the
      running elapsed time. At a 50 km/h crossing it records the interpolated
      duration (using the integrated speed as the upper end when that reached
      50 and time advanced), improves the best, disarms, clears the trigger
      and resets movement detection. Armed at 50 km/h or more without a
      crossing, nothing happens. */
  function FirstWindow(s: Repository, v: real, t: real): (r: Repository)
    ensures s.zeroToHundredStart.None? ==> r == s
    ensures s.zeroToHundredStart.Some? && v < FirstMilestone ==>
              r == s.(zeroToHundred := t - s.zeroToHundredStart.value)
    ensures s.zeroToHundredStart.Some? && v >= FirstMilestone && !s.PreviousBelow(FirstMilestone) ==> r == s
    ensures CapturesFirst(s, v) ==>
              && r.zeroToHundred >= 0.0
              && r.bestZeroToHundred == s.bestZeroToHundred.Improve(r.zeroToHundred)
              && r.zeroToHundredStart.None?
              && !r.accelStartTriggered
              && r.motion == Motion.ResetMovementDetection(s.motion)
              && r.zeroToTwoHundredStart == s.zeroToTwoHundredStart
    ensures CapturesFirst(s, v) && s.motion.integratedSpeed == v ==>
              r.zeroToHundred == FirstDurationFromFixes(s, v, t)
    ensures r.bestZeroToHundred.AtMost(s.bestZeroToHundred)
    ensures r.speed == s.speed && r.maxSpeed == s.maxSpeed && r.distance == s.distance
    ensures r.lastProcessedSpeed == s.lastProcessedSpeed && r.lastProcessedTime == s.lastProcessedTime
    ensures r.bestZeroToTwoHundred == s.bestZeroToTwoHundred && r.brakingStartLocation == s.brakingStartLocation
    ensures r.brakingDistance == s.brakingDistance && r.isPaused == s.isPaused
    ensures r.zeroToTwoHundredStart == s.zeroToTwoHundredStart && r.zeroToTwoHundred == s.zeroToTwoHundred
    ensures s.Valid() ==> r.Valid()
  {
    match s.zeroToHundredStart
    case None => s
    case Some(start) =>
      if v >= FirstMilestone then
        if s.PreviousBelow(FirstMilestone) then
          var v1, t1 := s.lastProcessedSpeed.value, s.lastProcessedTime.value;
          var accelSpeed := s.motion.integratedSpeed;
          var gpsInterval := t - t1;
          var duration :=
            if accelSpeed >= FirstMilestone && gpsInterval > 0.0 then
              CrossingDuration(start, t1, t, Fraction(FirstMilestone, v1, accelSpeed))
            else
              CrossingDuration(start, t1, t, Fraction(FirstMilestone, v1, v));
          s.(zeroToHundred := duration,
             bestZeroToHundred := s.bestZeroToHundred.Improve(duration),
             zeroToHundredStart := None,
             accelStartTriggered := false,
             motion := Motion.ResetMovementDetection(s.motion))
        else s
      else s.(zeroToHundred := t - start)
  }

  /** The 0-200 window at a fix at or above 200 km/h. At a crossing it records
      the interpolated duration and disarms; without one it records the
      elapsed time since the start and stays armed. Either way the best is
      improved. */
  function SecondWindow(s: Repository, v: real, t: real): (r: Repository)
    ensures v < SecondMilestone || s.zeroToTwoHundredStart.None? ==> r == s
    ensures v >= SecondMilestone && s.zeroToTwoHundredStart.Some? && s.PreviousBelow(SecondMilestone) ==>
              && r.zeroToTwoHundred == CrossingDuration(s.zeroToTwoHundredStart.value, s.lastProcessedTime.value, t,
                                                        Fraction(SecondMilestone, s.lastProcessedSpeed.value, v))
              && r.zeroToTwoHundred >= 0.0
              && r.zeroToTwoHundredStart.None?
    ensures v >= SecondMilestone && s.zeroToTwoHundredStart.Some? && !s.PreviousBelow(SecondMilestone) ==>
              && r.zeroToTwoHundred == t - s.zeroToTwoHundredStart.value
              && r.zeroToTwoHundredStart == s.zeroToTwoHundredStart
    ensures v >= SecondMilestone && s.zeroToTwoHundredStart.Some? ==>
              r.bestZeroToTwoHundred == s.bestZeroToTwoHundred.Improve(r.zeroToTwoHundred)
    ensures r.bestZeroToTwoHundred.AtMost(s.bestZeroToTwoHundred)
    ensures r.(zeroToTwoHundred := s.zeroToTwoHundred, zeroToTwoHundredStart := s.zeroToTwoHundredStart,
               bestZeroToTwoHundred := s.bestZeroToTwoHundred) == s
  {
    if v >= SecondMilestone && s.zeroToTwoHundredStart.Some? then
      var start := s.zeroToTwoHundredStart.value;
      var s1 :=
        if s.PreviousBelow(SecondMilestone) then
          var v1, t1 := s.lastProcessedSpeed.value, s.lastProcessedTime.value;
          s.(zeroToTwoHundred := CrossingDuration(start, t1, t, Fraction(SecondMilestone, v1, v)),
             zeroToTwoHundredStart := None)
        else
          s.(zeroToTwoHundred := t - start);
      s1.(bestZeroToTwoHundred := s.bestZeroToTwoHundred.Improve(s1.zeroToTwoHundred))
    else s
  }

  /** The corrected 0-200 window: as `SecondWindow`, except that the best is
      improved only at a real crossing. A window that is armed at or above
      200 km/h without one keeps recording the elapsed time but never offers
      it as a best, so no 0 s best can come from a window armed at the fix
      that reads it. */
  function SecondWindowIntended(s: Repository, v: real, t: real): (r: Repository)
    ensures r == SecondWindow(s, v, t).(bestZeroToTwoHundred := r.bestZeroToTwoHundred)
    ensures v >= SecondMilestone && s.zeroToTwoHundredStart.Some? && s.PreviousBelow(SecondMilestone) ==>
              r.bestZeroToTwoHundred == SecondWindow(s, v, t).bestZeroToTwoHundred
    ensures !(v >= SecondMilestone && s.zeroToTwoHundredStart.Some? && s.PreviousBelow(SecondMilestone)) ==>
              r.bestZeroToTwoHundred == s.bestZeroToTwoHundred
  {
    var w := SecondWindow(s, v, t);
    if v >= SecondMilestone && s.zeroToTwoHundredStart.Some? && s.PreviousBelow(SecondMilestone) then w
    else w.(bestZeroToTwoHundred := s.bestZeroToTwoHundred)
  }

  /** Braking capture: at or below 2 km/h with a latched start, the braking
      distance becomes the distance from the latched fix and the latch is
      cleared, so one latch gives at most one capture. */
  function BrakingCapture(s: Repository, v: real, loc: Location, dist: Geodesic): (r: Repository)
    ensures v <= MovingThreshold && s.brakingStartLocation.Some? ==>
              && r.brakingDistance == dist(loc.position, s.brakingStartLocation.value.position)
              && r.brakingStartLocation.None?
    ensures !(v <= MovingThreshold && s.brakingStartLocation.Some?) ==> r == s
    ensures r.(brakingDistance := s.brakingDistance, brakingStartLocation := s.brakingStartLocation) == s
  {
    if v <= MovingThreshold && s.brakingStartLocation.Some? then
      s.(brakingDistance := dist(loc.position, s.brakingStartLocation.value.position),
         brakingStartLocation := None)
    else s
  }

  /** `processPerformanceMetrics`: arm, the two windows, braking, then this fix
      becomes the previous one. */
  function ProcessPerformanceMetrics(s: Repository, v: real, loc: Location, dist: Geodesic): (r: Repository)
    ensures s.isPaused ==> r == s
    ensures !s.isPaused ==> r.lastProcessedSpeed == Some(v) && r.lastProcessedTime == Some(loc.timestamp)
    ensures r.speed == s.speed && r.maxSpeed == s.maxSpeed && r.distance == s.distance
    ensures r.bestZeroToHundred.AtMost(s.bestZeroToHundred)
    ensures r.bestZeroToTwoHundred.AtMost(s.bestZeroToTwoHundred)
    ensures r.isPaused == s.isPaused && r.lastLocation == s.lastLocation
    ensures s.Valid() && v >= 0.0 ==> r.Valid()
  {
    if s.isPaused then s
    else
      var t := loc.timestamp;
      var s1 := Arm(s, v, t);
      var s2 := FirstWindow(s1, v, t);
      var s3 := SecondWindow(s2, v, t);
      var s4 := BrakingCapture(s3, v, loc, dist);
      s4.(lastProcessedSpeed := Some(v), lastProcessedTime := Some(t))
  }

  // ---------------------------------------------------------------------
  // The satellite fix sink

  /** The reported speed: the fix's speed in km/h, clamped at zero. */
  function ReportedSpeed(loc: Location): (v: real)
    ensures v >= 0.0 && v >= loc.speedMs * KmhPerMs
    ensures v == 0.0 || v == loc.speedMs * KmhPerMs
  {
    Max(0.0, loc.speedMs * KmhPerMs)
  }

  /** The state the fix sink hands to `processPerformanceMetrics`. */
  function SyncedForFix(s: Repository, loc: Location, dist: Geodesic): (r: Repository)
    ensures r.motion.integratedSpeed == r.speed == ReportedSpeed(loc)
    ensures s.Valid() ==> r.Valid()
  {
    var v := ReportedSpeed(loc);
    s.(speed := v,
       maxSpeed := if v > s.maxSpeed then v else s.maxSpeed,
       distance := if s.lastLocation.Some? && v > MovingThreshold then
                     s.distance + dist(loc.position, s.lastLocation.value.position) / MetersPerKm
                   else s.distance,
       lastLocation := Some(loc),
       startLocation := Some(loc),
       motion := Motion.ResetIntegration(s.motion, v))
  }

  /** The fix sink. Ignored while paused. Otherwise it publishes the speed,
      raises the maximum, accrues the distance to the previous fix when
      moving faster than 2 km/h, remembers the fix, syncs the integrated
      speed to the reported speed and processes the metrics. */
  function OnLocation(s: Repository, loc: Location, dist: Geodesic): (r: Repository)
    ensures s.isPaused ==> r == s
    ensures !s.isPaused ==>
              && r.speed == ReportedSpeed(loc)
              && r.maxSpeed >= r.speed && r.maxSpeed >= s.maxSpeed
              && (r.maxSpeed == s.maxSpeed || r.maxSpeed == r.speed)
              && r.lastLocation == Some(loc)
              && r.lastProcessedSpeed == Some(r.speed) && r.lastProcessedTime == Some(loc.timestamp)
    ensures r.distance >= s.distance
    ensures r.distance > s.distance ==> !s.isPaused && s.lastLocation.Some? && r.speed > MovingThreshold
    ensures !s.isPaused && s.lastLocation.Some? && r.speed > MovingThreshold ==>
              r.distance == s.distance + dist(loc.position, s.lastLocation.value.position) / MetersPerKm
    ensures r.bestZeroToHundred.AtMost(s.bestZeroToHundred)
    ensures r.bestZeroToTwoHundred.AtMost(s.bestZeroToTwoHundred)
    ensures s.Valid() ==> r.Valid()
  {
    if s.isPaused then s
    else ProcessPerformanceMetrics(SyncedForFix(s, loc, dist), ReportedSpeed(loc), loc, dist)
  }

  // ---------------------------------------------------------------------
  // Timer and lifecycle

  /** The 1 s timer: the session clock advances only when started and
      running. */
  function OnTick(s: Repository): (r: Repository)
    ensures !s.isPaused && s.startTime.Some? ==> r.sessionTime == s.sessionTime + TickSeconds
    ensures s.isPaused || s.startTime.None? ==> r == s
    ensures r.(sessionTime := s.sessionTime) == s
  {
    if !s.isPaused && s.startTime.Some? then s.(sessionTime := s.sessionTime + TickSeconds) else s
  }

  /** `start()`: starts motion updates, sets the session origin only when
      there is none, and runs. */
  function Start(s: Repository, now: real): (r: Repository)
    ensures s.startTime.Some? ==> r.startTime == s.startTime
    ensures s.startTime.None? ==> r.startTime == Some(now)
    ensures !r.isPaused
    ensures r.motion == Motion.Start(s.motion)
    ensures r.(startTime := s.startTime, isPaused := s.isPaused, motion := s.motion) == s
  {
    s.(motion := Motion.Start(s.motion),
       startTime := if s.startTime.None? then Some(now) else s.startTime,
       isPaused := false)
  }

  /** `pauseTracking()`: pauses, disarms both windows, clears the trigger and
      resets movement detection. */
  function PauseTracking(s: Repository): (r: Repository)
    ensures r.isPaused
    ensures r.zeroToHundredStart.None? && r.zeroToTwoHundredStart.None? && !r.accelStartTriggered
    ensures r.motion == Motion.ResetMovementDetection(s.motion)
    ensures r.(isPaused := s.isPaused, zeroToHundredStart := s.zeroToHundredStart,
               zeroToTwoHundredStart := s.zeroToTwoHundredStart,
               accelStartTriggered := s.accelStartTriggered, motion := s.motion) == s
  {
    s.(isPaused := true, zeroToHundredStart := None, zeroToTwoHundredStart := None,
       accelStartTriggered := false, motion := Motion.ResetMovementDetection(s.motion))
  }

  /** `resumeTracking()`: forgets the last fix (no distance across the
      pause), clears the trigger, resets movement detection and runs. The
      previously processed fix is kept. */
  function ResumeTracking(s: Repository): (r: Repository)
    ensures !r.isPaused && r.lastLocation.None? && !r.accelStartTriggered
    ensures s.Valid() ==> r.Valid()
    ensures r.motion == Motion.ResetMovementDetection(s.motion)
    ensures r.lastProcessedSpeed == s.lastProcessedSpeed && r.lastProcessedTime == s.lastProcessedTime
    ensures r.(isPaused := s.isPaused, lastLocation := s.lastLocation,
               accelStartTriggered := s.accelStartTriggered, motion := s.motion) == s
  {
    s.(lastLocation := None, accelStartTriggered := false,
       motion := Motion.ResetMovementDetection(s.motion), isPaused := false)
  }

  /** The corrected resume: `resumeTracking()` that also forgets the
      previously processed fix, as it already forgets the last fix. The first
      fix after it can neither arm by interpolating back into the pause nor
      capture a crossing against a fix from before the pause. */
  function ResumeTrackingIntended(s: Repository): (r: Repository)
    ensures r.lastProcessedSpeed.None? && r.lastProcessedTime.None?
    ensures r.(lastProcessedSpeed := s.lastProcessedSpeed, lastProcessedTime := s.lastProcessedTime)
              == ResumeTracking(s)
    ensures s.Valid() ==> r.Valid()
  {
    ResumeTracking(s).(lastProcessedSpeed := None, lastProcessedTime := None)
  }

  /** What is handed to persistence when a session is saved. */
  datatype SessionRecord = SessionRecord(
    maxSpeed: real,
    distance: real,
    duration: real,
    zeroToHundred: Best,
    zeroToTwoHundred: Best,
    brakingDistance: real,
    maxGForce: real)

  /** The outcome of `stopTracking()`: the new state and, when saved, the
      record that was saved (`saveOperationCompleted` sends `saved.Some?`). */
  datatype StopOutcome = StopOutcome(state: Repository, saved: Option<SessionRecord>)

  /** True when a stopped session is worth saving. */
  predicate WorthSaving(s: Repository) {
    s.distance > MinSavedDistance && s.speed > MinSavedSpeed
  }

  /** `stopTracking()`: saves the pre-stop metrics exactly when the distance
      exceeds 0.1 km and the speed exceeds 5 km/h, then zeroes every metric,
      clears every window, latch and fix, and stops motion. The best times and
      the pause flag survive. */
  function StopTracking(s: Repository): (o: StopOutcome)
    ensures o.saved.Some? <==> s.distance > 0.1 && s.speed > 5.0
    ensures o.saved.Some? ==>
              o.saved.value == SessionRecord(s.maxSpeed, s.distance, s.sessionTime, s.bestZeroToHundred,
                                             s.bestZeroToTwoHundred, s.brakingDistance, s.gForce)
    ensures var r := o.state;
              && r.speed == 0.0 && r.maxSpeed == 0.0 && r.distance == 0.0 && r.sessionTime == 0.0
              && r.zeroToHundred == 0.0 && r.zeroToTwoHundred == 0.0 && r.brakingDistance == 0.0 && r.gForce == 0.0
              && r.startTime.None? && r.zeroToHundredStart.None? && r.zeroToTwoHundredStart.None?
              && r.brakingStartLocation.None? && r.lastLocation.None?
              && r.lastProcessedSpeed.None? && r.lastProcessedTime.None? && !r.accelStartTriggered
              && r.motion == Motion.Init(s.motion.available)
    ensures o.state.bestZeroToHundred == s.bestZeroToHundred
    ensures o.state.bestZeroToTwoHundred == s.bestZeroToTwoHundred
    ensures o.state.isPaused == s.isPaused
    ensures s.Valid() ==> o.state.Valid()
  {
    var saved :=
      if WorthSaving(s) then
        Some(SessionRecord(s.maxSpeed, s.distance, s.sessionTime, s.bestZeroToHundred,
                           s.bestZeroToTwoHundred, s.brakingDistance, s.gForce))
      else None;
    var r := s.(motion := Motion.Stop(s.motion),
                startTime := None, zeroToHundredStart := None, zeroToTwoHundredStart := None,
                brakingStartLocation := None, lastLocation := None,
                lastProcessedSpeed := None, lastProcessedTime := None, accelStartTriggered := false,
                speed := 0.0, maxSpeed := 0.0, distance := 0.0, sessionTime := 0.0,
                zeroToHundred := 0.0, zeroToTwoHundred := 0.0, brakingDistance := 0.0, gForce := 0.0);
    StopOutcome(r, saved)
  }

  // ---------------------------------------------------------------------
  // Availability check

  /** `CLAuthorizationStatus` (`authorized` is the same case as
      `authorizedAlways`). */
  datatype AuthorizationStatus = NotDetermined | Restricted | Denied | AuthorizedAlways | AuthorizedWhenInUse

  datatype PerformanceError = LocationDeniedOrRestricted | LocationNotDetermined | MotionSensorUnavailable

  /** The decision of `checkManagersAvaliability()`: the error to report, and
      whether location permission is requested as a side effect. */
  datatype Availability = Availability(error: Option<PerformanceError>, requestsPermission: bool)

  /** `checkManagersAvaliability()`: an undetermined location status asks for
      permission and reports nothing; a denied or restricted one reports the
      location error; any other status (also none at all) reports the sensor
      error exactly when device motion is unavailable. The "not determined"
      error is never produced. */
  function CheckManagersAvailability(status: Option<AuthorizationStatus>, motionAvailable: bool): (a: Availability)
    ensures a.requestsPermission <==> status == Some(NotDetermined)
    ensures a.error == Some(LocationDeniedOrRestricted) <==> status == Some(Denied) || status == Some(Restricted)
    ensures a.error == Some(MotionSensorUnavailable) <==>
              !motionAvailable && status != Some(NotDetermined) && status != Some(Denied) && status != Some(Restricted)
    ensures a.error != Some(LocationNotDetermined)
  {
    match status
    case Some(NotDetermined) => Availability(None, true)
    case Some(Restricted) => Availability(Some(LocationDeniedOrRestricted), false)
    case Some(Denied) => Availability(Some(LocationDeniedOrRestricted), false)
    case _ =>
      if !motionAvailable then Availability(Some(MotionSensorUnavailable), false)
      else Availability(None, false)
  }
}
