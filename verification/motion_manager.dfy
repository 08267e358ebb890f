/** The per-sample logic of `MotionManager`: the g-force reading, the gravity
    guard, the (unsigned) forward acceleration, dt-guarded velocity
    integration and the debounced movement-onset detector, together with the
    resets the repository and the lifecycle call. */
module Motion {
  import opened Common

  /** Standard gravity: device-motion accelerations are in g. */
  const StandardGravity: real := 9.81
  /** Minimum forward acceleration (m/s²) that counts as moving. */
  const MovementThreshold: real := 0.15
  /** Consecutive moving samples needed to declare movement. */
  const SustainedSampleCount: nat := 6
  /** Nominal sample period: updates are requested at 100 Hz. */
  const SamplePeriod: real := 0.01
  /** How far the detected onset is backdated: six sample periods. */
  const BacktrackInterval: real := SustainedSampleCount as real * SamplePeriod
  /** Gaps of this many seconds or more are not integrated. */
  const MaxIntegrationGap: real := 0.1
  /** m/s to km/h. */
  const KmhPerMs: real := 3.6
  /** A gravity reference at most this long (in g) is unusable. */
  const MinGravityMagnitude: real := 0.01

  datatype Vec3 = Vec3(x: real, y: real, z: real) {
    function SquaredNorm(): (n: real)
      ensures n >= 0.0
    {
      assert x * x >= 0.0 && y * y >= 0.0 && z * z >= 0.0;
      x * x + y * y + z * z
    }

    function Plus(o: Vec3): Vec3 {
      Vec3(x + o.x, y + o.y, z + o.z)
    }
  }

  const Zero: Vec3 := Vec3(0.0, 0.0, 0.0)

  /** `r` is the non-negative square root of `square`. */
  predicate IsRootOf(r: real, square: real) {
    r >= 0.0 && r * r == square
  }

  /** One device-motion delivery. `MotionManager` takes three square roots; the
      two it keeps are delivered with the sample (`userAccelerationMagnitude`
      and `totalG`), `now` is the wall-clock reading taken in the handler. */
  datatype Sample = Sample(
    userAcceleration: Vec3,
    gravity: Vec3,
    userAccelerationMagnitude: real,
    totalG: real,
    now: real)
  {
    /** The delivered magnitudes are the roots the handler computes. */
    predicate WellFormed() {
      && IsRootOf(userAccelerationMagnitude, userAcceleration.SquaredNorm())
      && IsRootOf(totalG, userAcceleration.Plus(gravity).SquaredNorm())
    }
  }

  /** The gravity guard `gravMag > 0.01`, compared on squares. */
  predicate GravityUsable(x: Sample) {
    x.gravity.SquaredNorm() > MinGravityMagnitude * MinGravityMagnitude
  }

  /** The squared comparison agrees with `MotionManager`'s comparison of the root. */
  lemma GravityGuardMatchesMagnitude(x: Sample, gravMag: real)
    requires IsRootOf(gravMag, x.gravity.SquaredNorm())
    ensures GravityUsable(x) <==> gravMag > MinGravityMagnitude
  {
    var g, m := gravMag, MinGravityMagnitude;
    var d, e := g - m, g + m;
    assert x.gravity.SquaredNorm() == g * g;
    assert g * g - m * m == d * e;
    if g > m {
      assert d > 0.0 && e > 0.0;
      assert d * e > 0.0;
    } else {
      assert -d >= 0.0 && e > 0.0;
      assert (-d) * e >= 0.0;
      assert d * e == -((-d) * e);
    }
  }

  /** `forwardAcceleration`: the full user-acceleration magnitude in m/s². It
      is a magnitude, never signed: braking and accelerating look alike. */
  function ForwardAcceleration(x: Sample): (a: real)
    ensures x.WellFormed() ==> a >= 0.0
    ensures x.WellFormed() ==> a * a == StandardGravity * StandardGravity * x.userAcceleration.SquaredNorm()
  {
    x.userAccelerationMagnitude * StandardGravity
  }

  /** A usable sample above the movement threshold. */
  predicate Qualifies(x: Sample) {
    GravityUsable(x) && ForwardAcceleration(x) > MovementThreshold
  }

  /** A usable sample at or below the movement threshold. */
  predicate Interrupts(x: Sample) {
    GravityUsable(x) && !(ForwardAcceleration(x) > MovementThreshold)
  }

  datatype MotionState = MotionState(
    available: bool,
    acceleration: Vec3,
    totalGForce: real,
    forwardAcceleration: real,
    integratedSpeed: real,
    movementDetectedAt: Option<real>,
    sustainedAccelCount: nat,
    lastUpdateTime: Option<real>)
  {
    /** Integration never goes below zero; the debounce counter saturates at
        six exactly when an onset has been stamped. */
    predicate Valid() {
      && forwardAcceleration >= 0.0
      && integratedSpeed >= 0.0
      && sustainedAccelCount <= SustainedSampleCount
      && (movementDetectedAt.Some? <==> sustainedAccelCount == SustainedSampleCount)
    }

    /** Integration and debounce state as after a reset. */
    predicate Cleared() {
      && integratedSpeed == 0.0
      && movementDetectedAt.None?
      && sustainedAccelCount == 0
      && lastUpdateTime.None?
    }
  }

  /** `init()`: `available` is the platform's `isDeviceMotionAvailable`. */
  function Init(available: bool): (m: MotionState)
    ensures m.Valid() && m.Cleared()
    ensures m.available == available
    ensures m.acceleration == Zero && m.totalGForce == 0.0 && m.forwardAcceleration == 0.0
  {
    MotionState(available, Zero, 0.0, 0.0, 0.0, None, 0, None)
  }

  /** `start()`: without device motion nothing happens; otherwise integration,
      debounce and forward acceleration return to their initial values. */
  function Start(m: MotionState): (r: MotionState)
    ensures !m.available ==> r == m
    ensures m.available ==> r.Cleared() && r.forwardAcceleration == 0.0
    ensures m.available ==> r.acceleration == m.acceleration && r.totalGForce == m.totalGForce
    ensures r.available == m.available
    ensures m.Valid() ==> r.Valid()
  {
    if !m.available then m
    else m.(integratedSpeed := 0.0, movementDetectedAt := None, sustainedAccelCount := 0,
            lastUpdateTime := None, forwardAcceleration := 0.0)
  }

  /** `stop()`: every published reading and all integration and debounce
      state return to their initial values. */
  function Stop(m: MotionState): (r: MotionState)
    ensures r == Init(m.available)
  {
    MotionState(m.available, Zero, 0.0, 0.0, 0.0, None, 0, None)
  }

  /** `resetIntegration(toSpeed:)`: only the integrated speed changes. */
  function ResetIntegration(m: MotionState, speed: real): (r: MotionState)
    ensures r.integratedSpeed == speed
    ensures r.(integratedSpeed := m.integratedSpeed) == m
    ensures m.Valid() && speed >= 0.0 ==> r.Valid()
  {
    m.(integratedSpeed := speed)
  }

  /** `resetMovementDetection()`: clears the onset, the counter, the
      integrated speed and the last timestamp, and nothing else. */
  function ResetMovementDetection(m: MotionState): (r: MotionState)
    ensures r.Cleared()
    ensures r.available == m.available && r.acceleration == m.acceleration
    ensures r.totalGForce == m.totalGForce && r.forwardAcceleration == m.forwardAcceleration
    ensures m.Valid() ==> r.Valid()
  {
    m.(movementDetectedAt := None, sustainedAccelCount := 0, integratedSpeed := 0.0, lastUpdateTime := None)
  }

  /** True when a sample at `now` is integrated: there is a previous
      timestamp and the gap to it is in (0, 0.1) seconds. */
  predicate Integrates(m: MotionState, now: real) {
    m.lastUpdateTime.Some? && 0.0 < now - m.lastUpdateTime.value < MaxIntegrationGap
  }

  /** The velocity-integration part of the handler: `integratedSpeed` grows by
      `a·dt·3.6` (then clamped at zero) when the gap is sane, and the
      timestamp advances regardless. */
  function Integrate(m: MotionState, a: real, now: real): (r: MotionState)
    ensures r.lastUpdateTime == Some(now)
    ensures !Integrates(m, now) ==> r.integratedSpeed == m.integratedSpeed
    ensures Integrates(m, now) && m.integratedSpeed >= 0.0 && a >= 0.0 ==>
              r.integratedSpeed == m.integratedSpeed + a * (now - m.lastUpdateTime.value) * KmhPerMs
    ensures a >= 0.0 ==> r.integratedSpeed >= m.integratedSpeed
    ensures Integrates(m, now) ==> r.integratedSpeed >= 0.0
    ensures r.(lastUpdateTime := m.lastUpdateTime, integratedSpeed := m.integratedSpeed) == m
  {
    var integrated :=
      if Integrates(m, now) then
        var dt := now - m.lastUpdateTime.value;
        var deltaV := a * dt * KmhPerMs;
        assert a >= 0.0 ==> deltaV >= 0.0 by {
          if a >= 0.0 {
            assert a * dt >= 0.0;
          }
        }
        var s := m.integratedSpeed + deltaV;
        if s < 0.0 then 0.0 else s
      else m.integratedSpeed;
    m.(integratedSpeed := integrated, lastUpdateTime := Some(now))
  }

  /** The debounce part of the handler. Once an onset is stamped, nothing
      changes; otherwise a moving sample bumps the counter, and reaching six
      stamps the onset backdated by six sample periods; any other sample
      zeroes the counter. */
  function Debounce(m: MotionState, a: real, now: real): (r: MotionState)
    ensures m.movementDetectedAt.Some? ==> r == m
    ensures m.movementDetectedAt.None? && a > MovementThreshold ==>
              r.sustainedAccelCount == m.sustainedAccelCount + 1
    ensures m.movementDetectedAt.None? && !(a > MovementThreshold) ==>
              r.sustainedAccelCount == 0 && r.movementDetectedAt.None?
    ensures m.movementDetectedAt.None? ==>
              (r.movementDetectedAt.Some? <==> a > MovementThreshold && m.sustainedAccelCount + 1 >= SustainedSampleCount)
    ensures r.movementDetectedAt.Some? && m.movementDetectedAt.None? ==>
              r.movementDetectedAt.value == now - BacktrackInterval
    ensures r.(sustainedAccelCount := m.sustainedAccelCount, movementDetectedAt := m.movementDetectedAt) == m
    ensures m.Valid() ==> r.sustainedAccelCount <= SustainedSampleCount
    ensures m.Valid() ==> (r.movementDetectedAt.Some? <==> r.sustainedAccelCount == SustainedSampleCount)
  {
    if m.movementDetectedAt.Some? then m
    else if a > MovementThreshold then
      var count := m.sustainedAccelCount + 1;
      if count >= SustainedSampleCount then
        m.(sustainedAccelCount := count, movementDetectedAt := Some(now - BacktrackInterval))
      else
        m.(sustainedAccelCount := count)
    else
      m.(sustainedAccelCount := 0)
  }

  /** The device-motion handler for one sample. `acceleration` and
      `totalGForce` always follow the sample; a sample whose gravity reference
      is unusable changes nothing else. */
  function OnSample(m: MotionState, x: Sample): (r: MotionState)
    ensures r.acceleration == x.userAcceleration && r.totalGForce == x.totalG
    ensures r.available == m.available
    ensures !GravityUsable(x) ==>
              r.(acceleration := m.acceleration, totalGForce := m.totalGForce) == m
    ensures GravityUsable(x) ==> r.forwardAcceleration == ForwardAcceleration(x) && r.lastUpdateTime == Some(x.now)
    ensures GravityUsable(x) && !Integrates(m, x.now) ==> r.integratedSpeed == m.integratedSpeed
    ensures m.movementDetectedAt.Some? ==>
              r.movementDetectedAt == m.movementDetectedAt && r.sustainedAccelCount == m.sustainedAccelCount
    ensures x.WellFormed() ==> r.integratedSpeed >= m.integratedSpeed
    ensures x.WellFormed() && m.Valid() ==> r.Valid()
  {
    var m1 := m.(acceleration := x.userAcceleration, totalGForce := x.totalG);
    if !GravityUsable(x) then m1
    else
      var a := ForwardAcceleration(x);
      Debounce(Integrate(m1.(forwardAcceleration := a), a, x.now), a, x.now)
  }

  /** The state after a sequence of samples. */
  function Samples(m: MotionState, xs: seq<Sample>): MotionState
    decreases |xs|
  {
    if |xs| == 0 then m else OnSample(Samples(m, xs[..|xs| - 1]), xs[|xs| - 1])
  }

  /** Every sample of `xs` is well formed. */
  predicate AllWellFormed(xs: seq<Sample>) {
    forall i :: 0 <= i < |xs| ==> xs[i].WellFormed()
  }

  /** Between resets the integrated speed never decreases and the invariant
      holds after any run of samples. */
  lemma {:induction false} SamplesKeepInvariant(m: MotionState, xs: seq<Sample>)
    requires m.Valid()
    requires AllWellFormed(xs)
    ensures Samples(m, xs).Valid()
    ensures Samples(m, xs).integratedSpeed >= m.integratedSpeed
    decreases |xs|
  {
    if |xs| > 0 {
      SamplesKeepInvariant(m, xs[..|xs| - 1]);
    }
  }

  // Reference definition of the debounce, stated over the sample history
  // rather than over the counter.

  /** Number of qualifying samples since the last interrupting one; samples
      with an unusable gravity reference are transparent. */
  function TrailingRun(xs: seq<Sample>): nat
    decreases |xs|
  {
    if |xs| == 0 then 0
    else
      var last := xs[|xs| - 1];
      if Qualifies(last) then TrailingRun(xs[..|xs| - 1]) + 1
      else if Interrupts(last) then 0
      else TrailingRun(xs[..|xs| - 1])
  }

  /** The backdated onset: the first prefix whose trailing run reaches six
      fixes it at that sample's time minus six periods; later samples do not
      move it. */
  function FirstOnset(xs: seq<Sample>): Option<real>
    decreases |xs|
  {
    if |xs| == 0 then None
    else
      var earlier := FirstOnset(xs[..|xs| - 1]);
      if earlier.Some? then earlier
      else if TrailingRun(xs) >= SustainedSampleCount then Some(xs[|xs| - 1].now - BacktrackInterval)
      else None
  }

  /** From a cleared detector, the counter and the stamped onset after any
      sample history are those of the reference definition: the onset is the
      first time six consecutive usable samples exceed the threshold, and the
      counter is the current run, saturated at six once the onset exists. */
  lemma {:induction false} DebounceMatchesReference(m: MotionState, xs: seq<Sample>)
    requires m.movementDetectedAt.None? && m.sustainedAccelCount == 0
    ensures Samples(m, xs).movementDetectedAt == FirstOnset(xs)
    ensures Samples(m, xs).sustainedAccelCount ==
              (if FirstOnset(xs).Some? then SustainedSampleCount else TrailingRun(xs))
    ensures FirstOnset(xs).None? ==> TrailingRun(xs) < SustainedSampleCount
    decreases |xs|
  {
    if |xs| > 0 {
      var init := xs[..|xs| - 1];
      DebounceMatchesReference(m, init);
    }
  }

  /** Six consecutive qualifying samples from a cleared detector stamp the
      onset at the sixth sample's time minus 0.06 s. */
  lemma SixQualifyingSamplesStampOnset(m: MotionState, xs: seq<Sample>)
    requires m.movementDetectedAt.None? && m.sustainedAccelCount == 0
    requires |xs| == SustainedSampleCount
    requires forall i :: 0 <= i < |xs| ==> Qualifies(xs[i])
    ensures Samples(m, xs).movementDetectedAt == Some(xs[5].now - 0.06)
    ensures Samples(m, xs).sustainedAccelCount == SustainedSampleCount
  {
    DebounceMatchesReference(m, xs);
    forall k | 0 <= k <= |xs|
      ensures TrailingRun(xs[..k]) == k
    {
      TrailingRunOfQualifying(xs[..k]);
    }
    assert xs[..5] == xs[..|xs| - 1][..5];
    assert xs[..|xs|] == xs;
    assert FirstOnset(xs[..5]).None? by {
      forall k | 0 <= k <= 5
        ensures FirstOnset(xs[..k]).None?
      {
        NoOnsetBeforeSix(xs[..k]);
      }
    }
  }

  /** A history of only qualifying samples has a trailing run as long as
      itself. */
  lemma {:induction false} TrailingRunOfQualifying(xs: seq<Sample>)
    requires forall i :: 0 <= i < |xs| ==> Qualifies(xs[i])
    ensures TrailingRun(xs) == |xs|
    decreases |xs|
  {
    if |xs| > 0 {
      TrailingRunOfQualifying(xs[..|xs| - 1]);
    }
  }

  /** Fewer than six samples never stamp an onset. */
  lemma {:induction false} NoOnsetBeforeSix(xs: seq<Sample>)
    requires |xs| < SustainedSampleCount
    ensures TrailingRun(xs) <= |xs|
    ensures FirstOnset(xs).None?
    decreases |xs|
  {
    if |xs| > 0 {
      NoOnsetBeforeSix(xs[..|xs| - 1]);
    }
  }

  /** Five qualifying samples followed by an interrupting one leave the
      detector with a zero counter and no onset. */
  lemma InterruptedRunResetsCounter(m: MotionState, xs: seq<Sample>)
    requires m.movementDetectedAt.None? && m.sustainedAccelCount == 0
    requires |xs| == SustainedSampleCount
    requires forall i :: 0 <= i < 5 ==> Qualifies(xs[i])
    requires Interrupts(xs[5])
    ensures Samples(m, xs).movementDetectedAt.None?
    ensures Samples(m, xs).sustainedAccelCount == 0
  {
    DebounceMatchesReference(m, xs);
    NoOnsetBeforeSix(xs[..5]);
    assert xs[..|xs| - 1] == xs[..5];
  }
}
