/** The scalar recursive speed filter `SpeedKalmanFilter`: a speed estimate and
    its variance `p`, with a predict step (open-loop velocity increment), an
    update step (blend with a satellite speed) and a reset. */
module SpeedKalman {

  /** Process noise added to `p` by every predict. */
  const Q: real := 0.05
  /** Measurement noise of a satellite speed. */
  const R: real := 3.0
  /** Variance after construction and after every reset. */
  const InitialVariance: real := 1.0

  datatype Filter = Filter(speed: real, p: real) {
    /** `SpeedKalmanFilter` keeps `p` private and only ever sets it to 1.0,
        raises it by `Q` or scales it by `1 - k`; it stays positive. */
    predicate Valid() {
      p > 0.0
    }
  }

  /** The value of a freshly constructed filter: the state `reset(to:)`
      gives with its default argument 0. */
  function Initial(): (f: Filter)
    ensures f.Valid()
    ensures f.speed == 0.0 && f.p == InitialVariance
    ensures forall g: Filter :: Reset(g, 0.0) == f
  {
    Filter(0.0, InitialVariance)
  }

  /** `predict(deltaV:)`: the speed moves by exactly `deltaV` (no clamping) and
      the variance grows by exactly `Q`. */
  function Predict(f: Filter, deltaV: real): (r: Filter)
    ensures r.speed - f.speed == deltaV
    ensures r.p - f.p == Q
    ensures r.p > f.p
    ensures f.Valid() ==> r.Valid()
  {
    Filter(f.speed + deltaV, f.p + Q)
  }

  /** The blend weight `k = p / (p + R)` of an update. */
  function Gain(p: real): (k: real)
    requires p > 0.0
    ensures 0.0 < k < 1.0
    ensures k * (p + R) == p
  {
    p / (p + R)
  }

  /** True when `x` lies in the closed interval spanned by `a` and `b`. */
  predicate Between(x: real, a: real, b: real) {
    (a <= x <= b) || (b <= x <= a)
  }

  /** `update(gpsSpeed:)`: the new estimate lies between the old estimate and
      the measurement (strictly inside when they differ), and the variance
      shrinks to `p·R/(p+R)`. */
  function Update(f: Filter, gpsSpeed: real): (r: Filter)
    requires f.Valid()
    ensures r.Valid()
    ensures r.p < f.p
    ensures r.p * (f.p + R) == f.p * R
    ensures Between(r.speed, f.speed, gpsSpeed)
    ensures gpsSpeed != f.speed ==> r.speed != f.speed && r.speed != gpsSpeed
    ensures gpsSpeed == f.speed ==> r.speed == f.speed
    ensures f.speed >= 0.0 && gpsSpeed >= 0.0 ==> r.speed >= 0.0
  {
    var k := Gain(f.p);
    var speed := f.speed + k * (gpsSpeed - f.speed);
    var p := (1.0 - k) * f.p;
    BlendLiesBetween(f.speed, gpsSpeed, k);
    assert p * (f.p + R) == f.p * R by {
      calc {
        p * (f.p + R);
        (1.0 - k) * f.p * (f.p + R);
        f.p * ((f.p + R) - k * (f.p + R));
        f.p * R;
      }
    }
    Filter(speed, p)
  }

  /** A convex combination `a + k·(b − a)` with `0 < k < 1` lies between `a`
      and `b`, and strictly inside when they differ. */
  lemma BlendLiesBetween(a: real, b: real, k: real)
    requires 0.0 < k < 1.0
    ensures Between(a + k * (b - a), a, b)
    ensures a != b ==> a + k * (b - a) != a && a + k * (b - a) != b
  {
    var d := b - a;
    var x := a + k * (b - a);
    assert x == a + k * d;
    if d > 0.0 {
      assert 0.0 < k * d < d;
    } else if d < 0.0 {
      assert (1.0 - k) * (-d) > 0.0;
      assert k * d - d == (1.0 - k) * (-d);
      assert d < k * d < 0.0;
      assert b < x < a;
    }
  }

  /** `reset(to:)`: the estimate becomes `v` with the prior variance. */
  function Reset(f: Filter, v: real): (r: Filter)
    ensures r.Valid()
    ensures r.speed == v
    ensures r.p == InitialVariance
  {
    Filter(v, InitialVariance)
  }

  /** One call on the filter after a reset. */
  datatype Op = PredictOp(deltaV: real) | UpdateOp(gpsSpeed: real)

  /** The filter after applying `ops` in order; the invariant is kept by every
      step. */
  function Run(f: Filter, ops: seq<Op>): (r: Filter)
    requires f.Valid()
    ensures r.Valid()
    decreases |ops|
  {
    if |ops| == 0 then f
    else
      var g := match ops[0]
        case PredictOp(dv) => Predict(f, dv)
        case UpdateOp(gps) => Update(f, gps);
      Run(g, ops[1..])
  }

  /** A reset erases the history: whatever the filter held before, the same
      calls after `reset(to: v)` give the same states. */
  lemma ResetErasesHistory(f1: Filter, f2: Filter, v: real, ops: seq<Op>)
    ensures Run(Reset(f1, v), ops) == Run(Reset(f2, v), ops)
  {
  }

  /** `n` predicts, each with the given velocity increment. */
  function PredictTimes(f: Filter, deltaV: real, n: nat): Filter
    decreases n
  {
    if n == 0 then f else Predict(PredictTimes(f, deltaV, n - 1), deltaV)
  }

  /** With no velocity increment, `n` predicts leave the speed alone and grow
      the variance by exactly `n·Q`: it is unbounded. */
  lemma {:induction false} ZeroPredictsGrowVariance(f: Filter, n: nat)
    ensures PredictTimes(f, 0.0, n).speed == f.speed
    ensures PredictTimes(f, 0.0, n).p == f.p + (n as real) * Q
    decreases n
  {
    if n > 0 {
      ZeroPredictsGrowVariance(f, n - 1);
    }
  }

  /** Repeated updates with the estimate already equal to the measurement are
      a fixed point for the speed, while the variance keeps shrinking. */
  lemma {:induction false} AgreeingUpdatesKeepSpeed(f: Filter, ops: seq<Op>)
    requires f.Valid()
    requires forall i :: 0 <= i < |ops| ==> ops[i] == UpdateOp(f.speed)
    ensures Run(f, ops).speed == f.speed
    ensures |ops| > 0 ==> Run(f, ops).p < f.p
    decreases |ops|
  {
    if |ops| > 0 {
      var g := Update(f, f.speed);
      assert g.speed == f.speed;
      AgreeingUpdatesKeepSpeed(g, ops[1..]);
    }
  }
}
