/**
 * The vehicle state, the kinematic step that produces a successor, the
 * approximate equality the frontiers use, and the evenly spaced yaw samples.
 */
module States {
  import opened Geometry

  /** A CommonRoad state as the exploration uses it. */
  datatype State = State(position: Point, orientation: real, velocity: real, timeStep: nat)

  /**
   * Componentwise, inclusive closeness: each position coordinate within
   * `positionThreshold` and the heading within `angleThreshold`. Velocity and
   * time step are not compared.
   */
  predicate Near(stored: State, item: State, positionThreshold: real, angleThreshold: real): (r: bool)
    ensures r ==> positionThreshold >= 0.0 && angleThreshold >= 0.0
    ensures (stored.position == item.position && stored.orientation == item.orientation &&
             positionThreshold >= 0.0 && angleThreshold >= 0.0) ==> r
  {
    Abs(stored.position.x - item.position.x) <= positionThreshold &&
    Abs(stored.position.y - item.position.y) <= positionThreshold &&
    Abs(stored.orientation - item.orientation) <= angleThreshold
  }

  /** Some state of `q` is near `item`: the membership test of both frontiers. */
  predicate Covers(q: set<State>, item: State, positionThreshold: real, angleThreshold: real) {
    exists s :: s in q && Near(s, item, positionThreshold, angleThreshold)
  }

  lemma NearReflexive(s: State, positionThreshold: real, angleThreshold: real)
    requires positionThreshold >= 0.0 && angleThreshold >= 0.0
    ensures Near(s, s, positionThreshold, angleThreshold)
  {
  }

  /**
   * One kinematic step of the copied state: turn by `yaw` first, then move
   * along the new heading by velocity * dt. The time step is left alone; the
   * caller raises it once the candidate is accepted.
   */
  function Step(t: Trig, s: State, yaw: real, dt: real): (r: State)
    ensures r.velocity == s.velocity && r.timeStep == s.timeStep
    ensures r.orientation - s.orientation == yaw
    ensures r.position.Minus(s.position) == Point(t.cos(r.orientation) * s.velocity * dt, t.sin(r.orientation) * s.velocity * dt)
  {
    var orientation := s.orientation + yaw;
    var deltaX := t.cos(orientation) * s.velocity * dt;
    var deltaY := t.sin(orientation) * s.velocity * dt;
    State(Point(s.position.x + deltaX, s.position.y + deltaY), orientation, s.velocity, s.timeStep)
  }

  /** Under cos^2 + sin^2 = 1 a step covers exactly |velocity * dt|. */
  lemma StepDistance(t: Trig, s: State, yaw: real, dt: real)
    requires Pythagorean(t)
    ensures Step(t, s, yaw, dt).position.Minus(s.position).SquaredNorm() == (s.velocity * dt) * (s.velocity * dt)
  {
    var r := Step(t, s, yaw, dt);
    var c, n := t.cos(r.orientation), t.sin(r.orientation);
    var d := s.velocity * dt;
    calc {
      r.position.Minus(s.position).SquaredNorm();
      (c * s.velocity * dt) * (c * s.velocity * dt) + (n * s.velocity * dt) * (n * s.velocity * dt);
      { assert (c * s.velocity * dt) * (c * s.velocity * dt) == (c * c) * (d * d);
        assert (n * s.velocity * dt) * (n * s.velocity * dt) == (n * n) * (d * d); }
      (c * c + n * n) * (d * d);
      d * d;
    }
  }

  /**
   * numpy.linspace(lo, hi, num=n, endpoint=True) over exact reals: sample k
   * is lo + k * step with step = (hi - lo) / (n - 1), and the last sample is
   * set to hi exactly, as numpy does.
   */
  function Linspace(lo: real, hi: real, n: nat): (r: seq<real>)
    ensures |r| == n
    ensures n >= 1 ==> r[0] == lo
    ensures n >= 2 ==> r[n - 1] == hi
    ensures n >= 2 ==> forall k :: 0 <= k < n - 1 ==> r[k + 1] - r[k] == (hi - lo) / ((n - 1) as real)
  {
    var step := if n >= 2 then (hi - lo) / ((n - 1) as real) else 0.0;
    var r := seq(n, k requires 0 <= k < n => if n >= 2 && k == n - 1 then hi else lo + (k as real) * step);
    assert n >= 2 ==> ((n - 1) as real) * step == hi - lo;
    assert n >= 2 ==> forall k :: 0 <= k < n - 1 ==> r[k + 1] - r[k] == step by {
      if n >= 2 {
        forall k | 0 <= k < n - 1 ensures r[k + 1] - r[k] == step {
          if k + 1 == n - 1 {
            assert r[k + 1] - r[k] == ((n - 1) as real) * step - (k as real) * step;
          }
        }
      }
    }
    r
  }

  /** Every sample of linspace(-m, m) lies in [-m, m], and the samples are symmetric about 0. */
  lemma YawSampleBounded(maxYaw: real, n: nat, k: nat)
    requires maxYaw >= 0.0 && k < n
    ensures -maxYaw <= Linspace(-maxYaw, maxYaw, n)[k] <= maxYaw
    ensures n >= 2 ==> Linspace(-maxYaw, maxYaw, n)[k] == -Linspace(-maxYaw, maxYaw, n)[n - 1 - k]
  {
    var r := Linspace(-maxYaw, maxYaw, n);
    if n >= 2 {
      var m := (n - 1) as real;
      var step := (2.0 * maxYaw) / m;
      var kr := k as real;
      assert m * step == 2.0 * maxYaw;
      assert r[k] == -maxYaw + kr * step;
      assert r[n - 1 - k] == -maxYaw + (m - kr) * step;
      assert 0.0 <= step;
      assert 0.0 <= kr <= m;
      Scale(kr, m, step);
      assert kr * step + (m - kr) * step == m * step;
    }
  }

  lemma Scale(a: real, b: real, c: real)
    requires 0.0 <= a <= b && 0.0 <= c
    ensures 0.0 <= a * c <= b * c
  {
  }
}
