/**
 * Points in the plane and the transcendental operations the source takes
 * from numpy. cos, sin, sqrt and pi are not computed here: they are carried
 * as an abstract `Trig` value, and a property that needs an identity such as
 * cos^2 + sin^2 = 1 states it as a hypothesis.
 */
module Geometry {

  datatype Point = Point(x: real, y: real) {
    function Plus(other: Point): Point {
      Point(x + other.x, y + other.y)
    }

    function Minus(other: Point): Point {
      Point(x - other.x, y - other.y)
    }

    function SquaredNorm(): real {
      x * x + y * y
    }
  }

  function Abs(r: real): real {
    if r < 0.0 then -r else r
  }

  datatype TrigOps = TrigOps(cos: real -> real, sin: real -> real, sqrt: real -> real, pi: real)

  /** numpy's trigonometry, with the one fact every use relies on: pi is positive. */
  type Trig = t: TrigOps | t.pi > 0.0 witness TrigOps(x => 1.0, x => 0.0, x => x, 3.0)

  /** The Pythagorean identity, assumed by the properties that need it. */
  ghost predicate Pythagorean(t: Trig) {
    forall a :: t.cos(a) * t.cos(a) + t.sin(a) * t.sin(a) == 1.0
  }

  /** `sqrt` is a square root at the given non-negative argument. */
  ghost predicate SquareRootAt(t: Trig, a: real) {
    a >= 0.0 && t.sqrt(a) * t.sqrt(a) == a
  }

  /** numpy.degrees */
  function Degrees(t: Trig, radians: real): real {
    radians * 180.0 / t.pi
  }

  /** numpy.radians */
  function Radians(t: Trig, degrees: real): real {
    degrees * t.pi / 180.0
  }

  lemma RadiansOfDegrees(t: Trig, x: real)
    ensures Radians(t, Degrees(t, x)) == x
  {
  }
}
