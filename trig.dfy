/**
 * The trigonometric (Clifford) attractor renderer: the shared pipeline
 * driven by a sine/cosine recurrence with four coefficients. Sine and cosine
 * are parameters of the model.
 */
module TrigRenderer {
  import opened Trajectory
  import Pipeline

  /** The four coefficients a0 .. a3. */
  type Coeffs = a: seq<real> | |a| == 4 witness [0.0, 0.0, 0.0, 0.0]

  /**
   * f applied to t. It adds nothing to `f(t)`: routing every use of sine
   * and cosine through one function lets the lemmas below relate the
   * applications they mention to those inside `Step`.
   */
  function At(f: real -> real, t: real): real {
    f(t)
  }

  /** The shape both coordinates share: f(s u) + c g(s v). */
  function Wave(f: real -> real, g: real -> real, s: real, c: real, u: real, v: real): real {
    At(f, s * u) + c * At(g, s * v)
  }

  /**
   * One step: x' = sin(a0 y) + a2 cos(a0 x), y' = sin(a1 x) + a3 cos(a1 y),
   * both from the old (x, y).
   */
  function Step(sin: real -> real, cos: real -> real, a: Coeffs, p: Point): Point {
    Point(Wave(sin, cos, a[0], a[2], p.y, p.x), Wave(sin, cos, a[1], a[3], p.x, p.y))
  }

  function StepOf(sin: real -> real, cos: real -> real, a: Coeffs): Point -> Point {
    p => Step(sin, cos, a, p)
  }

  /** x' depends on a0 and a2 only, y' on a1 and a3 only. */
  lemma StepCoefficientUse(sin: real -> real, cos: real -> real, a: Coeffs, b: Coeffs, p: Point)
    ensures a[0] == b[0] && a[2] == b[2] ==> Step(sin, cos, a, p).x == Step(sin, cos, b, p).x
    ensures a[1] == b[1] && a[3] == b[3] ==> Step(sin, cos, a, p).y == Step(sin, cos, b, p).y
  {
  }

  /** The y update is the x update with x, y and the coefficient pairs exchanged. */
  lemma StepMirror(sin: real -> real, cos: real -> real, a: Coeffs, p: Point)
    ensures Step(sin, cos, [a[1], a[0], a[3], a[2]], Point(p.y, p.x)) ==
      Point(Step(sin, cos, a, p).y, Step(sin, cos, a, p).x)
  {
  }

  function Abs(r: real): real {
    if r < 0.0 then -r else r
  }

  /** The box [-(1 + |a2|), 1 + |a2|] by [-(1 + |a3|), 1 + |a3|]. */
  function Envelope(a: Coeffs): Box {
    Box(-(1.0 + Abs(a[2])), -(1.0 + Abs(a[3])), 1.0 + Abs(a[2]), 1.0 + Abs(a[3]))
  }

  ghost predicate UnitBounded(f: real -> real) {
    forall t :: -1.0 <= At(f, t) <= 1.0
  }

  /** The product of two non-negative reals is non-negative. */
  lemma MulNonNeg(p: real, q: real)
    requires 0.0 <= p && 0.0 <= q
    ensures 0.0 <= p * q
  {
  }

  /** A factor in [-1, 1] scales c to within [-|c|, |c|]. */
  lemma ScaledUnit(c: real, u: real)
    requires -1.0 <= u <= 1.0
    ensures -Abs(c) <= c * u <= Abs(c)
  {
    var d := Abs(c);
    MulNonNeg(d, 1.0 - u);
    MulNonNeg(d, u + 1.0);
    assert d * (1.0 - u) == d - d * u;
    assert d * (u + 1.0) == d * u + d;
    assert c * u == d * u || c * u == -(d * u);
  }

  /** With f and g in [-1, 1], f(s u) + c g(s v) lies in [-(1 + |c|), 1 + |c|]. */
  lemma WaveBound(f: real -> real, g: real -> real, s: real, c: real, u: real, v: real)
    requires UnitBounded(f) && UnitBounded(g)
    ensures -(1.0 + Abs(c)) <= Wave(f, g, s, c, u, v) <= 1.0 + Abs(c)
  {
    var w := At(g, s * v);
    ScaledUnit(c, w);
    assert Wave(f, g, s, c, u, v) == At(f, s * u) + c * w;
  }

  /** With sine and cosine in [-1, 1], every step lands in the envelope. */
  lemma StepInEnvelope(sin: real -> real, cos: real -> real, a: Coeffs, p: Point)
    requires UnitBounded(sin) && UnitBounded(cos)
    ensures Contains(Envelope(a), Step(sin, cos, a, p))
  {
    WaveBound(sin, cos, a[0], a[2], p.y, p.x);
    WaveBound(sin, cos, a[1], a[3], p.x, p.y);
  }

  /**
   * With sine and cosine in [-1, 1], the bounding box the generator ends
   * with lies within the envelope, whatever the initial state.
   */
  lemma OrbitBoxInEnvelope(sin: real -> real, cos: real -> real, a: Coeffs, init: Point, n: nat)
    requires UnitBounded(sin) && UnitBounded(cos)
    ensures Within(BoxOf(Orbit(StepOf(sin, cos, a), init, n)), Envelope(a))
  {
    var orbit := Orbit(StepOf(sin, cos, a), init, n);
    forall k | 0 <= k < n
      ensures Contains(Envelope(a), orbit[k])
    {
      OrbitAt(StepOf(sin, cos, a), init, n, k);
      StepInEnvelope(sin, cos, a, Iterate(StepOf(sin, cos, a), init, k));
    }
    BoxIsLeast(orbit, Envelope(a));
  }

  /** The program: iterate, rasterize, write. */
  method Render(sin: real -> real, cos: real -> real, a: Coeffs, init: Point, nIter: nat,
                xRes: nat, yRes: nat, intensity: int)
    returns (lines: seq<string>)
    requires Pipeline.Renderable(StepOf(sin, cos, a), init, nIter, xRes, yRes)
    ensures lines == Pipeline.Picture(StepOf(sin, cos, a), init, nIter, xRes, yRes, intensity)
  {
    lines := Pipeline.Run(StepOf(sin, cos, a), init, nIter, xRes, yRes, intensity);
  }
}
