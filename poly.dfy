/**
 * The polynomial attractor renderer: the shared pipeline driven by a
 * quadratic recurrence in x and y with twelve coefficients.
 */
module PolyRenderer {
  import opened Trajectory
  import Pipeline

  /** The twelve coefficients a0 .. a11. */
  type Coeffs = a: seq<real> | |a| == 12
    witness [0.0, 0.0, 0.0, 0.0, 0.0, 0.0, 0.0, 0.0, 0.0, 0.0, 0.0, 0.0]

  /** The quadratic form both coordinates share: c0 + c1 x + c2 x^2 + c3 y + c4 y^2 + c5 x y. */
  function Quadratic(c0: real, c1: real, c2: real, c3: real, c4: real, c5: real, p: Point): real {
    c0 + c1 * p.x + c2 * p.x * p.x + c3 * p.y + c4 * p.y * p.y + c5 * p.x * p.y
  }

  /**
   * One step of the recurrence: x' takes a0 .. a5 and y' takes a6 .. a11.
   * Both new coordinates are computed from the old (x, y): the update is
   * simultaneous.
   */
  function Step(a: Coeffs, p: Point): Point {
    Point(Quadratic(a[0], a[1], a[2], a[3], a[4], a[5], p),
          Quadratic(a[6], a[7], a[8], a[9], a[10], a[11], p))
  }

  function StepOf(a: Coeffs): Point -> Point {
    p => Step(a, p)
  }

  /** The monomial basis 1, x, x^2, y, y^2, xy of the old state. */
  function Monomials(p: Point): seq<real> {
    [1.0, p.x, p.x * p.x, p.y, p.y * p.y, p.x * p.y]
  }

  function Dot(c: seq<real>, m: seq<real>): real
    requires |c| == |m|
  {
    if c == [] then 0.0 else c[0] * m[0] + Dot(c[1..], m[1..])
  }

  /** A dot product of length six, written out. */
  lemma Dot6(c: seq<real>, m: seq<real>)
    requires |c| == 6 && |m| == 6
    ensures Dot(c, m) == c[0] * m[0] + c[1] * m[1] + c[2] * m[2] + c[3] * m[3] + c[4] * m[4] + c[5] * m[5]
  {
    var c1, m1 := c[1..], m[1..];
    var c2, m2 := c1[1..], m1[1..];
    var c3, m3 := c2[1..], m2[1..];
    var c4, m4 := c3[1..], m3[1..];
    var c5, m5 := c4[1..], m4[1..];
    assert c5[1..] == [] && m5[1..] == [];
    assert c5[0] == c[5] && m5[0] == m[5];
    assert c4[0] == c[4] && m4[0] == m[4];
    assert c3[0] == c[3] && m3[0] == m[3];
    assert c2[0] == c[2] && m2[0] == m[2];
    assert c1[0] == c[1] && m1[0] == m[1];
    assert Dot(c5, m5) == c[5] * m[5];
    assert Dot(c4, m4) == c[4] * m[4] + Dot(c5, m5);
    assert Dot(c3, m3) == c[3] * m[3] + Dot(c4, m4);
    assert Dot(c2, m2) == c[2] * m[2] + Dot(c3, m3);
    assert Dot(c1, m1) == c[1] * m[1] + Dot(c2, m2);
  }

  /** The quadratic form is the dot product of its six coefficients with the monomials. */
  lemma QuadraticIsDot(c0: real, c1: real, c2: real, c3: real, c4: real, c5: real, p: Point)
    ensures Quadratic(c0, c1, c2, c3, c4, c5, p) == Dot([c0, c1, c2, c3, c4, c5], Monomials(p))
  {
    var m := Monomials(p);
    Dot6([c0, c1, c2, c3, c4, c5], m);
    assert c2 * p.x * p.x == c2 * m[2];
    assert c4 * p.y * p.y == c4 * m[4];
    assert c5 * p.x * p.y == c5 * m[5];
  }

  /**
   * x' weighs the monomials of the old state with a0 .. a5 and y' weighs the
   * same monomials with a6 .. a11.
   */
  lemma StepIsMonomialSum(a: Coeffs, p: Point)
    ensures Step(a, p) == Point(Dot(a[..6], Monomials(p)), Dot(a[6..], Monomials(p)))
  {
    assert a[..6] == [a[0], a[1], a[2], a[3], a[4], a[5]];
    assert a[6..] == [a[6], a[7], a[8], a[9], a[10], a[11]];
    QuadraticIsDot(a[0], a[1], a[2], a[3], a[4], a[5], p);
    QuadraticIsDot(a[6], a[7], a[8], a[9], a[10], a[11], p);
  }

  function Swap(p: Point): Point {
    Point(p.y, p.x)
  }

  /** The coefficients with the roles of x and y exchanged. */
  function Mirror(a: Coeffs): Coeffs {
    [a[6], a[9], a[10], a[7], a[8], a[11], a[0], a[3], a[4], a[1], a[2], a[5]]
  }

  /** The y update has the same shape as the x update, with x and y exchanged. */
  lemma StepMirror(a: Coeffs, p: Point)
    ensures Step(Mirror(a), Swap(p)) == Swap(Step(a, p))
  {
    assert p.y * p.x == p.x * p.y;
  }

  const Zeros: Coeffs := [0.0, 0.0, 0.0, 0.0, 0.0, 0.0, 0.0, 0.0, 0.0, 0.0, 0.0, 0.0]

  /**
   * With every coefficient zero each stored point is the origin, the box
   * stays (0, 0, 0, 0) and, once there is a point, the pipeline's remap
   * would divide by zero.
   */
  lemma {:induction false} ZeroCoefficientsDegenerate(init: Point, n: nat, xRes: nat, yRes: nat)
    ensures forall k :: 0 <= k < n ==> Orbit(StepOf(Zeros), init, n)[k] == Origin
    ensures BoxOf(Orbit(StepOf(Zeros), init, n)) == StartBox
    ensures n > 0 ==> !Pipeline.Renderable(StepOf(Zeros), init, n, xRes, yRes)
  {
    if n > 0 {
      ZeroCoefficientsDegenerate(init, n - 1, xRes, yRes);
      var orbit := Orbit(StepOf(Zeros), init, n);
      assert Iterate(StepOf(Zeros), init, n) == Origin;
      assert orbit[..n - 1] == Orbit(StepOf(Zeros), init, n - 1);
    }
  }

  /** The program: iterate, rasterize, write. */
  method Render(a: Coeffs, init: Point, nIter: nat, xRes: nat, yRes: nat, intensity: int)
    returns (lines: seq<string>)
    requires Pipeline.Renderable(StepOf(a), init, nIter, xRes, yRes)
    ensures lines == Pipeline.Picture(StepOf(a), init, nIter, xRes, yRes, intensity)
  {
    lines := Pipeline.Run(StepOf(a), init, nIter, xRes, yRes, intensity);
  }
}
