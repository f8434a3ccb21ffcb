/**
 * The trajectory generator shared by both renderers: starting from an initial
 * state it applies a recurrence step a fixed number of times, stores every new
 * state (never the initial one) and widens a bounding box that starts at the
 * origin.
 */
module Trajectory {

  /** One attractor state; coordinates are exact reals. */
  datatype Point = Point(x: real, y: real)

  /** The running extremes (x_min, y_min, x_max, y_max). */
  datatype Box = Box(xMin: real, yMin: real, xMax: real, yMax: real)

  const Origin := Point(0.0, 0.0)

  /** All four extremes start at zero, so the origin is always inside the box. */
  const StartBox := Box(0.0, 0.0, 0.0, 0.0)

  predicate Contains(b: Box, p: Point) {
    b.xMin <= p.x <= b.xMax && b.yMin <= p.y <= b.yMax
  }

  /** `outer` is at least as wide as `inner` on every side. */
  predicate Within(inner: Box, outer: Box) {
    outer.xMin <= inner.xMin && outer.yMin <= inner.yMin &&
    inner.xMax <= outer.xMax && inner.yMax <= outer.yMax
  }

  /** The four independent bound updates done after each new point. */
  function Widen(b: Box, p: Point): (r: Box)
    ensures Within(b, r) && Contains(r, p)
    ensures forall c :: Within(b, c) && Contains(c, p) ==> Within(r, c)
  {
    Box(if p.x < b.xMin then p.x else b.xMin,
        if p.y < b.yMin then p.y else b.yMin,
        if p.x > b.xMax then p.x else b.xMax,
        if p.y > b.yMax then p.y else b.yMax)
  }

  /** The k-th iterate of `step` from `p` (the 0-th is `p` itself). */
  function Iterate(step: Point -> Point, p: Point, k: nat): Point {
    if k == 0 then p else step(Iterate(step, p, k - 1))
  }

  /** The stored trajectory: iterates 1..n in iteration order. */
  function Orbit(step: Point -> Point, p: Point, n: nat): (r: seq<Point>)
    ensures |r| == n
  {
    if n == 0 then [] else Orbit(step, p, n - 1) + [Iterate(step, p, n)]
  }

  /** The bounding box after the points of `ps` have been observed in order. */
  function BoxOf(ps: seq<Point>): Box {
    if ps == [] then StartBox else Widen(BoxOf(ps[..|ps| - 1]), ps[|ps| - 1])
  }

  /** Pairs the two coordinate vectors back into points. */
  function Zip(xs: seq<real>, ys: seq<real>): (r: seq<Point>)
    requires |xs| == |ys|
    ensures |r| == |xs|
    ensures forall k :: 0 <= k < |xs| ==> r[k].x == xs[k] && r[k].y == ys[k]
  {
    seq(|xs|, k requires 0 <= k < |xs| => Point(xs[k], ys[k]))
  }

  /** Entry k of the trajectory is the (k+1)-th iterate, never the initial state. */
  lemma {:induction false} OrbitAt(step: Point -> Point, p: Point, n: nat, k: nat)
    requires k < n
    ensures Orbit(step, p, n)[k] == Iterate(step, p, k + 1)
  {
    if k < n - 1 {
      OrbitAt(step, p, n - 1, k);
    }
  }

  /** Running the generator longer only appends: a shorter run is a prefix. */
  lemma {:induction false} OrbitPrefix(step: Point -> Point, p: Point, m: nat, n: nat)
    requires m <= n
    ensures Orbit(step, p, n)[..m] == Orbit(step, p, m)
  {
    if m < n {
      OrbitPrefix(step, p, m, n - 1);
      assert Orbit(step, p, n)[..n - 1] == Orbit(step, p, n - 1);
      assert Orbit(step, p, n)[..m] == Orbit(step, p, n)[..n - 1][..m];
    } else {
      assert Orbit(step, p, n)[..m] == Orbit(step, p, n);
    }
  }

  /** One more iteration widens the box by the new iterate. */
  lemma OrbitStep(step: Point -> Point, p: Point, i: nat)
    ensures BoxOf(Orbit(step, p, i + 1)) == Widen(BoxOf(Orbit(step, p, i)), Iterate(step, p, i + 1))
  {
    assert Orbit(step, p, i + 1)[..i] == Orbit(step, p, i);
  }

  /** The box always contains the origin. */
  lemma {:induction false} BoxHasOrigin(ps: seq<Point>)
    ensures Contains(BoxOf(ps), Origin)
  {
    if ps != [] {
      BoxHasOrigin(ps[..|ps| - 1]);
    }
  }

  /** The box contains every observed point. */
  lemma {:induction false} BoxHasAll(ps: seq<Point>)
    ensures forall k :: 0 <= k < |ps| ==> Contains(BoxOf(ps), ps[k])
  {
    if ps != [] {
      var init := ps[..|ps| - 1];
      BoxHasAll(init);
      forall k | 0 <= k < |ps|
        ensures Contains(BoxOf(ps), ps[k])
      {
        if k < |ps| - 1 {
          assert ps[k] == init[k];
        }
      }
    }
  }

  /**
   * The box is the least one holding the origin and every observed point:
   * any box with those contains it.
   */
  lemma {:induction false} BoxIsLeast(ps: seq<Point>, c: Box)
    requires Contains(c, Origin)
    requires forall k :: 0 <= k < |ps| ==> Contains(c, ps[k])
    ensures Within(BoxOf(ps), c)
  {
    if ps != [] {
      var init := ps[..|ps| - 1];
      assert forall k :: 0 <= k < |init| ==> init[k] == ps[k];
      BoxIsLeast(init, c);
    }
  }

  /** The box only widens: the box after a prefix lies within the final one. */
  lemma {:induction false} BoxGrows(ps: seq<Point>, m: nat)
    requires m <= |ps|
    ensures Within(BoxOf(ps[..m]), BoxOf(ps))
  {
    if m < |ps| {
      var init := ps[..|ps| - 1];
      BoxGrows(init, m);
      assert init[..m] == ps[..m];
    } else {
      assert ps[..m] == ps;
    }
  }

  /** Coordinate vectors holding iterates 1..n, paired, are the trajectory. */
  lemma ZipOrbit(step: Point -> Point, init: Point, xs: seq<real>, ys: seq<real>)
    requires |xs| == |ys|
    requires forall k :: 0 <= k < |xs| ==> Point(xs[k], ys[k]) == Iterate(step, init, k + 1)
    ensures Zip(xs, ys) == Orbit(step, init, |xs|)
  {
    forall k | 0 <= k < |xs|
      ensures Zip(xs, ys)[k] == Orbit(step, init, |xs|)[k]
    {
      OrbitAt(step, init, |xs|, k);
    }
  }

  /** The first n entries of the vectors hold iterates 1 .. n. */
  ghost predicate Stored(xs: array<real>, ys: array<real>, step: Point -> Point, init: Point, n: nat)
    reads xs, ys
  {
    n <= xs.Length && n <= ys.Length &&
    forall k :: 0 <= k < n ==> Point(xs[k], ys[k]) == Iterate(step, init, k + 1)
  }

  /**
   * The generator loop: the vectors get exactly `nIter` entries, entry k being
   * the (k+1)-th iterate, and the bounds are those of the stored points.
   */
  method Generate(step: Point -> Point, init: Point, nIter: nat)
    returns (xs: array<real>, ys: array<real>, box: Box)
    ensures fresh(xs) && fresh(ys)
    ensures xs.Length == nIter && ys.Length == nIter
    ensures forall k :: 0 <= k < nIter ==> Point(xs[k], ys[k]) == Iterate(step, init, k + 1)
    ensures Zip(xs[..], ys[..]) == Orbit(step, init, nIter)
    ensures box == BoxOf(Orbit(step, init, nIter))
  {
    xs := new real[nIter];
    ys := new real[nIter];
    var xMin, yMin, xMax, yMax := 0.0, 0.0, 0.0, 0.0;
    var x, y := init.x, init.y;
    for i := 0 to nIter
      invariant Point(x, y) == Iterate(step, init, i)
      invariant Stored(xs, ys, step, init, i)
      invariant Box(xMin, yMin, xMax, yMax) == BoxOf(Orbit(step, init, i))
    {
      ghost var before := Box(xMin, yMin, xMax, yMax);
      var next := step(Point(x, y));
      x, y := next.x, next.y;
      xs[i], ys[i] := x, y;
      assert Stored(xs, ys, step, init, i + 1);
      ghost var wide := Widen(before, next);
      if x < xMin {
        xMin := x;
      }
      assert xMin == wide.xMin;
      if y < yMin {
        yMin := y;
      }
      assert yMin == wide.yMin;
      if x > xMax {
        xMax := x;
      }
      assert xMax == wide.xMax;
      if y > yMax {
        yMax := y;
      }
      assert yMax == wide.yMax;
      OrbitStep(step, init, i);
    }
    box := Box(xMin, yMin, xMax, yMax);
    ZipOrbit(step, init, xs[..], ys[..]);
  }
}
