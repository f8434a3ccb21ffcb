/**
 * The sequential pipeline both renderers run: generate the trajectory and its
 * bounds, rasterize the stored points, then write the grid as a P3 image.
 */
module Pipeline {
  import opened Trajectory
  import opened Raster
  import opened Ppm

  /**
   * What the pipeline needs to stay defined: when there are points to
   * rasterize, both resolutions are positive and neither axis of the final
   * box has zero range (the remap divides by it).
   */
  predicate Renderable(step: Point -> Point, init: Point, nIter: nat, xRes: nat, yRes: nat) {
    nIter > 0 ==> xRes > 0 && yRes > 0 && NonDegenerate(BoxOf(Orbit(step, init, nIter)))
  }

  /** The density grid of the trajectory, normalised by its own box. */
  function Image(step: Point -> Point, init: Point, nIter: nat, xRes: nat, yRes: nat, intensity: int): (g: Grid)
    requires Renderable(step, init, nIter, xRes, yRes)
    ensures IsGrid(g, xRes, yRes) && Bytes(g)
  {
    var orbit := Orbit(step, init, nIter);
    BoxHasAll(orbit);
    Histogram(orbit, BoxOf(orbit), xRes, yRes, intensity)
  }

  /** The lines of the image file. */
  function Picture(step: Point -> Point, init: Point, nIter: nat, xRes: nat, yRes: nat, intensity: int): seq<string>
    requires Renderable(step, init, nIter, xRes, yRes)
  {
    PpmLines(Image(step, init, nIter, xRes, yRes, intensity), xRes, yRes)
  }

  /**
   * End to end: a three-line header, then xRes * yRes grey lines; each shows
   * a counter that is at most 255 and a multiple of `intensity`, and the
   * counters add up to at most intensity * nIter.
   */
  lemma PictureProperties(step: Point -> Point, init: Point, nIter: nat, xRes: nat, yRes: nat, intensity: int)
    requires Renderable(step, init, nIter, xRes, yRes)
    requires intensity > 0
    ensures |Picture(step, init, nIter, xRes, yRes, intensity)| == 3 + xRes * yRes
    ensures Picture(step, init, nIter, xRes, yRes, intensity)[..3] ==
      ["P3", NatToString(xRes) + " " + NatToString(yRes), "255"]
    ensures forall i, j :: 0 <= i < yRes && 0 <= j < xRes ==>
      var v := Image(step, init, nIter, xRes, yRes, intensity)[j][yRes - 1 - i];
      LineIndex(i, j, xRes) < |Picture(step, init, nIter, xRes, yRes, intensity)| &&
      Picture(step, init, nIter, xRes, yRes, intensity)[LineIndex(i, j, xRes)] == GreyLine(v) &&
      0 <= v <= 255 && v % intensity == 0
    ensures 0 <= Total(Image(step, init, nIter, xRes, yRes, intensity)) <= intensity * nIter
  {
    var orbit := Orbit(step, init, nIter);
    var g := Image(step, init, nIter, xRes, yRes, intensity);
    BoxHasAll(orbit);
    HistogramBounds(orbit, BoxOf(orbit), xRes, yRes, intensity);
    PpmLayout(g, xRes, yRes);
  }

  /** The whole run: generator, rasterizer, writer. */
  method Run(step: Point -> Point, init: Point, nIter: nat, xRes: nat, yRes: nat, intensity: int)
    returns (lines: seq<string>)
    requires Renderable(step, init, nIter, xRes, yRes)
    ensures lines == Picture(step, init, nIter, xRes, yRes, intensity)
  {
    var xs, ys, box := Generate(step, init, nIter);
    ghost var orbit := Orbit(step, init, nIter);
    BoxHasAll(orbit);
    assert forall k :: 0 <= k < nIter ==> Point(xs[k], ys[k]) == Zip(xs[..], ys[..])[k];
    var img := Rasterize(xs, ys, box, xRes, yRes, intensity);
    ghost var g := Image(step, init, nIter, xRes, yRes, intensity);
    GridOfEquals(img, g);
    lines := WritePpm(img, xRes, yRes);
  }
}
