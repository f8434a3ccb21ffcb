/**
 * The density rasterizer: every stored point is remapped onto a cell of an
 * x_res by y_res grid of unsigned 8-bit counters, and that cell is raised by
 * `intensity` unless doing so would pass 255 (saturation by skipping).
 */
module Raster {
  import opened Trajectory

  /** A grid position: `x` indexes the first dimension, `y` the second. */
  datatype Cell = Cell(x: int, y: int)

  /** A grid as rows of counters; `g[x][y]` is the counter at Cell(x, y). */
  type Grid = seq<seq<int>>

  /** Both axes have a positive range, so the remap does not divide by zero. */
  predicate NonDegenerate(b: Box) {
    b.xMin < b.xMax && b.yMin < b.yMax
  }

  predicate IsGrid(g: Grid, w: nat, h: nat) {
    |g| == w && forall i :: 0 <= i < w ==> |g[i]| == h
  }

  /** Every counter is an unsigned 8-bit value. */
  predicate Bytes(g: Grid) {
    forall i, j :: 0 <= i < |g| && 0 <= j < |g[i]| ==> 0 <= g[i][j] <= 255
  }

  predicate InGrid(c: Cell, w: nat, h: nat) {
    0 <= c.x < w && 0 <= c.y < h
  }

  /** Every counter is a multiple of `k`. */
  predicate MultiplesOf(g: Grid, k: int)
    requires k > 0
  {
    forall i, j :: 0 <= i < |g| && 0 <= j < |g[i]| ==> g[i][j] % k == 0
  }

  /** The grid as allocated: every counter zero. */
  function ZeroGrid(w: nat, h: nat): (g: Grid)
    ensures IsGrid(g, w, h) && Bytes(g)
    ensures forall i, j :: 0 <= i < w && 0 <= j < h ==> g[i][j] == 0
  {
    seq(w, _ => seq(h, _ => 0))
  }

  /** (v - lo) * (res - 1) / (hi - lo): the coordinate scaled onto [0, res - 1]. */
  function Scale(v: real, lo: real, hi: real, res: nat): real
    requires lo < hi && res > 0
  {
    (v - lo) * ((res - 1) as real) / (hi - lo)
  }

  /**
   * floor((v - lo) * (res - 1) / (hi - lo)): one coordinate remapped onto
   * the index range of an axis with `res` cells.
   */
  function CellIndex(v: real, lo: real, hi: real, res: nat): (k: int)
    requires lo < hi && res > 0
    ensures lo <= v <= hi ==> 0 <= k <= res - 1
  {
    if lo <= v <= hi then
      ScaleBounds(v, lo, hi, res);
      FloorBounds(Scale(v, lo, hi, res), res - 1);
      Scale(v, lo, hi, res).Floor
    else
      Scale(v, lo, hi, res).Floor
  }

  /** A coordinate inside [lo, hi] scales into [0, res - 1]. */
  lemma ScaleBounds(v: real, lo: real, hi: real, res: nat)
    requires lo < hi && res > 0 && lo <= v <= hi
    ensures 0.0 <= Scale(v, lo, hi, res) <= (res - 1) as real
  {
    var r := (res - 1) as real;
    MulMono(0.0, v - lo, r);
    MulMono(v - lo, hi - lo, r);
    DivMono(0.0, (v - lo) * r, hi - lo);
    DivMono((v - lo) * r, (hi - lo) * r, hi - lo);
    Cancel(hi - lo, r);
    assert Scale(v, lo, hi, res) == (v - lo) * r / (hi - lo);
    assert (hi - lo) * r / (hi - lo) == r;
  }

  /** A real in [0, n] has its floor in [0, n]. */
  lemma FloorBounds(t: real, n: int)
    requires 0.0 <= t <= n as real
    ensures 0 <= t.Floor <= n
  {
    assert t.Floor as real <= t < t.Floor as real + 1.0;
  }

  lemma Cancel(s: real, r: real)
    requires s != 0.0
    ensures s * r / s == r
  {
    var q := s * r / s;
    assert q * s == s * r;
  }

  lemma FloorMono(a: real, b: real)
    requires a <= b
    ensures a.Floor <= b.Floor
  {
    assert a.Floor as real <= a;
    assert b < b.Floor as real + 1.0;
  }

  /** Division by a positive real keeps order. */
  lemma DivMono(p: real, q: real, s: real)
    requires p <= q && 0.0 < s
    ensures p / s <= q / s
  {
    assert q / s - p / s == (q - p) / s;
  }

  /** Multiplying by a non-negative real keeps order. */
  lemma MulMono(p: real, q: real, r: real)
    requires p <= q && 0.0 <= r
    ensures p * r <= q * r
  {
    assert q * r - p * r == (q - p) * r;
  }

  /** The remap is monotone in the coordinate. */
  lemma CellIndexMonotone(v: real, w: real, lo: real, hi: real, res: nat)
    requires lo < hi && res > 0 && v <= w
    ensures CellIndex(v, lo, hi, res) <= CellIndex(w, lo, hi, res)
  {
    var r := (res - 1) as real;
    MulMono(v - lo, w - lo, r);
    DivMono((v - lo) * r, (w - lo) * r, hi - lo);
    FloorMono(Scale(v, lo, hi, res), Scale(w, lo, hi, res));
  }

  /** The ends of the range land on the first and the last cell. */
  lemma CellIndexEnds(lo: real, hi: real, res: nat)
    requires lo < hi && res > 0
    ensures CellIndex(lo, lo, hi, res) == 0
    ensures CellIndex(hi, lo, hi, res) == res - 1
  {
    var r := (res - 1) as real;
    assert Scale(lo, lo, hi, res) == 0.0 * r / (hi - lo) == 0.0;
    Cancel(hi - lo, r);
    assert Scale(hi, lo, hi, res) == r;
  }

  /**
   * The saturating increment of one counter. The counter is raised only when
   * it is at most 255 - intensity; the `% 256` is the truncation of the
   * 8-bit store.
   */
  function Bump(cell: int, intensity: int): (r: int)
    requires 0 <= cell <= 255
    ensures 0 <= r <= 255
  {
    if cell <= 255 - intensity then (cell + intensity) % 256 else cell
  }

  /**
   * With a non-negative intensity the counter moves by exactly `intensity`
   * when there is room and stays put otherwise: the store never wraps and
   * a nearly full counter is skipped, not clamped to 255.
   */
  lemma BumpSkipsWhenFull(cell: int, intensity: int)
    requires 0 <= cell <= 255 && 0 <= intensity
    ensures cell <= 255 - intensity ==> Bump(cell, intensity) == cell + intensity
    ensures cell > 255 - intensity ==> Bump(cell, intensity) == cell
    ensures Bump(cell, intensity) != 255 || cell == 255 || cell + intensity == 255
  {
  }

  /** One saturating increment at cell `c`; no other counter changes. */
  function Hit(g: Grid, c: Cell, intensity: int): (r: Grid)
    requires 0 <= c.x < |g| && 0 <= c.y < |g[c.x]| && 0 <= g[c.x][c.y] <= 255
    ensures |r| == |g| && forall i :: 0 <= i < |g| ==> |r[i]| == |g[i]|
    ensures forall i, j :: 0 <= i < |g| && 0 <= j < |g[i]| ==>
      r[i][j] == if i == c.x && j == c.y then Bump(g[i][j], intensity) else g[i][j]
  {
    g[c.x := g[c.x][c.y := Bump(g[c.x][c.y], intensity)]]
  }

  /** Applies the increments for `cells` in order. */
  function Deposit(g: Grid, w: nat, h: nat, cells: seq<Cell>, intensity: int): (r: Grid)
    requires IsGrid(g, w, h) && Bytes(g)
    requires forall k :: 0 <= k < |cells| ==> InGrid(cells[k], w, h)
    ensures IsGrid(r, w, h) && Bytes(r)
    decreases |cells|
  {
    if cells == [] then g
    else
      var init := cells[..|cells| - 1];
      assert forall k :: 0 <= k < |init| ==> init[k] == cells[k];
      var before := Deposit(g, w, h, init, intensity);
      var c := cells[|cells| - 1];
      assert InGrid(c, w, h) && |before[c.x]| == h;
      Hit(before, c, intensity)
  }

  /** Unfolds the last increment of a deposit. */
  lemma DepositLast(g: Grid, w: nat, h: nat, cells: seq<Cell>, intensity: int)
    requires IsGrid(g, w, h) && Bytes(g) && cells != []
    requires forall k :: 0 <= k < |cells| ==> InGrid(cells[k], w, h)
    ensures InGrid(cells[|cells| - 1], w, h)
    ensures Deposit(g, w, h, cells, intensity) ==
      Hit(Deposit(g, w, h, cells[..|cells| - 1], intensity), cells[|cells| - 1], intensity)
  {
  }

  /** The mapped cell of every stored point. */
  function CellsOf(pts: seq<Point>, box: Box, w: nat, h: nat): (r: seq<Cell>)
    requires |pts| > 0 ==> w > 0 && h > 0 && NonDegenerate(box)
    requires forall k :: 0 <= k < |pts| ==> Contains(box, pts[k])
    ensures |r| == |pts|
    ensures forall k :: 0 <= k < |pts| ==> InGrid(r[k], w, h)
  {
    var r := seq(|pts|, k requires 0 <= k < |pts| =>
      Cell(CellIndex(pts[k].x, box.xMin, box.xMax, w), CellIndex(pts[k].y, box.yMin, box.yMax, h)));
    assert forall k :: 0 <= k < |pts| ==> InGrid(r[k], w, h) by {
      forall k | 0 <= k < |pts|
        ensures InGrid(r[k], w, h)
      {
        assert Contains(box, pts[k]);
      }
    }
    r
  }

  /** The grid the rasterizer leaves behind: a zero grid, then one increment per point. */
  function Histogram(pts: seq<Point>, box: Box, w: nat, h: nat, intensity: int): (g: Grid)
    requires |pts| > 0 ==> w > 0 && h > 0 && NonDegenerate(box)
    requires forall k :: 0 <= k < |pts| ==> Contains(box, pts[k])
    ensures IsGrid(g, w, h) && Bytes(g)
  {
    Deposit(ZeroGrid(w, h), w, h, CellsOf(pts, box, w, h), intensity)
  }

  /** One increment keeps every counter a multiple of `intensity`. */
  lemma HitKeepsMultiples(g: Grid, w: nat, h: nat, c: Cell, intensity: int)
    requires IsGrid(g, w, h) && Bytes(g) && intensity > 0 && MultiplesOf(g, intensity)
    requires InGrid(c, w, h)
    ensures MultiplesOf(Hit(g, c, intensity), intensity)
  {
    var r := Hit(g, c, intensity);
    var v := g[c.x][c.y];
    BumpSkipsWhenFull(v, intensity);
    if v <= 255 - intensity {
      ModAddSelf(v, intensity);
    }
    forall i, j | 0 <= i < |r| && 0 <= j < |r[i]|
      ensures r[i][j] % intensity == 0
    {
      if i == c.x && j == c.y {
        assert r[i][j] == Bump(v, intensity);
      } else {
        assert r[i][j] == g[i][j];
      }
    }
  }

  lemma ModAddSelf(v: int, k: int)
    requires k > 0
    ensures (v + k) % k == v % k
  {
    var q, m := v / k, v % k;
    var q1, m1 := (v + k) / k, (v + k) % k;
    assert k * q + m == v;
    assert k * q1 + m1 == v + k;
    var d := q1 - q - 1;
    assert k * d == m - m1;
    assert d >= 1 ==> k * d >= k * 1;
    assert d <= -1 ==> k * d <= k * -1;
  }

  /** One increment adds between 0 and `intensity` to the total mass. */
  lemma HitMass(g: Grid, w: nat, h: nat, c: Cell, intensity: int)
    requires IsGrid(g, w, h) && Bytes(g) && intensity >= 0
    requires InGrid(c, w, h)
    ensures Total(g) <= Total(Hit(g, c, intensity)) <= Total(g) + intensity
  {
    var v := Bump(g[c.x][c.y], intensity);
    BumpSkipsWhenFull(g[c.x][c.y], intensity);
    RowSumUpdate(g[c.x], c.y, v);
    TotalUpdate(g, c.x, g[c.x][c.y := v]);
  }

  /** Starting from multiples of `intensity`, every counter stays one. */
  lemma {:induction false} DepositMultiples(g: Grid, w: nat, h: nat, cells: seq<Cell>, intensity: int)
    requires IsGrid(g, w, h) && Bytes(g) && intensity > 0 && MultiplesOf(g, intensity)
    requires forall k :: 0 <= k < |cells| ==> InGrid(cells[k], w, h)
    ensures MultiplesOf(Deposit(g, w, h, cells, intensity), intensity)
    decreases |cells|
  {
    if cells != [] {
      DepositLast(g, w, h, cells, intensity);
      var init := cells[..|cells| - 1];
      DepositMultiples(g, w, h, init, intensity);
      HitKeepsMultiples(Deposit(g, w, h, init, intensity), w, h, cells[|cells| - 1], intensity);
    }
  }

  /** No counter ever decreases (for a non-negative intensity). */
  lemma {:induction false} DepositGrows(g: Grid, w: nat, h: nat, cells: seq<Cell>, intensity: int)
    requires IsGrid(g, w, h) && Bytes(g) && intensity >= 0
    requires forall k :: 0 <= k < |cells| ==> InGrid(cells[k], w, h)
    ensures forall i, j :: 0 <= i < w && 0 <= j < h ==> g[i][j] <= Deposit(g, w, h, cells, intensity)[i][j]
    decreases |cells|
  {
    if cells != [] {
      DepositLast(g, w, h, cells, intensity);
      var init := cells[..|cells| - 1];
      DepositGrows(g, w, h, init, intensity);
      var before := Deposit(g, w, h, init, intensity);
      var c := cells[|cells| - 1];
      BumpSkipsWhenFull(before[c.x][c.y], intensity);
    }
  }

  /** Sum of one row of counters. */
  function RowSum(r: seq<int>): int {
    if r == [] then 0 else r[0] + RowSum(r[1..])
  }

  /** Sum of every counter in the grid: the total deposited mass. */
  function Total(g: Grid): int {
    if g == [] then 0 else RowSum(g[0]) + Total(g[1..])
  }

  lemma {:induction false} RowSumUpdate(r: seq<int>, j: nat, v: int)
    requires j < |r|
    ensures RowSum(r[j := v]) == RowSum(r) - r[j] + v
  {
    if j == 0 {
      assert r[j := v][1..] == r[1..];
    } else {
      assert r[j := v][1..] == r[1..][j - 1 := v];
      RowSumUpdate(r[1..], j - 1, v);
    }
  }

  lemma {:induction false} TotalUpdate(g: Grid, i: nat, row: seq<int>)
    requires i < |g|
    ensures Total(g[i := row]) == Total(g) - RowSum(g[i]) + RowSum(row)
  {
    if i == 0 {
      assert g[i := row][1..] == g[1..];
    } else {
      assert g[i := row][1..] == g[1..][i - 1 := row];
      TotalUpdate(g[1..], i - 1, row);
    }
  }

  lemma MulSucc(a: int, n: int)
    ensures a * (n + 1) == a * n + a
  {
  }

  /** Each increment adds at most `intensity` to the total mass. */
  lemma {:induction false} DepositMass(g: Grid, w: nat, h: nat, cells: seq<Cell>, intensity: int)
    requires IsGrid(g, w, h) && Bytes(g) && intensity >= 0
    requires forall k :: 0 <= k < |cells| ==> InGrid(cells[k], w, h)
    ensures Total(g) <= Total(Deposit(g, w, h, cells, intensity)) <= Total(g) + intensity * |cells|
    decreases |cells|
  {
    if cells != [] {
      DepositLast(g, w, h, cells, intensity);
      var init := cells[..|cells| - 1];
      assert forall k :: 0 <= k < |init| ==> init[k] == cells[k];
      DepositMass(g, w, h, init, intensity);
      var before := Deposit(g, w, h, init, intensity);
      HitMass(before, w, h, cells[|cells| - 1], intensity);
      var n := |init|;
      assert |cells| == n + 1;
      MulSucc(intensity, n);
    }
  }

  /** From the zero grid: multiples of `intensity`, mass at most intensity * |pts|. */
  lemma HistogramBounds(pts: seq<Point>, box: Box, w: nat, h: nat, intensity: int)
    requires |pts| > 0 ==> w > 0 && h > 0 && NonDegenerate(box)
    requires forall k :: 0 <= k < |pts| ==> Contains(box, pts[k])
    requires intensity > 0
    ensures MultiplesOf(Histogram(pts, box, w, h, intensity), intensity)
    ensures 0 <= Total(Histogram(pts, box, w, h, intensity)) <= intensity * |pts|
  {
    var cells := CellsOf(pts, box, w, h);
    ZeroTotal(w, h);
    assert MultiplesOf(ZeroGrid(w, h), intensity);
    DepositMultiples(ZeroGrid(w, h), w, h, cells, intensity);
    DepositMass(ZeroGrid(w, h), w, h, cells, intensity);
  }

  lemma {:induction false} ZeroTotal(w: nat, h: nat)
    ensures Total(ZeroGrid(w, h)) == 0
  {
    if w > 0 {
      ZeroRow(h);
      assert ZeroGrid(w, h)[1..] == ZeroGrid(w - 1, h);
      ZeroTotal(w - 1, h);
    }
  }

  lemma {:induction false} ZeroRow(h: nat)
    ensures RowSum(seq(h, _ => 0)) == 0
  {
    if h > 0 {
      assert seq(h, _ => 0)[1..] == seq(h - 1, _ => 0);
      ZeroRow(h - 1);
    }
  }

  /**
   * Point k lands on the cell CellsOf lists for it, and depositing the first
   * k + 1 cells is one more increment after depositing the first k.
   */
  lemma DepositStep(pts: seq<Point>, box: Box, w: nat, h: nat, intensity: int, k: nat)
    requires k < |pts| && w > 0 && h > 0 && NonDegenerate(box)
    requires forall n :: 0 <= n < |pts| ==> Contains(box, pts[n])
    ensures CellsOf(pts, box, w, h)[k] ==
      Cell(CellIndex(pts[k].x, box.xMin, box.xMax, w), CellIndex(pts[k].y, box.yMin, box.yMax, h))
    ensures Deposit(ZeroGrid(w, h), w, h, CellsOf(pts, box, w, h)[..k + 1], intensity) ==
      Hit(Deposit(ZeroGrid(w, h), w, h, CellsOf(pts, box, w, h)[..k], intensity), CellsOf(pts, box, w, h)[k], intensity)
  {
    var cells := CellsOf(pts, box, w, h);
    assert cells[..k + 1][..k] == cells[..k];
    DepositLast(ZeroGrid(w, h), w, h, cells[..k + 1], intensity);
  }

  /** The two-dimensional array holds exactly the counters of grid `g`. */
  ghost predicate Shows(img: array2<int>, g: Grid)
    reads img
  {
    IsGrid(g, img.Length0, img.Length1) &&
    forall i, j :: 0 <= i < img.Length0 && 0 <= j < img.Length1 ==> img[i, j] == g[i][j]
  }

  /**
   * One guarded increment in place: the counter at `c` is raised by
   * `intensity` when there is room, stored modulo 256, and nothing else
   * changes, so the array then shows Hit of the grid it showed.
   */
  method Plot(img: array2<int>, c: Cell, intensity: int, ghost g: Grid)
    requires Shows(img, g) && Bytes(g) && InGrid(c, img.Length0, img.Length1)
    modifies img
    ensures Shows(img, Hit(g, c, intensity))
  {
    if img[c.x, c.y] <= 255 - intensity {
      img[c.x, c.y] := (img[c.x, c.y] + intensity) % 256;
    }
    ghost var next := Hit(g, c, intensity);
    forall i, j | 0 <= i < img.Length0 && 0 <= j < img.Length1
      ensures img[i, j] == next[i][j]
    {
      if i != c.x || j != c.y {
        assert img[i, j] == old(img[i, j]);
      }
    }
  }

  /**
   * The indexing loop: a zero-filled grid, then one saturating increment per
   * stored point at its remapped cell.
   */
  method Rasterize(xs: array<real>, ys: array<real>, box: Box, xRes: nat, yRes: nat, intensity: int)
    returns (img: array2<int>)
    requires xs.Length == ys.Length
    requires xs.Length > 0 ==> xRes > 0 && yRes > 0 && NonDegenerate(box)
    requires forall k :: 0 <= k < xs.Length ==> Contains(box, Point(xs[k], ys[k]))
    ensures fresh(img) && img.Length0 == xRes && img.Length1 == yRes
    ensures forall i, j :: 0 <= i < xRes && 0 <= j < yRes ==>
      img[i, j] == Histogram(Zip(xs[..], ys[..]), box, xRes, yRes, intensity)[i][j]
  {
    img := new int[xRes, yRes]((_, _) => 0);
    ghost var pts := Zip(xs[..], ys[..]);
    ghost var cells := CellsOf(pts, box, xRes, yRes);
    ghost var zero := ZeroGrid(xRes, yRes);
    for k := 0 to xs.Length
      invariant Shows(img, Deposit(zero, xRes, yRes, cells[..k], intensity))
    {
      var xInd := CellIndex(xs[k], box.xMin, box.xMax, xRes);
      var yInd := CellIndex(ys[k], box.yMin, box.yMax, yRes);
      DepositStep(pts, box, xRes, yRes, intensity, k);
      Plot(img, Cell(xInd, yInd), intensity, Deposit(zero, xRes, yRes, cells[..k], intensity));
    }
    assert cells[..xs.Length] == cells;
  }
}
