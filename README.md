# Attractor renderers, modelled in Dafny

The repository renders strange attractors as greyscale images. There are two
C++ programs. `AttRen_poly.cpp` iterates a quadratic polynomial map with
twelve coefficients. `AttRen_trig.cpp` iterates a Clifford map built from
sine and cosine with four coefficients. Apart from the two recurrence lines
(poly 80-81, trig 78-79), both programs run the same pipeline in `main`. In
the trig file every line number is two lower.

1. **Generator.** Start from `(x_i, y_i)` and apply the step `n_iter` times.
   Store each new state in `x_vec[i]`, `y_vec[i]`; the initial state is never
   stored. A min/max box that starts at `(0, 0, 0, 0)` is widened after each
   point.
2. **Rasterizer.** Remap every stored point onto a cell of an `x_res` by
   `y_res` grid of 8-bit counters with `floor((v - min) * (res - 1) / (max - min))`.
   Raise that counter by `intensity` only if it is at most `255 - intensity`.
   A nearly full counter is skipped, not clamped.
3. **Writer.** Emit a plain (P3) netpbm image: `P3`, then `x_res y_res`, then
   `255`, then one `v v v` line per pixel, with rows flipped vertically.

The modules follow that structure:

- `Trajectory` (trajectory.dfy) is the generator loop `Generate`. It works
  over two arrays and takes the step function as a parameter. It is specified
  by the functions `Iterate`, `Orbit` and `BoxOf`.
- `Raster` (raster.dfy) is the indexing loop `Rasterize`, over a
  two-dimensional array. It is specified by `CellIndex`, `Bump`, `Hit`,
  `Deposit` and `Histogram`.
- `Ppm` (ppm.dfy) is the writer `WritePpm`, as nested loops that produce the
  file's lines. It is specified by `PpmLines`. The module also holds the
  members that model the two indexing faults of the writer as written.
- `Pipeline` (pipeline.dfy) is the three stages run in sequence (`Run`) and
  the end-to-end function `Picture`.
- `PolyRenderer` (poly.dfy) and `TrigRenderer` (trig.dfy) are the two
  recurrences and the two programs. In `TrigRenderer`, sine and cosine are
  parameters.

Coordinates and bounds are exact `real`s. Counters are `int`s kept in
0..255, and the 8-bit store of `+=` is written as `% 256`.

## Model

| member | source | states |
|---|---|---|
| Trajectory.Widen | AttRen_poly.cpp:92-103 | the updated box holds the old box and the new point, and lies within every box that holds both, so it is the least such box |
| Trajectory.Orbit | AttRen_poly.cpp:53-54 | a run of n iterations stores exactly n points |
| Trajectory.Zip | AttRen_poly.cpp:88-89 | a change of representation only: the two coordinate vectors read as one sequence of points, entry k pairing `x_vec[k]` with `y_vec[k]` |
| Trajectory.OrbitAt | AttRen_poly.cpp:77-89 | stored entry k is the (k+1)-th iterate, never the initial state |
| Trajectory.OrbitPrefix | AttRen_poly.cpp:77-89 | the points of a shorter run are a prefix of a longer run's, so points are stored in iteration order |
| Trajectory.BoxHasOrigin | AttRen_poly.cpp:47-50 | because the bounds start at zero, x_min <= 0 <= x_max and y_min <= 0 <= y_max after any number of points |
| Trajectory.BoxHasAll | AttRen_poly.cpp:88-103 | every stored point lies inside the final box |
| Trajectory.BoxIsLeast | AttRen_poly.cpp:92-103 | any box containing the origin and every point contains the final box |
| Trajectory.BoxGrows | AttRen_poly.cpp:92-103 | the box after a prefix of the points lies within the final box: mins only decrease, maxes only increase |
| Trajectory.ZipOrbit | AttRen_poly.cpp:88-89 | vectors whose entry k is iterate k+1 pair up to exactly the trajectory |
| Trajectory.Generate | AttRen_poly.cpp:73-103 | fresh vectors of length n_iter; entry k is iterate k+1 of the step from the initial state; the bounds are the box of the stored points, starting from (0, 0, 0, 0) |
| Raster.ZeroGrid | AttRen_poly.cpp:63 | the allocated grid as a value: x_res by y_res, every counter zero (its sum is ZeroTotal) |
| Raster.CellIndex | AttRen_poly.cpp:130-131 | for max > min and a coordinate in [min, max], the remapped index lies in [0, res - 1] |
| Raster.ScaleBounds | AttRen_poly.cpp:130-131 | the scaled coordinate lies in [0, res - 1] before flooring |
| Raster.CellIndexMonotone | AttRen_poly.cpp:130-131 | the remap keeps order: a smaller coordinate never lands in a later cell |
| Raster.CellIndexEnds | AttRen_poly.cpp:130-131 | min lands on cell 0 and max on cell res - 1 |
| Raster.Bump | AttRen_poly.cpp:134-135 | the guarded 8-bit increment leaves a byte in 0..255 |
| Raster.BumpSkipsWhenFull | AttRen_poly.cpp:134-135 | for intensity >= 0, a counter at most 255 - intensity rises by exactly intensity; a larger one is unchanged; the result is 255 only if it already was or lands exactly on it, so there is no clamping |
| Raster.Hit | AttRen_poly.cpp:134-135 | the increment changes only the mapped counter, by Bump; every other counter and the grid's shape are unchanged |
| Raster.Deposit | AttRen_poly.cpp:127-136 | applying the increments in order keeps an x_res by y_res grid of bytes |
| Raster.CellsOf | AttRen_poly.cpp:127-131 | one cell per stored point; every cell is inside the grid when every point is inside a non-degenerate box |
| Raster.Histogram | AttRen_poly.cpp:127-136 | the grid left after bumping a zero grid once per point is an x_res by y_res grid of bytes |
| Raster.HitKeepsMultiples | AttRen_poly.cpp:134-135 | an increment keeps every counter a multiple of intensity |
| Raster.HitMass | AttRen_poly.cpp:134-135 | an increment adds between 0 and intensity to the sum of all counters |
| Raster.DepositMultiples | AttRen_poly.cpp:127-136 | starting from multiples of intensity, every counter stays a multiple of intensity |
| Raster.DepositGrows | AttRen_poly.cpp:127-136 | for intensity >= 0 no counter ever decreases |
| Raster.DepositMass | AttRen_poly.cpp:127-136 | the total grows by at least 0 and at most intensity times the number of points |
| Raster.ZeroTotal | AttRen_poly.cpp:63 | the freshly allocated grid sums to 0 |
| Raster.HistogramBounds | AttRen_poly.cpp:127-136 | from the zero grid, every counter is a multiple of intensity and the total is at most intensity * n_iter |
| Raster.Plot | AttRen_poly.cpp:134-135 | the guarded 8-bit increment in place: afterwards the array holds Hit of the grid it held, so only the mapped counter changes, by Bump |
| Raster.Rasterize | AttRen_poly.cpp:126-136 | the in-place loop over the 2D array leaves, in every cell, the counter of Histogram for the stored points and the box |
| Ppm.NatToString | AttRen_poly.cpp:174 | a written counter is a non-empty string of decimal digits |
| Ppm.NatToStringNoLeadingZero | AttRen_poly.cpp:174 | the text is canonical: a positive counter is written without a leading zero |
| Ppm.ParseNatToString | AttRen_poly.cpp:174 | the decimal text of a value reads back as that value |
| Ppm.NatToStringInjective | AttRen_poly.cpp:174 | different counters are written as different text |
| Ppm.RowLines | AttRen_poly.cpp:170-174 | the definition of file row i written pointwise: x_res grey lines, column j showing cell (j, y_res - 1 - i); the layout facts are RowsAt and PpmLayout |
| Ppm.Rows | AttRen_poly.cpp:169-175 | the first n file rows are n * x_res lines |
| Ppm.RowsAt | AttRen_poly.cpp:169-175 | line i * x_res + j of the rows is the grey line of cell (j, y_res - 1 - i) |
| Ppm.PpmLayout | AttRen_poly.cpp:164-174 | the file is `P3`, `x_res y_res`, `255`, then exactly x_res * y_res grey lines; file row i, column j shows cell (j, y_res - 1 - i) |
| Ppm.PpmCoversGrid | AttRen_poly.cpp:169-174 | every grid cell (x, y) is the grey line at file row y_res - 1 - y, column x |
| Ppm.GridOf | AttRen_poly.cpp:63 | a change of representation only: the 2D array read as an x_res by y_res grid with the same counters |
| Ppm.WritePpm | AttRen_poly.cpp:164-175 | the nested writer loops produce exactly PpmLines of the array's grid, reading inside the grid only |
| Ppm.AsWrittenReadsPastEnd | AttRen_poly.cpp:173 | as written, the first pixel read is of second index y_res, outside the grid, on every non-empty grid; on a square grid index 0 is never read |
| Ppm.SwappedBoundsInRangeIffSquare | AttRen_poly.cpp:169-173 | with the writer's loop bounds (i over x_res, j over y_res, first index j) and the flip corrected to y_res - 1 - i, every read is inside the x_res by y_res grid exactly when x_res == y_res |
| Pipeline.Image | AttRen_poly.cpp:77-136 | the grid rasterized from the trajectory and its own box is an x_res by y_res grid of bytes |
| Pipeline.PictureProperties | AttRen_poly.cpp:63-175 | the image file has the P3 header and x_res * y_res grey lines; each shows a counter that is at most 255 and a multiple of intensity, and the counters add up to at most intensity * n_iter |
| Pipeline.Run | AttRen_poly.cpp:73-175 | generator, rasterizer and writer in sequence produce exactly Picture |
| PolyRenderer.QuadraticIsDot | AttRen_poly.cpp:80-81 | each coordinate of the step is the six coefficients weighting 1, x, x^2, y, y^2, x y |
| PolyRenderer.StepIsMonomialSum | AttRen_poly.cpp:80-85 | x' uses a0 .. a5 and y' uses a6 .. a11, both on the monomials of the old (x, y), so the update is simultaneous |
| PolyRenderer.StepMirror | AttRen_poly.cpp:80-81 | the y update is the x update with x and y exchanged and the coefficients permuted |
| PolyRenderer.ZeroCoefficientsDegenerate | AttRen_poly.cpp:77-103 | with all coefficients zero every stored point is the origin, the box stays (0, 0, 0, 0), and the remap would divide by zero |
| PolyRenderer.Render | AttRen_poly.cpp:73-175 | the polynomial program produces Picture of its step |
| TrigRenderer.StepCoefficientUse | AttRen_trig.cpp:78-79 | x' depends on a0 and a2 only, and y' on a1 and a3 only |
| TrigRenderer.StepMirror | AttRen_trig.cpp:78-79 | the y update is the x update with x and y exchanged and the coefficient pairs swapped |
| TrigRenderer.WaveBound | AttRen_trig.cpp:78-79 | with sine and cosine in [-1, 1], sin(s u) + c cos(s v) lies in [-(1 + abs(c)), 1 + abs(c)] |
| TrigRenderer.StepInEnvelope | AttRen_trig.cpp:78-83 | every new state lies in [-(1 + abs(a2)), 1 + abs(a2)] by [-(1 + abs(a3)), 1 + abs(a3)] |
| TrigRenderer.OrbitBoxInEnvelope | AttRen_trig.cpp:73-101 | from any initial state, the final box lies within that envelope |
| TrigRenderer.Render | AttRen_trig.cpp:71-173 | the Clifford program produces Picture of its step |

## Left out

- Progress bars (AttRen_poly.cpp:106-120, 139-153 and 178-192, and the same blocks in the trig file) are console output only. They are left out, including their `i % (n_iter / 100)` and `i % (x_res / 100)`, which divide by zero when n_iter or x_res is below 100.
- Timing with `chrono` and the parameter summary printed at the end are console output only.
- Opening the `Attractor_<num>.ppm` stream and `endl` are left out, and with them `num`, which names the file and the printed summary (AttRen_poly.cpp:209). The writer yields the sequence of lines instead of writing a file.
- Sine and cosine are not modelled. They are parameters of `TrigRenderer`, and the only fact used about them is that they stay in [-1, 1] (`TrigRenderer.UnitBounded`).
- Integer widths are not modelled. `n_iter`, `x_res` and `y_res` are `unsigned int` (AttRen_poly.cpp:34, 37-38), and the loop counters are `int` (lines 77, 127, 169 and 170). The model makes them all unbounded `nat`s. So `Render` and `Pipeline.Run` also promise a `Picture` for values the 32-bit types cannot hold, and for `n_iter` of 2^31 or more, where the source's `i++` overflows a signed `int` (undefined behaviour). The `x_res - 1` wrap at a zero resolution is described under `Raster.Rasterize` below.
- Float and double rounding are not modelled. Exact reals also drop double overflow: on a diverging orbit the source's state becomes ±inf or NaN, and the remap's cast of such a value to `unsigned int` is undefined behaviour. That covers the `float` bounds and vectors compared against the `double` state, and the conversion of `floor` to `unsigned int`. Everything is exact real arithmetic.
- The hard-coded coefficients, initial state, `intensity = 2`, `n_iter = 10000000` and `x_res = y_res = 1000` are inputs of `Render`, not constants.
- AttGen_poly.py is not part of this model. It does a random parameter search with numpy and PIL.
- Raster.Rasterize: requires, when there are points, positive resolutions and a box with max > min on both axes. In the source a degenerate box is a division by zero at AttRen_poly.cpp:130-131. A zero resolution is an out-of-range access instead: the unsigned `x_res - 1` wraps to 4294967295, and `img_vec[x_ind]` indexes an empty vector (AttRen_poly.cpp:63, 130, 134). `Pipeline.Renderable` states the same requirement for the whole program, and `PolyRenderer.ZeroCoefficientsDegenerate` shows that it can fail.
- Ppm.WritePpm: models the writer with its evident intent: y_res file rows of x_res pixels, reading cell (j, y_res - 1 - i). The writer as written reads outside the grid, which is undefined behaviour in C++ and has no value to model. Its reads are modelled by `Ppm.AsWrittenRead` and `Ppm.FlippedRead`, and the faults are stated under Findings.
- Raster.BumpSkipsWhenFull: states exact increments only for intensity >= 0. For a negative intensity the model still wraps modulo 256, as the 8-bit store does, but no lemma describes that case.
- Raster.HistogramBounds: the multiple and mass properties are stated for intensity > 0, because "multiple of intensity" needs a positive modulus.

## Findings

| source | as written | input that shows it | evidently intended | confidence | as-written member | corrected member |
|---|---|---|---|---|---|---|
| AttRen_poly.cpp:173 | `img_vec[j][y_res - i]`, with i starting at 0 (line 171 of the trig file) | any non-empty grid: at i = 0 it reads second index y_res, one past the end; on a square grid index 0 is never read | `img_vec[j][y_res - 1 - i]` | not executed | Ppm.AsWrittenReadsPastEnd | Ppm.PpmCoversGrid |
| AttRen_poly.cpp:169-170 | outer loop `i < x_res`, inner loop `j < y_res`, first index `j` into an x_res by y_res grid (lines 167-168 of the trig file) | x_res = 1, y_res = 2: j = 1 reads `img_vec[1]` of a one-row vector; even with the flip corrected to y_res - 1 - i, every read is in range only on a square grid | outer loop over y_res file rows, inner loop over x_res columns | not executed | Ppm.SwappedBoundsInRangeIffSquare | Ppm.WritePpm |
