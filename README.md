# Bilinear interpolation kernel of `mirt2D_mexinterp`

This project models the kernel `mirt2D_mexinterp` of the MIRT registration
toolbox in Dafny. The kernel interpolates a stack of 2D images at a list of
query points:

- `Z` holds `ndim` layers. Each layer is an `nrows x ncols` image stored
  column-major, and the layers are stacked one after another.
- `S` and `T` hold the 1-based column and row coordinates of `MN` queries.
- `F` receives the value of query `n` in layer `i` at `F[n + i*MN]`.

A query outside the closed rectangle `[1, ncols] x [1, nrows]` gets the NaN
sentinel in every layer. Any other query is resolved to a grid cell once:
its corner indices `in1..in4` and its weights `m1..m4`. Every layer is then
blended with those same coefficients. A query exactly on the last column or
the last row moves one cell back, with offset 1 on that axis.

Files:

- `coefficients.dfy` (module `Coefficients`) covers the per-query part as pure
  functions:
  - the bounds test `InBounds`;
  - cell resolution with both edge corrections, `ResolveCell`;
  - the corner indices `CornersOf` and the weights `WeightsOf`;
  - a reference definition of the enclosing cell, `CellOrigin`;
  - lemmas about all of these.
- `kernel.dfy` (module `Kernel`) covers the rest:
  - the specification function `ValueAt`, which gives the value written for
    one query in one layer;
  - the kernel itself as the method `Interpolate`. It writes into an
    `array<Sample>` through two nested loops, split into the methods
    `InterpolateQuery` and `BlendLayers`;
  - the reference bilinear blend `Bilinear`;
  - lemmas relating `ValueAt` to `Bilinear`, to the grid samples and to
    single layers.

Samples, coordinates and weights are `real`. The NaN sentinel is the
`Undefined` case of `datatype Sample = Undefined | Val(v: real)`.

The fractional offsets lie in the closed interval `[0, 1]`. On the last
column (`s == ncols`) the code adds 1 to `s` before `floor(s)` is subtracted,
so the column offset is exactly 1. On the last row the row offset is exactly
1 in the same way. `Coefficients.ResolveCell` states both facts.

## Model

| member | source | states |
|---|---|---|
| Coefficients.InBounds | external/mirt2D_mexinterp/mirt2D_mexinterp/mirt2D_mexinterp.cpp:51-55 | The bounds test, written with `floor`, accepts exactly the closed rectangle 1 <= s <= ncols, 1 <= t <= nrows. |
| Coefficients.ResolveCell | external/mirt2D_mexinterp/mirt2D_mexinterp/mirt2D_mexinterp.cpp:60-65 | For an in-grid query, both offsets lie in [0, 1]. The column offset is 1 iff s == ncols, and the row offset is 1 iff t == nrows. |
| Coefficients.CellOrigin | external/mirt2D_mexinterp/mirt2D_mexinterp/mirt2D_mexinterp.cpp:60-64 | Reference cell of an in-grid query: its 0-based origin (row, col) has the query within [row+1, row+2] x [col+1, col+2] in 1-based terms. The cell's far corner is the last row and column at most. |
| Coefficients.CornersOf | external/mirt2D_mexinterp/mirt2D_mexinterp/mirt2D_mexinterp.cpp:67-70 | The four corners form a unit cell: in2 is one row below in1, in3 one column right of in1, and in4 the diagonal. |
| Coefficients.CornersAtCellOrigin | external/mirt2D_mexinterp/mirt2D_mexinterp/mirt2D_mexinterp.cpp:60-70 | The kernel's in1 is the flat index of the reference cell's origin. The offsets are the query's distance from that origin. |
| Coefficients.WeightsOf | external/mirt2D_mexinterp/mirt2D_mexinterp/mirt2D_mexinterp.cpp:73-76 | The weights sum to 1 (partition of unity). Each equals its standard bilinear product: (1-s)(1-t), (1-s)t, s(1-t), st. |
| Coefficients.WeightsInUnitInterval | external/mirt2D_mexinterp/mirt2D_mexinterp/mirt2D_mexinterp.cpp:73-76 | With both offsets in [0, 1], each weight lies in [0, 1]. |
| Coefficients.NonzeroWeightInsideGrid | external/mirt2D_mexinterp/mirt2D_mexinterp/mirt2D_mexinterp.cpp:60-76 | On every grid, a corner with a nonzero weight is a sample of the grid, and corner in4 always is. |
| Coefficients.NonzeroWeightCornersInBuffer | external/mirt2D_mexinterp/mirt2D_mexinterp/mirt2D_mexinterp.cpp:60-80 | The same fact as flat indices: a nonzero-weight corner, shifted to any layer, lies inside the buffer of nrows*ncols*ndim samples. |
| Coefficients.CornersInsideBuffer | external/mirt2D_mexinterp/mirt2D_mexinterp/mirt2D_mexinterp.cpp:60-80 | With nrows, ncols >= 2, all four corner indices of an in-grid query, shifted to any layer, lie inside the buffer. |
| Coefficients.DegenerateGridCornerOutside | external/mirt2D_mexinterp/mirt2D_mexinterp/mirt2D_mexinterp.cpp:60-70 | With nrows == 1 or ncols == 1, the origin corner of every in-grid query is outside the grid. With ncols == 1 its flat index is negative. |
| Coefficients.SingleSampleGridReadsBeforeBuffer | external/mirt2D_mexinterp/mirt2D_mexinterp/mirt2D_mexinterp.cpp:55-70 | On a 1 x 1 grid the query (1, 1) passes the bounds test, and in1 is -2. |
| Coefficients.LastSampleSharesCell | external/mirt2D_mexinterp/mirt2D_mexinterp/mirt2D_mexinterp.cpp:62-64 | With nrows, ncols >= 2, a query on or after the second-to-last column uses the last cell column. The same holds for rows. |
| Kernel.Slot | external/mirt2D_mexinterp/mirt2D_mexinterp/mirt2D_mexinterp.cpp:57 | The output slot n + i*MN of query n in layer i lies inside an output of MN*ndim values. |
| Kernel.SlotsDistinct | external/mirt2D_mexinterp/mirt2D_mexinterp/mirt2D_mexinterp.cpp:57 | Distinct (query, layer) pairs write distinct output slots. |
| Kernel.ValueAt | external/mirt2D_mexinterp/mirt2D_mexinterp/mirt2D_mexinterp.cpp:49-81 | The value of a query in a layer is the sentinel iff the query fails the bounds test. |
| Kernel.Interpolate | external/mirt2D_mexinterp/mirt2D_mexinterp/mirt2D_mexinterp.cpp:26-88 | After the call, every slot F[n + i*MN] with n < MN and i < ndim holds ValueAt for query n in layer i. Every slot beyond MN*ndim is unchanged. |
| Kernel.InterpolateQuery | external/mirt2D_mexinterp/mirt2D_mexinterp/mirt2D_mexinterp.cpp:49-83 | One pass of the query loop: query n gets ValueAt in every layer, including the sentinel branch. Other queries' slots are unchanged. |
| Kernel.BlendLayers | external/mirt2D_mexinterp/mirt2D_mexinterp/mirt2D_mexinterp.cpp:78-81 | The layer loop reuses the per-query corners and weights, and writes ValueAt into each layer's slot of query n. |
| Kernel.ValueAtIsBilinear | external/mirt2D_mexinterp/mirt2D_mexinterp/mirt2D_mexinterp.cpp:60-80 | With nrows, ncols >= 2, the value of an in-grid query is the reference bilinear blend of the cell given by CellOrigin, at the query's offsets from its origin. |
| Kernel.CellBlendIsBilinear | external/mirt2D_mexinterp/mirt2D_mexinterp/mirt2D_mexinterp.cpp:67-80 | The kernel's blend of the corners of a cell equals the reference bilinear blend of that cell, and every corner read is inside the buffer. |
| Kernel.BilinearAsWeightedSum | external/mirt2D_mexinterp/mirt2D_mexinterp/mirt2D_mexinterp.cpp:73-80 | The reference bilinear form equals the four samples weighted by m1..m4. |
| Kernel.CornerSamples | external/mirt2D_mexinterp/mirt2D_mexinterp/mirt2D_mexinterp.cpp:67-80 | The corners in1..in4, shifted to a layer, are the samples at the cell origin, one row down, one column right and diagonally, all inside the buffer. |
| Kernel.Term | external/mirt2D_mexinterp/mirt2D_mexinterp/mirt2D_mexinterp.cpp:80 | One weighted corner of the corrected sum. A zero-weight corner is not read and contributes 0; the requires demands only that a nonzero-weight corner is in range. Wherever the corner is readable, the result is the source's product z[k]*m. |
| Kernel.Blend | external/mirt2D_mexinterp/mirt2D_mexinterp/mirt2D_mexinterp.cpp:80 | The corrected four-term sum. The requires demands only that nonzero-weight corners are in range. When all four corners are readable, it equals the sum as the source writes it (WeightedSumAsWritten). |
| Kernel.WeightedSumAsWritten | external/mirt2D_mexinterp/mirt2D_mexinterp/mirt2D_mexinterp.cpp:80 | The four-term sum as the source writes it, reading all four corners. When the weights sum to 1 and the four samples are equal, the sum is that sample. Its requires need all four corners inside `z`, so it applies only where the source reads in range, e.g. grids of at least 2 rows and 2 columns. |
| Kernel.ExactSample | external/mirt2D_mexinterp/mirt2D_mexinterp/mirt2D_mexinterp.cpp:60-80 | At integer coordinates naming a sample, the kernel returns that sample, in every layer. This includes the last row and column, and single-row or single-column grids. |
| Kernel.SingleRowIsLinear | external/mirt2D_mexinterp/mirt2D_mexinterp/mirt2D_mexinterp.cpp:60-80 | On a grid of one row and at least two columns, the value of an in-grid query is the linear interpolation between the two row samples around it, at its offset from the first. |
| Kernel.SingleColumnIsLinear | external/mirt2D_mexinterp/mirt2D_mexinterp/mirt2D_mexinterp.cpp:60-80 | On a grid of one column and at least two rows, the value of an in-grid query is the linear interpolation between the two column samples around it, at its offset from the first. |
| Kernel.RowBlendIsLinear | external/mirt2D_mexinterp/mirt2D_mexinterp/mirt2D_mexinterp.cpp:62-80 | On a single row, with row offset 1, weights m1 and m3 are 0, corners in2 and in4 are the row samples at col and col+1, and the blend is their linear interpolation. |
| Kernel.ColumnBlendIsLinear | external/mirt2D_mexinterp/mirt2D_mexinterp/mirt2D_mexinterp.cpp:62-80 | On a single column, with column offset 1, weights m1 and m2 are 0, corners in3 and in4 are the column samples at row and row+1, and the blend is their linear interpolation. |
| Kernel.LayerOfAt | external/mirt2D_mexinterp/mirt2D_mexinterp/mirt2D_mexinterp.cpp:79-80 | Entry k of layer i is entry k + i*nrows*ncols of the stacked buffer. |
| Kernel.TermInLayer | external/mirt2D_mexinterp/mirt2D_mexinterp/mirt2D_mexinterp.cpp:79-80 | A weighted corner read at a layer shift equals the same read in that layer taken on its own. |
| Kernel.BlendInLayer | external/mirt2D_mexinterp/mirt2D_mexinterp/mirt2D_mexinterp.cpp:79-80 | Blending at a layer shift equals blending in that layer taken on its own. |
| Kernel.LayersAreIndependent | external/mirt2D_mexinterp/mirt2D_mexinterp/mirt2D_mexinterp.cpp:78-81 | The value in layer i equals a single-layer interpolation of layer i alone. Stacking layers changes no result. |
| Kernel.IdenticalLayersAgree | external/mirt2D_mexinterp/mirt2D_mexinterp/mirt2D_mexinterp.cpp:78-81 | Two layers with equal samples give equal values for every query. |
| Kernel.AsWrittenAgreesOnProperGrids | external/mirt2D_mexinterp/mirt2D_mexinterp/mirt2D_mexinterp.cpp:67-80 | With nrows, ncols >= 2, every corner the source reads is inside the buffer, and ValueAt equals the source's unguarded four-term sum. |
| Kernel.TwoByTwoCentreAndOutside | external/mirt2D_mexinterp/mirt2D_mexinterp/mirt2D_mexinterp.cpp:5-7 | On the 2 x 2 grid [1, 3, 2, 4] (column-major), the cell centre gives 2.5 and a query left of the first column gives the sentinel. |

## Left out

- The MATLAB gateway `mexFunction` (argument checking, allocating the output
  array, reading dimensions) is not part of this model. `Interpolate` takes the
  buffers and sizes it would pass, and its `requires` state the buffer lengths
  the gateway sets up.
- `mxGetNaN` is replaced by the sentinel `Undefined`. A NaN or infinite
  coordinate or sample, and NaN propagating through the sum, are not modelled.
- IEEE-754 double rounding is not modelled. Real arithmetic makes the
  partition of unity exact, which the double computation is only up to
  rounding.
- The `int` casts of `floor(s)` and `floor(t)` are unbounded in the model.
  Overflow for huge coordinates, and the 32-bit `int` sizes and index
  products, are not modelled.
- Sizes are `nat`. The source does not guard against negative `MN`, `nrows`,
  `ncols` or `ndim`.
- Aliasing of the output `F` with `Z`, `S` or `T` is not modelled. In the
  model `F` is an array of a different element type, so it cannot alias them.
- The speed claim (coefficients computed once per query and reused across
  layers) is structural only. `BlendLayers` receives the corners and weights
  once per query, and no cost is stated.
- Kernel.ValueAt: does not read a corner whose weight is zero. This is the
  corrected behaviour described under Findings.
  `Kernel.AsWrittenAgreesOnProperGrids` proves that it equals the source's sum
  on every grid of at least two rows and two columns.

## Findings

| source | as written | input that shows it | evidently intended | confidence | as-written member | corrected member |
|---|---|---|---|---|---|---|
| external/mirt2D_mexinterp/mirt2D_mexinterp/mirt2D_mexinterp.cpp:60-80 | On a grid with a single row or a single column, the edge corrections move the cell before the first row or column. The sum then reads corner in1, and in some cases in2 or in3, outside the grid or outside `Z` altogether. Those corners carry weight 0. | nrows = ncols = 1, ndim = 1, s = t = 1: the query passes the bounds test, ndx goes 1 → 0 → -1, so in1 = -2 and `Z[-2]` is read | Corners with weight 0 are not read, so every in-grid query on any grid reads only samples of `Z`, and an exact sample returns that sample | not executed | Coefficients.SingleSampleGridReadsBeforeBuffer, Coefficients.DegenerateGridCornerOutside (on the as-written Coefficients.ResolveCell and Coefficients.CornersOf; Kernel.WeightedSumAsWritten covers only grids whose corners are all in range) | Kernel.ValueAt, Kernel.Blend, Coefficients.NonzeroWeightCornersInBuffer, Kernel.ExactSample, Kernel.SingleRowIsLinear, Kernel.SingleColumnIsLinear |
