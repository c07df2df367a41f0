/** The bilinear interpolation kernel over flat, column-major buffers.

    `Z` holds `ndim` layers of `nrows x ncols` samples, `S` and `T` the column
    and row coordinates of `MN` queries, and `F` the caller's output buffer,
    where the value of query `n` in layer `i` goes to `F[n + i * MN]`.

    The host's NaN sentinel is the datatype value `Undefined`. */
module Kernel {
  import opened Coefficients

  /** One output value: an interpolated sample, or the undefined sentinel
      written for a query outside the grid. */
  datatype Sample = Undefined | Val(v: real)

  /** Flat index of query `n` in output layer `i`: inside an output of `ndim`
      layers of `MN` values each. */
  function Slot(n: nat, i: nat, MN: nat, ndim: nat): (k: nat)
    requires n < MN && i < ndim
    ensures k < MN * ndim
  {
    LayerShiftInBuffer(n, i, MN, ndim);
    n + i * MN
  }

  /** Distinct (query, layer) pairs have distinct output slots. */
  lemma SlotsDistinct(n: nat, i: nat, MN: nat, ndim: nat)
    requires n < MN && i < ndim
    ensures forall n', i' :: 0 <= n' < MN && 0 <= i' < ndim && Slot(n', i', MN, ndim) == Slot(n, i, MN, ndim) ==>
              n' == n && i' == i
  {
    forall n', i' | 0 <= n' < MN && 0 <= i' < ndim && Slot(n', i', MN, ndim) == Slot(n, i, MN, ndim)
      ensures n' == n && i' == i
    {
      if i' < i {
        MulMonotone(i' + 1, i, MN);
        MulSucc(i', MN);
      } else if i < i' {
        MulMonotone(i + 1, i', MN);
        MulSucc(i, MN);
      }
    }
  }

  /** The sample at 0-based (row, col) of layer `layer`. */
  function At(z: seq<real>, nrows: nat, ncols: nat, ndim: nat, row: int, col: int, layer: nat): real
    requires |z| == nrows * ncols * ndim && layer < ndim
    requires IsSample(row, col, nrows, ncols)
  {
    FlatIndexInLayer(row, col, nrows, ncols);
    LayerShiftInBuffer(row + col * nrows, layer, nrows * ncols, ndim);
    z[row + col * nrows + layer * (nrows * ncols)]
  }

  /** Layer `layer` of a buffer of layers of `size` samples each. */
  function LayerOf(z: seq<real>, size: nat, ndim: nat, layer: nat): (r: seq<real>)
    requires |z| == size * ndim && layer < ndim
    ensures |r| == size
  {
    MulMonotone(0, layer, size);
    MulMonotone(layer + 1, ndim, size);
    MulSucc(layer, size);
    z[layer * size .. layer * size + size]
  }

  /** One weighted corner. A corner whose weight is zero is not read; wherever
      the corner can be read, skipping it changes nothing. */
  function Term(z: seq<real>, k: int, m: real): (r: real)
    requires m != 0.0 ==> 0 <= k < |z|
    ensures m == 0.0 ==> r == 0.0
    ensures 0 <= k < |z| ==> r == z[k] * m
  {
    if m == 0.0 then 0.0 else z[k] * m
  }

  /** The weighted sum of the four corners of a cell in the layer starting at
      `shift`. A corner whose weight is zero is not read, so only corners with
      a nonzero weight need to be inside `z`; when all four are, the blend is
      the sum as the source writes it. */
  function Blend(z: seq<real>, c: Corners, w: Weights, shift: int): (r: real)
    requires w.m1 != 0.0 ==> 0 <= c.in1 + shift < |z|
    requires w.m2 != 0.0 ==> 0 <= c.in2 + shift < |z|
    requires w.m3 != 0.0 ==> 0 <= c.in3 + shift < |z|
    requires w.m4 != 0.0 ==> 0 <= c.in4 + shift < |z|
    ensures (0 <= c.in1 + shift < |z| && 0 <= c.in2 + shift < |z| &&
             0 <= c.in3 + shift < |z| && 0 <= c.in4 + shift < |z|) ==>
            r == WeightedSumAsWritten(z, c, w, shift)
  {
    Term(z, c.in1 + shift, w.m1) + Term(z, c.in2 + shift, w.m2) +
    Term(z, c.in3 + shift, w.m3) + Term(z, c.in4 + shift, w.m4)
  }

  /** The value the kernel writes for the query (s, t) in layer `layer`. */
  function ValueAt(z: seq<real>, s: real, t: real, nrows: nat, ncols: nat, ndim: nat, layer: nat): (r: Sample)
    requires |z| == nrows * ncols * ndim && layer < ndim
    ensures r == Undefined <==> !InBounds(s, t, nrows, ncols)
  {
    if !InBounds(s, t, nrows, ncols) then Undefined
    else
      var cell := ResolveCell(s, t, nrows, ncols);
      var c := CornersOf(cell.ndx, nrows);
      var w := WeightsOf(cell.sOff, cell.tOff);
      var shift := layer * (nrows * ncols);
      NonzeroWeightCornersInBuffer(s, t, nrows, ncols, ndim, layer);
      Val(Blend(z, c, w, shift))
  }

  /** For an in-grid query, the value in layer `layer` blends the resolved
      cell's corners with its weights, and every corner read is inside `z`. */
  lemma ValueAtInGrid(z: seq<real>, s: real, t: real, nrows: nat, ncols: nat, ndim: nat, layer: nat)
    requires |z| == nrows * ncols * ndim && layer < ndim
    requires InBounds(s, t, nrows, ncols)
    ensures var cell := ResolveCell(s, t, nrows, ncols);
            var c := CornersOf(cell.ndx, nrows);
            var w := WeightsOf(cell.sOff, cell.tOff);
            var shift := layer * (nrows * ncols);
            (w.m1 != 0.0 ==> 0 <= c.in1 + shift < |z|) &&
            (w.m2 != 0.0 ==> 0 <= c.in2 + shift < |z|) &&
            (w.m3 != 0.0 ==> 0 <= c.in3 + shift < |z|) &&
            (w.m4 != 0.0 ==> 0 <= c.in4 + shift < |z|) &&
            ValueAt(z, s, t, nrows, ncols, ndim, layer) == Val(Blend(z, c, w, shift))
  {
    NonzeroWeightCornersInBuffer(s, t, nrows, ncols, ndim, layer);
  }

  /** Interpolates every query in every layer, writing query `n` of layer `i`
      into `F[n + i * MN]` and nothing else. */
  method Interpolate(Z: array<real>, S: array<real>, T: array<real>, F: array<Sample>,
                     MN: nat, nrows: nat, ncols: nat, ndim: nat)
    requires Z.Length == nrows * ncols * ndim
    requires MN <= S.Length && MN <= T.Length
    requires MN * ndim <= F.Length
    modifies F
    ensures forall n, i :: 0 <= n < MN && 0 <= i < ndim ==>
              F[Slot(n, i, MN, ndim)] == ValueAt(Z[..], S[n], T[n], nrows, ncols, ndim, i)
    ensures forall k :: MN * ndim <= k < F.Length ==> F[k] == old(F[k])
  {
    var n := 0;
    while n < MN
      invariant 0 <= n <= MN
      invariant forall n', i :: 0 <= n' < n && 0 <= i < ndim ==>
                  F[Slot(n', i, MN, ndim)] == ValueAt(Z[..], S[n'], T[n'], nrows, ncols, ndim, i)
      invariant forall n', i :: n <= n' < MN && 0 <= i < ndim ==>
                  F[Slot(n', i, MN, ndim)] == old(F[Slot(n', i, MN, ndim)])
      invariant forall k :: MN * ndim <= k < F.Length ==> F[k] == old(F[k])
    {
      InterpolateQuery(Z, S, T, F, n, MN, nrows, ncols, ndim);
      n := n + 1;
    }
  }

  /** One pass of the query loop: writes query `n` into every layer of `F`
      and leaves every other slot of `F` as it was. */
  method InterpolateQuery(Z: array<real>, S: array<real>, T: array<real>, F: array<Sample>,
                          n: nat, MN: nat, nrows: nat, ncols: nat, ndim: nat)
    requires Z.Length == nrows * ncols * ndim
    requires n < MN && MN <= S.Length && MN <= T.Length
    requires MN * ndim <= F.Length
    modifies F
    ensures forall i :: 0 <= i < ndim ==>
              F[Slot(n, i, MN, ndim)] == ValueAt(Z[..], S[n], T[n], nrows, ncols, ndim, i)
    ensures forall n', i :: 0 <= n' < MN && n' != n && 0 <= i < ndim ==>
              F[Slot(n', i, MN, ndim)] == old(F[Slot(n', i, MN, ndim)])
    ensures forall k :: MN * ndim <= k < F.Length ==> F[k] == old(F[k])
  {
    ghost var s0, t0 := S[n], T[n];
    var t := T[n];
    var s := S[n];
    var fs := s.Floor;
    var ft := t.Floor;
    if fs < 1 || s > ncols as real || ft < 1 || t > nrows as real {
      // outside the grid: the sentinel in every layer
      var i := 0;
      while i < ndim
        invariant 0 <= i <= ndim
        invariant forall i' :: 0 <= i' < i ==> F[Slot(n, i', MN, ndim)] == Undefined
        invariant forall n', i' :: 0 <= n' < MN && 0 <= i' < ndim && (n' != n || i <= i') ==>
                    F[Slot(n', i', MN, ndim)] == old(F[Slot(n', i', MN, ndim)])
        invariant forall k :: MN * ndim <= k < F.Length ==> F[k] == old(F[k])
      {
        SlotsDistinct(n, i, MN, ndim);
        F[Slot(n, i, MN, ndim)] := Undefined;
        i := i + 1;
      }
    } else {
      var ndx := ft + (fs - 1) * nrows;
      if s == ncols as real { s := s + 1.0; ndx := ndx - nrows; }
      s := s - fs as real;
      if t == nrows as real { t := t + 1.0; ndx := ndx - 1; }
      t := t - ft as real;
      var corners := CornersOf(ndx, nrows);
      var weights := WeightsOf(s, t);
      assert ResolveCell(s0, t0, nrows, ncols) == Cell(ndx, s, t);
      BlendLayers(Z, F, n, MN, nrows, ncols, ndim, s0, t0, corners, weights);
    }
  }

  /** The layer loop of an in-grid query: writes, for every layer, the blend
      of the resolved cell's corners into the query's slot. */
  method BlendLayers(Z: array<real>, F: array<Sample>, n: nat, MN: nat,
                     nrows: nat, ncols: nat, ndim: nat, ghost s0: real, ghost t0: real,
                     corners: Corners, weights: Weights)
    requires Z.Length == nrows * ncols * ndim
    requires n < MN && MN * ndim <= F.Length
    requires InBounds(s0, t0, nrows, ncols)
    requires corners == CornersOf(ResolveCell(s0, t0, nrows, ncols).ndx, nrows)
    requires weights == WeightsOf(ResolveCell(s0, t0, nrows, ncols).sOff,
                                  ResolveCell(s0, t0, nrows, ncols).tOff)
    modifies F
    ensures forall i :: 0 <= i < ndim ==>
              F[Slot(n, i, MN, ndim)] == ValueAt(Z[..], s0, t0, nrows, ncols, ndim, i)
    ensures forall n', i :: 0 <= n' < MN && n' != n && 0 <= i < ndim ==>
              F[Slot(n', i, MN, ndim)] == old(F[Slot(n', i, MN, ndim)])
    ensures forall k :: MN * ndim <= k < F.Length ==> F[k] == old(F[k])
  {
    var nrowsncols := nrows * ncols;
    var i := 0;
    while i < ndim
      invariant 0 <= i <= ndim
      invariant forall i' :: 0 <= i' < i ==>
                  F[Slot(n, i', MN, ndim)] == ValueAt(Z[..], s0, t0, nrows, ncols, ndim, i')
      invariant forall n', i' :: 0 <= n' < MN && 0 <= i' < ndim && (n' != n || i <= i') ==>
                  F[Slot(n', i', MN, ndim)] == old(F[Slot(n', i', MN, ndim)])
      invariant forall k :: MN * ndim <= k < F.Length ==> F[k] == old(F[k])
    {
      var zshift := i * nrowsncols;
      ValueAtInGrid(Z[..], s0, t0, nrows, ncols, ndim, i);
      SlotsDistinct(n, i, MN, ndim);
      F[Slot(n, i, MN, ndim)] := Val(Blend(Z[..], corners, weights, zshift));
      i := i + 1;
    }
  }

  /** Reference bilinear blend over the cell whose origin sample is (row, col),
      at column offset `a` and row offset `b` from that origin. */
  function Bilinear(z: seq<real>, nrows: nat, ncols: nat, ndim: nat,
                    row: int, col: int, a: real, b: real, layer: nat): real
    requires |z| == nrows * ncols * ndim && layer < ndim
    requires 0 <= row && row + 1 < nrows && 0 <= col && col + 1 < ncols
  {
    (1.0 - a) * (1.0 - b) * At(z, nrows, ncols, ndim, row, col, layer) +
    (1.0 - a) * b * At(z, nrows, ncols, ndim, row + 1, col, layer) +
    a * (1.0 - b) * At(z, nrows, ncols, ndim, row, col + 1, layer) +
    a * b * At(z, nrows, ncols, ndim, row + 1, col + 1, layer)
  }

  /** On a grid of at least two rows and two columns, the kernel's value for an
      in-grid query is the bilinear blend of the four samples of the cell
      given by `CellOrigin`, at the query's offsets from that cell's origin. */
  lemma ValueAtIsBilinear(z: seq<real>, s: real, t: real, nrows: nat, ncols: nat, ndim: nat, layer: nat)
    requires |z| == nrows * ncols * ndim && layer < ndim
    requires InBounds(s, t, nrows, ncols) && nrows >= 2 && ncols >= 2
    ensures var (row, col) := CellOrigin(s, t, nrows, ncols);
            ValueAt(z, s, t, nrows, ncols, ndim, layer) ==
            Val(Bilinear(z, nrows, ncols, ndim, row, col,
                         s - (col + 1) as real, t - (row + 1) as real, layer))
  {
    var (row, col) := CellOrigin(s, t, nrows, ncols);
    var cell := ResolveCell(s, t, nrows, ncols);
    var c := CornersOf(cell.ndx, nrows);
    CornersAtCellOrigin(s, t, nrows, ncols);
    ValueAtInGrid(z, s, t, nrows, ncols, ndim, layer);
    CellBlendIsBilinear(z, nrows, ncols, ndim, row, col, layer, c, cell.sOff, cell.tOff);
  }

  /** Blending the four corners of the cell whose origin is (`row`, `col`)
      gives the reference blend of that cell. */
  lemma CellBlendIsBilinear(z: seq<real>, nrows: nat, ncols: nat, ndim: nat, row: int, col: int,
                            layer: nat, c: Corners, a: real, b: real)
    requires |z| == nrows * ncols * ndim && layer < ndim
    requires 0 <= row && row + 1 < nrows && 0 <= col && col + 1 < ncols
    requires c.in1 == row + col * nrows && c.in2 == c.in1 + 1
    requires c.in3 == c.in1 + nrows && c.in4 == c.in1 + nrows + 1
    ensures var shift := layer * (nrows * ncols);
            0 <= c.in1 + shift < |z| && 0 <= c.in2 + shift < |z| &&
            0 <= c.in3 + shift < |z| && 0 <= c.in4 + shift < |z| &&
            Blend(z, c, WeightsOf(a, b), shift) == Bilinear(z, nrows, ncols, ndim, row, col, a, b, layer)
  {
    var shift := layer * (nrows * ncols);
    CornerSamples(z, nrows, ncols, ndim, row, col, layer, c);
    BilinearAsWeightedSum(z, nrows, ncols, ndim, row, col, a, b, layer);
  }

  /** The reference blend is the kernel's weighted sum of the four samples. */
  lemma BilinearAsWeightedSum(z: seq<real>, nrows: nat, ncols: nat, ndim: nat,
                              row: int, col: int, a: real, b: real, layer: nat)
    requires |z| == nrows * ncols * ndim && layer < ndim
    requires 0 <= row && row + 1 < nrows && 0 <= col && col + 1 < ncols
    ensures var w := WeightsOf(a, b);
            Bilinear(z, nrows, ncols, ndim, row, col, a, b, layer) ==
            At(z, nrows, ncols, ndim, row, col, layer) * w.m1 +
            At(z, nrows, ncols, ndim, row + 1, col, layer) * w.m2 +
            At(z, nrows, ncols, ndim, row, col + 1, layer) * w.m3 +
            At(z, nrows, ncols, ndim, row + 1, col + 1, layer) * w.m4
  {
  }

  /** The four corners of the cell whose origin is (`row`, `col`) are the
      samples at that origin and its three neighbours, in layer `layer`. */
  lemma CornerSamples(z: seq<real>, nrows: nat, ncols: nat, ndim: nat, row: int, col: int, layer: nat, c: Corners)
    requires |z| == nrows * ncols * ndim && layer < ndim
    requires 0 <= row && row + 1 < nrows && 0 <= col && col + 1 < ncols
    requires c.in1 == row + col * nrows && c.in2 == c.in1 + 1
    requires c.in3 == c.in1 + nrows && c.in4 == c.in1 + nrows + 1
    ensures var shift := layer * (nrows * ncols);
            0 <= c.in1 + shift < |z| && 0 <= c.in2 + shift < |z| &&
            0 <= c.in3 + shift < |z| && 0 <= c.in4 + shift < |z| &&
            z[c.in1 + shift] == At(z, nrows, ncols, ndim, row, col, layer) &&
            z[c.in2 + shift] == At(z, nrows, ncols, ndim, row + 1, col, layer) &&
            z[c.in3 + shift] == At(z, nrows, ncols, ndim, row, col + 1, layer) &&
            z[c.in4 + shift] == At(z, nrows, ncols, ndim, row + 1, col + 1, layer)
  {
    MulSucc(col, nrows);
    assert c.in3 == row + (col + 1) * nrows;
    FlatIndexInLayer(row, col, nrows, ncols);
    FlatIndexInLayer(row + 1, col + 1, nrows, ncols);
    LayerShiftInBuffer(c.in1, layer, nrows * ncols, ndim);
    LayerShiftInBuffer(c.in4, layer, nrows * ncols, ndim);
  }

  /** The corner sum as the source writes it: all four corners are read,
      whatever their weights. */
  function WeightedSumAsWritten(z: seq<real>, c: Corners, w: Weights, shift: int): (r: real)
    requires 0 <= c.in1 + shift < |z| && 0 <= c.in2 + shift < |z|
    requires 0 <= c.in3 + shift < |z| && 0 <= c.in4 + shift < |z|
    ensures (w.m1 + w.m2 + w.m3 + w.m4 == 1.0 &&
             z[c.in2 + shift] == z[c.in1 + shift] && z[c.in3 + shift] == z[c.in1 + shift] &&
             z[c.in4 + shift] == z[c.in1 + shift]) ==> r == z[c.in1 + shift]
  {
    z[c.in1 + shift] * w.m1 + z[c.in2 + shift] * w.m2 +
    z[c.in3 + shift] * w.m3 + z[c.in4 + shift] * w.m4
  }

  /** At an integer coordinate that names a grid sample, the kernel returns
      that sample, in every layer: on the last row and the last column too, and
      on grids of a single row or a single column. */
  lemma ExactSample(z: seq<real>, cs: int, ct: int, nrows: nat, ncols: nat, ndim: nat, layer: nat)
    requires |z| == nrows * ncols * ndim && layer < ndim
    requires 1 <= cs <= ncols && 1 <= ct <= nrows
    ensures ValueAt(z, cs as real, ct as real, nrows, ncols, ndim, layer) ==
            Val(At(z, nrows, ncols, ndim, ct - 1, cs - 1, layer))
  {
    var s, t := cs as real, ct as real;
    var (row, col) := CellOrigin(s, t, nrows, ncols);
    var cell := ResolveCell(s, t, nrows, ncols);
    var c := CornersOf(cell.ndx, nrows);
    var w := WeightsOf(cell.sOff, cell.tOff);
    var shift := layer * (nrows * ncols);
    CornersAtCellOrigin(s, t, nrows, ncols);
    ValueAtInGrid(z, s, t, nrows, ncols, ndim, layer);
    MulSucc(col, nrows);
    var k := (ct - 1) + (cs - 1) * nrows + shift;
    assert At(z, nrows, ncols, ndim, ct - 1, cs - 1, layer) == z[k];
    if cs < ncols {
      assert col == cs - 1 && cell.sOff == 0.0;
    } else {
      assert col == cs - 2 && cell.sOff == 1.0;
    }
    if ct < nrows {
      assert row == ct - 1 && cell.tOff == 0.0;
    } else {
      assert row == ct - 2 && cell.tOff == 1.0;
    }
    if cell.sOff == 0.0 && cell.tOff == 0.0 {
      assert w == Weights(1.0, 0.0, 0.0, 0.0) && c.in1 + shift == k;
    } else if cell.sOff == 0.0 {
      assert w == Weights(0.0, 1.0, 0.0, 0.0) && c.in2 + shift == k;
    } else if cell.tOff == 0.0 {
      assert w == Weights(0.0, 0.0, 1.0, 0.0) && c.in3 + shift == k;
    } else {
      assert w == Weights(0.0, 0.0, 0.0, 1.0) && c.in4 + shift == k;
    }
  }

  /** Reference linear interpolation between `x0` and `x1` at offset `a`. */
  function Lerp(x0: real, x1: real, a: real): real
  {
    (1.0 - a) * x0 + a * x1
  }

  /** On a grid of a single row, the kernel interpolates linearly between the
      two samples of the row around the query. */
  lemma SingleRowIsLinear(z: seq<real>, s: real, t: real, nrows: nat, ncols: nat, ndim: nat, layer: nat)
    requires |z| == nrows * ncols * ndim && layer < ndim
    requires InBounds(s, t, nrows, ncols) && nrows == 1 && ncols >= 2
    ensures var col := CellOrigin(s, t, nrows, ncols).1;
            var a := s - (col + 1) as real;
            ValueAt(z, s, t, nrows, ncols, ndim, layer) ==
            Val(Lerp(At(z, nrows, ncols, ndim, 0, col, layer), At(z, nrows, ncols, ndim, 0, col + 1, layer), a))
  {
    var (row, col) := CellOrigin(s, t, nrows, ncols);
    var cell := ResolveCell(s, t, nrows, ncols);
    var c := CornersOf(cell.ndx, nrows);
    CornersAtCellOrigin(s, t, nrows, ncols);
    ValueAtInGrid(z, s, t, nrows, ncols, ndim, layer);
    RowBlendIsLinear(z, nrows, ncols, ndim, layer, c, cell.sOff, cell.tOff, col);
  }

  /** On a grid of a single column, the kernel interpolates linearly between
      the two samples of the column around the query. */
  lemma SingleColumnIsLinear(z: seq<real>, s: real, t: real, nrows: nat, ncols: nat, ndim: nat, layer: nat)
    requires |z| == nrows * ncols * ndim && layer < ndim
    requires InBounds(s, t, nrows, ncols) && ncols == 1 && nrows >= 2
    ensures var row := CellOrigin(s, t, nrows, ncols).0;
            var b := t - (row + 1) as real;
            ValueAt(z, s, t, nrows, ncols, ndim, layer) ==
            Val(Lerp(At(z, nrows, ncols, ndim, row, 0, layer), At(z, nrows, ncols, ndim, row + 1, 0, layer), b))
  {
    var (row, col) := CellOrigin(s, t, nrows, ncols);
    var cell := ResolveCell(s, t, nrows, ncols);
    var c := CornersOf(cell.ndx, nrows);
    CornersAtCellOrigin(s, t, nrows, ncols);
    ValueAtInGrid(z, s, t, nrows, ncols, ndim, layer);
    ColumnBlendIsLinear(z, nrows, ncols, ndim, layer, c, cell.sOff, cell.tOff, row);
  }

  /** On a single row the cell's origin is the row before the grid, the row
      offset is 1, and the blend reads only in2 and in4: the samples at `col`
      and `col + 1` of the row. */
  lemma RowBlendIsLinear(z: seq<real>, nrows: nat, ncols: nat, ndim: nat, layer: nat,
                         c: Corners, a: real, b: real, col: int)
    requires |z| == nrows * ncols * ndim && layer < ndim
    requires nrows == 1 && 0 <= col && col + 1 < ncols && b == 1.0
    requires c.in1 == -1 + col * nrows && c.in2 == c.in1 + 1
    requires c.in3 == c.in1 + nrows && c.in4 == c.in1 + nrows + 1
    ensures var w := WeightsOf(a, b);
            var shift := layer * (nrows * ncols);
            w.m1 == 0.0 && w.m3 == 0.0 &&
            0 <= c.in2 + shift < |z| && 0 <= c.in4 + shift < |z| &&
            Blend(z, c, w, shift) ==
            Lerp(At(z, nrows, ncols, ndim, 0, col, layer), At(z, nrows, ncols, ndim, 0, col + 1, layer), a)
  {
    MulSucc(col, nrows);
    assert c.in4 == 0 + (col + 1) * nrows;
    FlatIndexInLayer(0, col, nrows, ncols);
    FlatIndexInLayer(0, col + 1, nrows, ncols);
    LayerShiftInBuffer(c.in2, layer, nrows * ncols, ndim);
    LayerShiftInBuffer(c.in4, layer, nrows * ncols, ndim);
  }

  /** On a single column the cell's origin is the column before the grid, the
      column offset is 1, and the blend reads only in3 and in4: the samples at
      `row` and `row + 1` of the column. */
  lemma ColumnBlendIsLinear(z: seq<real>, nrows: nat, ncols: nat, ndim: nat, layer: nat,
                            c: Corners, a: real, b: real, row: int)
    requires |z| == nrows * ncols * ndim && layer < ndim
    requires ncols == 1 && 0 <= row && row + 1 < nrows && a == 1.0
    requires c.in1 == row + -1 * nrows && c.in2 == c.in1 + 1
    requires c.in3 == c.in1 + nrows && c.in4 == c.in1 + nrows + 1
    ensures var w := WeightsOf(a, b);
            var shift := layer * (nrows * ncols);
            w.m1 == 0.0 && w.m2 == 0.0 &&
            0 <= c.in3 + shift < |z| && 0 <= c.in4 + shift < |z| &&
            Blend(z, c, w, shift) ==
            Lerp(At(z, nrows, ncols, ndim, row, 0, layer), At(z, nrows, ncols, ndim, row + 1, 0, layer), b)
  {
    assert c.in3 == row + 0 * nrows && c.in4 == row + 1 + 0 * nrows;
    FlatIndexInLayer(row, 0, nrows, ncols);
    FlatIndexInLayer(row + 1, 0, nrows, ncols);
    LayerShiftInBuffer(c.in3, layer, nrows * ncols, ndim);
    LayerShiftInBuffer(c.in4, layer, nrows * ncols, ndim);
  }

  lemma LayerOfAt(z: seq<real>, size: nat, ndim: nat, layer: nat, k: int)
    requires |z| == size * ndim && layer < ndim && 0 <= k < size
    ensures 0 <= k + layer * size < |z|
    ensures LayerOf(z, size, ndim, layer)[k] == z[k + layer * size]
  {
    LayerShiftInBuffer(k, layer, size, ndim);
    MulMonotone(layer + 1, ndim, size);
    MulSucc(layer, size);
    assert LayerOf(z, size, ndim, layer) == z[layer * size .. layer * size + size];
  }

  /** A corner read in layer `layer` of `z` reads the same value as that
      corner in the layer taken out on its own. */
  lemma TermInLayer(z: seq<real>, size: nat, ndim: nat, layer: nat, k: int, m: real)
    requires |z| == size * ndim && layer < ndim
    requires m != 0.0 ==> 0 <= k < size
    ensures m != 0.0 ==> 0 <= k + layer * size < |z|
    ensures Term(z, k + layer * size, m) == Term(LayerOf(z, size, ndim, layer), k, m)
  {
    if m != 0.0 {
      LayerOfAt(z, size, ndim, layer, k);
    }
  }

  /** Layers are independent: the value in layer `layer` equals a single-layer
      interpolation of that layer alone, at the same query. */
  lemma LayersAreIndependent(z: seq<real>, s: real, t: real, nrows: nat, ncols: nat, ndim: nat, layer: nat)
    requires |z| == nrows * ncols * ndim && layer < ndim
    ensures ValueAt(z, s, t, nrows, ncols, ndim, layer) ==
            ValueAt(LayerOf(z, nrows * ncols, ndim, layer), s, t, nrows, ncols, 1, 0)
  {
    var size := nrows * ncols;
    var one := LayerOf(z, size, ndim, layer);
    if InBounds(s, t, nrows, ncols) {
      var cell := ResolveCell(s, t, nrows, ncols);
      var c := CornersOf(cell.ndx, nrows);
      var w := WeightsOf(cell.sOff, cell.tOff);
      ValueAtInGrid(z, s, t, nrows, ncols, ndim, layer);
      ValueAtInGrid(one, s, t, nrows, ncols, 1, 0);
      assert 0 * size == 0;
      BlendInLayer(z, size, ndim, layer, c, w);
    }
  }

  /** Blending corners in layer `layer` of `z` gives the same value as blending
      them in the layer taken out on its own. */
  lemma BlendInLayer(z: seq<real>, size: nat, ndim: nat, layer: nat, c: Corners, w: Weights)
    requires |z| == size * ndim && layer < ndim
    requires w.m1 != 0.0 ==> 0 <= c.in1 < size
    requires w.m2 != 0.0 ==> 0 <= c.in2 < size
    requires w.m3 != 0.0 ==> 0 <= c.in3 < size
    requires w.m4 != 0.0 ==> 0 <= c.in4 < size
    ensures var shift := layer * size;
            (w.m1 != 0.0 ==> 0 <= c.in1 + shift < |z|) &&
            (w.m2 != 0.0 ==> 0 <= c.in2 + shift < |z|) &&
            (w.m3 != 0.0 ==> 0 <= c.in3 + shift < |z|) &&
            (w.m4 != 0.0 ==> 0 <= c.in4 + shift < |z|) &&
            Blend(z, c, w, shift) == Blend(LayerOf(z, size, ndim, layer), c, w, 0)
  {
    TermInLayer(z, size, ndim, layer, c.in1, w.m1);
    TermInLayer(z, size, ndim, layer, c.in2, w.m2);
    TermInLayer(z, size, ndim, layer, c.in3, w.m3);
    TermInLayer(z, size, ndim, layer, c.in4, w.m4);
  }

  /** Two layers holding the same samples interpolate to the same values. */
  lemma IdenticalLayersAgree(z: seq<real>, s: real, t: real, nrows: nat, ncols: nat, ndim: nat,
                             i: nat, j: nat)
    requires |z| == nrows * ncols * ndim && i < ndim && j < ndim
    requires LayerOf(z, nrows * ncols, ndim, i) == LayerOf(z, nrows * ncols, ndim, j)
    ensures ValueAt(z, s, t, nrows, ncols, ndim, i) == ValueAt(z, s, t, nrows, ncols, ndim, j)
  {
    LayersAreIndependent(z, s, t, nrows, ncols, ndim, i);
    LayersAreIndependent(z, s, t, nrows, ncols, ndim, j);
  }

  /** On grids of at least two rows and two columns every corner the source
      reads is inside the buffer, and the kernel's value is exactly the
      source's four-term sum. */
  lemma AsWrittenAgreesOnProperGrids(z: seq<real>, s: real, t: real, nrows: nat, ncols: nat, ndim: nat, layer: nat)
    requires |z| == nrows * ncols * ndim && layer < ndim
    requires InBounds(s, t, nrows, ncols) && nrows >= 2 && ncols >= 2
    ensures var cell := ResolveCell(s, t, nrows, ncols);
            var c := CornersOf(cell.ndx, nrows);
            var w := WeightsOf(cell.sOff, cell.tOff);
            var shift := layer * (nrows * ncols);
            0 <= c.in1 + shift < |z| && 0 <= c.in2 + shift < |z| &&
            0 <= c.in3 + shift < |z| && 0 <= c.in4 + shift < |z| &&
            ValueAt(z, s, t, nrows, ncols, ndim, layer) == Val(WeightedSumAsWritten(z, c, w, shift))
  {
    var cell := ResolveCell(s, t, nrows, ncols);
    var c := CornersOf(cell.ndx, nrows);
    var w := WeightsOf(cell.sOff, cell.tOff);
    var shift := layer * (nrows * ncols);
    CornersInsideBuffer(s, t, nrows, ncols, ndim, layer);
    ValueAtInGrid(z, s, t, nrows, ncols, ndim, layer);
  }

  /** The 2 x 2 grid with rows [1, 2] and [3, 4], stored column-major: at
      the centre of its only cell the kernel gives the mean of the four
      samples, and left of the first column it gives the sentinel. */
  lemma TwoByTwoCentreAndOutside()
    ensures ValueAt([1.0, 3.0, 2.0, 4.0], 1.5, 1.5, 2, 2, 1, 0) == Val(2.5)
    ensures ValueAt([1.0, 3.0, 2.0, 4.0], 0.5, 1.0, 2, 2, 1, 0) == Undefined
  {
    var z := [1.0, 3.0, 2.0, 4.0];
    ValueAtIsBilinear(z, 1.5, 1.5, 2, 2, 1, 0);
    assert CellOrigin(1.5, 1.5, 2, 2) == (0, 0);
    assert Bilinear(z, 2, 2, 1, 0, 0, 0.5, 0.5, 0) == 0.25 * (1.0 + 3.0 + 2.0 + 4.0);
  }
}
