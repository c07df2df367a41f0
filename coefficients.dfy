/** Per-query coefficients of the 2D bilinear interpolation kernel.

    A grid has `nrows` rows and `ncols` columns per layer, stored column-major:
    the sample at 0-based (row, col) of layer `layer` sits at flat index
    `row + col * nrows + layer * nrows * ncols`. A query is a 1-based column
    coordinate `s` and a 1-based row coordinate `t`.

    Coordinates, weights and samples are modelled as `real`: IEEE-754 rounding,
    NaN and infinite coordinates, and overflow of the `int` casts of `floor` are
    not part of this model. */
module Coefficients {

  function Min(a: int, b: int): int { if a <= b then a else b }

  lemma MulSucc(a: int, b: int)
    ensures (a + 1) * b == a * b + b
  {
  }

  lemma MulMonotone(a: int, b: int, c: nat)
    requires a <= b
    ensures a * c <= b * c
  {
  }

  /** The kernel's bounds test: a query passes unless floor(s) < 1, s > ncols,
      floor(t) < 1 or t > nrows. It accepts exactly the closed rectangle
      [1, ncols] x [1, nrows]. */
  predicate InBounds(s: real, t: real, nrows: nat, ncols: nat): (b: bool)
    ensures b <==> 1.0 <= s <= ncols as real && 1.0 <= t <= nrows as real
  {
    !(s.Floor < 1 || s > ncols as real || t.Floor < 1 || t > nrows as real)
  }

  /** The cell the kernel resolves for an in-grid query: the 1-based flat index
      `ndx` of the sample below the cell's origin, and the fractional offsets of
      the query inside the cell along the column (s) and row (t) axes. */
  datatype Cell = Cell(ndx: int, sOff: real, tOff: real)

  /** Cell resolution with the two edge corrections: on the last column the
      cell moves one column back and the column offset becomes 1; on the last
      row the cell moves one row back and the row offset becomes 1. */
  function ResolveCell(s: real, t: real, nrows: nat, ncols: nat): (c: Cell)
    requires InBounds(s, t, nrows, ncols)
    ensures 0.0 <= c.sOff <= 1.0 && 0.0 <= c.tOff <= 1.0
    ensures c.sOff == 1.0 <==> s == ncols as real
    ensures c.tOff == 1.0 <==> t == nrows as real
  {
    var fs := s.Floor;
    var ft := t.Floor;
    var ndx := ft + (fs - 1) * nrows;
    var (s1, ndx1) := if s == ncols as real then (s + 1.0, ndx - nrows) else (s, ndx);
    var (t1, ndx2) := if t == nrows as real then (t + 1.0, ndx1 - 1) else (t, ndx1);
    Cell(ndx2, s1 - fs as real, t1 - ft as real)
  }

  /** Reference definition of the cell used for an in-grid query: the 0-based
      (row, col) of its origin sample. It is the cell whose origin is
      (floor(t), floor(s)) in 1-based terms, clamped so that the cell's far
      corner is the last row / last column at most. */
  function CellOrigin(s: real, t: real, nrows: nat, ncols: nat): (rc: (int, int))
    requires InBounds(s, t, nrows, ncols)
    ensures -1 <= rc.0 <= nrows - 2 && -1 <= rc.1 <= ncols - 2
    ensures (rc.0 + 1) as real <= t <= (rc.0 + 2) as real
    ensures (rc.1 + 1) as real <= s <= (rc.1 + 2) as real
  {
    (Min(t.Floor, nrows - 1) - 1, Min(s.Floor, ncols - 1) - 1)
  }

  /** The four corner indices of a resolved cell, 0-based and column-major. */
  datatype Corners = Corners(in1: int, in2: int, in3: int, in4: int)

  /** The corners form a unit cell: in2 is the next row, in3 the next column,
      in4 the diagonal. */
  function CornersOf(ndx: int, nrows: nat): (c: Corners)
    ensures c.in2 == c.in1 + 1
    ensures c.in3 == c.in1 + nrows
    ensures c.in4 == c.in1 + nrows + 1
  {
    var in1 := ndx - 1;
    var in2 := ndx;
    var in4 := ndx + nrows;
    var in3 := in4 - 1;
    Corners(in1, in2, in3, in4)
  }

  /** `in1` is the flat index of the cell origin given by `CellOrigin`, and the
      offsets are the query's distance from that origin. */
  lemma CornersAtCellOrigin(s: real, t: real, nrows: nat, ncols: nat)
    requires InBounds(s, t, nrows, ncols)
    ensures var (row, col) := CellOrigin(s, t, nrows, ncols);
            var c := ResolveCell(s, t, nrows, ncols);
            CornersOf(c.ndx, nrows).in1 == row + col * nrows &&
            c.sOff == s - (col + 1) as real &&
            c.tOff == t - (row + 1) as real
  {
    var (row, col) := CellOrigin(s, t, nrows, ncols);
    var fs, ft := s.Floor, t.Floor;
    // the column correction moves ndx back by one whole column
    var ndx1 := if s == ncols as real then ft + (fs - 1) * nrows - nrows else ft + (fs - 1) * nrows;
    MulSucc(col, nrows);
    assert ndx1 == ft + col * nrows;
    var ndx2 := if t == nrows as real then ndx1 - 1 else ndx1;
    assert ndx2 == row + 1 + col * nrows;
  }

  /** The four bilinear weights of a cell, for corners in1..in4. */
  datatype Weights = Weights(m1: real, m2: real, m3: real, m4: real)

  /** The weights are the standard bilinear products of the offsets and they
      form a partition of unity. */
  function WeightsOf(sOff: real, tOff: real): (w: Weights)
    ensures w.m1 + w.m2 + w.m3 + w.m4 == 1.0
    ensures w.m1 == (1.0 - sOff) * (1.0 - tOff)
    ensures w.m2 == (1.0 - sOff) * tOff
    ensures w.m3 == sOff * (1.0 - tOff)
    ensures w.m4 == sOff * tOff
  {
    var m4 := tOff * sOff;
    var m1 := 1.0 + m4 - tOff - sOff;
    var m2 := tOff - m4;
    var m3 := sOff - m4;
    Weights(m1, m2, m3, m4)
  }

  lemma ProductNonnegative(x: real, y: real)
    requires 0.0 <= x && 0.0 <= y
    ensures 0.0 <= x * y
  {
  }

  lemma ProductInUnit(x: real, y: real)
    requires 0.0 <= x <= 1.0 && 0.0 <= y <= 1.0
    ensures 0.0 <= x * y <= 1.0
  {
    ProductNonnegative(x, y);
    ProductNonnegative(x, 1.0 - y);
    assert x * y == x - x * (1.0 - y);
  }

  /** Each weight lies in [0, 1] when both offsets do. */
  lemma WeightsInUnitInterval(sOff: real, tOff: real)
    requires 0.0 <= sOff <= 1.0 && 0.0 <= tOff <= 1.0
    ensures var w := WeightsOf(sOff, tOff);
            0.0 <= w.m1 <= 1.0 && 0.0 <= w.m2 <= 1.0 &&
            0.0 <= w.m3 <= 1.0 && 0.0 <= w.m4 <= 1.0
  {
    ProductInUnit(1.0 - sOff, 1.0 - tOff);
    ProductInUnit(1.0 - sOff, tOff);
    ProductInUnit(sOff, 1.0 - tOff);
    ProductInUnit(sOff, tOff);
  }

  predicate IsSample(row: int, col: int, nrows: nat, ncols: nat)
  {
    0 <= row < nrows && 0 <= col < ncols
  }

  /** A sample inside the grid has a flat index inside its layer. */
  lemma FlatIndexInLayer(row: int, col: int, nrows: nat, ncols: nat)
    requires IsSample(row, col, nrows, ncols)
    ensures 0 <= row + col * nrows < nrows * ncols
  {
    MulMonotone(0, col, nrows);
    MulMonotone(col + 1, ncols, nrows);
    MulSucc(col, nrows);
  }

  /** Shifting an index inside one layer by a whole number of layers stays
      inside a buffer of `ndim` layers. */
  lemma LayerShiftInBuffer(k: int, layer: nat, size: nat, ndim: nat)
    requires 0 <= k < size && layer < ndim
    ensures 0 <= k + layer * size < size * ndim
  {
    MulMonotone(0, layer, size);
    MulMonotone(layer + 1, ndim, size);
    MulSucc(layer, size);
  }

  /** A corner that carries a nonzero weight is a sample of the grid, on any
      grid of at least one row and one column. On a one-row or one-column grid
      the corners outside the grid all carry weight 0. */
  lemma NonzeroWeightInsideGrid(s: real, t: real, nrows: nat, ncols: nat)
    requires InBounds(s, t, nrows, ncols)
    ensures var (row, col) := CellOrigin(s, t, nrows, ncols);
            var c := ResolveCell(s, t, nrows, ncols);
            var w := WeightsOf(c.sOff, c.tOff);
            (w.m1 != 0.0 ==> IsSample(row, col, nrows, ncols)) &&
            (w.m2 != 0.0 ==> IsSample(row + 1, col, nrows, ncols)) &&
            (w.m3 != 0.0 ==> IsSample(row, col + 1, nrows, ncols)) &&
            IsSample(row + 1, col + 1, nrows, ncols)
  {
    var (row, col) := CellOrigin(s, t, nrows, ncols);
    var c := ResolveCell(s, t, nrows, ncols);
    var w := WeightsOf(c.sOff, c.tOff);
    if row < 0 {
      // only a one-row grid: the query is on its last row, so tOff == 1
      assert t == nrows as real;
      assert w.m1 == 0.0 && w.m3 == 0.0;
    }
    if col < 0 {
      assert s == ncols as real;
      assert w.m1 == 0.0 && w.m2 == 0.0;
    }
  }

  /** With at least two rows and two columns every corner index of an in-grid
      query, shifted to any layer, lies inside the grid buffer. */
  lemma CornersInsideBuffer(s: real, t: real, nrows: nat, ncols: nat, ndim: nat, layer: nat)
    requires InBounds(s, t, nrows, ncols)
    requires nrows >= 2 && ncols >= 2 && layer < ndim
    ensures var c := CornersOf(ResolveCell(s, t, nrows, ncols).ndx, nrows);
            var shift := layer * (nrows * ncols);
            0 <= c.in1 + shift < nrows * ncols * ndim &&
            0 <= c.in2 + shift < nrows * ncols * ndim &&
            0 <= c.in3 + shift < nrows * ncols * ndim &&
            0 <= c.in4 + shift < nrows * ncols * ndim
  {
    var (row, col) := CellOrigin(s, t, nrows, ncols);
    CornersAtCellOrigin(s, t, nrows, ncols);
    var size := nrows * ncols;
    FlatIndexInLayer(row, col, nrows, ncols);
    FlatIndexInLayer(row + 1, col, nrows, ncols);
    FlatIndexInLayer(row, col + 1, nrows, ncols);
    FlatIndexInLayer(row + 1, col + 1, nrows, ncols);
    var c := CornersOf(ResolveCell(s, t, nrows, ncols).ndx, nrows);
    assert c.in3 == row + (col + 1) * nrows;
    assert c.in4 == row + 1 + (col + 1) * nrows;
    LayerShiftInBuffer(c.in1, layer, size, ndim);
    LayerShiftInBuffer(c.in2, layer, size, ndim);
    LayerShiftInBuffer(c.in3, layer, size, ndim);
    LayerShiftInBuffer(c.in4, layer, size, ndim);
  }

  /** The corrected read rule in buffer terms: a corner with a nonzero weight,
      shifted to any layer, lies inside the grid buffer, on every grid. */
  lemma NonzeroWeightCornersInBuffer(s: real, t: real, nrows: nat, ncols: nat, ndim: nat, layer: nat)
    requires InBounds(s, t, nrows, ncols) && layer < ndim
    ensures var cell := ResolveCell(s, t, nrows, ncols);
            var c := CornersOf(cell.ndx, nrows);
            var w := WeightsOf(cell.sOff, cell.tOff);
            var shift := layer * (nrows * ncols);
            (w.m1 != 0.0 ==> 0 <= c.in1 + shift < nrows * ncols * ndim) &&
            (w.m2 != 0.0 ==> 0 <= c.in2 + shift < nrows * ncols * ndim) &&
            (w.m3 != 0.0 ==> 0 <= c.in3 + shift < nrows * ncols * ndim) &&
            0 <= c.in4 + shift < nrows * ncols * ndim
  {
    var (row, col) := CellOrigin(s, t, nrows, ncols);
    var cell := ResolveCell(s, t, nrows, ncols);
    var c := CornersOf(cell.ndx, nrows);
    var w := WeightsOf(cell.sOff, cell.tOff);
    var size := nrows * ncols;
    CornersAtCellOrigin(s, t, nrows, ncols);
    NonzeroWeightInsideGrid(s, t, nrows, ncols);
    assert c.in3 == row + (col + 1) * nrows;
    assert c.in4 == row + 1 + (col + 1) * nrows;
    if w.m1 != 0.0 {
      FlatIndexInLayer(row, col, nrows, ncols);
      LayerShiftInBuffer(c.in1, layer, size, ndim);
    }
    if w.m2 != 0.0 {
      FlatIndexInLayer(row + 1, col, nrows, ncols);
      LayerShiftInBuffer(c.in2, layer, size, ndim);
    }
    if w.m3 != 0.0 {
      FlatIndexInLayer(row, col + 1, nrows, ncols);
      LayerShiftInBuffer(c.in3, layer, size, ndim);
    }
    FlatIndexInLayer(row + 1, col + 1, nrows, ncols);
    LayerShiftInBuffer(c.in4, layer, size, ndim);
  }

  /** On a grid with a single row or a single column, the origin corner of the
      resolved cell is not a sample of the grid; with a single column its flat
      index is negative, i.e. before the start of the buffer. */
  lemma DegenerateGridCornerOutside(s: real, t: real, nrows: nat, ncols: nat)
    requires InBounds(s, t, nrows, ncols) && (nrows == 1 || ncols == 1)
    ensures var (row, col) := CellOrigin(s, t, nrows, ncols);
            !IsSample(row, col, nrows, ncols)
    ensures ncols == 1 ==> CornersOf(ResolveCell(s, t, nrows, ncols).ndx, nrows).in1 < 0
  {
    CornersAtCellOrigin(s, t, nrows, ncols);
  }

  /** Concrete instance: a 1 x 1 grid queried at its only sample resolves the
      origin corner to flat index -2. */
  lemma SingleSampleGridReadsBeforeBuffer()
    ensures InBounds(1.0, 1.0, 1, 1)
    ensures CornersOf(ResolveCell(1.0, 1.0, 1, 1).ndx, 1).in1 == -2
  {
  }

  /** A query on the last column is interpolated in the same cell as the
      queries just before it, and one on the last row likewise. */
  lemma LastSampleSharesCell(s: real, t: real, nrows: nat, ncols: nat)
    requires InBounds(s, t, nrows, ncols) && nrows >= 2 && ncols >= 2
    ensures (ncols - 1) as real <= s ==> CellOrigin(s, t, nrows, ncols).1 == ncols - 2
    ensures (nrows - 1) as real <= t ==> CellOrigin(s, t, nrows, ncols).0 == nrows - 2
  {
  }
}
