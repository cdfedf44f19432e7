/**
 * Row-major index arithmetic shared by the block averager, which writes
 * block (i, j) to cell `i * cols + j`, and by the painter, which reads it back.
 */
module Grid {

  /** Index of cell (i, j) of a row-major grid with `cols` columns. */
  function CellIndex(cols: nat, rows: nat, i: nat, j: nat): (k: nat)
    requires i < rows && j < cols
    ensures k < rows * cols
  {
    CellIndexBound(cols, rows, i, j);
    i * cols + j
  }

  lemma CellIndexBound(cols: nat, rows: nat, i: nat, j: nat)
    requires i < rows && j < cols
    ensures i * cols + j < rows * cols
  {
    assert i * cols + cols == (i + 1) * cols;
    assert (i + 1) * cols <= rows * cols;
  }

  /** Cells are laid out in row-major order: every cell of an earlier row comes first. */
  lemma {:induction false} CellIndexBefore(cols: nat, rows: nat, i1: nat, j1: nat, i2: nat, j2: nat)
    requires i1 < rows && j1 < cols && i2 < rows && j2 < cols
    requires i1 < i2 || (i1 == i2 && j1 < j2)
    ensures CellIndex(cols, rows, i1, j1) < CellIndex(cols, rows, i2, j2)
  {
    if i1 < i2 {
      assert i1 * cols + cols == (i1 + 1) * cols;
      assert (i1 + 1) * cols <= i2 * cols;
    }
  }

  /** Every cell of rows 0 .. i - 1 lies below the first cell of row i. */
  lemma EarlierRows(cols: nat, rows: nat, i: nat)
    requires i < rows
    ensures forall i', j' :: 0 <= i' < i && 0 <= j' < cols ==> CellIndex(cols, rows, i', j') < i * cols
  {
    forall i', j' | 0 <= i' < i && 0 <= j' < cols
      ensures CellIndex(cols, rows, i', j') < i * cols
    {
      MulMonotone(i' + 1, i, cols);
    }
  }

  /** Distinct cells have distinct indices, so every cell is written at most once. */
  lemma CellIndexInjective(cols: nat, rows: nat, i1: nat, j1: nat, i2: nat, j2: nat)
    requires i1 < rows && j1 < cols && i2 < rows && j2 < cols
    requires CellIndex(cols, rows, i1, j1) == CellIndex(cols, rows, i2, j2)
    ensures i1 == i2 && j1 == j2
  {
    if i1 < i2 || (i1 == i2 && j1 < j2) {
      CellIndexBefore(cols, rows, i1, j1, i2, j2);
    } else if i2 < i1 || (i1 == i2 && j2 < j1) {
      CellIndexBefore(cols, rows, i2, j2, i1, j1);
    }
  }

  /** The first cell of row i + 1 directly follows the last cell of row i. */
  lemma NextRowStart(cols: nat, i: nat)
    ensures (i + 1) * cols == i * cols + cols
  {
  }

  lemma MulMonotone(x: nat, y: nat, c: nat)
    requires x <= y
    ensures c * x <= c * y && x * c <= y * c
  {
  }
}
