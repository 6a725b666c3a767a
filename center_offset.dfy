/**
 * The offset, in cells, of a source cell from the centre of the traversability
 * raster, computed from its linear index exactly as the layer does: the column
 * term takes the remainder by the x cell count, the row term divides by the
 * y cell count (not by the width). Both operands are non-negative, so Dafny's
 * division and remainder agree with the truncating ones of the source.
 */
module CenterOffset {
  import opened Arith

  function OffsetX(i: nat, cellsX: nat): (dx: int)
    requires cellsX > 0
    ensures cellsX / 2 - cellsX < dx <= cellsX / 2
  {
    cellsX / 2 - i % cellsX
  }

  function OffsetY(i: nat, cellsY: nat): (dy: int)
    requires cellsY > 0
    ensures dy <= cellsY / 2
  {
    cellsY / 2 - i / cellsY
  }

  /**
   * Because the row term divides by the y cell count, the lower bound of the
   * y offset over a cellsX-by-cellsY raster depends on the x cell count.
   */
  lemma OffsetYRange(i: nat, cellsX: nat, cellsY: nat)
    requires cellsY > 0 && i < cellsX * cellsY
    ensures cellsY / 2 - cellsX < OffsetY(i, cellsY)
  {
    DivBelow(i, cellsX, cellsY);
  }

  /** Moving one full width along the linear index gives the same column offset. */
  lemma OffsetXPeriodic(i: nat, cellsX: nat)
    requires cellsX > 0
    ensures OffsetX(i + cellsX, cellsX) == OffsetX(i, cellsX)
  {
    assert i + cellsX == (i / cellsX + 1) * cellsX + i % cellsX;
    DivModUnique(i + cellsX, cellsX, i / cellsX + 1, i % cellsX);
  }

  /** The row offset never grows as the linear index grows. */
  lemma OffsetYNonIncreasing(i: nat, j: nat, cellsY: nat)
    requires cellsY > 0 && i <= j
    ensures OffsetY(j, cellsY) <= OffsetY(i, cellsY)
  {
    DivMonotone(i, j, cellsY);
  }

  /**
   * On a square raster the two offsets together identify the source cell:
   * distinct cells get distinct offset pairs.
   */
  lemma OffsetsDistinctOnSquare(i: nat, j: nat, n: nat)
    requires n > 0 && i < n * n && j < n * n && i != j
    ensures OffsetX(i, n) != OffsetX(j, n) || OffsetY(i, n) != OffsetY(j, n)
  {
  }

  /**
   * When the raster has more cells in y than in x, the first cell of the
   * first two rows get the same offset pair, so both land on the same
   * destination cell.
   */
  lemma OffsetsCollideWhenTaller(cellsX: nat, cellsY: nat)
    requires 0 < cellsX < cellsY
    ensures cellsX < cellsX * cellsY
    ensures OffsetX(0, cellsX) == OffsetX(cellsX, cellsX)
    ensures OffsetY(0, cellsY) == OffsetY(cellsX, cellsY)
  {
    MulMonotone(2, cellsY, cellsX);
    DivModUnique(cellsX, cellsX, 1, 0);
    DivModUnique(cellsX, cellsY, 0, cellsX);
  }
}
