/**
 * The parts of the host cost grid that the layer relies on: the byte-sized
 * cost values, the four named levels and the row-major cell index.
 */
module Costmap {
  import opened Arith

  /** A cell of a cost buffer holds one unsigned byte. */
  type Cost = x: int | 0 <= x < 256

  const FREE_SPACE: Cost := 0
  const INSCRIBED_INFLATED_OBSTACLE: Cost := 253
  const LETHAL_OBSTACLE: Cost := 254
  /** The sentinel for "this layer has not written here". */
  const NO_INFORMATION: Cost := 255

  /** One of the three levels the classifier can produce. */
  predicate IsClassified(c: Cost) {
    c == FREE_SPACE || c == INSCRIBED_INFLATED_OBSTACLE || c == LETHAL_OBSTACLE
  }

  /**
   * The buffer position of cell (mx, my) in a grid that is sizeX cells wide:
   * rows are stored one after the other. The position lies inside the buffer
   * and gives the cell back by remainder and quotient, so distinct cells have
   * distinct positions.
   */
  function Index(mx: nat, my: nat, sizeX: nat, sizeY: nat): (p: nat)
    requires mx < sizeX && my < sizeY
    ensures p < sizeX * sizeY
    ensures p % sizeX == mx && p / sizeX == my
  {
    IndexDivMod(mx, my, sizeX);
    IndexBelow(mx, my, sizeX, sizeY);
    my * sizeX + mx
  }

  lemma IndexDivMod(mx: nat, my: nat, sizeX: nat)
    requires mx < sizeX
    ensures (my * sizeX + mx) % sizeX == mx && (my * sizeX + mx) / sizeX == my
  {
    DivModUnique(my * sizeX + mx, sizeX, my, mx);
  }

  lemma IndexBelow(mx: nat, my: nat, sizeX: nat, sizeY: nat)
    requires mx < sizeX && my < sizeY
    ensures my * sizeX + mx < sizeX * sizeY
  {
    MulMonotone(my + 1, sizeY, sizeX);
    assert (my + 1) * sizeX == my * sizeX + sizeX;
  }

  /** Every buffer position is the index of the cell its remainder and quotient name. */
  lemma IndexCovers(p: nat, sizeX: nat, sizeY: nat)
    requires p < sizeX * sizeY
    ensures sizeX > 0 && p % sizeX < sizeX && p / sizeX < sizeY
    ensures Index(p % sizeX, p / sizeX, sizeX, sizeY) == p
  {
    DivBelow(p, sizeY, sizeX);
  }
}
