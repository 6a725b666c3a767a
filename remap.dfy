/**
 * What one remap pass of the layer computes: the cost buffer after every
 * source cell has been visited in linear-index order, and the update window
 * it reports. The reprojection (square root, arctangent, cosine and sine of
 * the centre offset, rotated by the robot's yaw and re-centred, then the
 * host grid's world-to-map conversion) is not modelled: it is the parameter
 * `project`, which maps a centre offset to the destination cell it lands on,
 * or to None when the point falls outside the destination grid.
 */
module Remap {
  import opened Wrappers
  import opened Costmap
  import opened Classification
  import opened CenterOffset

  /** One traversability reading; a NaN reading is Unknown. */
  datatype Reading = Unknown | Known(value: real)

  /** The traversability layer of the latest snapshot, one reading per cell. */
  datatype Raster = Raster(cellsX: nat, cellsY: nat, trav: seq<Reading>) {
    predicate Valid() {
      |trav| == cellsX * cellsY
    }
  }

  /** A destination cell (column, row). */
  datatype Cell = Cell(mx: nat, my: nat)

  type Projection = (int, int) -> Option<Cell>

  /** World-to-map conversion succeeds only for cells inside the destination grid. */
  ghost predicate LandsIn(project: Projection, sizeX: nat, sizeY: nat) {
    forall dx, dy :: project(dx, dy).Some? ==>
      project(dx, dy).value.mx < sizeX && project(dx, dy).value.my < sizeY
  }

  /** The update window, in world units, as four bounds. */
  datatype Bounds = Bounds(minX: real, minY: real, maxX: real, maxY: real)

  predicate Encloses(outer: Bounds, inner: Bounds) {
    outer.minX <= inner.minX && outer.minY <= inner.minY &&
    inner.maxX <= outer.maxX && inner.maxY <= outer.maxY
  }

  /** The window covers at least [-100, 100] x [-100, 100]. */
  predicate CoversDefault(b: Bounds) {
    b.minX <= -100.0 && b.minY <= -100.0 && 100.0 <= b.maxX && 100.0 <= b.maxY
  }

  /**
   * The widening applied after each write: the smallest window that encloses
   * both the old one and the default square. A window that already covers
   * the square is left as it is.
   */
  function Widen(b: Bounds): (w: Bounds)
    ensures Encloses(w, b) && CoversDefault(w)
    ensures forall o :: Encloses(o, b) && CoversDefault(o) ==> Encloses(o, w)
    ensures CoversDefault(b) ==> w == b
  {
    Bounds(if b.minX <= -100.0 then b.minX else -100.0,
           if b.minY <= -100.0 then b.minY else -100.0,
           if 100.0 <= b.maxX then b.maxX else 100.0,
           if 100.0 <= b.maxY then b.maxY else 100.0)
  }

  /**
   * Where source cell i is written, if anywhere: nowhere when its reading is
   * unknown, otherwise wherever its centre offset projects.
   */
  function Target(r: Raster, project: Projection, i: nat): (t: Option<Cell>)
    requires r.Valid() && i < |r.trav|
    ensures r.trav[i].Unknown? ==> t.None?
  {
    if r.trav[i].Unknown? then None
    else project(OffsetX(i, r.cellsX), OffsetY(i, r.cellsY))
  }

  /** Source cell i writes to buffer position p. */
  ghost predicate WritesTo(r: Raster, project: Projection, sizeX: nat, sizeY: nat, i: nat, p: nat)
    requires r.Valid() && i < |r.trav| && LandsIn(project, sizeX, sizeY)
  {
    var t := Target(r, project, i);
    t.Some? && Index(t.value.mx, t.value.my, sizeX, sizeY) == p
  }

  /**
   * The buffer after visiting source cell i: unchanged when the cell is not
   * written, otherwise changed at one position only, to a classified level.
   */
  function Step(buf: seq<Cost>, sizeX: nat, sizeY: nat, r: Raster, project: Projection, i: nat): (out: seq<Cost>)
    requires |buf| == sizeX * sizeY && r.Valid() && i < |r.trav| && LandsIn(project, sizeX, sizeY)
    ensures |out| == |buf|
    ensures Target(r, project, i).None? ==> out == buf
    ensures forall p :: 0 <= p < |out| && out[p] != buf[p] ==>
      WritesTo(r, project, sizeX, sizeY, i, p) && IsClassified(out[p])
  {
    match Target(r, project, i)
    case None => buf
    case Some(c) => buf[Index(c.mx, c.my, sizeX, sizeY) := Classify(r.trav[i].value)]
  }

  /**
   * The buffer after visiting source cells 0 .. k-1 in order. Every position
   * it changes holds FREE_SPACE, INSCRIBED_INFLATED_OBSTACLE or LETHAL_OBSTACLE;
   * in particular the pass never writes NO_INFORMATION.
   */
  function Remapped(buf: seq<Cost>, sizeX: nat, sizeY: nat, r: Raster, project: Projection, k: nat): (out: seq<Cost>)
    requires |buf| == sizeX * sizeY && r.Valid() && k <= |r.trav| && LandsIn(project, sizeX, sizeY)
    ensures |out| == |buf|
    ensures forall p :: 0 <= p < |out| ==> out[p] == buf[p] || IsClassified(out[p])
  {
    if k == 0 then buf
    else Step(Remapped(buf, sizeX, sizeY, r, project, k - 1), sizeX, sizeY, r, project, k - 1)
  }

  /** Some cell among the first k is written, so the window is widened. */
  ghost predicate AnyWrite(r: Raster, project: Projection, k: nat)
    requires r.Valid() && k <= |r.trav|
  {
    exists i :: 0 <= i < k && Target(r, project, i).Some?
  }

  /**
   * A buffer position that no visited cell writes to keeps its value: unknown
   * readings and projections that miss the grid leave the buffer alone.
   */
  lemma {:induction false} RemappedUntouched(buf: seq<Cost>, sizeX: nat, sizeY: nat, r: Raster,
                                             project: Projection, k: nat, p: nat)
    requires |buf| == sizeX * sizeY && r.Valid() && k <= |r.trav| && LandsIn(project, sizeX, sizeY)
    requires p < |buf|
    requires forall i :: 0 <= i < k ==> !WritesTo(r, project, sizeX, sizeY, i, p)
    ensures Remapped(buf, sizeX, sizeY, r, project, k)[p] == buf[p]
  {
    if k > 0 {
      RemappedUntouched(buf, sizeX, sizeY, r, project, k - 1, p);
      assert !WritesTo(r, project, sizeX, sizeY, k - 1, p);
    }
  }

  /**
   * A buffer position holds the classified reading of the last visited cell
   * that writes to it.
   */
  lemma {:induction false} RemappedLastWrite(buf: seq<Cost>, sizeX: nat, sizeY: nat, r: Raster,
                                             project: Projection, i: nat, k: nat, p: nat)
    requires |buf| == sizeX * sizeY && r.Valid() && k <= |r.trav| && LandsIn(project, sizeX, sizeY)
    requires i < k && WritesTo(r, project, sizeX, sizeY, i, p)
    requires forall j :: i < j < k ==> !WritesTo(r, project, sizeX, sizeY, j, p)
    ensures r.trav[i].Known? && p < |buf|
    ensures Remapped(buf, sizeX, sizeY, r, project, k)[p] == Classify(r.trav[i].value)
  {
    if k - 1 > i {
      RemappedLastWrite(buf, sizeX, sizeY, r, project, i, k - 1, p);
      assert !WritesTo(r, project, sizeX, sizeY, k - 1, p);
    }
  }
}
