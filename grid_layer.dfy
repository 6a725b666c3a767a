/**
 * The costmap layer itself: its cost buffer, the latest traversability
 * snapshot, and the flag that says a snapshot is waiting to be remapped.
 */
module GridLayer {
  import opened Wrappers
  import opened Costmap
  import opened Classification
  import opened CenterOffset
  import opened Remap
  import opened Merge

  class GridLayer {
    /** The layer's own cost buffer, sizeX * sizeY cells, rows one after the other. */
    var costmap: array<Cost>
    var sizeX: nat
    var sizeY: nat
    /** The latest traversability snapshot. */
    var snapshot: Raster
    /** A snapshot has arrived that no remap pass has consumed yet. */
    var newMap: bool

    ghost predicate Valid()
      reads this
    {
      costmap.Length == sizeX * sizeY && snapshot.Valid()
    }

    /** Initialisation: an empty snapshot, nothing pending, a buffer the size of the master grid holding NO_INFORMATION. */
    constructor (masterSizeX: nat, masterSizeY: nat)
      ensures Valid() && fresh(costmap)
      ensures sizeX == masterSizeX && sizeY == masterSizeY
      ensures forall p :: 0 <= p < costmap.Length ==> costmap[p] == NO_INFORMATION
      ensures !newMap && snapshot == Raster(0, 0, [])
    {
      sizeX, sizeY := masterSizeX, masterSizeY;
      costmap := new Cost[masterSizeX * masterSizeY](_ => NO_INFORMATION);
      snapshot := Raster(0, 0, []);
      newMap := false;
    }

    /** Resizes the buffer to the master grid's cell counts and fills it with NO_INFORMATION. */
    method MatchSize(masterSizeX: nat, masterSizeY: nat)
      requires Valid()
      modifies this
      ensures Valid() && fresh(costmap)
      ensures sizeX == masterSizeX && sizeY == masterSizeY
      ensures forall p :: 0 <= p < costmap.Length ==> costmap[p] == NO_INFORMATION
      ensures snapshot == old(snapshot) && newMap == old(newMap)
    {
      sizeX, sizeY := masterSizeX, masterSizeY;
      costmap := new Cost[masterSizeX * masterSizeY](_ => NO_INFORMATION);
    }

    /** Sets every cell of the buffer back to NO_INFORMATION. */
    method ResetMaps()
      requires Valid()
      modifies costmap
      ensures Valid()
      ensures forall p :: 0 <= p < costmap.Length ==> costmap[p] == NO_INFORMATION
    {
      forall p | 0 <= p < costmap.Length {
        costmap[p] := NO_INFORMATION;
      }
    }

    /**
     * Snapshot ingestion: the new snapshot replaces the old one in full, the
     * pending flag is set and the buffer is cleared.
     */
    method TopicCallback(msg: Raster)
      requires Valid() && msg.Valid()
      modifies this`snapshot, this`newMap, costmap
      ensures Valid()
      ensures snapshot == msg && newMap
      ensures forall p :: 0 <= p < costmap.Length ==> costmap[p] == NO_INFORMATION
    {
      snapshot := msg;
      newMap := true;
      ResetMaps();
    }

    /**
     * One remap pass. With nothing pending it changes nothing. Otherwise it
     * writes the classified reading of every known source cell whose offset
     * projects into the grid, widens the window once per write, and clears
     * the pending flag. The window is never narrowed.
     */
    method UpdateBounds(project: Projection, bounds: Bounds) returns (bounds': Bounds)
      requires Valid() && LandsIn(project, sizeX, sizeY)
      modifies this`newMap, costmap
      ensures Valid() && !newMap
      ensures old(newMap) ==>
        costmap[..] == Remapped(old(costmap[..]), sizeX, sizeY, snapshot, project, |snapshot.trav|) &&
        bounds' == if AnyWrite(snapshot, project, |snapshot.trav|) then Widen(bounds) else bounds
      ensures !old(newMap) ==> costmap[..] == old(costmap[..]) && bounds' == bounds
      ensures Encloses(bounds', bounds)
      ensures old(newMap) && AnyWrite(snapshot, project, |snapshot.trav|) ==> CoversDefault(bounds')
    {
      bounds' := bounds;
      if newMap {
        ghost var buf0 := costmap[..];
        var i := 0;
        while i < |snapshot.trav|
          invariant 0 <= i <= |snapshot.trav|
          invariant costmap[..] == Remapped(buf0, sizeX, sizeY, snapshot, project, i)
          invariant bounds' == if AnyWrite(snapshot, project, i) then Widen(bounds) else bounds
        {
          var reading := snapshot.trav[i];
          if reading.Known? {
            var dx := OffsetX(i, snapshot.cellsX);
            var dy := OffsetY(i, snapshot.cellsY);
            match project(dx, dy)
            case Some(c) =>
              var cost := Classify(reading.value);
              costmap[Index(c.mx, c.my, sizeX, sizeY)] := cost;
              bounds' := Widen(bounds');
            case None =>
          }
          i := i + 1;
        }
        newMap := false;
      }
    }

    /**
     * Commit: copies every layer cell of the window [minI, maxI) x [minJ, maxJ)
     * that is not NO_INFORMATION into the master grid at the same cell. The
     * layer's own buffer is not changed.
     */
    method UpdateCosts(master: array<Cost>, minI: int, minJ: int, maxI: int, maxJ: int)
      requires Valid() && master != costmap && master.Length == costmap.Length
      requires 0 <= minI && 0 <= minJ && maxI <= sizeX && maxJ <= sizeY
      modifies master
      ensures master[..] == Merged(old(master[..]), costmap[..], sizeX, sizeY, Window(minI, minJ, maxI, maxJ))
      ensures forall i, j :: 0 <= i < sizeX && 0 <= j < sizeY ==>
        master[Index(i, j, sizeX, sizeY)] ==
          MergeCell(old(master[Index(i, j, sizeX, sizeY)]), costmap[Index(i, j, sizeX, sizeY)],
                    Window(minI, minJ, maxI, maxJ).Contains(i, j))
    {
      var j := minJ;
      while j < maxJ
        invariant minJ <= j && (j <= maxJ || j == minJ)
        invariant forall ii, jj :: 0 <= ii < sizeX && 0 <= jj < sizeY ==>
          master[Index(ii, jj, sizeX, sizeY)] ==
            MergeCell(old(master[Index(ii, jj, sizeX, sizeY)]), costmap[Index(ii, jj, sizeX, sizeY)],
                      Window(minI, minJ, maxI, j).Contains(ii, jj))
      {
        var i := minI;
        while i < maxI
          invariant minI <= i && (i <= maxI || i == minI)
          invariant forall ii, jj :: 0 <= ii < sizeX && 0 <= jj < sizeY ==>
            master[Index(ii, jj, sizeX, sizeY)] ==
              MergeCell(old(master[Index(ii, jj, sizeX, sizeY)]), costmap[Index(ii, jj, sizeX, sizeY)],
                        Window(minI, minJ, maxI, j).Contains(ii, jj) || (jj == j && minI <= ii < i))
        {
          var index := Index(i, j, sizeX, sizeY);
          if costmap[index] != NO_INFORMATION {
            master[index] := costmap[index];
          }
          i := i + 1;
        }
        WindowRowDone(minI, minJ, maxI, j, i);
        j := j + 1;
      }
      WindowDone(minI, minJ, maxI, maxJ, j);
      MergedFromCells(master[..], old(master[..]), costmap[..], sizeX, sizeY, Window(minI, minJ, maxI, maxJ));
    }
  }
}
