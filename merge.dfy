/**
 * What committing the layer into the master grid computes: inside the
 * window, every layer cell that is not NO_INFORMATION replaces the master
 * cell; everything else in the master grid stays as it was.
 */
module Merge {
  import opened Costmap

  /** The cell window [minI, maxI) x [minJ, maxJ); it is empty when min >= max. */
  datatype Window = Window(minI: int, minJ: int, maxI: int, maxJ: int) {
    predicate Contains(i: int, j: int) {
      minI <= i < maxI && minJ <= j < maxJ
    }
  }

  /** One master cell after the commit. */
  function MergeCell(master: Cost, layer: Cost, inWindow: bool): (c: Cost)
    ensures c == master || (c == layer && layer != NO_INFORMATION)
    ensures inWindow && layer != NO_INFORMATION ==> c == layer
    ensures !inWindow || layer == NO_INFORMATION ==> c == master
  {
    if inWindow && layer != NO_INFORMATION then layer else master
  }

  /** The master buffer after committing the layer buffer over window w. */
  function Merged(master: seq<Cost>, layer: seq<Cost>, sizeX: nat, sizeY: nat, w: Window): (m: seq<Cost>)
    requires |master| == |layer| == sizeX * sizeY
    ensures |m| == |master|
    ensures forall p :: 0 <= p < |m| ==> m[p] == master[p] || (m[p] == layer[p] && m[p] != NO_INFORMATION)
  {
    seq(|master|, p requires 0 <= p < |master| =>
      IndexCovers(p, sizeX, sizeY);
      MergeCell(master[p], layer[p], w.Contains(p % sizeX, p / sizeX)))
  }

  /** Seen cell by cell: cell (i, j) of the merged buffer. */
  lemma MergedAt(master: seq<Cost>, layer: seq<Cost>, sizeX: nat, sizeY: nat, w: Window, i: nat, j: nat)
    requires |master| == |layer| == sizeX * sizeY && i < sizeX && j < sizeY
    ensures var p := Index(i, j, sizeX, sizeY);
            Merged(master, layer, sizeX, sizeY, w)[p] == MergeCell(master[p], layer[p], w.Contains(i, j))
  {
  }

  /** Committing the same layer twice is the same as committing it once. */
  lemma MergedIdempotent(master: seq<Cost>, layer: seq<Cost>, sizeX: nat, sizeY: nat, w: Window)
    requires |master| == |layer| == sizeX * sizeY
    ensures var once := Merged(master, layer, sizeX, sizeY, w);
            Merged(once, layer, sizeX, sizeY, w) == once
  {
  }

  /** A layer holding only NO_INFORMATION leaves the master grid unchanged. */
  lemma MergedEmptyLayer(master: seq<Cost>, layer: seq<Cost>, sizeX: nat, sizeY: nat, w: Window)
    requires |master| == |layer| == sizeX * sizeY
    requires forall p :: 0 <= p < |layer| ==> layer[p] == NO_INFORMATION
    ensures Merged(master, layer, sizeX, sizeY, w) == master
  {
  }

  /** A buffer that agrees with the merge cell by cell is the merged buffer. */
  lemma MergedFromCells(after: seq<Cost>, master: seq<Cost>, layer: seq<Cost>, sizeX: nat, sizeY: nat, w: Window)
    requires |after| == |master| == |layer| == sizeX * sizeY
    requires forall i, j :: 0 <= i < sizeX && 0 <= j < sizeY ==>
      after[Index(i, j, sizeX, sizeY)] ==
        MergeCell(master[Index(i, j, sizeX, sizeY)], layer[Index(i, j, sizeX, sizeY)], w.Contains(i, j))
    ensures after == Merged(master, layer, sizeX, sizeY, w)
  {
    var merged := Merged(master, layer, sizeX, sizeY, w);
    forall p | 0 <= p < |after|
      ensures after[p] == merged[p]
    {
      IndexCovers(p, sizeX, sizeY);
      var i, j := p % sizeX, p / sizeX;
      var q := Index(i, j, sizeX, sizeY);
      assert q == p;
      assert after[q] == MergeCell(master[q], layer[q], w.Contains(i, j));
      MergedAt(master, layer, sizeX, sizeY, w, i, j);
    }
    assert |after| == |merged|;
  }

  /** Finishing row j of the window, columns [minI, maxI), extends the finished rows by one. */
  lemma WindowRowDone(minI: int, minJ: int, maxI: int, j: int, i: int)
    requires minJ <= j && minI <= i && (i <= maxI || i == minI) && maxI <= i
    ensures forall ii, jj ::
              Window(minI, minJ, maxI, j + 1).Contains(ii, jj) ==
              (Window(minI, minJ, maxI, j).Contains(ii, jj) || (jj == j && minI <= ii < i))
  {
  }

  /** Once the row counter has passed maxJ, the finished rows are the whole window. */
  lemma WindowDone(minI: int, minJ: int, maxI: int, maxJ: int, j: int)
    requires minJ <= j && (j <= maxJ || j == minJ) && maxJ <= j
    ensures forall ii, jj ::
              Window(minI, minJ, maxI, maxJ).Contains(ii, jj) == Window(minI, minJ, maxI, j).Contains(ii, jj)
  {
  }
}
