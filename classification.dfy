/** The threshold rule that turns a traversability reading into a cost level. */
module Classification {
  import opened Costmap

  /**
   * Readings up to 0.5 are free, readings in (0.5, 0.6] are an inscribed
   * obstacle and everything above 0.6 is lethal. The rule never yields the
   * NO_INFORMATION sentinel.
   */
  function Classify(v: real): (c: Cost)
    ensures c == FREE_SPACE <==> v <= 0.5
    ensures c == INSCRIBED_INFLATED_OBSTACLE <==> 0.5 < v <= 0.6
    ensures c == LETHAL_OBSTACLE <==> 0.6 < v
    ensures IsClassified(c) && c != NO_INFORMATION
  {
    if v <= 0.5 then FREE_SPACE
    else if v <= 0.6 then INSCRIBED_INFLATED_OBSTACLE
    else LETHAL_OBSTACLE
  }

  /** A less traversable reading never gets a cheaper cost. */
  lemma ClassifyMonotone(v: real, w: real)
    requires v <= w
    ensures Classify(v) <= Classify(w)
  {
  }
}
