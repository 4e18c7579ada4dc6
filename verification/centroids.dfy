/**
 * The nearest-centroid search both clustering mappers run: the first centroid at
 * the least exact distance. complexDistance is the square root of the squared
 * distance, and the square root is monotone, so comparing squared distances
 * picks the same centroid.
 */
module Centroids {
  import opened DataPoints

  /** The offset of the first candidate at the least distance from p. */
  function Nearest(p: Point, cands: seq<Point>): (k: int)
    requires cands != []
    ensures 0 <= k < |cands|
    ensures forall i | 0 <= i < |cands| :: SquaredDistance(p, cands[k]) <= SquaredDistance(p, cands[i])
    ensures forall i | 0 <= i < k :: SquaredDistance(p, cands[k]) < SquaredDistance(p, cands[i])
  {
    if |cands| == 1 then 0
    else
      var n := |cands| - 1;
      var k := Nearest(p, cands[..n]);
      assert forall i | 0 <= i < n :: cands[..n][i] == cands[i];
      if SquaredDistance(p, cands[n]) < SquaredDistance(p, cands[k]) then n else k
  }

  /** Any offset that is least and first is the one Nearest returns. */
  lemma NearestIsUnique(p: Point, cands: seq<Point>, k: int)
    requires 0 <= k < |cands|
    requires forall i | 0 <= i < |cands| :: SquaredDistance(p, cands[k]) <= SquaredDistance(p, cands[i])
    requires forall i | 0 <= i < k :: SquaredDistance(p, cands[k]) < SquaredDistance(p, cands[i])
    ensures k == Nearest(p, cands)
  {
    var m := Nearest(p, cands);
    assert !(m < k) && !(k < m);
  }

  /**
   * The argmin loop: offset starts at -1, and a candidate replaces the best so far
   * only when strictly closer, so ties keep the lower offset. With no candidates
   * the offset stays -1.
   */
  method ArgMin(p: Point, cands: seq<Point>) returns (offset: int)
    ensures cands == [] ==> offset == -1
    ensures cands != [] ==> offset == Nearest(p, cands)
  {
    offset := -1;
    var minDistance := 0;
    for i := 0 to |cands|
      invariant i == 0 <==> offset == -1
      invariant i > 0 ==> offset == Nearest(p, cands[..i]) && minDistance == SquaredDistance(p, cands[offset])
    {
      var distance := SquaredDistance(p, cands[i]);
      assert cands[..i + 1][..i] == cands[..i];
      if offset == -1 || distance < minDistance {
        minDistance := distance;
        offset := i;
      }
    }
    if cands != [] {
      assert cands[..|cands|] == cands;
    }
  }
}
