/**
 * Brute-force cluster assignment: every point is written once, keyed by the
 * nearest of all k centroids read in setup.
 */
module ClusterAssign {
  import opened Wrappers
  import opened MapReduce
  import opened DataPoints
  import opened Records
  import opened Centroids

  /** The map stage: the static kCentroids list read in setup. */
  class ClusterAssignMapper {
    var kCentroids: seq<Point>

    constructor ()
      ensures kCentroids == []
    {
      kCentroids := [];
    }

    /** setup: parse each centroid line after its first two characters, up to the first that throws. */
    method Setup(lines: seq<string>) returns (outcome: Outcome)
      modifies this
      ensures ParseLines(FromIndexTwo, lines) == Parsed(kCentroids, if outcome.Pass? then None else Some(outcome.error))
    {
      kCentroids := [];
      kCentroids, outcome := ReadPoints(FromIndexTwo, lines);
    }

    /**
     * map: write (nearest centroid, point). With no centroids the offset stays -1
     * and kCentroids.get(-1) throws.
     */
    method Map(line: string, ctx: Context<Point, Point>) returns (outcome: Outcome)
      modifies ctx
      ensures Parse(line).Failure? ==> outcome == Fail(Parse(line).error) && ctx.written == old(ctx.written)
      ensures Parse(line).Success? && kCentroids == [] ==>
                outcome == Fail(IndexOutOfBounds) && ctx.written == old(ctx.written)
      ensures Parse(line).Success? && kCentroids != [] ==>
                var p := Parse(line).value;
                outcome == Pass && ctx.written == old(ctx.written) + [(kCentroids[Nearest(p, kCentroids)], p)]
    {
      var parsed := Parse(line);
      if parsed.Failure? {
        return Fail(parsed.error);
      }
      var dataPoint := parsed.value;
      var offset := ArgMin(dataPoint, kCentroids);
      if offset < 0 {
        return Fail(IndexOutOfBounds);
      }
      ctx.Write(kCentroids[offset], dataPoint);
      return Pass;
    }
  }

  /** The centroid map writes for p is one of the k centroids, and none of them is closer. */
  lemma AssignmentIsNearest(kCentroids: seq<Point>, p: Point)
    requires kCentroids != []
    ensures kCentroids[Nearest(p, kCentroids)] in kCentroids
    ensures forall c | c in kCentroids :: SquaredDistance(p, kCentroids[Nearest(p, kCentroids)]) <= SquaredDistance(p, c)
  {
  }
}
