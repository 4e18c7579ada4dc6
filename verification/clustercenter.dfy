/**
 * One k-means round with canopy pruning. The mapper indexes, for every canopy
 * centre, the centroids within T1 of it, and sends each (canopy, point) record to
 * the nearest centroid of its canopy. The reducer writes the mean of each
 * centroid's points under a counter that goes up by one per call.
 */
module ClusterCenter {
  import opened Wrappers
  import opened MapReduce
  import opened DataPoints
  import opened Records
  import opened Centroids

  /** The centroids within T1 of the canopy centre c, in their original order. */
  function InCanopy(t: Thresholds, c: Point, ks: seq<Point>): (r: seq<Point>)
    ensures |r| <= |ks|
    ensures forall k | k in r :: k in ks && WithinT1(t, c, k)
    ensures forall k | k in ks && WithinT1(t, c, k) :: k in r
  {
    if ks == [] then []
    else
      var n := |ks| - 1;
      var before := InCanopy(t, c, ks[..n]);
      assert forall k | k in ks :: k in ks[..n] || k == ks[n];
      if WithinT1(t, c, ks[n]) then before + [ks[n]] else before
  }

  /**
   * The index setup builds: each canopy centre with a non-empty centroid list is
   * mapped to that list; a centre listed twice is put twice with the same list.
   */
  function CanopyIndex(t: Thresholds, canopies: seq<Point>, ks: seq<Point>): (m: map<Point, seq<Point>>)
    ensures forall c :: c in m <==> c in canopies && InCanopy(t, c, ks) != []
    ensures forall c | c in m :: m[c] == InCanopy(t, c, ks)
  {
    if canopies == [] then map[]
    else
      var n := |canopies| - 1;
      var before := CanopyIndex(t, canopies[..n], ks);
      assert forall c | c in canopies :: c in canopies[..n] || c == canopies[n];
      var list := InCanopy(t, canopies[n], ks);
      if |list| > 0 then before[canopies[n] := list] else before
  }

  /** What map writes for a record (c, p): nothing when c is not indexed, else the nearest centroid of c's list. */
  function Assignment(index: map<Point, seq<Point>>, c: Point, p: Point): (r: seq<(Point, Point)>)
    requires forall k | k in index :: index[k] != []
    ensures c !in index <==> r == []
    ensures c in index ==> |r| == 1 && r[0].1 == p && r[0].0 in index[c]
    ensures c in index ==> forall k | k in index[c] :: SquaredDistance(p, r[0].0) <= SquaredDistance(p, k)
  {
    if c in index then [(index[c][Nearest(p, index[c])], p)] else []
  }

  /** The format of a centroid line: the legacy tree drops two characters; the cc tree reads raw lines in round 0 and after the tab later. */
  function CentroidFormat(legacy: bool, numIterations: int): LineFormat
  {
    if legacy then FromIndexTwo else if numIterations == 0 then WholeLine else AfterFirstTab
  }

  /** The format of a canopy centre line. */
  function CanopyFormat(legacy: bool): LineFormat
  {
    if legacy then FromIndexTwo else AfterFirstTab
  }

  /** Both trees read labelled centroid lines correctly after round 0 while the labels have one digit. */
  lemma CentroidFormatReadsLabelledLine(legacy: bool, numIterations: int, key: int, p: Point)
    requires numIterations != 0 && 0 <= key < 10
    ensures ParseLine(CentroidFormat(legacy, numIterations), LabelledLine(key, p)) == Success(p)
  {
    if legacy {
      FromIndexTwoReadsOneDigitLabel(key, p);
    } else {
      AfterFirstTabReadsLabelledLine(key, p);
    }
  }

  /** The cc tree reads round-0 raw lines, and labelled lines in every later round, whatever the label. */
  lemma CcCentroidFormatReadsBack(numIterations: int, key: int, p: Point)
    requires numIterations != 0
    ensures ParseLine(CentroidFormat(false, 0), ToText(p)) == Success(p)
    ensures ParseLine(CentroidFormat(false, numIterations), LabelledLine(key, p)) == Success(p)
  {
    ParseToText(p);
    AfterFirstTabReadsLabelledLine(key, p);
  }

  /** The T1 filter loop over the centroids, for one canopy centre. */
  method FilterCentroids(t: Thresholds, c: Point, ks: seq<Point>) returns (centroidList: seq<Point>)
    ensures centroidList == InCanopy(t, c, ks)
  {
    centroidList := [];
    for i := 0 to |ks|
      invariant centroidList == InCanopy(t, c, ks[..i])
    {
      assert ks[..i + 1][..i] == ks[..i];
      if WithinT1(t, c, ks[i]) {
        centroidList := centroidList + [ks[i]];
      }
    }
    assert ks[..|ks|] == ks;
  }

  /** The map stage: the canopy-to-centroids index built in setup. */
  class ClusterCenterMapper {
    const t: Thresholds
    /** The legacy tree reads every reference line from index two. */
    const legacy: bool
    var canopyCenterKCentroidsMap: map<Point, seq<Point>>

    /** Every indexed canopy has at least one centroid. */
    ghost predicate Valid()
      reads this
    {
      forall c | c in canopyCenterKCentroidsMap :: canopyCenterKCentroidsMap[c] != []
    }

    constructor (t: Thresholds, legacy: bool)
      ensures this.t == t && this.legacy == legacy && canopyCenterKCentroidsMap == map[] && Valid()
    {
      this.t := t;
      this.legacy := legacy;
      canopyCenterKCentroidsMap := map[];
    }

    /** The nested loops that fill the index. */
    method BuildIndex(canopyCenters: seq<Point>, kCentroids: seq<Point>)
      modifies this
      ensures canopyCenterKCentroidsMap == CanopyIndex(t, canopyCenters, kCentroids)
    {
      canopyCenterKCentroidsMap := map[];
      for i := 0 to |canopyCenters|
        invariant canopyCenterKCentroidsMap == CanopyIndex(t, canopyCenters[..i], kCentroids)
      {
        assert canopyCenters[..i + 1][..i] == canopyCenters[..i];
        var centroidList := FilterCentroids(t, canopyCenters[i], kCentroids);
        if |centroidList| > 0 {
          canopyCenterKCentroidsMap := canopyCenterKCentroidsMap[canopyCenters[i] := centroidList];
        }
      }
      assert canopyCenters[..|canopyCenters|] == canopyCenters;
    }

    /**
     * setup: read the centroid file, then the canopy centre file, then build the
     * index. An exception while reading leaves the index empty.
     */
    method Setup(numIterations: int, centroidLines: seq<string>, canopyLines: seq<string>) returns (outcome: Outcome)
      modifies this
      ensures Valid()
      ensures var ks := ParseLines(CentroidFormat(legacy, numIterations), centroidLines);
              var cs := ParseLines(CanopyFormat(legacy), canopyLines);
              if ks.failure.Some? then outcome == Fail(ks.failure.value) && canopyCenterKCentroidsMap == map[]
              else if cs.failure.Some? then outcome == Fail(cs.failure.value) && canopyCenterKCentroidsMap == map[]
              else outcome == Pass && canopyCenterKCentroidsMap == CanopyIndex(t, cs.points, ks.points)
    {
      canopyCenterKCentroidsMap := map[];
      var kCentroids, read := ReadPoints(CentroidFormat(legacy, numIterations), centroidLines);
      if read.Fail? {
        return read;
      }
      var canopyCenters, readCanopies := ReadPoints(CanopyFormat(legacy), canopyLines);
      if readCanopies.Fail? {
        return readCanopies;
      }
      BuildIndex(canopyCenters, kCentroids);
      return Pass;
    }

    /** map: parse the record, look the canopy up, and write (nearest centroid of the canopy, point). */
    method Map(line: string, ctx: Context<Point, Point>) returns (outcome: Outcome)
      requires Valid()
      modifies ctx
      ensures ParseRecord(line).Failure? ==> outcome == Fail(ParseRecord(line).error) && ctx.written == old(ctx.written)
      ensures ParseRecord(line).Success? ==>
                outcome == Pass
                && ctx.written == old(ctx.written) + Assignment(canopyCenterKCentroidsMap, ParseRecord(line).value.0, ParseRecord(line).value.1)
    {
      var record := ParseRecord(line);
      if record.Failure? {
        return Fail(record.error);
      }
      outcome := Pass;
      Lookup(record.value.0, record.value.1, ctx);
    }

    /** The lookup and the argmin loop of map, for a parsed record. */
    method Lookup(canopyCenter: Point, dataPoint: Point, ctx: Context<Point, Point>)
      requires Valid()
      modifies ctx
      ensures ctx.written == old(ctx.written) + Assignment(canopyCenterKCentroidsMap, canopyCenter, dataPoint)
    {
      if canopyCenter in canopyCenterKCentroidsMap {
        var centroids := canopyCenterKCentroidsMap[canopyCenter];
        var offset := ArgMin(dataPoint, centroids);
        ctx.Write(centroids[offset], dataPoint);
      }
    }
  }

  /** The centroid a point is sent to lies within T1 of the point's canopy centre. */
  lemma AssignedCentroidInCanopy(t: Thresholds, canopies: seq<Point>, ks: seq<Point>, c: Point, p: Point)
    requires c in canopies
    requires InCanopy(t, c, ks) != []
    ensures var r := Assignment(CanopyIndex(t, canopies, ks), c, p);
            |r| == 1 && r[0].0 in ks && WithinT1(t, c, r[0].0)
  {
  }

  /** The reduce stage: the static CENTROID_KEY counter, never reset. */
  class ClusterCenterReducer {
    var centroidKey: int
    /** The labels written so far, by every reduce call in this process. */
    ghost var labels: seq<int>

    /** Labels are 1, 2, 3, ... and the counter holds the next one. */
    ghost predicate Valid()
      reads this
    {
      centroidKey == |labels| + 1 && forall i | 0 <= i < |labels| :: labels[i] == i + 1
    }

    constructor ()
      ensures centroidKey == 1 && labels == [] && Valid()
    {
      centroidKey := 1;
      labels := [];
    }

    /** reduce: write (CENTROID_KEY, mean of the values) and move the counter on; the key is not used. */
    method Reduce(key: Point, values: seq<Point>, ctx: Context<int, Point>)
      requires Valid()
      modifies this, ctx
      ensures Valid()
      ensures ctx.written == old(ctx.written) + [(old(centroidKey), Average(values))]
      ensures centroidKey == old(centroidKey) + 1
      ensures labels == old(labels) + [old(centroidKey)]
    {
      var dataPoint := AverageDataPoint(values);
      ctx.Write(centroidKey, dataPoint);
      labels := labels + [centroidKey];
      centroidKey := centroidKey + 1;
    }
  }
}
