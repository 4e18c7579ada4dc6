/**
 * Canopy assignment: every point is written once for each canopy centre within
 * T1 of it, keyed by that centre. The centres are the canopy-centre stage's
 * output, read in setup.
 */
module CanopyAssign {
  import opened Wrappers
  import opened MapReduce
  import opened JavaText
  import opened DataPoints
  import opened Records
  import opened CanopyCenter

  /** The pairs map writes for p: (c, p) for each centre c within T1 of p, in list order. */
  function CanopyPairs(t: Thresholds, centers: seq<Point>, p: Point): (r: seq<(Point, Point)>)
    ensures |r| <= |centers|
  {
    if centers == [] then []
    else
      var n := |centers| - 1;
      var before := CanopyPairs(t, centers[..n], p);
      if WithinT1(t, p, centers[n]) then before + [(centers[n], p)] else before
  }

  /** Each pair is (c, p) for a centre c within T1 of p, and every such centre has its pair. */
  lemma {:induction false} CanopyPairsMembers(t: Thresholds, centers: seq<Point>, p: Point)
    ensures var r := CanopyPairs(t, centers, p);
            && (forall k | 0 <= k < |r| :: r[k].1 == p && r[k].0 in centers && WithinT1(t, p, r[k].0))
            && (forall c | c in centers && WithinT1(t, p, c) :: (c, p) in r)
  {
    if centers != [] {
      var n := |centers| - 1;
      CanopyPairsMembers(t, centers[..n], p);
      var r, before := CanopyPairs(t, centers, p), CanopyPairs(t, centers[..n], p);
      assert forall k | 0 <= k < |before| :: r[k] == before[k];
      assert forall c | c in centers[..n] :: c in centers;
      assert forall c | c in centers :: c in centers[..n] || c == centers[n];
    }
  }

  predicate NoDuplicates<T(==)>(s: seq<T>)
  {
    forall i, j | 0 <= i < j < |s| :: s[i] != s[j]
  }

  /** A list of distinct centres never yields the same (centre, point) pair twice. */
  lemma {:induction false} CanopyPairsDistinct(t: Thresholds, centers: seq<Point>, p: Point)
    requires NoDuplicates(centers)
    ensures NoDuplicates(CanopyPairs(t, centers, p))
  {
    if centers != [] {
      var n := |centers| - 1;
      var before := CanopyPairs(t, centers[..n], p);
      CanopyPairsDistinct(t, centers[..n], p);
      CanopyPairsMembers(t, centers[..n], p);
      assert NoDuplicates(before);
      forall k | 0 <= k < |before|
        ensures before[k].0 != centers[n]
      {
        var i :| 0 <= i < n && centers[..n][i] == before[k].0;
        assert centers[i] == before[k].0;
      }
      var r := CanopyPairs(t, centers, p);
      if WithinT1(t, p, centers[n]) {
        forall k, l | 0 <= k < l < |r|
          ensures r[k] != r[l]
        {
          assert r[k] == before[k];
          if l < |before| {
            assert r[l] == before[l] && before[k] != before[l];
          } else {
            assert r[l] == (centers[n], p) && before[k].0 != centers[n];
          }
        }
      }
    }
  }

  /** The centres come from the greedy rule with T2 of at least 1, so no pair is written twice. */
  lemma GreedyCentresPairOnce(t: Thresholds, values: seq<Point>, p: Point)
    requires t.t2 >= 1
    ensures NoDuplicates(CanopyPairs(t, Greedy(t, [], values), p))
  {
    GreedyKeepsSeparation(t, [], values);
    SeparatedDistinct(t, Greedy(t, [], values));
    CanopyPairsDistinct(t, Greedy(t, [], values), p);
  }

  /**
   * When 2*(T2-1) < T1, every point of a split gets at least one canopy, provided
   * its split's local centres all reach the reducer.
   */
  lemma CanopyCoverage(t: Thresholds, split: seq<Point>, values: seq<Point>, x: Point)
    requires 1 <= t.t2 && 2 * (t.t2 - 1) < t.t1
    requires x in split
    requires forall c | c in Greedy(t, [], split) :: c in values
    ensures CanopyPairs(t, Greedy(t, [], values), x) != []
  {
    TwoLevelCoverage(t, split, values, x);
    var g :| g in Greedy(t, [], values) && SimpleDistance(x, g) <= 2 * (t.t2 - 1);
    CanopyPairsMembers(t, Greedy(t, [], values), x);
    assert (g, x) in CanopyPairs(t, Greedy(t, [], values), x);
  }

  /** With T1 = 10 and T2 = 5 every point is covered. */
  lemma LegacyCoverage(split: seq<Point>, values: seq<Point>, x: Point)
    requires x in split
    requires forall c | c in Greedy(LegacyThresholds, [], split) :: c in values
    ensures CanopyPairs(LegacyThresholds, Greedy(LegacyThresholds, [], values), x) != []
  {
    CanopyCoverage(LegacyThresholds, split, values, x);
  }

  /**
   * With T1 = 10 and T2 = 6 a point can be left without a canopy: splits
   * [(2000,5), (2000,0)] and [(2000,10)] give local centres (2000,5) and (2000,10);
   * a reducer that receives (2000,10) first keeps only it, and (2000,0) is at
   * cheap distance 10 from it.
   */
  lemma CcCoverageGap()
    ensures var x, m, g := Point(2000, 0), Point(2000, 5), Point(2000, 10);
            Greedy(CcThresholds, [], [m, x]) == [m]
            && Greedy(CcThresholds, [], [g]) == [g]
            && Greedy(CcThresholds, [], [g, m]) == [g]
            && CanopyPairs(CcThresholds, Greedy(CcThresholds, [], [g, m]), x) == []
  {
    var x, m, g := Point(2000, 0), Point(2000, 5), Point(2000, 10);
    assert [m, x][..1] == [m] && [m][..0] == [];
    assert [g, m][..1] == [g] && [g][..0] == [];
    assert Greedy(CcThresholds, [], [m]) == [m];
    assert Greedy(CcThresholds, [], [g]) == [g];
    assert !Accepts(CcThresholds, [m], x) by {
      assert WithinT2(CcThresholds, x, [m][0]);
    }
    assert !Accepts(CcThresholds, [g], m) by {
      assert WithinT2(CcThresholds, m, [g][0]);
    }
    assert [g][..0] == [];
  }

  /** The canopy centre file holds the reducer's "1 TAB point" lines; dropping two characters reads each point back. */
  lemma {:induction false} SetupReadsReducerOutput(cs: seq<Point>)
    ensures ParseLines(FromIndexTwo, seq(|cs|, i requires 0 <= i < |cs| => LabelledLine(1, cs[i])))
            == Parsed(cs, None)
  {
    var lines := seq(|cs|, i requires 0 <= i < |cs| => LabelledLine(1, cs[i]));
    forall i | 0 <= i < |cs|
      ensures ParseLine(FromIndexTwo, lines[i]) == Success(cs[i])
    {
      FromIndexTwoReadsOneDigitLabel(1, cs[i]);
    }
    ParseLinesStopsAt(FromIndexTwo, lines, cs);
  }

  /** The map stage: the static canopyCenters list read in setup. */
  class CanopyAssignMapper {
    const t: Thresholds
    var canopyCenters: seq<Point>

    constructor (t: Thresholds)
      ensures this.t == t && canopyCenters == []
    {
      this.t := t;
      canopyCenters := [];
    }

    /** setup: parse each line of the canopy centre file after its first two characters, up to the first that throws. */
    method Setup(lines: seq<string>) returns (outcome: Outcome)
      modifies this
      ensures ParseLines(FromIndexTwo, lines) == Parsed(canopyCenters, if outcome.Pass? then None else Some(outcome.error))
    {
      canopyCenters := [];
      canopyCenters, outcome := ReadPoints(FromIndexTwo, lines);
    }

    /** map: write (c, point) for every centre c within T1 of the parsed point. */
    method Map(line: string, ctx: Context<Point, Point>) returns (outcome: Outcome)
      modifies ctx
      ensures outcome.Pass? <==> Parse(line).Success?
      ensures outcome.Fail? ==> outcome.error == Parse(line).error && ctx.written == old(ctx.written)
      ensures outcome.Pass? ==> ctx.written == old(ctx.written) + CanopyPairs(t, canopyCenters, Parse(line).value)
    {
      var parsed := Parse(line);
      if parsed.Failure? {
        return Fail(parsed.error);
      }
      outcome := Pass;
      WritePairs(parsed.value, ctx);
    }

    /** The loop of map over the canopy centres, for a parsed point. */
    method WritePairs(dataPoint: Point, ctx: Context<Point, Point>)
      modifies ctx
      ensures ctx.written == old(ctx.written) + CanopyPairs(t, canopyCenters, dataPoint)
    {
      ghost var written0 := ctx.written;
      for i := 0 to |canopyCenters|
        invariant ctx.written == written0 + CanopyPairs(t, canopyCenters[..i], dataPoint)
      {
        assert canopyCenters[..i + 1][..i] == canopyCenters[..i];
        if WithinT1(t, dataPoint, canopyCenters[i]) {
          ctx.Write(canopyCenters[i], dataPoint);
        }
      }
      assert canopyCenters[..|canopyCenters|] == canopyCenters;
    }
  }
}
