/**
 * Canopy centre selection. Each map task keeps the points of its split that lie
 * outside T2 of every centre it has kept so far; the reduce task runs the same
 * greedy rule over all the local centres. Both stages keep their list in a
 * static field that only grows.
 */
module CanopyCenter {
  import opened Wrappers
  import opened MapReduce
  import opened DataPoints

  /** A point becomes a centre when no centre kept so far lies within T2 of it. */
  predicate Accepts(t: Thresholds, centers: seq<Point>, p: Point)
  {
    forall i | 0 <= i < |centers| :: !WithinT2(t, p, centers[i])
  }

  /** No centre lies within T2 of an earlier one. */
  predicate Separated(t: Thresholds, cs: seq<Point>)
  {
    forall i, j | 0 <= i < j < |cs| :: !WithinT2(t, cs[j], cs[i])
  }

  /** One step of the rule: the list after offering v to it. */
  function Offer(t: Thresholds, centers: seq<Point>, v: Point): seq<Point>
  {
    if Accepts(t, centers, v) then centers + [v] else centers
  }

  /** The centres kept after offering every value, in order, to the list `centers`. */
  function Greedy(t: Thresholds, centers: seq<Point>, values: seq<Point>): (r: seq<Point>)
    ensures centers <= r
    ensures |r| <= |centers| + |values|
  {
    if values == [] then centers
    else
      var n := |values| - 1;
      var kept := Greedy(t, centers, values[..n]);
      Offer(t, kept, values[n])
  }

  /** The pairs a stage writes for its new centres, all under one key. */
  function Keyed(key: int, ps: seq<Point>): (r: seq<(int, Point)>)
    ensures |r| == |ps|
    ensures forall i | 0 <= i < |ps| :: r[i] == (key, ps[i])
  {
    seq(|ps|, i requires 0 <= i < |ps| => (key, ps[i]))
  }

  /** a is obtained from b by deleting elements, order kept. */
  predicate Subsequence(a: seq<Point>, b: seq<Point>)
  {
    if a == [] then true
    else if b == [] then false
    else
      (a[|a| - 1] == b[|b| - 1] && Subsequence(a[..|a| - 1], b[..|b| - 1]))
      || Subsequence(a, b[..|b| - 1])
  }

  /** The inner scan: stop at the first centre within T2 of p. */
  method ScanCenters(t: Thresholds, centers: seq<Point>, p: Point) returns (insert: bool)
    ensures insert == Accepts(t, centers, p)
  {
    insert := true;
    var i := 0;
    while i < |centers|
      invariant 0 <= i <= |centers|
      invariant insert == Accepts(t, centers[..i], p)
      invariant insert
    {
      if WithinT2(t, p, centers[i]) {
        insert := false;
        assert centers[..i + 1][i] == centers[i];
        assert !Accepts(t, centers, p) by {
          assert !WithinT2(t, p, centers[i]) ==> false;
        }
        return;
      }
      assert forall k | 0 <= k < i + 1 :: centers[..i + 1][k] == centers[k];
      i := i + 1;
    }
    assert centers[..i] == centers;
  }

  // ---------------------------------------------------------------------
  // Properties of the greedy rule
  // ---------------------------------------------------------------------

  /** Offering values never brings two centres within T2 of each other. */
  lemma {:induction false} GreedyKeepsSeparation(t: Thresholds, centers: seq<Point>, values: seq<Point>)
    requires Separated(t, centers)
    ensures Separated(t, Greedy(t, centers, values))
  {
    if values != [] {
      var n := |values| - 1;
      GreedyKeepsSeparation(t, centers, values[..n]);
    }
  }

  /** With T2 of at least 1, centres have pairwise different temperatures, so the list has no duplicates. */
  lemma SeparatedDistinct(t: Thresholds, cs: seq<Point>)
    requires t.t2 >= 1 && Separated(t, cs)
    ensures forall i, j | 0 <= i < j < |cs| :: cs[i].temperature != cs[j].temperature && cs[i] != cs[j]
  {
  }

  /** Every offered value lies within T2 of some centre of the result (itself, when it was kept). */
  lemma {:induction false} GreedyCovers(t: Thresholds, centers: seq<Point>, values: seq<Point>)
    requires t.t2 >= 1
    ensures forall v | v in values :: exists c | c in Greedy(t, centers, values) :: WithinT2(t, v, c)
  {
    if values != [] {
      var n := |values| - 1;
      var kept := Greedy(t, centers, values[..n]);
      var r := Greedy(t, centers, values);
      GreedyCovers(t, centers, values[..n]);
      forall v | v in values
        ensures exists c | c in r :: WithinT2(t, v, c)
      {
        if v in values[..n] {
          var c :| c in kept && WithinT2(t, v, c);
          assert c in r;
        } else {
          assert v == values[n];
          if Accepts(t, kept, v) {
            assert r[|r| - 1] == v && WithinT2(t, v, v);
          } else {
            var i :| 0 <= i < |kept| && WithinT2(t, v, kept[i]);
            assert kept[i] in r;
          }
        }
      }
    }
  }

  /** The centres a stage adds are the values it kept, in the order it received them. */
  lemma {:induction false} GreedyKeepsOrder(t: Thresholds, centers: seq<Point>, values: seq<Point>)
    ensures Subsequence(Greedy(t, centers, values)[|centers|..], values)
  {
    var r := Greedy(t, centers, values);
    if values == [] {
      assert r[|centers|..] == [];
    } else {
      var n := |values| - 1;
      var kept := Greedy(t, centers, values[..n]);
      GreedyKeepsOrder(t, centers, values[..n]);
      var a := kept[|centers|..];
      if Accepts(t, kept, values[n]) {
        assert r[|centers|..] == a + [values[n]];
        assert (a + [values[n]])[..|a|] == a;
      } else if a != [] {
        assert r[|centers|..] == a;
      }
    }
  }

  /** A list that persists across calls: offering a and then b is offering a + b. */
  lemma {:induction false} GreedyCompose(t: Thresholds, centers: seq<Point>, a: seq<Point>, b: seq<Point>)
    ensures Greedy(t, Greedy(t, centers, a), b) == Greedy(t, centers, a + b)
  {
    if b == [] {
      assert a + b == a;
    } else {
      var n := |b| - 1;
      var ab := a + b;
      GreedyCompose(t, centers, a, b[..n]);
      assert ab[..|ab| - 1] == a + b[..n];
      assert ab[|ab| - 1] == b[n];
      calc {
        Greedy(t, Greedy(t, centers, a), b);
        Offer(t, Greedy(t, Greedy(t, centers, a), b[..n]), b[n]);
        Offer(t, Greedy(t, centers, a + b[..n]), b[n]);
        Greedy(t, centers, ab);
      }
    }
  }

  /** Values already separated from each other and from the list are all kept. */
  lemma {:induction false} GreedyOfSeparated(t: Thresholds, centers: seq<Point>, values: seq<Point>)
    requires Separated(t, centers + values)
    ensures Greedy(t, centers, values) == centers + values
  {
    if values != [] {
      var n := |values| - 1;
      var s := centers + values;
      assert centers + values[..n] == s[..|centers| + n];
      GreedyOfSeparated(t, centers, values[..n]);
      forall i | 0 <= i < |centers| + n
        ensures !WithinT2(t, values[n], (centers + values[..n])[i])
      {
        assert s[i] == (centers + values[..n])[i] && s[|s| - 1] == values[n];
      }
      assert centers + values[..n] + [values[n]] == s;
    }
  }

  /** Running the reduce rule on its own output from an empty list reproduces it. */
  lemma GreedyIdempotent(t: Thresholds, values: seq<Point>)
    ensures Greedy(t, [], Greedy(t, [], values)) == Greedy(t, [], values)
  {
    var r := Greedy(t, [], values);
    GreedyKeepsSeparation(t, [], values);
    assert [] + r == r;
    GreedyOfSeparated(t, [], r);
  }

  /**
   * Map then reduce: a point of a split lies within 2*(T2-1) of a global centre
   * whenever every local centre of that split reaches the reducer.
   */
  lemma TwoLevelCoverage(t: Thresholds, split: seq<Point>, values: seq<Point>, x: Point)
    requires t.t2 >= 1 && x in split
    requires forall c | c in Greedy(t, [], split) :: c in values
    ensures exists g | g in Greedy(t, [], values) :: SimpleDistance(x, g) <= 2 * (t.t2 - 1)
  {
    GreedyCovers(t, [], split);
    var m :| m in Greedy(t, [], split) && WithinT2(t, x, m);
    GreedyCovers(t, [], values);
    var g :| g in Greedy(t, [], values) && WithinT2(t, m, g);
    SimpleDistanceProperties(x, m, g);
  }

  /** T2 = 5: kept centres are at cheap distance 5 or more, a dropped value within 4 of a centre. */
  lemma LegacyGreedyDistances(values: seq<Point>)
    ensures var r := Greedy(LegacyThresholds, [], values);
            (forall i, j | 0 <= i < j < |r| :: SimpleDistance(r[i], r[j]) >= 5)
            && (forall v | v in values :: exists c | c in r :: SimpleDistance(v, c) <= 4)
  {
    GreedyKeepsSeparation(LegacyThresholds, [], values);
    GreedyCovers(LegacyThresholds, [], values);
    var r := Greedy(LegacyThresholds, [], values);
    forall i, j | 0 <= i < j < |r| ensures SimpleDistance(r[i], r[j]) >= 5 {
      SimpleDistanceProperties(r[i], r[j], r[j]);
    }
  }

  /** T2 = 6: kept centres are at cheap distance 6 or more, a dropped value within 5 of a centre. */
  lemma CcGreedyDistances(values: seq<Point>)
    ensures var r := Greedy(CcThresholds, [], values);
            (forall i, j | 0 <= i < j < |r| :: SimpleDistance(r[i], r[j]) >= 6)
            && (forall v | v in values :: exists c | c in r :: SimpleDistance(v, c) <= 5)
  {
    GreedyKeepsSeparation(CcThresholds, [], values);
    GreedyCovers(CcThresholds, [], values);
    var r := Greedy(CcThresholds, [], values);
    forall i, j | 0 <= i < j < |r| ensures SimpleDistance(r[i], r[j]) >= 6 {
      SimpleDistanceProperties(r[i], r[j], r[j]);
    }
  }

  // ---------------------------------------------------------------------
  // The two stages
  // ---------------------------------------------------------------------

  /** The map stage: the static canopyCenters list of one task. */
  class CanopyCenterMapper {
    const t: Thresholds
    var canopyCenters: seq<Point>
    /** The points this task has parsed so far. */
    ghost var offered: seq<Point>

    ghost predicate Valid()
      reads this
    {
      canopyCenters == Greedy(t, [], offered) && Separated(t, canopyCenters)
    }

    constructor (t: Thresholds)
      ensures this.t == t && canopyCenters == [] && offered == [] && Valid()
    {
      this.t := t;
      canopyCenters := [];
      offered := [];
    }

    /** setup: a fresh, empty list. */
    method Setup()
      modifies this
      ensures canopyCenters == [] && offered == [] && Valid()
    {
      canopyCenters := [];
      offered := [];
    }

    /** map: parse the line, then keep and write (1, point) when no centre is within T2 of it. */
    method Map(line: string, ctx: Context<int, Point>) returns (outcome: Outcome)
      requires Valid()
      modifies this, ctx
      ensures Valid()
      ensures outcome.Pass? <==> Parse(line).Success?
      ensures outcome.Fail? ==>
                outcome.error == Parse(line).error && offered == old(offered)
                && canopyCenters == old(canopyCenters) && ctx.written == old(ctx.written)
      ensures outcome.Pass? ==>
                var p := Parse(line).value;
                offered == old(offered) + [p]
                && if Accepts(t, old(canopyCenters), p)
                   then canopyCenters == old(canopyCenters) + [p] && ctx.written == old(ctx.written) + [(1, p)]
                   else canopyCenters == old(canopyCenters) && ctx.written == old(ctx.written)
    {
      var parsed := Parse(line);
      if parsed.Failure? {
        return Fail(parsed.error);
      }
      var dataPoint := parsed.value;
      ghost var before := offered;
      offered := offered + [dataPoint];
      assert offered[..|before|] == before;
      if |canopyCenters| == 0 {
        canopyCenters := canopyCenters + [dataPoint];
        ctx.Write(1, dataPoint);
      } else {
        var insert := ScanCenters(t, canopyCenters, dataPoint);
        if insert {
          canopyCenters := canopyCenters + [dataPoint];
          ctx.Write(1, dataPoint);
        }
      }
      GreedyKeepsSeparation(t, [], offered);
      return Pass;
    }
  }

  /** The reduce stage: the static canopyCenters list, shared by every reduce call of the task. */
  class CanopyCenterReducer {
    const t: Thresholds
    var canopyCenters: seq<Point>
    /** Every value this task has received, over all reduce calls. */
    ghost var received: seq<Point>

    ghost predicate Valid()
      reads this
    {
      canopyCenters == Greedy(t, [], received) && Separated(t, canopyCenters)
    }

    constructor (t: Thresholds)
      ensures this.t == t && canopyCenters == [] && received == [] && Valid()
    {
      this.t := t;
      canopyCenters := [];
      received := [];
    }

    /** setup: a fresh, empty list. */
    method Setup()
      modifies this
      ensures canopyCenters == [] && received == [] && Valid()
    {
      canopyCenters := [];
      received := [];
    }

    /** One pass of the outer loop of reduce: keep a copy of the value and write it, or drop it. */
    method Offer(key: int, dataPoint: Point, ctx: Context<int, Point>)
      modifies this, ctx
      ensures received == old(received)
      ensures Accepts(t, old(canopyCenters), dataPoint) ==>
                canopyCenters == old(canopyCenters) + [dataPoint]
                && ctx.written == old(ctx.written) + [(key, dataPoint)]
      ensures !Accepts(t, old(canopyCenters), dataPoint) ==>
                canopyCenters == old(canopyCenters) && ctx.written == old(ctx.written)
    {
      if |canopyCenters| == 0 {
        ctx.Write(key, dataPoint);
        canopyCenters := canopyCenters + [Copy(dataPoint)];
      } else {
        var insert := ScanCenters(t, canopyCenters, dataPoint);
        if insert {
          ctx.Write(key, dataPoint);
          canopyCenters := canopyCenters + [Copy(dataPoint)];
        }
      }
    }

    /** reduce: offer every value in turn; each kept value is stored as a copy and written under the key. */
    method Reduce(key: int, values: seq<Point>, ctx: Context<int, Point>)
      requires Valid()
      modifies this, ctx
      ensures Valid()
      ensures received == old(received) + values
      ensures canopyCenters == Greedy(t, old(canopyCenters), values)
      ensures ctx.written == old(ctx.written) + Keyed(key, canopyCenters[|old(canopyCenters)|..])
    {
      OfferAll(key, values, ctx);
      GreedyCompose(t, [], received, values);
      received := received + values;
      GreedyKeepsSeparation(t, [], received);
    }

    /** The loop of reduce over its values. */
    method OfferAll(key: int, values: seq<Point>, ctx: Context<int, Point>)
      modifies this, ctx
      ensures received == old(received)
      ensures canopyCenters == Greedy(t, old(canopyCenters), values)
      ensures ctx.written == old(ctx.written) + Keyed(key, canopyCenters[|old(canopyCenters)|..])
    {
      ghost var start := canopyCenters;
      ghost var written0 := ctx.written;
      for i := 0 to |values|
        invariant received == old(received)
        invariant canopyCenters == Greedy(t, start, values[..i])
        invariant ctx.written == written0 + Keyed(key, canopyCenters[|start|..])
      {
        assert values[..i + 1][..i] == values[..i];
        ghost var kept := canopyCenters;
        Offer(key, values[i], ctx);
        assert canopyCenters == Greedy(t, start, values[..i + 1]);
        assert canopyCenters[|start|..] == kept[|start|..] + canopyCenters[|kept|..];
      }
      assert values[..|values|] == values;
    }
  }
}
