/**
 * The [year, temperature] data point shared by both code trees
 * (cc.dataset.DataPoint and DataPoint.TemperatureDataPoint): its text and
 * binary encodings, the cheap and the exact distance, ordering, equality,
 * hashing and the per-field average.
 */
module DataPoints {
  import opened Wrappers
  import opened JavaText
  import opened DataIO

  datatype Point = Point(year: int32, temperature: int32)

  /** The canopy radii: T1 for membership, T2 for exclusion. */
  datatype Thresholds = Thresholds(t1: int, t2: int)

  /** T1 and T2 of DataPoint.TemperatureDataPoint. */
  const LegacyThresholds := Thresholds(10, 5)

  /** T1 and T2 of cc.dataset.DataPoint. */
  const CcThresholds := Thresholds(10, 6)

  // ---------------------------------------------------------------------
  // Construction
  // ---------------------------------------------------------------------

  /** The default constructor. */
  function Default(): (p: Point)
    ensures ToText(p) == "0,0"
  {
    Point(0, 0)
  }

  /** The copy constructor. */
  function Copy(p: Point): (q: Point)
    ensures Equals(q, p) && CompareTo(q, p) == 0 && HashCode(q) == HashCode(p)
  {
    Point(p.year, p.temperature)
  }

  // ---------------------------------------------------------------------
  // Text encoding "year,temperature"
  // ---------------------------------------------------------------------

  /** toString: decimal year, a comma, decimal temperature. */
  function ToText(p: Point): string
  {
    IntToString(p.year) + "," + IntToString(p.temperature)
  }

  /**
   * The String constructor: split at the first comma (none makes substring(0, -1)
   * throw) and parse each side with Integer.parseInt.
   */
  function Parse(s: string): Result<Point>
  {
    var i := IndexOf(s, ',');
    if i < 0 then Failure(StringIndexOutOfBounds)
    else
      var year := ParseInt(s[..i]);
      var temperature := ParseInt(s[i + 1..]);
      if year.None? || temperature.None? then Failure(NumberFormat)
      else Success(Point(year.value, temperature.value))
  }

  /** Every point survives printing and parsing back. */
  lemma ParseToText(p: Point)
    ensures Parse(ToText(p)) == Success(p)
  {
    var a, b := IntToString(p.year), IntToString(p.temperature);
    IntToStringChars(p.year);
    ParseSides(a, b);
    ParseIntToString(p.year);
    ParseIntToString(p.temperature);
  }

  /** A line parses only if it holds exactly one comma. */
  lemma ParseNeedsOneComma(s: string)
    ensures ',' !in s ==> Parse(s) == Failure(StringIndexOutOfBounds)
    ensures multiset(s)[','] >= 2 ==> Parse(s) == Failure(NumberFormat)
    ensures Parse(s).Success? ==> multiset(s)[','] == 1
  {
    var i := IndexOf(s, ',');
    if i >= 0 {
      assert s == s[..i] + [','] + s[i + 1..];
      assert multiset(s) == multiset(s[..i]) + multiset([',']) + multiset(s[i + 1..]);
      assert multiset(s[..i])[','] == 0;
      if ',' in s[i + 1..] {
        ParseIntRejects(s[i + 1..], ',');
      } else {
        assert multiset(s[i + 1..])[','] == 0;
      }
    }
  }

  /** Splitting at the only comma: the line parses iff both sides are decimal ints. */
  lemma ParseSides(a: string, b: string)
    requires ',' !in a
    ensures Parse(a + "," + b).Success? <==> ParseInt(a).Some? && ParseInt(b).Some?
    ensures Parse(a + "," + b).Success? ==>
              Parse(a + "," + b).value == Point(ParseInt(a).value, ParseInt(b).value)
  {
    var s := a + "," + b;
    assert s == a + ("," + b);
    IndexOfPrefix(a, "," + b, ',');
    assert IndexOf(s, ',') == |a|;
    assert s[..|a|] == a && s[|a| + 1..] == b;
  }

  // ---------------------------------------------------------------------
  // Binary encoding (write / readFields)
  // ---------------------------------------------------------------------

  /** write: year then temperature, each through DataOutput.writeInt. */
  function Write(p: Point): (bs: seq<byte>)
    ensures |bs| == 8
    ensures ReadInt(bs) == Success((p.year, bs[4..]))
  {
    ReadWriteInt(p.year, WriteInt(p.temperature));
    WriteInt(p.year) + WriteInt(p.temperature)
  }

  /** readFields: year then temperature, each through DataInput.readInt. */
  function ReadFields(bs: seq<byte>): (r: Result<(Point, seq<byte>)>)
    ensures r.Success? <==> |bs| >= 8
    ensures r.Success? ==> r.value.1 == bs[8..]
  {
    match ReadInt(bs)
    case Failure(e) => Failure(e)
    case Success((y, rest)) =>
      match ReadInt(rest)
      case Failure(e) => Failure(e)
      case Success((t, rest')) => Success((Point(y, t), rest'))
  }

  /** readFields reads back exactly what write wrote, and nothing more. */
  lemma ReadFieldsWrite(p: Point, rest: seq<byte>)
    ensures ReadFields(Write(p) + rest) == Success((p, rest))
  {
    ReadWriteInt(p.year, WriteInt(p.temperature) + rest);
    assert Write(p) + rest == WriteInt(p.year) + (WriteInt(p.temperature) + rest);
    ReadWriteInt(p.temperature, rest);
  }

  // ---------------------------------------------------------------------
  // Distances
  // ---------------------------------------------------------------------

  function Abs(x: int): nat { if x < 0 then -x else x }

  /** simpleDistance: the cheap distance, on temperature alone. */
  function SimpleDistance(a: Point, b: Point): nat
  {
    Abs(a.temperature - b.temperature)
  }

  predicate WithinT1(t: Thresholds, a: Point, b: Point)
  {
    SimpleDistance(a, b) < t.t1
  }

  predicate WithinT2(t: Thresholds, a: Point, b: Point)
  {
    SimpleDistance(a, b) < t.t2
  }

  /** The cheap distance is symmetric, zero on equal temperatures, blind to the year, and obeys the triangle inequality. */
  lemma SimpleDistanceProperties(a: Point, b: Point, c: Point)
    ensures SimpleDistance(a, b) == SimpleDistance(b, a)
    ensures SimpleDistance(a, b) == 0 <==> a.temperature == b.temperature
    ensures SimpleDistance(a, b) == SimpleDistance(Point(c.year, a.temperature), b)
    ensures SimpleDistance(a, c) <= SimpleDistance(a, b) + SimpleDistance(b, c)
  {
  }

  /** Both membership tests are symmetric, and T2 <= T1 makes withinT2 imply withinT1. */
  lemma WithinTests(t: Thresholds, a: Point, b: Point)
    ensures WithinT1(t, a, b) == WithinT1(t, b, a) && WithinT2(t, a, b) == WithinT2(t, b, a)
    ensures t.t2 <= t.t1 && WithinT2(t, a, b) ==> WithinT1(t, a, b)
  {
  }

  /** The square of complexDistance (its Math.sqrt is left out: sqrt is monotone). */
  function SquaredDistance(a: Point, b: Point): nat
  {
    var dy := a.year - b.year;
    var dt := a.temperature - b.temperature;
    dy * dy + dt * dt
  }

  lemma SquareIsZeroOnlyAtZero(x: int)
    ensures x * x >= 0
    ensures x * x == 0 <==> x == 0
  {
    if x > 0 {
      assert x * x >= x;
    } else if x < 0 {
      assert x * x == (-x) * (-x) >= -x;
    }
  }

  /** The exact distance is symmetric and vanishes exactly between equal points. */
  lemma SquaredDistanceProperties(a: Point, b: Point)
    ensures SquaredDistance(a, b) == SquaredDistance(b, a)
    ensures SquaredDistance(a, b) == 0 <==> a == b
  {
    var dy := a.year - b.year;
    var dt := a.temperature - b.temperature;
    assert (b.year - a.year) * (b.year - a.year) == dy * dy;
    assert (b.temperature - a.temperature) * (b.temperature - a.temperature) == dt * dt;
    SquareIsZeroOnlyAtZero(dy);
    SquareIsZeroOnlyAtZero(dt);
  }

  lemma SquareBound(x: int, m: nat)
    requires Abs(x) <= m
    ensures x * x <= m * m
  {
    var y := Abs(x);
    assert x * x == y * y;
    MulMonotone(y, m, y);
    MulMonotone(y, m, m);
  }

  lemma MulMonotone(a: int, b: int, n: nat)
    requires a <= b
    ensures a * n <= b * n
  {
    assert b * n - a * n == (b - a) * n;
  }

  lemma MulSucc(a: int, n: int)
    ensures a * (n + 1) == a * n + a
  {
  }

  lemma MulCancel(a: int, b: int, n: int)
    requires n > 0
    ensures a * n <= b * n ==> a <= b
    ensures a * n < b * n ==> a < b
  {
    assert b * n - a * n == (b - a) * n;
  }

  /** The ranges input/gen.py draws from. */
  predicate InGeneratorRange(p: Point)
  {
    1000 <= p.year <= 2099 && 32 <= p.temperature <= 131
  }

  /**
   * Within the generator's ranges none of the int arithmetic of simpleDistance,
   * complexDistance or hashCode leaves the int range, so the unbounded model agrees
   * with Java there.
   */
  lemma NoOverflowInGeneratorRange(a: Point, b: Point)
    requires InGeneratorRange(a) && InGeneratorRange(b)
    ensures IsInt32(SimpleDistance(a, b))
    ensures IsInt32(SquaredDistance(a, b))
    ensures HashCode(a) == 17 * a.year + 31 * a.temperature
  {
    SquareBound(a.year - b.year, 1099);
    SquareBound(a.temperature - b.temperature, 99);
  }

  // ---------------------------------------------------------------------
  // Ordering, equality, hashing
  // ---------------------------------------------------------------------

  /** equals: both fields equal. */
  function Equals(a: Point, b: Point): (r: bool)
    ensures r <==> a == b
  {
    a.year == b.year && a.temperature == b.temperature
  }

  /** compareTo of cc.dataset.DataPoint: temperature first, then year. */
  function CompareTo(a: Point, b: Point): (r: int)
    ensures r == -1 || r == 0 || r == 1
    ensures r == 0 <==> Equals(a, b)
    ensures r < 0 <==> a.temperature < b.temperature || (a.temperature == b.temperature && a.year < b.year)
  {
    if a.temperature < b.temperature then -1
    else if a.temperature == b.temperature then
      (if a.year < b.year then -1 else if a.year == b.year then 0 else 1)
    else 1
  }

  /** compareTo is antisymmetric and transitive: a total order consistent with equals. */
  lemma CompareToIsTotalOrder(a: Point, b: Point, c: Point)
    ensures CompareTo(a, b) == -CompareTo(b, a)
    ensures CompareTo(a, b) <= 0 && CompareTo(b, c) <= 0 ==> CompareTo(a, c) <= 0
  {
  }

  /** compareTo of DataPoint.TemperatureDataPoint: temperature only. */
  function CompareTemperature(a: Point, b: Point): (r: int)
    ensures r == -1 || r == 0 || r == 1
    ensures r == 0 <==> a.temperature == b.temperature
    ensures r < 0 <==> a.temperature < b.temperature
  {
    if a.temperature < b.temperature then -1
    else if a.temperature == b.temperature then 0
    else 1
  }

  /** The temperature-only compareTo calls two different points equal. */
  lemma CompareTemperatureInconsistentWithEquals()
    ensures CompareTemperature(Point(2000, 50), Point(1990, 50)) == 0
    ensures !Equals(Point(2000, 50), Point(1990, 50))
  {
  }

  /** hashCode: 17 * year + 31 * temperature in 32-bit arithmetic. */
  function HashCode(p: Point): (h: int32)
    ensures (h - (17 * p.year + 31 * p.temperature)) % 0x1_0000_0000 == 0
  {
    Wrap32(17 * p.year + 31 * p.temperature)
  }

  /** Points that are equal have equal hash codes (so they can key a HashMap). */
  lemma EqualsAgreesWithHashCode(a: Point, b: Point)
    requires Equals(a, b)
    ensures HashCode(a) == HashCode(b)
  {
  }

  // ---------------------------------------------------------------------
  // getAverageDataPoint
  // ---------------------------------------------------------------------

  datatype Field = YearField | TemperatureField

  function Get(p: Point, f: Field): int32
  {
    match f
    case YearField => p.year
    case TemperatureField => p.temperature
  }

  /** The sum of one field, accumulated front to back as the loop does. */
  function FieldSum(ps: seq<Point>, f: Field): int
  {
    if ps == [] then 0 else FieldSum(ps[..|ps| - 1], f) + Get(ps[|ps| - 1], f)
  }

  /** The smallest value of the field. */
  function FieldMin(ps: seq<Point>, f: Field): (m: int32)
    requires ps != []
    ensures forall i | 0 <= i < |ps| :: m <= Get(ps[i], f)
    ensures exists i | 0 <= i < |ps| :: m == Get(ps[i], f)
  {
    if |ps| == 1 then Get(ps[0], f)
    else
      var m := FieldMin(ps[..|ps| - 1], f);
      var x := Get(ps[|ps| - 1], f);
      assert forall i | 0 <= i < |ps| - 1 :: ps[..|ps| - 1][i] == ps[i];
      if x < m then x else m
  }

  /** The largest value of the field. */
  function FieldMax(ps: seq<Point>, f: Field): (m: int32)
    requires ps != []
    ensures forall i | 0 <= i < |ps| :: Get(ps[i], f) <= m
    ensures exists i | 0 <= i < |ps| :: m == Get(ps[i], f)
  {
    if |ps| == 1 then Get(ps[0], f)
    else
      var m := FieldMax(ps[..|ps| - 1], f);
      var x := Get(ps[|ps| - 1], f);
      assert forall i | 0 <= i < |ps| - 1 :: ps[..|ps| - 1][i] == ps[i];
      if x > m then x else m
  }

  /** Java's (int) cast of a quotient: division truncated toward zero. */
  function TruncDiv(s: int, n: int): (q: int)
    requires n > 0
    ensures 0 <= s ==> 0 <= q && q * n <= s < q * n + n
    ensures s < 0 ==> q <= 0 && q * n - n < s <= q * n
  {
    if s >= 0 then s / n else -((-s) / n)
  }

  lemma {:induction false} FieldSumBounds(ps: seq<Point>, f: Field, lo: int, hi: int)
    requires forall i | 0 <= i < |ps| :: lo <= Get(ps[i], f) <= hi
    ensures lo * |ps| <= FieldSum(ps, f) <= hi * |ps|
  {
    if ps != [] {
      var n := |ps| - 1;
      assert forall i | 0 <= i < n :: ps[..n][i] == ps[i];
      FieldSumBounds(ps[..n], f, lo, hi);
      MulSucc(lo, n);
      MulSucc(hi, n);
    }
  }

  lemma TruncDivBounds(s: int, n: int, lo: int, hi: int)
    requires n > 0 && lo * n <= s <= hi * n
    ensures lo <= TruncDiv(s, n) <= hi
  {
    var q := TruncDiv(s, n);
    if s >= 0 {
      MulCancel(lo, q + 1, n);
      MulCancel(q, hi, n);
    } else {
      MulCancel(lo, q, n);
      MulCancel(q - 1, hi, n);
    }
  }

  /** The truncated mean of a field lies between the field's minimum and maximum. */
  function Mean(ps: seq<Point>, f: Field): (m: int32)
    requires ps != []
    ensures FieldMin(ps, f) <= m <= FieldMax(ps, f)
  {
    FieldSumBounds(ps, f, FieldMin(ps, f), FieldMax(ps, f));
    TruncDivBounds(FieldSum(ps, f), |ps|, FieldMin(ps, f), FieldMax(ps, f));
    TruncDiv(FieldSum(ps, f), |ps|)
  }

  /**
   * getAverageDataPoint: the per-field mean truncated toward zero; an empty input
   * gives (0, 0), because 0.0 / 0 is NaN and (int) NaN is 0.
   */
  function Average(ps: seq<Point>): Point
  {
    if ps == [] then Point(0, 0) else Point(Mean(ps, YearField), Mean(ps, TemperatureField))
  }

  /** The loop of getAverageDataPoint: running sums and a count, then each sum divided by the count. */
  method AverageDataPoint(dataPoints: seq<Point>) returns (average: Point)
    ensures average == Average(dataPoints)
  {
    var yearSum, temperatureSum, count := 0, 0, 0;
    for i := 0 to |dataPoints|
      invariant yearSum == FieldSum(dataPoints[..i], YearField)
      invariant temperatureSum == FieldSum(dataPoints[..i], TemperatureField)
      invariant count == i
    {
      assert dataPoints[..i + 1][..i] == dataPoints[..i];
      yearSum := yearSum + dataPoints[i].year;
      temperatureSum := temperatureSum + dataPoints[i].temperature;
      count := count + 1;
    }
    assert dataPoints[..|dataPoints|] == dataPoints;
    if count == 0 {
      average := Point(0, 0);
    } else {
      var year := TruncDiv(yearSum, count);
      var temperature := TruncDiv(temperatureSum, count);
      // the quotients are the field means, which lie within the int range
      assert year == Mean(dataPoints, YearField);
      assert temperature == Mean(dataPoints, TemperatureField);
      average := Point(year, temperature);
    }
  }

  /** Each coordinate of the average lies within that coordinate's range over the input. */
  lemma AverageWithinRange(ps: seq<Point>)
    requires ps != []
    ensures FieldMin(ps, YearField) <= Average(ps).year <= FieldMax(ps, YearField)
    ensures FieldMin(ps, TemperatureField) <= Average(ps).temperature <= FieldMax(ps, TemperatureField)
  {
  }

  /** The average of n copies of p is p. */
  lemma AverageOfCopies(p: Point, n: nat)
    requires n > 0
    ensures Average(seq(n, _ => p)) == p
  {
    var ps := seq(n, _ => p);
    var ymin, ymax := FieldMin(ps, YearField), FieldMax(ps, YearField);
    var tmin, tmax := FieldMin(ps, TemperatureField), FieldMax(ps, TemperatureField);
    assert ymin == p.year == ymax;
    assert tmin == p.temperature == tmax;
  }

  lemma {:induction false} FieldSumAppend(a: seq<Point>, b: seq<Point>, f: Field)
    ensures FieldSum(a + b, f) == FieldSum(a, f) + FieldSum(b, f)
    decreases |b|
  {
    if b != [] {
      var n := |b| - 1;
      var ab := a + b;
      assert ab[..|ab| - 1] == a + b[..n];
      assert ab[|ab| - 1] == b[n];
      FieldSumAppend(a, b[..n], f);
      assert FieldSum(ab, f) == FieldSum(a + b[..n], f) + Get(b[n], f);
    } else {
      assert a + b == a;
    }
  }

  lemma {:induction false} FieldSumPermutation(ps: seq<Point>, qs: seq<Point>, f: Field)
    requires multiset(ps) == multiset(qs)
    ensures FieldSum(ps, f) == FieldSum(qs, f)
    decreases |ps|
  {
    if ps != [] {
      var n := |ps| - 1;
      var x := ps[n];
      assert ps == ps[..n] + [x];
      assert multiset(ps[..n]) == multiset(ps) - multiset{x};
      assert x in multiset(qs);
      var j :| 0 <= j < |qs| && qs[j] == x;
      var rest := qs[..j] + qs[j + 1..];
      RemoveAt(qs, j);
      FieldSumPermutation(ps[..n], rest, f);
      FieldSumRemoveAt(qs, j, f);
    }
  }

  /** Taking out the element at j takes one copy of it out of the multiset. */
  lemma RemoveAt(qs: seq<Point>, j: int)
    requires 0 <= j < |qs|
    ensures multiset(qs[..j] + qs[j + 1..]) == multiset(qs) - multiset{qs[j]}
  {
    assert qs == qs[..j] + [qs[j]] + qs[j + 1..];
  }

  /** Taking out the element at j takes its field out of the sum. */
  lemma FieldSumRemoveAt(qs: seq<Point>, j: int, f: Field)
    requires 0 <= j < |qs|
    ensures FieldSum(qs, f) == FieldSum(qs[..j] + qs[j + 1..], f) + Get(qs[j], f)
  {
    var x := qs[j];
    assert qs == qs[..j] + [x] + qs[j + 1..];
    FieldSumAppend(qs[..j] + [x], qs[j + 1..], f);
    FieldSumAppend(qs[..j], [x], f);
    FieldSumAppend(qs[..j], qs[j + 1..], f);
    assert [x][..0] == [];
  }

  /** The average does not depend on the order in which the points arrive. */
  lemma AverageIgnoresOrder(ps: seq<Point>, qs: seq<Point>)
    requires multiset(ps) == multiset(qs)
    ensures Average(ps) == Average(qs)
  {
    assert |ps| == |multiset(ps)| == |multiset(qs)| == |qs|;
    FieldSumPermutation(ps, qs, YearField);
    FieldSumPermutation(ps, qs, TemperatureField);
  }
}
