/**
 * The text lines the stages exchange: reference files read by the setup
 * methods and the convergence check, and the tab-separated records Hadoop's
 * text output writes for a (key, value) pair.
 */
module Records {
  import opened Wrappers
  import opened JavaText
  import opened DataPoints

  /** How a line of a reference file is turned into a point. */
  datatype LineFormat =
    | WholeLine      // new DataPoint(line)
    | AfterFirstTab  // new DataPoint(line.substring(line.indexOf("\t") + 1))
    | FromIndexTwo   // new DataPoint(line.substring(2))

  function ParseLine(fmt: LineFormat, line: string): Result<Point>
  {
    match fmt
    case WholeLine => Parse(line)
    case AfterFirstTab => Parse(line[IndexOf(line, '\t') + 1..])
    case FromIndexTwo => if |line| < 2 then Failure(StringIndexOutOfBounds) else Parse(line[2..])
  }

  /** The line text output writes for the pair (key, p). */
  function LabelledLine(key: int, p: Point): string
  {
    IntToString(key) + "\t" + ToText(p)
  }

  /** Keeping what follows the first tab of a + TAB + b gives b, when a holds no tab. */
  lemma AfterFirstTabSkipsKey(a: string, b: string)
    requires '\t' !in a
    ensures ParseLine(AfterFirstTab, a + "\t" + b) == Parse(b)
  {
    var line := a + "\t" + b;
    assert line == a + ("\t" + b);
    IndexOfPrefix(a, "\t" + b, '\t');
    assert line[|a| + 1..] == b;
  }

  /** Keeping what follows the first tab reads back the point of a labelled line, whatever its key. */
  lemma AfterFirstTabReadsLabelledLine(key: int, p: Point)
    ensures ParseLine(AfterFirstTab, LabelledLine(key, p)) == Success(p)
  {
    IntToStringChars(key);
    AfterFirstTabSkipsKey(IntToString(key), ToText(p));
    ParseToText(p);
  }

  /** Dropping two characters reads back the point of a line whose key is one digit. */
  lemma FromIndexTwoReadsOneDigitLabel(key: int, p: Point)
    requires 0 <= key < 10
    ensures ParseLine(FromIndexTwo, LabelledLine(key, p)) == Success(p)
  {
    assert LabelledLine(key, p)[2..] == ToText(p);
    ParseToText(p);
  }

  /** A line whose text before its first comma holds a tab fails in parseInt. */
  lemma TabBeforeCommaRejected(head: string, tail: string)
    requires ',' !in head && '\t' in head
    ensures Parse(head + "," + tail) == Failure(NumberFormat)
  {
    IndexOfPrefix(head, "," + tail, ',');
    assert head + "," + tail == head + ("," + tail);
    assert (head + "," + tail)[..|head|] == head;
    ParseIntRejects(head, '\t');
  }

  /** With a key of two or more digits, dropping two characters leaves a tab before the comma. */
  lemma FromIndexTwoRejectsLongLabel(key: int, p: Point)
    requires key >= 10
    ensures ParseLine(FromIndexTwo, LabelledLine(key, p)) == Failure(NumberFormat)
  {
    var a := IntToString(key);
    assert a == NatToString(key / 10) + [DigitChar(key % 10)];
    IntToStringChars(key);
    IntToStringChars(p.year);
    var head := a[2..] + "\t" + IntToString(p.year);
    var tail := IntToString(p.temperature);
    assert LabelledLine(key, p)[2..] == head + "," + tail;
    assert ',' !in a[2..];
    assert head[|a| - 2] == '\t';
    TabBeforeCommaRejected(head, tail);
  }

  /** Integer.parseInt of an unsigned run of digits is the number they denote. */
  lemma ParseIntOfDigits(s: string)
    requires s != [] && AllDigits(s) && DigitsValue(s) <= MaxInt
    ensures ParseInt(s) == Some(DigitsValue(s))
  {
    assert IsDigit(s[0]);
  }

  /** The characters of a four-digit number from index two on are its last two digits. */
  lemma FourDigitTail(y: nat)
    requires 1000 <= y <= 9999
    ensures var d := NatToString(y)[2..];
            |d| == 2 && AllDigits(d) && DigitsValue(d) == y % 100
  {
    var hi := NatToString(y / 100);
    assert hi == NatToString(y / 1000) + [DigitChar((y / 100) % 10)];
    assert NatToString(y / 10) == hi + [DigitChar((y / 10) % 10)];
    var d := [DigitChar((y / 10) % 10), DigitChar(y % 10)];
    assert NatToString(y) == hi + d;
    assert NatToString(y)[2..] == d;
    assert d[..1] == [d[0]] && [d[0]][..0] == [];
    assert DigitsValue(d[..1]) == (y / 10) % 10;
    assert DigitsValue(d) == (y / 10) % 10 * 10 + y % 10;
  }

  /**
   * Dropping two characters of an unlabelled line whose year has four digits
   * cuts the year down to its last two digits.
   */
  lemma FromIndexTwoMisreadsRawLine(p: Point)
    requires 1000 <= p.year <= 9999
    ensures ParseLine(FromIndexTwo, ToText(p)) == Success(Point(p.year % 100, p.temperature))
  {
    var a, b := IntToString(p.year), IntToString(p.temperature);
    FourDigitTail(p.year);
    var d := a[2..];
    assert ToText(p)[2..] == d + "," + b;
    assert ',' !in d by {
      assert IsDigit(d[0]) && IsDigit(d[1]);
    }
    ParseIntOfDigits(d);
    ParseIntToString(p.temperature);
    ParseSides(d, b);
  }

  /** The points a reference file yields, up to the first line that throws, and that line's exception. */
  datatype Parsed = Parsed(points: seq<Point>, failure: Option<Exception>)

  /** Reading per-line results in order: the points up to the first exception, and that exception. */
  function Collect(results: seq<Result<Point>>): (r: Parsed)
    ensures |r.points| <= |results|
    ensures forall i | 0 <= i < |r.points| :: results[i] == Success(r.points[i])
    ensures r.failure.None? ==> |r.points| == |results|
    ensures r.failure.Some? ==> |r.points| < |results| && results[|r.points|] == Failure(r.failure.value)
  {
    if results == [] then Parsed([], None)
    else if results[0].Failure? then Parsed([], Some(results[0].error))
    else
      var rest := Collect(results[1..]);
      assert forall i | 1 <= i < |results| :: results[1..][i - 1] == results[i];
      Parsed([results[0].value] + rest.points, rest.failure)
  }

  /** The result of parsing each line on its own. */
  function LineResults(fmt: LineFormat, lines: seq<string>): (r: seq<Result<Point>>)
    ensures |r| == |lines|
    ensures forall i | 0 <= i < |lines| :: r[i] == ParseLine(fmt, lines[i])
  {
    seq(|lines|, i requires 0 <= i < |lines| => ParseLine(fmt, lines[i]))
  }

  /** A setup read loop: the points of the lines before the first that throws, and that exception. */
  function ParseLines(fmt: LineFormat, lines: seq<string>): (r: Parsed)
    ensures |r.points| <= |lines|
    ensures forall i | 0 <= i < |r.points| :: ParseLine(fmt, lines[i]) == Success(r.points[i])
    ensures r.failure.None? ==> |r.points| == |lines|
    ensures r.failure.Some? ==>
              |r.points| < |lines| && ParseLine(fmt, lines[|r.points|]) == Failure(r.failure.value)
  {
    Collect(LineResults(fmt, lines))
  }

  /** Reading labelled lines after their first tab gives back exactly their points. */
  lemma {:induction false} ParseLabelledLines(keys: seq<int>, ps: seq<Point>)
    requires |keys| == |ps|
    ensures ParseLines(AfterFirstTab, seq(|ps|, i requires 0 <= i < |ps| => LabelledLine(keys[i], ps[i])))
            == Parsed(ps, None)
  {
    var lines := seq(|ps|, i requires 0 <= i < |ps| => LabelledLine(keys[i], ps[i]));
    var r := ParseLines(AfterFirstTab, lines);
    forall i | 0 <= i < |ps|
      ensures ParseLine(AfterFirstTab, lines[i]) == Success(ps[i])
    {
      AfterFirstTabReadsLabelledLine(keys[i], ps[i]);
    }
    assert r.failure.None?;
  }

  /** When the results before position |ps| are ps, Collect gets at least that far. */
  lemma {:induction false} CollectStopsAt(results: seq<Result<Point>>, ps: seq<Point>)
    requires |ps| <= |results|
    requires forall j | 0 <= j < |ps| :: results[j] == Success(ps[j])
    ensures |ps| < |results| && results[|ps|].Failure? ==> Collect(results) == Parsed(ps, Some(results[|ps|].error))
    ensures |ps| == |results| ==> Collect(results) == Parsed(ps, None)
  {
    if ps != [] {
      CollectStopsAt(results[1..], ps[1..]);
      assert results[1..][|ps| - 1..] == results[|ps|..];
    }
  }

  /** When every line before position |ps| parses to ps, ParseLines gets at least that far. */
  lemma ParseLinesStopsAt(fmt: LineFormat, lines: seq<string>, ps: seq<Point>)
    requires |ps| <= |lines|
    requires forall j | 0 <= j < |ps| :: ParseLine(fmt, lines[j]) == Success(ps[j])
    ensures |ps| < |lines| && ParseLine(fmt, lines[|ps|]).Failure? ==>
              ParseLines(fmt, lines) == Parsed(ps, Some(ParseLine(fmt, lines[|ps|]).error))
    ensures |ps| == |lines| ==> ParseLines(fmt, lines) == Parsed(ps, None)
  {
    CollectStopsAt(LineResults(fmt, lines), ps);
  }

  /** One more result after a clean prefix: it is added, or it ends the read with its exception. */
  lemma CollectSnoc(results: seq<Result<Point>>, i: nat)
    requires i < |results| && Collect(results[..i]).failure.None?
    ensures results[i].Success? ==>
              Collect(results[..i + 1]) == Parsed(Collect(results[..i]).points + [results[i].value], None)
    ensures results[i].Failure? ==>
              Collect(results) == Parsed(Collect(results[..i]).points, Some(results[i].error))
  {
    var ps := Collect(results[..i]).points;
    assert forall j | 0 <= j < i :: results[..i][j] == results[j];
    if results[i].Success? {
      var qs := ps + [results[i].value];
      assert forall j | 0 <= j < i + 1 :: results[..i + 1][j] == results[j];
      assert forall j | 0 <= j < i :: qs[j] == ps[j];
      CollectStopsAt(results[..i + 1], qs);
    } else {
      CollectStopsAt(results, ps);
    }
  }

  /** The read loop of a setup method: parse line after line and stop at the first exception. */
  method ReadPoints(fmt: LineFormat, lines: seq<string>) returns (points: seq<Point>, outcome: Outcome)
    ensures ParseLines(fmt, lines) == Parsed(points, if outcome.Pass? then None else Some(outcome.error))
  {
    points, outcome := [], Pass;
    ghost var results := LineResults(fmt, lines);
    var i := 0;
    while i < |lines|
      invariant 0 <= i <= |lines|
      invariant Collect(results[..i]) == Parsed(points, None)
    {
      var line := ParseLine(fmt, lines[i]);
      CollectSnoc(results, i);
      if line.Failure? {
        outcome := Fail(line.error);
        return;
      }
      points := points + [line.value];
      i := i + 1;
    }
    assert results[..i] == results;
  }

  /** The "canopy centre TAB point" record: both halves parsed, no tab a StringIndexOutOfBounds. */
  function ParseRecord(line: string): Result<(Point, Point)>
  {
    var k := IndexOf(line, '\t');
    if k < 0 then Failure(StringIndexOutOfBounds)
    else
      var c := Parse(line[..k]);
      if c.Failure? then Failure(c.error)
      else
        var p := Parse(line[k + 1..]);
        if p.Failure? then Failure(p.error)
        else Success((c.value, p.value))
  }

  /** The records CanopyAssign writes are read back as the pair they came from. */
  lemma ParseRecordOfPair(c: Point, p: Point)
    ensures ParseRecord(ToText(c) + "\t" + ToText(p)) == Success((c, p))
  {
    var a, b := ToText(c), ToText(p);
    var line := a + "\t" + b;
    assert line == a + ("\t" + b);
    IntToStringChars(c.year);
    IntToStringChars(c.temperature);
    assert '\t' !in a;
    IndexOfPrefix(a, "\t" + b, '\t');
    assert IndexOf(line, '\t') == |a|;
    assert line[..|a|] == a;
    assert line[|a| + 1..] == b;
    ParseToText(c);
    ParseToText(p);
  }
}
