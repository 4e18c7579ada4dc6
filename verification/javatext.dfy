/**
 * The pieces of java.lang that the core's text handling relies on: 32-bit ints,
 * String.indexOf, Integer.parseInt and Integer.toString (decimal, ASCII digits).
 */
module JavaText {
  import opened Wrappers

  const MinInt: int := -0x8000_0000
  const MaxInt: int := 0x7fff_ffff

  predicate IsInt32(x: int) { MinInt <= x <= MaxInt }

  /** Java's int. */
  type int32 = x: int | MinInt <= x <= MaxInt

  /** The value Java's 32-bit two's-complement arithmetic gives for the exact result x. */
  function Wrap32(x: int): (r: int32)
    ensures IsInt32(x) ==> r == x
    ensures (r - x) % 0x1_0000_0000 == 0
  {
    (x - MinInt) % 0x1_0000_0000 + MinInt
  }

  /** String.indexOf(c): the first position of c, or -1. */
  function IndexOf(s: string, c: char): (r: int)
    ensures -1 <= r < |s|
    ensures r == -1 <==> c !in s
    ensures 0 <= r ==> s[r] == c && c !in s[..r]
  {
    if |s| == 0 then -1
    else if s[0] == c then 0
    else
      var k := IndexOf(s[1..], c);
      assert s[1..][..if k < 0 then 0 else k] == s[1..1 + if k < 0 then 0 else k];
      if k == -1 then -1 else k + 1
  }

  lemma {:induction false} IndexOfPrefix(a: string, b: string, c: char)
    requires c !in a
    ensures IndexOf(a + b, c) == if c in b then |a| + IndexOf(b, c) else -1
  {
    var s := a + b;
    if c in b {
      var k := IndexOf(b, c);
      assert s[|a| + k] == c;
      assert s[..|a| + k] == a + b[..k];
    }
  }

  predicate IsDigit(ch: char) { '0' <= ch <= '9' }

  predicate AllDigits(s: string) { forall i | 0 <= i < |s| :: IsDigit(s[i]) }

  function DigitValue(ch: char): nat
    requires IsDigit(ch)
  {
    ch as int - '0' as int
  }

  function DigitChar(d: nat): (ch: char)
    requires d < 10
    ensures IsDigit(ch) && DigitValue(ch) == d
  {
    ('0' as int + d) as char
  }

  /** The number a string of decimal digits denotes, most significant digit first. */
  function DigitsValue(s: string): nat
    requires AllDigits(s)
  {
    if s == [] then 0 else DigitsValue(s[..|s| - 1]) * 10 + DigitValue(s[|s| - 1])
  }

  /**
   * Integer.parseInt(s): an optional '-' or '+', then one or more digits, and the
   * value must fit in an int; anything else is a NumberFormatException.
   */
  function ParseInt(s: string): (r: Option<int32>)
    ensures r.Some? ==> |s| > 0 && (s[0] == '-' || s[0] == '+' || IsDigit(s[0]))
    ensures r.Some? ==> AllDigits(if s[0] == '-' || s[0] == '+' then s[1..] else s)
  {
    if |s| == 0 then None
    else
      var digits := if s[0] == '-' || s[0] == '+' then s[1..] else s;
      if |digits| == 0 || !AllDigits(digits) then None
      else
        var v: int := if s[0] == '-' then -(DigitsValue(digits) as int) else DigitsValue(digits);
        if IsInt32(v) then Some(v) else None
  }

  /** Decimal digits of n, without leading zeros. */
  function NatToString(n: nat): (s: string)
    ensures |s| > 0 && AllDigits(s)
  {
    if n < 10 then [DigitChar(n)] else NatToString(n / 10) + [DigitChar(n % 10)]
  }

  /** Integer.toString(n) (also Long.toString and the string conversion of `+`). */
  function IntToString(n: int): (s: string)
    ensures |s| > 0
  {
    if n < 0 then "-" + NatToString(-n) else NatToString(n)
  }

  lemma {:induction false} NatToStringValue(n: nat)
    ensures DigitsValue(NatToString(n)) == n
  {
    if n >= 10 {
      NatToStringValue(n / 10);
      var s := NatToString(n);
      assert s[..|s| - 1] == NatToString(n / 10);
    }
  }

  /** Only digits and a leading minus sign: no comma and no tab. */
  lemma IntToStringChars(n: int)
    ensures ',' !in IntToString(n) && '\t' !in IntToString(n)
    ensures n >= 0 ==> AllDigits(IntToString(n))
  {
    var s := IntToString(n);
    forall i | 0 <= i < |s| ensures s[i] != ',' && s[i] != '\t' {
      if n < 0 && i > 0 {
        assert s[i] == NatToString(-n)[i - 1];
      }
    }
  }

  /** Integer.parseInt(Integer.toString(n)) == n for every int. */
  lemma {:induction false} ParseIntToString(n: int32)
    ensures ParseInt(IntToString(n)) == Some(n)
  {
    var s := IntToString(n);
    var m: int := n;
    if m < 0 {
      var d := NatToString(-m);
      assert s[0] == '-' && s[1..] == d;
      NatToStringValue(-m);
      assert -(DigitsValue(d) as int) == m;
    } else {
      NatToStringValue(n);
      assert IsDigit(s[0]);
    }
  }

  /** Integer.parseInt never accepts a string holding a comma or a tab. */
  lemma ParseIntRejects(s: string, ch: char)
    requires ch == ',' || ch == '\t'
    requires ch in s
    ensures ParseInt(s) == None
  {
    var i :| 0 <= i < |s| && s[i] == ch;
    if s[0] == '-' || s[0] == '+' {
      assert s[1..][i - 1] == ch;
    }
  }
}
