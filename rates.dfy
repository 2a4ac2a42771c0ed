/**
 * The text form of rates.
 *
 * The plan catalogue holds each rate as the text of a CSV cell, which the
 * calculator turns into a number with Python's `float`; the answer is written
 * back with the `:.2f` format. Here rates are exact decimal numbers (`real`):
 * `ParseRate` reads the decimal notation `float` accepts (sign, digits,
 * fraction, exponent) and `FormatRate` writes a rate with two decimals,
 * rounding half to even as the format does.
 */
module Rates {
  import opened Wrappers

  predicate IsDigit(c: char) {
    '0' <= c <= '9'
  }

  predicate AllDigits(s: string) {
    forall i | 0 <= i < |s| :: IsDigit(s[i])
  }

  function DigitValue(c: char): nat
    requires IsDigit(c)
  {
    c as int - '0' as int
  }

  /** The number a non-empty or empty run of decimal digits denotes (0 for the empty run). */
  function DigitsValue(s: string): nat
    requires AllDigits(s)
  {
    if s == [] then 0 else 10 * DigitsValue(s[..|s| - 1]) + DigitValue(s[|s| - 1])
  }

  function Pow10(n: nat): (p: nat)
    ensures p >= 1
  {
    if n == 0 then 1 else 10 * Pow10(n - 1)
  }

  /** The index of the first character of `s` that is in `cs`, or `|s|` if there is none. */
  function Find(s: string, cs: set<char>): (i: nat)
    ensures i <= |s|
    ensures i < |s| ==> s[i] in cs
    ensures forall j | 0 <= j < i :: s[j] !in cs
  {
    if s == [] || s[0] in cs then 0 else 1 + Find(s[1..], cs)
  }

  /** Splits off one leading `+` or `-`; the flag says whether it was `-`. */
  function SplitSign(s: string): (r: (bool, string))
    ensures if |s| > 0 && s[0] in {'+', '-'} then r == (s[0] == '-', s[1..]) else r == (false, s)
  {
    if |s| > 0 && (s[0] == '+' || s[0] == '-') then (s[0] == '-', s[1..]) else (false, s)
  }

  function Negate(negative: bool, v: real): real {
    if negative then -v else v
  }

  /** `10^e` applied to `m`, for an exponent of either sign. */
  function Scale(m: real, e: int): (r: real)
    ensures m >= 0.0 ==> r >= 0.0
  {
    if e >= 0 then m * Pow10(e) as real else m / Pow10(-e) as real
  }

  /** The digits before and after the decimal point: `ddd`, `ddd.`, `.ddd` or `ddd.ddd`. */
  function ParseMantissa(s: string): (r: Option<real>)
    ensures r.Some? ==> r.value >= 0.0
    ensures r.Some? ==> |s| > 0
  {
    var p := Find(s, {'.'});
    var whole := s[..p];
    var frac := if p < |s| then s[p + 1..] else "";
    if AllDigits(whole) && AllDigits(frac) && |whole| + |frac| > 0 then
      Some(DigitsValue(whole) as real + DigitsValue(frac) as real / Pow10(|frac|) as real)
    else
      None
  }

  /** The exponent after `e` or `E`: an optional sign and at least one digit. */
  function ParseExponent(s: string): Option<int> {
    var (negative, digits) := SplitSign(s);
    if |digits| > 0 && AllDigits(digits) then
      Some(if negative then -(DigitsValue(digits) as int) else DigitsValue(digits))
    else
      None
  }

  /** A rate without its sign: a mantissa, then an optional exponent. */
  function ParseUnsigned(s: string): (r: Option<real>)
    ensures r.Some? ==> r.value >= 0.0
  {
    var e := Find(s, {'e', 'E'});
    var mantissa := ParseMantissa(s[..e]);
    var exponent := if e < |s| then ParseExponent(s[e + 1..]) else Some(0);
    if mantissa.None? || exponent.None? then None
    else Some(Scale(mantissa.value, exponent.value))
  }

  /**
   * The number a rate cell denotes, or `None` when `float` would raise on it.
   * A cell that parses has at least one digit and at most one sign, decimal
   * point and exponent marker.
   */
  function ParseRate(s: string): (r: Option<real>)
    ensures r.Some? ==> |s| > 0
  {
    var (negative, body) := SplitSign(s);
    var magnitude := ParseUnsigned(body);
    if magnitude.None? then None else Some(Negate(negative, magnitude.value))
  }

  function DigitChar(d: nat): (c: char)
    requires d < 10
    ensures IsDigit(c) && DigitValue(c) == d
  {
    ('0' as int + d) as char
  }

  /** The decimal numeral of `n`, without leading zeros. */
  function NatToString(n: nat): (s: string)
    ensures |s| > 0 && AllDigits(s) && DigitsValue(s) == n
    ensures s[0] == '0' ==> s == "0"
  {
    if n < 10 then [DigitChar(n)]
    else
      var s := NatToString(n / 10) + [DigitChar(n % 10)];
      assert s[..|s| - 1] == NatToString(n / 10);
      s
  }

  /** `c` cents written as units, a point and exactly two decimals. */
  function FormatCents(c: nat): (s: string)
    ensures |s| >= 4 && s[|s| - 3] == '.'
    ensures forall i | 0 <= i < |s| && i != |s| - 3 :: IsDigit(s[i])
    ensures s[0] == '0' ==> |s| == 4
  {
    NatToString(c / 100) + "." + [DigitChar(c % 100 / 10), DigitChar(c % 10)]
  }

  function Abs(x: real): (a: real)
    ensures a >= 0.0 && (a == x || a == -x)
  {
    if x < 0.0 then -x else x
  }

  /** The integer nearest to `x`; a tie goes to the even neighbour. */
  function RoundHalfEven(x: real): (n: int)
    ensures -0.5 <= x - n as real <= 0.5
    ensures (x - n as real == 0.5 || n as real - x == 0.5) ==> n % 2 == 0
    ensures x >= 0.0 ==> n >= 0
    ensures x == x.Floor as real ==> n == x.Floor
  {
    var f := x.Floor;
    var d := x - f as real;
    if d < 0.5 then f
    else if d > 0.5 then f + 1
    else if f % 2 == 0 then f
    else f + 1
  }

  /** The `:.2f` rendering of a rate: a `-` for a negative rate, then its magnitude in cents. */
  function FormatRate(r: real): (s: string)
    ensures |s| >= 4
  {
    (if r < 0.0 then "-" else "") + FormatCents(RoundHalfEven(Abs(r) * 100.0))
  }

  /**
   * The shape of the rendering: a `-` exactly for a negative rate, then the
   * units without leading zeros, a point and exactly two decimals.
   */
  lemma FormatRateShape(r: real)
    ensures var s, k := FormatRate(r), if r < 0.0 then 1 else 0;
      && |s| >= k + 4
      && ((s[0] == '-') <==> r < 0.0)
      && s[|s| - 3] == '.'
      && (forall i | k <= i < |s| && i != |s| - 3 :: IsDigit(s[i]))
      && (s[k] == '0' ==> |s| == k + 4)
  {
    var t := FormatCents(RoundHalfEven(Abs(r) * 100.0));
    assert FormatRate(r) == (if r < 0.0 then "-" else "") + t;
  }

  /** `Find` stops exactly at the first character of the set. */
  lemma FindFirst(s: string, cs: set<char>, k: nat)
    requires k <= |s|
    requires k < |s| ==> s[k] in cs
    requires forall j | 0 <= j < k :: s[j] !in cs
    ensures Find(s, cs) == k
  {
  }

  lemma TwoDigitsValue(d1: char, d2: char)
    requires IsDigit(d1) && IsDigit(d2)
    ensures DigitsValue([d1, d2]) == 10 * DigitValue(d1) + DigitValue(d2)
  {
    assert [d1][..0] == [];
    assert DigitsValue([d1]) == DigitValue(d1);
    assert [d1, d2][..1] == [d1];
  }

  /** Reading back the two-decimal rendering of a whole number of cents gives that amount. */
  lemma ParseFormatCents(c: nat)
    ensures ParseUnsigned(FormatCents(c)) == Some(c as real / 100.0)
  {
    var s := FormatCents(c);
    FindFirst(s, {'e', 'E'}, |s|);
    assert s[..|s|] == s;
    CentsMantissa(c);
  }

  /** The mantissa of the rendering of `c` cents: units, then exactly two decimals. */
  lemma CentsMantissa(c: nat)
    ensures ParseMantissa(FormatCents(c)) == Some(c as real / 100.0)
  {
    var w := NatToString(c / 100);
    var s := FormatCents(c);
    var d1, d2 := DigitChar(c % 100 / 10), DigitChar(c % 10);
    assert s == w + ['.', d1, d2];
    FindFirst(s, {'.'}, |w|);
    assert s[..|w|] == w;
    assert s[|w| + 1..] == [d1, d2];
    TwoDigitsValue(d1, d2);
    assert DigitsValue([d1, d2]) == c % 100;
    assert Pow10(2) == 100;
    CentsSplit(c);
  }

  lemma CentsSplit(c: nat)
    ensures (c / 100) as real + (c % 100) as real / 100.0 == c as real / 100.0
  {
    assert (c / 100) * 100 + c % 100 == c;
  }

  /** A rate that is a whole number `c` of cents survives rendering and reading back unchanged. */
  lemma ParseFormatRate(c: int)
    ensures ParseRate(FormatRate(c as real / 100.0)) == Some(c as real / 100.0)
  {
    var r := c as real / 100.0;
    assert Negate(r < 0.0, RoundHalfEven(Abs(r) * 100.0) as real / 100.0) == r by {
      WholeCents(c);
    }
    ParseFormatRead(r);
  }

  /** Rounding a whole number of cents gives back its magnitude, and the sign restores it. */
  lemma WholeCents(c: int)
    ensures RoundHalfEven(Abs(c as real / 100.0) * 100.0) == if c < 0 then -c else c
    ensures (c as real / 100.0 < 0.0) == (c < 0)
    ensures Negate(c < 0, (if c < 0 then -c else c) as real / 100.0) == c as real / 100.0
  {
    var r := c as real / 100.0;
    var m := if c < 0 then -c else c;
    assert Abs(r) * 100.0 == m as real;
  }

  /** Reading back the rendering of any rate gives it to within half a cent. */
  lemma FormatRateWithinHalfCent(r: real)
    ensures ParseRate(FormatRate(r)).Some?
    ensures -0.005 <= ParseRate(FormatRate(r)).value - r <= 0.005
  {
    ParseFormatRead(r);
  }

  /** The rendering of `r` reads back as the rounded cent amount, with the sign of `r`. */
  lemma ParseFormatRead(r: real)
    ensures ParseRate(FormatRate(r)) == Some(Negate(r < 0.0, RoundHalfEven(Abs(r) * 100.0) as real / 100.0))
  {
    var c := RoundHalfEven(Abs(r) * 100.0);
    var t := FormatCents(c);
    assert IsDigit(t[0]);
    ParseFormatCents(c);
    ReadSigned(r < 0.0, t);
    assert FormatRate(r) == (if r < 0.0 then "-" else "") + t;
  }

  /** A leading `-`, or none, in front of an unsigned rate starting with a digit. */
  lemma ReadSigned(negative: bool, t: string)
    requires |t| > 0 && IsDigit(t[0])
    ensures ParseRate((if negative then "-" else "") + t) ==
      if ParseUnsigned(t).None? then None else Some(Negate(negative, ParseUnsigned(t).value))
  {
    var s := (if negative then "-" else "") + t;
    if negative {
      assert s[0] == '-' && s[1..] == t;
    } else {
      assert s == t;
    }
  }
}
