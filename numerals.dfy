/**
 * Decimal numerals as the program meets them: Python's `str` of an integer
 * (used for the row numbers and for the id in an output file name), Python's
 * `int` of a typed menu choice, and Python's `float` of a `total` cell,
 * restricted to plain decimal notation.
 */
module Numerals {
  import opened Wrappers

  predicate IsDigit(c: char) {
    '0' <= c <= '9'
  }

  predicate AllDigits(s: string) {
    forall i :: 0 <= i < |s| ==> IsDigit(s[i])
  }

  function DigitValue(c: char): (d: nat)
    requires IsDigit(c)
    ensures d < 10
  {
    (c as int - '0' as int) as nat
  }

  function DigitChar(d: nat): (c: char)
    requires d < 10
    ensures IsDigit(c) && DigitValue(c) == d
  {
    (d + '0' as int) as char
  }

  /** The value of a string of decimal digits, most significant first ("" is 0). */
  function DigitsValue(s: string): nat
    requires AllDigits(s)
  {
    if s == [] then 0
    else DigitsValue(s[..|s| - 1]) * 10 + DigitValue(s[|s| - 1])
  }

  function Pow10(n: nat): (p: nat)
    ensures p >= 1
  {
    if n == 0 then 1 else 10 * Pow10(n - 1)
  }

  /** Python's `str(n)` for a non-negative integer: digits without leading zeros. */
  function NatToString(n: nat): (s: string)
    ensures |s| > 0 && AllDigits(s)
    ensures |s| > 1 ==> s[0] != '0'
  {
    if n < 10 then [DigitChar(n)]
    else NatToString(n / 10) + [DigitChar(n % 10)]
  }

  /** Python's `str(i)` for any integer: a minus sign before the magnitude when negative. */
  function IntToString(i: int): (s: string)
    ensures |s| > 0
    ensures s[0] == '-' <==> i < 0
    ensures var d := if i < 0 then s[1..] else s;
            |d| > 0 && AllDigits(d) && (|d| > 1 ==> d[0] != '0')
  {
    if i < 0 then "-" + NatToString(-i) else NatToString(i)
  }

  /**
   * Python's `int(text)`: an optional sign followed by at least one digit;
   * None stands for the ValueError it raises on anything else.
   */
  function ParseInt(s: string): (r: Option<int>)
    ensures r.Some? <==> (|s| > 0 && AllDigits(s)) ||
                         (|s| > 1 && (s[0] == '-' || s[0] == '+') && AllDigits(s[1..]))
    ensures r.Some? ==> exists k :: 0 <= k < |s| && IsDigit(s[k])
    ensures r.Some? && r.value < 0 ==> s[0] == '-'
  {
    if |s| > 0 && (s[0] == '-' || s[0] == '+') then
      var body := s[1..];
      if |body| > 0 && AllDigits(body) then
        var magnitude: int := DigitsValue(body);
        Some(if s[0] == '-' then -magnitude else magnitude)
      else None
    else if |s| > 0 && AllDigits(s) then Some(DigitsValue(s))
    else None
  }

  /** Index of the first occurrence of `c` in `s`, or `|s|` when there is none. */
  function IndexOf(s: string, c: char): (k: nat)
    ensures k <= |s|
    ensures k < |s| ==> s[k] == c
    ensures forall j :: 0 <= j < k ==> s[j] != c
  {
    if s == [] then 0
    else if s[0] == c then 0
    else 1 + IndexOf(s[1..], c)
  }

  /** The value of a decimal with a point: whole digits plus fraction digits scaled down. */
  function DecimalValue(whole: string, fraction: string): real
    requires AllDigits(whole) && AllDigits(fraction)
  {
    DigitsValue(whole) as real + DigitsValue(fraction) as real / Pow10(|fraction|) as real
  }

  /**
   * Plain decimal notation without a sign: a non-empty digit run, or digit
   * runs on both sides of one point with at least one digit in all.
   */
  predicate DecimalText(u: string) {
    (|u| > 0 && AllDigits(u)) ||
    (|u| > 1 && exists k :: 0 <= k < |u| && u[k] == '.' && AllDigits(u[..k]) && AllDigits(u[k + 1..]))
  }

  /** Splitting at the first point decides `DecimalText`. */
  lemma DecimalTextAtFirstPoint(u: string)
    ensures var k := IndexOf(u, '.');
            var fraction := if k < |u| then u[k + 1..] else "";
            DecimalText(u) <==> AllDigits(u[..k]) && AllDigits(fraction) && k + |fraction| > 0
  {
    var k := IndexOf(u, '.');
    if k == |u| {
      assert u[..k] == u;
    } else {
      assert !IsDigit(u[k]);
      // no later point can close a digit-only whole part: it would contain u[k]
      forall j | k < j <= |u| ensures !AllDigits(u[..j]) {
        assert u[..j][k] == '.';
      }
    }
  }

  /** The non-negative number written `digits`, `digits.digits`, `digits.` or `.digits`. */
  function ParseUnsignedDecimal(s: string): (r: Option<real>)
    ensures r.Some? <==> DecimalText(s)
  {
    DecimalTextAtFirstPoint(s);
    var k := IndexOf(s, '.');
    var whole := s[..k];
    var fraction := if k < |s| then s[k + 1..] else "";
    if AllDigits(whole) && AllDigits(fraction) && |whole| + |fraction| > 0 then
      Some(DecimalValue(whole, fraction))
    else None
  }

  /**
   * Python's `float(text)` restricted to plain decimal notation with an
   * optional sign; None stands for the exception `float` raises.
   */
  function ParseDecimal(s: string): (r: Option<real>)
    ensures r.Some? <==> DecimalText(s) || (|s| > 0 && (s[0] == '-' || s[0] == '+') && DecimalText(s[1..]))
    ensures r.Some? ==> exists k :: 0 <= k < |s| && IsDigit(s[k])
  {
    SignIsNotDecimal(s);
    if |s| > 0 && (s[0] == '-' || s[0] == '+') then
      match ParseUnsignedDecimal(s[1..])
      case Some(v) => Some(if s[0] == '-' then -v else v)
      case None => None
    else ParseUnsignedDecimal(s)
  }

  /** Text that starts with a sign is not unsigned decimal text. */
  lemma SignIsNotDecimal(s: string)
    ensures |s| > 0 && (s[0] == '-' || s[0] == '+') ==> !DecimalText(s)
  {
    if |s| > 0 && (s[0] == '-' || s[0] == '+') {
      assert !IsDigit(s[0]);
      forall k | 0 < k <= |s| ensures !AllDigits(s[..k]) {
        assert s[..k][0] == s[0];
      }
    }
  }

  lemma {:induction false} NatToStringRoundTrip(n: nat)
    ensures DigitsValue(NatToString(n)) == n
  {
    if n >= 10 {
      var s := NatToString(n);
      assert s[..|s| - 1] == NatToString(n / 10);
      NatToStringRoundTrip(n / 10);
    }
  }

  /** `int(str(i)) == i`: the number printed for a row or an id reads back as itself. */
  lemma ParseIntRoundTrip(i: int)
    ensures ParseInt(IntToString(i)) == Some(i)
  {
    var digits := NatToString(if i < 0 then -i else i);
    NatToStringRoundTrip(if i < 0 then -i else i);
    assert IsDigit(digits[0]);
    if i < 0 {
      assert IntToString(i)[1..] == digits;
    } else {
      assert IntToString(i) == digits;
    }
  }

  /** Distinct integers print differently. */
  lemma IntToStringInjective(a: int, b: int)
    requires IntToString(a) == IntToString(b)
    ensures a == b
  {
    ParseIntRoundTrip(a);
    ParseIntRoundTrip(b);
  }

  lemma {:induction false} IndexOfAbsent(s: string, c: char)
    requires forall j :: 0 <= j < |s| ==> s[j] != c
    ensures IndexOf(s, c) == |s|
  {
    if s != [] {
      IndexOfAbsent(s[1..], c);
    }
  }

  lemma UnsignedDecimalOfDigits(s: string)
    requires |s| > 0 && AllDigits(s)
    ensures ParseUnsignedDecimal(s) == Some(DigitsValue(s) as real)
  {
    assert forall j :: 0 <= j < |s| ==> s[j] != '.';
    IndexOfAbsent(s, '.');
    assert s[..|s|] == s;
    assert DecimalValue(s, "") == DigitsValue(s) as real by {
      assert Pow10(0) == 1 && DigitsValue("") == 0;
    }
  }

  /** `float(str(i)) == i`: an integer `total` cell is parsed to its own value. */
  lemma ParseDecimalOfInt(i: int)
    ensures ParseDecimal(IntToString(i)) == Some(i as real)
  {
    var s := IntToString(i);
    if i < 0 {
      assert s[1..] == NatToString(-i);
      UnsignedDecimalOfDigits(NatToString(-i));
      NatToStringRoundTrip(-i);
    } else {
      assert IsDigit(s[0]);
      UnsignedDecimalOfDigits(s);
      NatToStringRoundTrip(i);
    }
  }

  /**
   * Every digit string with an optional sign parses to the value it spells,
   * leading zeros and a leading `+` included: `int("02") == int("+2") == 2`.
   */
  lemma ParseDigits(d: string)
    requires |d| > 0 && AllDigits(d)
    ensures ParseInt(d) == Some(DigitsValue(d))
    ensures ParseInt("+" + d) == Some(DigitsValue(d))
    ensures ParseInt("-" + d) == Some(-(DigitsValue(d) as int))
  {
    assert IsDigit(d[0]);
    ParseSigned('+', d);
    ParseSigned('-', d);
  }

  lemma ParseSigned(sign: char, d: string)
    requires sign == '+' || sign == '-'
    requires |d| > 0 && AllDigits(d)
    ensures ParseInt([sign] + d) ==
            Some(if sign == '-' then -(DigitsValue(d) as int) else DigitsValue(d))
  {
    var s := [sign] + d;
    assert s[0] == sign && s[1..] == d;
  }

  lemma NonCanonicalNumerals()
    ensures ParseInt("02") == Some(2) && ParseInt("+2") == Some(2) && ParseInt("-0") == Some(0)
  {
    ParseDigits("2");
    ParseDigits("0");
    assert DigitsValue("02") == DigitsValue("0") * 10 + 2;
  }

  lemma UnsignedDecimalOfParts(whole: string, fraction: string)
    requires AllDigits(whole) && AllDigits(fraction) && |whole| + |fraction| > 0
    ensures ParseUnsignedDecimal(whole + "." + fraction) == Some(DecimalValue(whole, fraction))
  {
    var s := whole + "." + fraction;
    var k := IndexOf(s, '.');
    assert s[|whole|] == '.';
    assert forall j :: 0 <= j < |whole| ==> s[j] == whole[j];
    assert k == |whole|;
    assert s[..k] == whole;
    assert s[k + 1..] == fraction;
  }

  /** A sign in front of an unsigned decimal negates it or leaves it. */
  lemma ParseDecimalSigned(sign: char, s: string, v: real)
    requires sign == '+' || sign == '-'
    requires ParseUnsignedDecimal(s) == Some(v)
    ensures ParseDecimal([sign] + s) == Some(if sign == '-' then -v else v)
  {
    var t := [sign] + s;
    assert t[0] == sign && t[1..] == s;
  }

  /**
   * `float("w.f")` is the value the digits spell: totals with cents are
   * parsed exactly, as `ParseDecimalOfInt` does for integers.
   */
  lemma ParseDecimalOfParts(whole: string, fraction: string)
    requires AllDigits(whole) && AllDigits(fraction) && |whole| + |fraction| > 0
    ensures ParseDecimal(whole + "." + fraction) == Some(DecimalValue(whole, fraction))
  {
    var s := whole + "." + fraction;
    UnsignedDecimalOfParts(whole, fraction);
    assert s[0] != '-' && s[0] != '+' by {
      if |whole| > 0 { assert s[0] == whole[0] && IsDigit(whole[0]); } else { assert s[0] == '.'; }
    }
  }

  lemma TotalWithCents()
    ensures ParseDecimal("20.5") == Some(20.5)
  {
    TwentyAndAHalf();
    ParseDecimalOfParts("20", "5");
    assert "20" + "." + "5" == "20.5";
  }

  lemma TwentyAndAHalf()
    ensures DecimalValue("20", "5") == 20.5
  {
    TwentyDigits();
    assert DigitsValue("5") == 5 && Pow10(1) == 10;
  }

  lemma TwentyDigits()
    ensures DigitsValue("20") == 20
  {
    assert "20"[..1] == "2";
  }

  lemma FractionOnly()
    ensures ParseDecimal("-.5") == Some(-0.5)
  {
    PointFive();
    ParseDecimalSigned('-', ".5", 0.5);
    assert ['-'] + ".5" == "-.5";
  }

  lemma PointFive()
    ensures ParseUnsignedDecimal(".5") == Some(0.5)
  {
    assert DigitsValue("5") == 5 && Pow10(1) == 10;
    assert DecimalValue("", "5") == 0.5;
    UnsignedDecimalOfParts("", "5");
    assert "" + "." + "5" == ".5";
  }

  /** A decimal comma makes a total unparsable. */
  lemma CommaTotal()
    ensures ParseDecimal("1500,50") == None
  {
    var comma := "1500,50";
    assert !IsDigit(comma[4]) && comma[4] != '.';
    IndexOfAbsent(comma, '.');
    DecimalTextAtFirstPoint(comma);
  }

  /** A second point makes a total unparsable. */
  lemma TwoPointTotal()
    ensures ParseDecimal("1.2.3") == None
  {
    var points := "1.2.3";
    assert IndexOf(points, '.') == 1;
    assert !IsDigit(points[2..][1]);
    DecimalTextAtFirstPoint(points);
  }
}
