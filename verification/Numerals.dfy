/** Which texts are read as numbers, and as which: the grammar of decimal numerals with its meaning. */
module Numerals {
  import opened Options
  import opened Decimal

  datatype Sign = Unsigned | Plus | Minus

  datatype Exponent = Exponent(mark: char, sign: Sign, digits: string)

  datatype Numeral = Numeral(sign: Sign, whole: string, point: bool, frac: string, exponent: Option<Exponent>)

  /** Some digits, with or without a point among them, and an exponent that has digits too. */
  predicate IsNumeral(n: Numeral) {
    && AllDigits(n.whole) && AllDigits(n.frac) && |n.whole| + |n.frac| > 0 && (!n.point ==> n.frac == "")
    && (n.exponent.Some? ==>
          n.exponent.value.mark in {'e', 'E'} && n.exponent.value.digits != "" && AllDigits(n.exponent.value.digits))
  }

  function SignText(s: Sign): string {
    match s
    case Unsigned => ""
    case Plus => "+"
    case Minus => "-"
  }

  function MantissaText(n: Numeral): string {
    n.whole + (if n.point then "." else "") + n.frac
  }

  function ExponentText(e: Option<Exponent>): string {
    if e.None? then "" else [e.value.mark] + (SignText(e.value.sign) + e.value.digits)
  }

  function MagnitudeText(n: Numeral): string {
    MantissaText(n) + ExponentText(n.exponent)
  }

  function Spelled(n: Numeral): string {
    SignText(n.sign) + MagnitudeText(n)
  }

  function Signed(s: Sign, x: real): real {
    if s == Minus then -x else x
  }

  function ExponentValue(e: Option<Exponent>): int
    requires e.Some? ==> AllDigits(e.value.digits)
  {
    if e.None? then 0
    else
      var n: int := DigitsValue(e.value.digits);
      if e.value.sign == Minus then -n else n
  }

  /** The number that `n` spells: all its digits read as one integer, with the point and the exponent applied. */
  function Value(n: Numeral): real
    requires IsNumeral(n)
  {
    Scale(Signed(n.sign, DigitsValue(n.whole + n.frac) as real), ExponentValue(n.exponent) - |n.frac|)
  }

  ghost predicate Denotes(s: string, v: real) {
    exists n :: IsNumeral(n) && Spelled(n) == s && Value(n) == v
  }

  // ----- Digits and powers ------------------------------------------------------------------

  /** Each place to the right is worth ten times as much, on both sides of the point. */
  lemma ScaleLaw(x: real, e: int)
    ensures Scale(x, 0) == x && Scale(x, e + 1) == 10.0 * Scale(x, e)
  {
  }

  function TenTo(k: nat): nat {
    if k == 0 then 1 else 10 * TenTo(k - 1)
  }

  lemma {:induction false} ScaleIsProduct(x: real, k: nat)
    ensures Scale(x, k) == x * TenTo(k) as real
  {
    if k > 0 {
      ScaleIsProduct(x, k - 1);
      TenfoldProduct(x, TenTo(k - 1));
    }
  }

  lemma TenfoldProduct(x: real, n: nat)
    ensures x * (10 * n) as real == 10.0 * (x * n as real)
  {
  }

  lemma {:induction false} ScaleSum(x: real, y: real, e: int)
    ensures Scale(x + y, e) == Scale(x, e) + Scale(y, e)
    decreases if e < 0 then -e else e
  {
    if e > 0 {
      ScaleSum(x, y, e - 1);
    } else if e < 0 {
      ScaleSum(x, y, e + 1);
    }
  }

  lemma {:induction false} ScaleTwice(x: real, d: int, e: int)
    ensures Scale(Scale(x, d), e) == Scale(x, d + e)
    decreases if e < 0 then -e else e
  {
    if e > 0 {
      ScaleTwice(x, d, e - 1);
      ScaleLaw(x, d + e - 1);
    } else if e < 0 {
      ScaleTwice(x, d, e + 1);
      ScaleLaw(x, d + e);
    }
  }

  lemma {:induction false} ScaleSigned(sign: Sign, x: real, e: int)
    ensures Scale(Signed(sign, x), e) == Signed(sign, Scale(x, e))
    decreases if e < 0 then -e else e
  {
    if e > 0 {
      ScaleSigned(sign, x, e - 1);
    } else if e < 0 {
      ScaleSigned(sign, x, e + 1);
    }
  }

  /** A further digit, by its place in the alphabet. */
  lemma DigitLaw(s: string, d: nat)
    requires AllDigits(s) && d < 10
    ensures DigitsValue("") == 0 && DigitsValue(s + ["0123456789"[d]]) == 10 * DigitsValue(s) + d
  {
    assert "0123456789"[d] == Digit(d);
    ValueSnoc(s, d);
  }

  lemma DigitIs(c: char)
    ensures IsDigit(c) <==> c in "0123456789"
  {
    var ds := "0123456789";
    if IsDigit(c) {
      assert ds[c as int - '0' as int] == c;
    }
  }

  lemma {:induction false} DigitsConcat(a: string, b: string)
    requires AllDigits(a) && AllDigits(b)
    ensures AllDigits(a + b)
    ensures DigitsValue(a + b) as real == Scale(DigitsValue(a) as real, |b|) + DigitsValue(b) as real
  {
    if b == "" {
      assert a + b == a;
    } else {
      DigitsConcat(a, b[..|b| - 1]);
      assert (a + b)[..|a + b| - 1] == a + b[..|b| - 1];
    }
  }

  // ----- Numerals are read ---------------------------------------------------------------------

  function MantissaValue(n: Numeral): real
    requires IsNumeral(n)
  {
    DigitsValue(n.whole) as real + Scale(DigitsValue(n.frac) as real, -|n.frac|)
  }

  lemma MantissaIsScaled(n: Numeral)
    requires IsNumeral(n)
    ensures MantissaValue(n) == Scale(DigitsValue(n.whole + n.frac) as real, -|n.frac|)
  {
    var w, f, k := DigitsValue(n.whole) as real, DigitsValue(n.frac) as real, |n.frac|;
    DigitsConcat(n.whole, n.frac);
    ScaleSum(Scale(w, k), f, -k);
    ScaleTwice(w, k, -k);
  }

  /** Where a text of two parts is cut at the first of the marks, which begins the second part. */
  lemma CutAt(front: string, tail: string, marks: set<char>)
    requires forall i :: 0 <= i < |front| ==> front[i] !in marks
    requires tail != "" ==> tail[0] in marks
    ensures var s, k := front + tail, |front|;
            && IndexOfAny(s, marks) == k && s[..k] == front && (k < |s| <==> tail != "")
            && Past(s, k) == if tail == "" then "" else tail[1..]
  {
    assert forall i :: 0 <= i < |front| ==> (front + tail)[i] == front[i];
    IndexIs(front + tail, marks, |front|);
    if tail != "" {
      assert (front + tail)[|front| + 1..] == tail[1..];
    }
  }

  lemma MantissaIsRead(n: Numeral)
    requires IsNumeral(n)
    ensures ParseMantissa(MantissaText(n)) == Some(MantissaValue(n))
  {
    var tail := if n.point then "." + n.frac else "";
    assert MantissaText(n) == n.whole + tail;
    PointOf(ParseDigits, n.whole, tail, n.frac, DigitsValue(n.whole), DigitsValue(n.frac));
  }

  lemma PointOf(digits: string -> Option<int>, whole: string, tail: string, frac: string, w: int, f: int)
    requires forall i :: 0 <= i < |whole| ==> whole[i] != '.'
    requires |whole| + |frac| > 0 && (tail == "." + frac || (tail == "" && frac == ""))
    requires digits(whole) == Some(w) && digits(frac) == Some(f)
    ensures WithPoint(digits, whole + tail) == Some(w as real + Scale(f as real, -|frac|))
  {
    assert tail != "" ==> tail[1..] == frac;
    CutAt(whole, tail, {'.'});
    PointAt(digits, whole + tail, |whole|, whole, frac, w, f);
  }

  lemma PointAt(digits: string -> Option<int>, s: string, k: nat, whole: string, frac: string, w: int, f: int)
    requires IndexOfAny(s, {'.'}) == k && s[..k] == whole && Past(s, k) == frac && |whole| + |frac| > 0
    requires digits(whole) == Some(w) && digits(frac) == Some(f)
    ensures WithPoint(digits, s) == Some(w as real + Scale(f as real, -|frac|))
  {
  }

  lemma ExponentIsRead(e: Exponent)
    requires e.digits != "" && AllDigits(e.digits)
    ensures ParseExponent(SignText(e.sign) + e.digits) == Some(ExponentValue(Some(e)))
  {
    var s := SignText(e.sign) + e.digits;
    if e.sign == Unsigned {
      assert s == e.digits && IsDigit(s[0]);
    } else {
      assert s[1..] == e.digits;
    }
  }

  lemma MagnitudeOf(mantissa: string -> Option<real>, exponent: string -> Option<int>, m: string, tail: string, a: real,
                    e: int)
    requires forall i :: 0 <= i < |m| ==> m[i] !in {'e', 'E'}
    requires mantissa(m) == Some(a)
    requires if tail == "" then e == 0 else tail[0] in {'e', 'E'} && exponent(tail[1..]) == Some(e)
    ensures WithExponent(mantissa, exponent, m + tail) == Some(Scale(a, e))
  {
    CutAt(m, tail, {'e', 'E'});
  }

  lemma MantissaShape(n: Numeral)
    requires IsNumeral(n)
    ensures MantissaText(n) != ""
    ensures forall i :: 0 <= i < |MantissaText(n)| ==> IsDigit(MantissaText(n)[i]) || MantissaText(n)[i] == '.'
  {
  }

  lemma MagnitudeIsRead(n: Numeral)
    requires IsNumeral(n)
    ensures ParseMagnitude(MagnitudeText(n)) == Some(Scale(MantissaValue(n), ExponentValue(n.exponent)))
  {
    var m, tail := MantissaText(n), ExponentText(n.exponent);
    MantissaIsRead(n);
    MantissaShape(n);
    if n.exponent.Some? {
      ExponentIsRead(n.exponent.value);
      assert tail[1..] == SignText(n.exponent.value.sign) + n.exponent.value.digits;
    }
    MagnitudeOf(ParseMantissa, ParseExponent, m, tail, MantissaValue(n), ExponentValue(n.exponent));
  }

  lemma SignedIsRead(parse: string -> Option<real>, sign: Sign, u: string, v: real)
    requires u != "" && u[0] !in {'+', '-'} && parse(u) == Some(v)
    ensures WithSign(parse, SignText(sign) + u) == Some(Signed(sign, v))
  {
    var s := SignText(sign) + u;
    if sign == Unsigned {
      assert s == u;
    } else {
      assert s[1..] == u;
    }
  }

  lemma ValueIsExact(n: Numeral)
    requires IsNumeral(n)
    ensures Value(n) == Signed(n.sign, Scale(MantissaValue(n), ExponentValue(n.exponent)))
  {
    var x, e := DigitsValue(n.whole + n.frac) as real, ExponentValue(n.exponent);
    MantissaIsScaled(n);
    ScaleTwice(x, -|n.frac|, e);
    ScaleSigned(n.sign, x, e - |n.frac|);
  }

  lemma MagnitudeStart(n: Numeral)
    requires IsNumeral(n)
    ensures MagnitudeText(n) != "" && MagnitudeText(n)[0] !in {'+', '-'}
  {
    MantissaShape(n);
    assert MagnitudeText(n)[0] == MantissaText(n)[0];
  }

  /** Every numeral is read as the number it spells. */
  lemma NumeralIsRead(n: Numeral)
    requires IsNumeral(n)
    ensures ParseFloat(Spelled(n)) == Some(Value(n))
  {
    MagnitudeIsRead(n);
    MagnitudeStart(n);
    SignedIsRead(ParseMagnitude, n.sign, MagnitudeText(n), Scale(MantissaValue(n), ExponentValue(n.exponent)));
    ValueIsExact(n);
  }

  // ----- Only numerals are ----------------------------------------------------------------------------

  lemma SplitMantissa(s: string) returns (whole: string, point: bool, frac: string)
    requires ParseMantissa(s).Some?
    ensures AllDigits(whole) && AllDigits(frac) && |whole| + |frac| > 0 && (!point ==> frac == "")
    ensures s == whole + (if point then "." else "") + frac
  {
    var k := IndexOfAny(s, {'.'});
    whole, point, frac := s[..k], k < |s|, if k < |s| then s[k + 1..] else "";
    assert !point ==> s == s[..k];
    assert point ==> s == s[..k] + "." + s[k + 1..];
  }

  lemma SplitSign(s: string) returns (sign: Sign, rest: string)
    ensures s == SignText(sign) + rest
    ensures rest == if s != "" && s[0] in {'+', '-'} then s[1..] else s
  {
    if s != "" && s[0] in {'+', '-'} {
      sign, rest := if s[0] == '+' then Plus else Minus, s[1..];
      assert s == [s[0]] + s[1..];
    } else {
      sign, rest := Unsigned, s;
    }
  }

  lemma SplitExponent(s: string, mark: char) returns (e: Exponent)
    requires ParseExponent(s).Some?
    ensures e.mark == mark && e.digits != "" && AllDigits(e.digits) && s == SignText(e.sign) + e.digits
  {
    var sign, rest := SplitSign(s);
    e := Exponent(mark, sign, rest);
  }

  lemma SplitTail(tail: string) returns (e: Option<Exponent>)
    requires tail == "" || (tail[0] in {'e', 'E'} && ParseExponent(tail[1..]).Some?)
    ensures e.Some? ==> e.value.mark in {'e', 'E'} && e.value.digits != "" && AllDigits(e.value.digits)
    ensures ExponentText(e) == tail
  {
    if tail == "" {
      e := None;
    } else {
      var x := SplitExponent(tail[1..], tail[0]);
      e := Some(x);
      assert tail == [tail[0]] + tail[1..];
    }
  }

  lemma MagnitudeParts(mantissa: string -> Option<real>, exponent: string -> Option<int>, s: string)
    returns (m: string, tail: string)
    requires WithExponent(mantissa, exponent, s).Some?
    ensures s == m + tail && mantissa(m).Some?
    ensures tail == "" || (tail[0] in {'e', 'E'} && exponent(tail[1..]).Some?)
  {
    var k := IndexOfAny(s, {'e', 'E'});
    m, tail := s[..k], s[k..];
    if k < |s| {
      assert tail[1..] == s[k + 1..];
    }
  }

  lemma SplitMagnitude(s: string, sign: Sign) returns (n: Numeral)
    requires ParseMagnitude(s).Some?
    ensures IsNumeral(n) && MagnitudeText(n) == s && n.sign == sign
  {
    var m, tail := MagnitudeParts(ParseMantissa, ParseExponent, s);
    var whole, point, frac := SplitMantissa(m);
    var e := SplitTail(tail);
    n := Numeral(sign, whole, point, frac, e);
  }

  lemma OnlyNumeralsAreRead(s: string) returns (n: Numeral)
    requires ParseFloat(s).Some?
    ensures IsNumeral(n) && Spelled(n) == s
  {
    var sign, rest := SplitSign(s);
    n := SplitMagnitude(rest, sign);
  }

  /** A text is read as `v` exactly when it is a numeral that spells `v`. */
  lemma ReadIffDenotes(s: string, v: real)
    ensures ParseFloat(s) == Some(v) <==> Denotes(s, v)
  {
    if Denotes(s, v) {
      var n :| IsNumeral(n) && Spelled(n) == s && Value(n) == v;
      NumeralIsRead(n);
    } else if ParseFloat(s) == Some(v) {
      var n := OnlyNumeralsAreRead(s);
      NumeralIsRead(n);
    }
  }

  /** `v` is `d` divided by ten `k` times. */
  ghost predicate HasPlaces(v: real, k: nat, d: nat) {
    v * TenTo(k) as real == d as real
  }

  lemma ScaledBack(d: nat, k: int)
    requires k >= 0
    ensures HasPlaces(Scale(d as real, -k), k, d)
  {
    ScaleTwice(d as real, -k, k);
    ScaleIsProduct(Scale(d as real, -k), k);
  }

  /** In particular digits around a point: those of both sides, divided by ten for each digit after it. */
  lemma PointIsRead(w: string, f: string)
    requires AllDigits(w) && AllDigits(f) && |w| + |f| > 0
    ensures ParseFloat(w + "." + f).Some? && HasPlaces(ParseFloat(w + "." + f).value, |f|, DigitsValue(w + f))
  {
    var n := Numeral(Unsigned, w, true, f, None);
    assert Spelled(n) == w + "." + f;
    NumeralIsRead(n);
    ScaledBack(DigitsValue(w + f), |f|);
  }
}
