/** Decimal numbers as text: three-place printing and float parsing, on exact reals. */
module Decimal {
  import opened Options
  import opened Text

  // ----- Digits ---------------------------------------------------------------------------

  predicate IsDigit(c: char) {
    '0' <= c <= '9'
  }

  function Digit(d: nat): (c: char)
    requires d < 10
    ensures IsDigit(c)
  {
    ('0' as int + d) as char
  }

  function DigitOf(c: char): nat
    requires IsDigit(c)
  {
    (c as int) - ('0' as int)
  }

  predicate AllDigits(s: string) {
    forall k :: 0 <= k < |s| ==> IsDigit(s[k])
  }

  function DigitsValue(s: string): nat
    requires AllDigits(s)
  {
    if s == "" then 0 else 10 * DigitsValue(s[..|s| - 1]) + DigitOf(s[|s| - 1])
  }

  /** Without leading zeros, except for zero itself. */
  function NatDigits(n: nat): (s: string)
    ensures s != "" && AllDigits(s) && (s[0] == '0' ==> n == 0)
  {
    if n < 10 then [Digit(n)] else NatDigits(n / 10) + [Digit(n % 10)]
  }

  function ThreeDigits(n: nat): (s: string)
    requires n < 1000
    ensures |s| == 3 && AllDigits(s)
  {
    [Digit(n / 100), Digit(n / 10 % 10), Digit(n % 10)]
  }

  lemma {:induction false} NatDigitsValue(n: nat)
    ensures DigitsValue(NatDigits(n)) == n
  {
    if n < 10 {
      ValueSnoc("", n);
      assert "" + [Digit(n)] == [Digit(n)];
    } else {
      NatDigitsValue(n / 10);
      ValueSnoc(NatDigits(n / 10), n % 10);
    }
  }

  lemma ThreeDigitsValue(n: nat)
    requires n < 1000
    ensures DigitsValue(ThreeDigits(n)) == n
  {
    var s := ThreeDigits(n);
    ValueSnoc("", n / 100);
    ValueSnoc([s[0]], n / 10 % 10);
    ValueSnoc([s[0], s[1]], n % 10);
    assert "" + [s[0]] == [s[0]] && [s[0]] + [s[1]] == [s[0], s[1]] && [s[0], s[1]] + [s[2]] == s;
    assert n / 10 == 10 * (n / 100) + n / 10 % 10;
  }

  lemma ValueSnoc(s: string, d: nat)
    requires AllDigits(s) && d < 10
    ensures DigitsValue(s + [Digit(d)]) == 10 * DigitsValue(s) + d
  {
    assert (s + [Digit(d)])[..|s|] == s;
  }

  // ----- Printing -----------------------------------------------------------------------------

  /** Nearest integer, ties to even. */
  function RoundHalfEven(x: real): int {
    var f := x.Floor;
    var r := x - f as real;
    if r < 0.5 || (r == 0.5 && f % 2 == 0) then f else f + 1
  }

  /** Thousandths of the magnitude. */
  function Millis(x: real): (m: nat) {
    RoundHalfEven((if x < 0.0 then -x else x) * 1000.0)
  }

  function SignedMillis(negative: bool, m: nat): real {
    if negative then -(m as real / 1000.0) else m as real / 1000.0
  }

  /** The value that three-place printing keeps. */
  function RoundedMs(x: real): real {
    SignedMillis(x < 0.0, Millis(x))
  }

  lemma RoundingError(x: real)
    ensures -0.0005 <= RoundedMs(x) - x <= 0.0005
  {
  }

  /** A nearest thousandth of the magnitude, the even one of two. */
  lemma MillisAreNearest(x: real)
    ensures var d := Millis(x) as real - (if x < 0.0 then -x else x) * 1000.0;
            -0.5 <= d <= 0.5 && (d == 0.5 || d == -0.5 ==> Millis(x) % 2 == 0)
    ensures RoundedMs(x) * 1000.0 == if x < 0.0 then -(Millis(x) as real) else Millis(x) as real
  {
  }

  function PrintUnsigned(m: nat): string {
    NatDigits(m / 1000) + "." + ThreeDigits(m % 1000)
  }

  function PrintSigned(negative: bool, m: nat): string {
    (if negative then "-" else "") + PrintUnsigned(m)
  }

  function PrintFixed3(x: real): string {
    PrintSigned(x < 0.0, Millis(x))
  }

  // ----- Parsing --------------------------------------------------------------------------------

  /** Position of the first character of `cs`, or the length of `s`. */
  function IndexOfAny(s: string, cs: set<char>): (k: nat)
    ensures k <= |s|
    ensures forall i :: 0 <= i < k ==> s[i] !in cs
    ensures k < |s| ==> s[k] in cs
  {
    if s == "" || s[0] in cs then 0 else 1 + IndexOfAny(s[1..], cs)
  }

  lemma IndexIs(s: string, cs: set<char>, k: nat)
    requires k <= |s| && (k < |s| ==> s[k] in cs) && forall i :: 0 <= i < k ==> s[i] !in cs
    ensures IndexOfAny(s, cs) == k
  {
  }

  /** `x` with its decimal point moved `e` places to the right. */
  function Scale(x: real, e: int): real
    decreases if e < 0 then -e else e
  {
    if e == 0 then x else if e > 0 then 10.0 * Scale(x, e - 1) else Scale(x, e + 1) / 10.0
  }

  function ParseDigits(s: string): Option<int> {
    if AllDigits(s) then Some(DigitsValue(s)) else None
  }

  /** What follows a mark at `k`, if there is one. */
  function Past(s: string, k: nat): string {
    if k < |s| then s[k + 1..] else ""
  }

  /** What `digits` accepts on both sides of an optional point, on one side at least something. */
  function WithPoint(digits: string -> Option<int>, s: string): Option<real> {
    var k := IndexOfAny(s, {'.'});
    var whole, frac := s[..k], Past(s, k);
    var w, f := digits(whole), digits(frac);
    if w.None? || f.None? || |whole| + |frac| == 0 then None
    else Some(w.value as real + Scale(f.value as real, -|frac|))
  }

  function ParseMantissa(s: string): Option<real> {
    WithPoint(ParseDigits, s)
  }

  function ParseExponent(s: string): Option<int> {
    var ds := if s != "" && s[0] in {'+', '-'} then s[1..] else s;
    if ds == "" || !AllDigits(ds) then None
    else
      var n: int := DigitsValue(ds);
      Some(if s[0] == '-' then -n else n)
  }

  /** What `mantissa` accepts, then an optional exponent. */
  function WithExponent(mantissa: string -> Option<real>, exponent: string -> Option<int>, s: string): Option<real> {
    var k := IndexOfAny(s, {'e', 'E'});
    var m := mantissa(s[..k]);
    var e := if k < |s| then exponent(Past(s, k)) else Some(0);
    if m.None? || e.None? then None else Some(Scale(m.value, e.value))
  }

  /** Digits with an optional point, optional exponent. */
  function ParseMagnitude(s: string): Option<real> {
    WithExponent(ParseMantissa, ParseExponent, s)
  }

  /** An optional sign, then what `parse` accepts. */
  function WithSign(parse: string -> Option<real>, s: string): Option<real> {
    var magnitude := parse(if s != "" && s[0] in {'+', '-'} then s[1..] else s);
    if magnitude.None? then None
    else Some(if s != "" && s[0] == '-' then -magnitude.value else magnitude.value)
  }

  function ParseFloat(s: string): Option<real> {
    WithSign(ParseMagnitude, s)
  }

  // ----- Parsing undoes printing -------------------------------------------------------------------

  lemma MantissaRoundTrip(m: nat)
    ensures ParseMantissa(PrintUnsigned(m)) == Some(m as real / 1000.0)
  {
    var whole, frac := NatDigits(m / 1000), ThreeDigits(m % 1000);
    var s := PrintUnsigned(m);
    assert s[|whole|] == '.' && forall i :: 0 <= i < |whole| ==> s[i] == whole[i];
    IndexIs(s, {'.'}, |whole|);
    assert s[..|whole|] == whole && s[|whole| + 1..] == frac;
    NatDigitsValue(m / 1000);
    ThreeDigitsValue(m % 1000);
    var f := (m % 1000) as real;
    assert Scale(f, -3) == f / 1000.0 by {
      assert Scale(f, 0) == f && Scale(f, -1) == f / 10.0 && Scale(f, -2) == f / 100.0;
    }
    assert m == m / 1000 * 1000 + m % 1000;
  }

  /** Only digits and a point. */
  lemma UnsignedShape(m: nat)
    ensures PrintUnsigned(m) != ""
    ensures forall k :: 0 <= k < |PrintUnsigned(m)| ==>
      IsDigit(PrintUnsigned(m)[k]) || PrintUnsigned(m)[k] == '.'
    ensures IsDigit(PrintUnsigned(m)[0])
  {
  }

  lemma NoExponent(u: string, v: real)
    requires ParseMantissa(u) == Some(v) && forall k :: 0 <= k < |u| ==> IsDigit(u[k]) || u[k] == '.'
    ensures ParseMagnitude(u) == Some(v)
  {
    IndexIs(u, {'e', 'E'}, |u|);
    assert u[..|u|] == u;
    assert Scale(v, 0) == v;
  }

  lemma SignIsRead(parse: string -> Option<real>, u: string, v: real, negative: bool)
    requires u != "" && u[0] !in {'+', '-'} && parse(u) == Some(v)
    ensures WithSign(parse, (if negative then "-" else "") + u) == Some(if negative then -v else v)
  {
    if negative {
      var s := "-" + u;
      assert s[0] == '-' && s[1..] == u;
    } else {
      assert "" + u == u;
    }
  }

  lemma MagnitudeRoundTrip(m: nat)
    ensures ParseMagnitude(PrintUnsigned(m)) == Some(m as real / 1000.0)
    ensures PrintUnsigned(m) != "" && PrintUnsigned(m)[0] !in {'+', '-'}
  {
    UnsignedShape(m);
    MantissaRoundTrip(m);
    NoExponent(PrintUnsigned(m), m as real / 1000.0);
  }

  lemma SignedRoundTrip(m: nat, negative: bool)
    ensures ParseFloat(PrintSigned(negative, m)) == Some(SignedMillis(negative, m))
  {
    MagnitudeRoundTrip(m);
    SignIsRead(ParseMagnitude, PrintUnsigned(m), m as real / 1000.0, negative);
  }

  lemma FloatRoundTrip(x: real)
    ensures ParseFloat(PrintFixed3(x)) == Some(RoundedMs(x))
  {
    SignedRoundTrip(Millis(x), x < 0.0);
  }

  lemma PrintedIsWord(x: real)
    ensures IsWord(PrintFixed3(x))
  {
    UnsignedShape(Millis(x));
  }
}
