/** The decimal renderings `fmt.Sprintf` produces for the verbs the client
    uses: `%d` for integers and `%.6f` for 64-bit floats, each paired with a
    parser that reads the rendering back. */
module Decimal {
  import opened Wrappers

  predicate IsDigit(c: char) {
    '0' <= c <= '9'
  }

  predicate AllDigits(s: string) {
    forall i | 0 <= i < |s| :: IsDigit(s[i])
  }

  function DigitOf(c: char): nat
    requires IsDigit(c)
  {
    c as int - '0' as int
  }

  function DigitChar(d: nat): (c: char)
    requires d < 10
    ensures IsDigit(c) && DigitOf(c) == d
  {
    (d + '0' as int) as char
  }

  /** The number a digit string denotes in base 10. */
  function ValueOf(s: string): nat
    requires AllDigits(s)
  {
    if |s| == 0 then 0 else 10 * ValueOf(s[..|s| - 1]) + DigitOf(s[|s| - 1])
  }

  /** A base-10 numeral in shortest form: non-empty, and "0" is the only one
      that starts with a zero. */
  predicate Canonical(s: string) {
    |s| > 0 && AllDigits(s) && (s[0] == '0' ==> |s| == 1)
  }

  /** `%d` of a non-negative integer. */
  function NatDigits(n: nat): (s: string)
    ensures Canonical(s) && ValueOf(s) == n
    decreases n
  {
    if n < 10 then [DigitChar(n)]
    else
      var init := NatDigits(n / 10);
      var s := init + [DigitChar(n % 10)];
      assert s[..|s| - 1] == init;
      s
  }

  lemma {:induction false} ValueOfBound(s: string)
    requires Canonical(s) && |s| > 1
    ensures ValueOf(s) >= 10
    decreases |s|
  {
    var init := s[..|s| - 1];
    if |init| > 1 {
      assert init[0] == s[0];
      ValueOfBound(init);
    } else {
      assert init[0] == s[0];
      assert DigitOf(init[0]) > 0;
      assert init[..0] == [];
    }
  }

  /** Every canonical numeral is the `%d` rendering of its value. */
  lemma {:induction false} NatDigitsOfValue(s: string)
    requires Canonical(s)
    ensures NatDigits(ValueOf(s)) == s
    decreases |s|
  {
    if |s| == 1 {
      assert s[..0] == [];
    } else {
      var init := s[..|s| - 1];
      assert init[0] == s[0];
      ValueOfBound(s);
      NatDigitsOfValue(init);
      assert s == init + [s[|s| - 1]];
    }
  }

  /** Reads a canonical numeral. */
  function ParseNat(s: string): (r: Option<nat>)
    ensures r.Some? <==> Canonical(s)
    ensures r.Some? ==> NatDigits(r.value) == s
  {
    if Canonical(s) then NatDigitsOfValue(s); Some(ValueOf(s)) else None
  }

  /** `%d` of an integer: a minus sign before the digits of a negative one. */
  function FormatInt(i: int): (s: string)
    ensures |s| > 0
    ensures i >= 0 ==> Canonical(s)
    ensures i < 0 ==> s[0] == '-' && Canonical(s[1..])
  {
    if i < 0 then "-" + NatDigits(-i) else NatDigits(i)
  }

  /** Reads what `FormatInt` writes; "-0" is not such a rendering. */
  function ParseInt(s: string): Option<int> {
    if |s| > 0 && s[0] == '-' then
      match ParseNat(s[1..])
      case Some(n) => if n > 0 then Some(-(n as int)) else None
      case None => None
    else
      match ParseNat(s)
      case Some(n) => Some(n)
      case None => None
  }

  /** `%d` loses nothing: the integer is read back from its rendering. */
  lemma FormatIntRoundTrip(i: int)
    ensures ParseInt(FormatInt(i)) == Some(i)
  {
    if i < 0 {
      assert FormatInt(i)[1..] == NatDigits(-i);
    }
  }

  /** `%d` is injective: distinct integers never print alike. */
  lemma FormatIntInjective(i: int, j: int)
    requires FormatInt(i) == FormatInt(j)
    ensures i == j
  {
    FormatIntRoundTrip(i);
    FormatIntRoundTrip(j);
  }

  function Pow10(n: nat): (p: nat)
    ensures p >= 1
  {
    if n == 0 then 1 else 10 * Pow10(n - 1)
  }

  /** `n`, which has at most `width` digits, written with exactly `width`
      digits, zero-padded on the left. */
  function FixedDigits(n: nat, width: nat): (s: string)
    requires n < Pow10(width)
    ensures |s| == width && AllDigits(s)
    ensures ValueOf(s) == n
  {
    if width == 0 then ""
    else
      var init := FixedDigits(n / 10, width - 1);
      var s := init + [DigitChar(n % 10)];
      assert s[..|s| - 1] == init;
      s
  }

  lemma Pow10Six()
    ensures Pow10(6) == 1000000
  {
    assert Pow10(3) == 1000;
  }

  /** A 64-bit float as far as `%.6f` can observe it: its sign and its
      magnitude rounded to millionths, or one of the non-finite values. */
  datatype Float64 = Finite(negative: bool, micros: nat) | Infinite(negative: bool) | NaN

  const Million: nat := 1000000

  /** `%.6f`: a sign for negative values, the integral digits, a point and
      exactly six fractional digits; "+Inf", "-Inf" or "NaN" otherwise. */
  function FormatFixed6(f: Float64): (s: string)
    ensures |s| > 0
    ensures f.Finite? ==> |s| >= 8 && s[|s| - 7] == '.' && AllDigits(s[|s| - 6..])
  {
    match f
    case Finite(neg, m) =>
      Pow10Six();
      var s := (if neg then "-" else "") + NatDigits(m / Million) + "." + FixedDigits(m % Million, 6);
      assert s[|s| - 6..] == FixedDigits(m % Million, 6);
      s
    case Infinite(neg) => if neg then "-Inf" else "+Inf"
    case NaN => "NaN"
  }

  /** Reads what `FormatFixed6` writes. */
  function ParseFixed6(s: string): Option<Float64> {
    if s == "NaN" then Some(NaN)
    else if s == "+Inf" then Some(Infinite(false))
    else if s == "-Inf" then Some(Infinite(true))
    else if |s| > 0 && s[0] == '-' then ParseMagnitude(s[1..], true)
    else ParseMagnitude(s, false)
  }

  /** Reads integral digits, a point and exactly six fractional digits. */
  function ParseMagnitude(body: string, neg: bool): Option<Float64> {
    if |body| < 8 || body[|body| - 7] != '.' || !AllDigits(body[|body| - 6..]) then None
    else
      match ParseNat(body[..|body| - 7])
      case Some(whole) => Some(Finite(neg, whole * Million + ValueOf(body[|body| - 6..])))
      case None => None
  }

  lemma ParseMagnitudeParts(neg: bool, whole: string, frac: string)
    requires Canonical(whole) && |frac| == 6 && AllDigits(frac)
    ensures ParseMagnitude(whole + "." + frac, neg) == Some(Finite(neg, ValueOf(whole) * Million + ValueOf(frac)))
  {
    var body := whole + "." + frac;
    assert body[|body| - 7] == '.';
    assert body[..|body| - 7] == whole;
    assert body[|body| - 6..] == frac;
    assert AllDigits(body[|body| - 6..]);
    assert ParseNat(body[..|body| - 7]) == Some(ValueOf(whole));
  }

  /** A rendering without a leading minus sign is read as a magnitude. */
  lemma ParseUnsigned(s: string)
    requires |s| >= 8 && s[0] != '-'
    ensures ParseFixed6(s) == ParseMagnitude(s, false)
  {
  }

  /** A rendering with a leading minus sign is read as a negated magnitude. */
  lemma ParseSigned(s: string)
    requires |s| >= 9 && s[0] == '-'
    ensures ParseFixed6(s) == ParseMagnitude(s[1..], true)
  {
  }

  /** `%.6f` loses nothing the model keeps: the float is read back from its
      rendering. */
  lemma FormatFixed6RoundTrip(f: Float64)
    ensures ParseFixed6(FormatFixed6(f)) == Some(f)
  {
    if f.Finite? {
      Pow10Six();
      var m := f.micros;
      var whole := NatDigits(m / Million);
      var frac := FixedDigits(m % Million, 6);
      var body := whole + "." + frac;
      ParseMagnitudeParts(f.negative, whole, frac);
      assert m == (m / Million) * Million + m % Million;
      if f.negative {
        assert FormatFixed6(f) == "-" + body;
        ParseSigned("-" + body);
        assert ("-" + body)[1..] == body;
      } else {
        assert FormatFixed6(f) == body;
        assert body[0] == whole[0];
        ParseUnsigned(body);
      }
    }
  }

  /** A multiple of ten written with one more digit ends in a zero. */
  lemma FixedDigitsZero(n: nat, width: nat, init: string)
    requires n % 10 == 0 && n < Pow10(width + 1)
    requires init == FixedDigits(n / 10, width)
    ensures FixedDigits(n, width + 1) == init + "0"
  {
  }

  /** The six fractional digits of 1.1. */
  lemma FractionOfOneTenth()
    ensures FixedDigits(100000, 6) == "100000"
  {
    Pow10Six();
    FixedDigitsZero(10, 1, "1");
    FixedDigitsZero(100, 2, "10");
    FixedDigitsZero(1000, 3, "100");
    FixedDigitsZero(10000, 4, "1000");
    FixedDigitsZero(100000, 5, "10000");
  }

  /** `%.6f` of 1.1 and `%d` of 1, as the client's tests expect them. */
  lemma FormatExamples()
    ensures FormatInt(1) == "1"
    ensures FormatFixed6(Finite(false, 1100000)) == "1.100000"
  {
    Pow10Six();
    assert NatDigits(1) == "1";
    FractionOfOneTenth();
  }
}
