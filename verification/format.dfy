/**
 * Fixed-point formatting of a number with a given count of decimals
 * (`formatFloat` in timeit.js): the sign is split off, the magnitude is scaled
 * by 10^decimals and rounded half up, the digit string is left-padded with
 * zeros until it is longer than `decimals`, and a '.' is inserted `decimals`
 * characters from its end.
 *
 * Numbers are exact reals here; the floating-point error of the source's
 * `value * power + 0.5` is not modelled.
 */
module Format {

  /** 10 to the power d. */
  function Pow10(d: nat): (p: nat)
    ensures p >= 1
  {
    if d == 0 then 1 else 10 * Pow10(d - 1)
  }

  predicate IsDigit(c: char) {
    '0' <= c <= '9'
  }

  predicate AllDigits(s: string) {
    forall i :: 0 <= i < |s| ==> IsDigit(s[i])
  }

  function DigitChar(d: nat): (c: char)
    requires d < 10
    ensures IsDigit(c)
  {
    ('0' as int + d) as char
  }

  function DigitValue(c: char): (d: nat)
    requires IsDigit(c)
    ensures d < 10 && DigitChar(d) == c
  {
    c as int - '0' as int
  }

  /** The numeral that JavaScript's `toString()` writes for a non-negative integer. */
  function Decimal(n: nat): (s: string)
    ensures |s| >= 1 && AllDigits(s)
    ensures |s| > 1 ==> s[0] != '0'
  {
    if n < 10 then [DigitChar(n)] else Decimal(n / 10) + [DigitChar(n % 10)]
  }

  /** The number a string of decimal digits denotes. */
  function DecimalValue(s: string): nat
    requires AllDigits(s)
  {
    if s == [] then 0 else 10 * DecimalValue(s[..|s| - 1]) + DigitValue(s[|s| - 1])
  }

  /** Reading back the numeral of n gives n. */
  lemma {:induction false} DecimalRoundTrip(n: nat)
    ensures DecimalValue(Decimal(n)) == n
  {
    if n >= 10 {
      DecimalRoundTrip(n / 10);
      var s := Decimal(n);
      assert s[..|s| - 1] == Decimal(n / 10);
    }
  }

  /** k zero characters. */
  function Zeros(k: nat): (z: string)
    ensures |z| == k && AllDigits(z)
  {
    if k == 0 then [] else ['0'] + Zeros(k - 1)
  }

  lemma AllDigitsConcat(a: string, b: string)
    requires AllDigits(a) && AllDigits(b)
    ensures AllDigits(a + b)
  {
    forall i | 0 <= i < |a + b| ensures IsDigit((a + b)[i]) {
      if i < |a| { assert (a + b)[i] == a[i]; } else { assert (a + b)[i] == b[i - |a|]; }
    }
  }

  lemma ShiftDigit(high: nat, low: nat, p: nat, last: nat)
    ensures 10 * (high * p + low) + last == high * (10 * p) + (10 * low + last)
  {
  }

  /** Reading a digit string splits at any point into a high and a low part. */
  lemma {:induction false} DecimalValueSplit(a: string, b: string)
    requires AllDigits(a) && AllDigits(b)
    ensures AllDigits(a + b)
    ensures DecimalValue(a + b) == DecimalValue(a) * Pow10(|b|) + DecimalValue(b)
  {
    AllDigitsConcat(a, b);
    if b == [] {
      assert a + b == a;
    } else {
      var b' := b[..|b| - 1];
      var last := DigitValue(b[|b| - 1]);
      assert (a + b)[..|a + b| - 1] == a + b';
      assert (a + b)[|a + b| - 1] == b[|b| - 1];
      DecimalValueSplit(a, b');
      ShiftDigit(DecimalValue(a), DecimalValue(b'), Pow10(|b'|), last);
    }
  }

  /** Leading zeros do not change the number a digit string denotes. */
  lemma {:induction false} LeadingZerosValue(k: nat, s: string)
    requires AllDigits(s)
    ensures AllDigits(Zeros(k) + s) && DecimalValue(Zeros(k) + s) == DecimalValue(s)
  {
    DecimalValueSplit(Zeros(k), s);
    ZerosValue(k);
  }

  lemma {:induction false} ZerosValue(k: nat)
    ensures DecimalValue(Zeros(k)) == 0
  {
    if k > 0 {
      DecimalValueSplit(['0'], Zeros(k - 1));
      ZerosValue(k - 1);
    }
  }

  /**
   * The digit string once the padding loop is done: zeros are put in front
   * until the string is longer than `decimals`.
   */
  function Padded(digits: string, decimals: nat): string {
    if |digits| <= decimals then Zeros(decimals + 1 - |digits|) + digits else digits
  }

  /** The padding keeps the digits and their value and makes room for `decimals` of them after the point. */
  lemma PaddedProperties(digits: string, decimals: nat)
    requires AllDigits(digits)
    ensures var p := Padded(digits, decimals);
      |p| > decimals && AllDigits(p) && DecimalValue(p) == DecimalValue(digits)
  {
    if |digits| <= decimals {
      LeadingZerosValue(decimals + 1 - |digits|, digits);
    }
  }

  /**
   * The text before the '.': `digits.slice(0, -decimals)`. JavaScript reads
   * `-0` as 0, so with no decimals the slice is empty.
   */
  function IntegerPart(digits: string, decimals: nat): string
    requires |digits| > decimals
  {
    if decimals == 0 then [] else digits[..|digits| - decimals]
  }

  /** The text after the '.': `digits.slice(-decimals)`, the whole string when there are no decimals. */
  function FractionPart(digits: string, decimals: nat): string
    requires |digits| > decimals
  {
    if decimals == 0 then digits else digits[|digits| - decimals..]
  }

  /** The string formatFloat builds from the sign and the rounded, scaled magnitude. */
  function Formatted(negative: bool, decimals: nat, rounded: nat): string {
    var digits := Padded(Decimal(rounded), decimals);
    PaddedProperties(Decimal(rounded), decimals);
    (if negative then "-" else "") + IntegerPart(digits, decimals) + "." + FractionPart(digits, decimals)
  }

  /** Rounds a non-negative real half up: `Math.floor(x + 0.5)`. */
  function RoundHalfUp(x: real): (n: nat)
    requires x >= 0.0
    ensures n as real - 0.5 <= x < n as real + 0.5
  {
    (x + 0.5).Floor
  }

  function Abs(x: real): real {
    if x < 0.0 then -x else x
  }

  /** `Math.floor(magnitude * power + 0.5)`, the rounded, scaled magnitude. */
  function RoundScaled(magnitude: real, power: nat): nat
    requires magnitude >= 0.0
  {
    RoundHalfUp(magnitude * power as real)
  }

  /** What `formatFloat(value, decimals)` returns. */
  function FormatFloatOf(value: real, decimals: nat): string {
    Formatted(value < 0.0, decimals, RoundScaled(Abs(value), Pow10(decimals)))
  }

  /** The power loop of formatFloat. */
  method PowerOfTen(decimals: nat) returns (power: nat)
    ensures power == Pow10(decimals)
  {
    power := 1;
    for i := 0 to decimals
      invariant power == Pow10(i)
    {
      power := power * 10;
    }
  }

  /** The padding loop of formatFloat. */
  method PadDigits(digits: string, decimals: nat) returns (padded: string)
    ensures padded == Padded(digits, decimals)
  {
    padded := digits;
    while |padded| <= decimals
      invariant |padded| >= |digits|
      invariant |digits| <= decimals ==> |padded| <= decimals + 1
      invariant |digits| > decimals ==> padded == digits
      invariant padded == Zeros(|padded| - |digits|) + digits
      decreases decimals + 1 - |padded|
    {
      padded := "0" + padded;
    }
  }

  /** formatFloat: sign, power loop, rounding, numeral, padding loop and the two slices. */
  method FormatFloat(value: real, decimals: nat) returns (s: string)
    ensures s == FormatFloatOf(value, decimals)
  {
    var sign := "";
    var magnitude := value;
    if value < 0.0 {
      sign := "-";
      magnitude := -value;
    }
    var power := PowerOfTen(decimals);
    var rounded := RoundScaled(magnitude, power);
    assert magnitude == Abs(value);
    var digits := Decimal(rounded);
    PaddedProperties(digits, decimals);
    digits := PadDigits(digits, decimals);
    assert digits == Padded(Decimal(rounded), decimals);
    s := sign + IntegerPart(digits, decimals) + "." + FractionPart(digits, decimals);
    assert s == Formatted(value < 0.0, decimals, rounded);
  }

  /**
   * sign + whole + "." + fraction, with digits on both sides, has its point
   * `|fraction|` characters from the end, the whole part between the sign
   * and the point, and the fraction after it.
   */
  lemma PointAt(sign: string, whole: string, fraction: string)
    ensures var s := sign + whole + "." + fraction;
      var k := |s| - |fraction| - 1;
      k == |sign| + |whole| && s[k] == '.' && s[|sign|..k] == whole && s[k + 1..] == fraction
  {
  }

  /** The number a numeral `whole.fraction` denotes, scaled by 10^|fraction|. */
  function PointValue(whole: string, fraction: string): nat
    requires AllDigits(whole) && AllDigits(fraction)
  {
    DecimalValue(whole) * Pow10(|fraction|) + DecimalValue(fraction)
  }

  /** The padded numeral of `rounded`, cut where formatFloat puts the point, still denotes `rounded`. */
  lemma DigitPieces(decimals: nat, rounded: nat)
    requires decimals >= 1
    ensures var digits := Padded(Decimal(rounded), decimals);
      |digits| > decimals &&
      var whole, fraction := IntegerPart(digits, decimals), FractionPart(digits, decimals);
      AllDigits(whole) && AllDigits(fraction) && |whole| >= 1 && |fraction| == decimals &&
      PointValue(whole, fraction) == rounded
  {
    var digits := Padded(Decimal(rounded), decimals);
    assert AllDigits(digits) && |digits| > decimals && DecimalValue(digits) == rounded by {
      PaddedProperties(Decimal(rounded), decimals);
      DecimalRoundTrip(rounded);
    }
    CutDigits(digits, decimals);
  }

  lemma CutDigits(digits: string, decimals: nat)
    requires AllDigits(digits) && |digits| > decimals >= 1
    ensures var whole, fraction := IntegerPart(digits, decimals), FractionPart(digits, decimals);
      AllDigits(whole) && AllDigits(fraction) && |whole| >= 1 && |fraction| == decimals &&
      PointValue(whole, fraction) == DecimalValue(digits)
  {
    var whole, fraction := IntegerPart(digits, decimals), FractionPart(digits, decimals);
    assert whole + fraction == digits;
    DecimalValueSplit(whole, fraction);
  }

  /**
   * From index `start` on, `s` is at least one digit, a '.' and exactly
   * `decimals` digits, and these digits read as `scaled` / 10^decimals.
   */
  predicate FixedPoint(s: string, start: nat, decimals: nat, scaled: nat) {
    var k := |s| - decimals - 1;
    start < k && s[k] == '.' &&
    AllDigits(s[start..k]) && AllDigits(s[k + 1..]) &&
    PointValue(s[start..k], s[k + 1..]) == scaled
  }

  /** The shape claim for any sign, whole part and fraction that carry the digit facts. */
  lemma PiecesShape(s: string, start: nat, sign: string, whole: string, fraction: string, decimals: nat, rounded: nat)
    requires s == sign + whole + "." + fraction && start == |sign|
    requires |whole| >= 1 && |fraction| == decimals && AllDigits(whole) && AllDigits(fraction)
    requires PointValue(whole, fraction) == rounded
    ensures FixedPoint(s, start, decimals, rounded)
  {
    PointAt(sign, whole, fraction);
    var k := |s| - decimals - 1;
    assert s[start..k] == whole && s[k + 1..] == fraction;
  }

  /**
   * With at least one decimal the result is an optional '-', then at least
   * one digit, a '.' with exactly `decimals` digits after it; and the digits
   * on either side of the point denote the rounded value, the whole part
   * scaled by 10^decimals.
   */
  lemma FormattedShape(negative: bool, decimals: nat, rounded: nat)
    requires decimals >= 1
    ensures FixedPoint(Formatted(negative, decimals, rounded), if negative then 1 else 0, decimals, rounded)
  {
    var digits := Padded(Decimal(rounded), decimals);
    DigitPieces(decimals, rounded);
    var whole, fraction := IntegerPart(digits, decimals), FractionPart(digits, decimals);
    var sign := if negative then "-" else "";
    PiecesShape(Formatted(negative, decimals, rounded), if negative then 1 else 0, sign, whole, fraction, decimals, rounded);
  }

  /** The result starts with '-' exactly when the value is negative. */
  lemma FormattedSign(negative: bool, decimals: nat, rounded: nat)
    ensures var s := Formatted(negative, decimals, rounded);
      |s| > 0 && (s[0] == '-' <==> negative)
  {
    var digits := Padded(Decimal(rounded), decimals);
    PaddedProperties(Decimal(rounded), decimals);
    var whole, fraction := IntegerPart(digits, decimals), FractionPart(digits, decimals);
    var sign := if negative then "-" else "";
    var s := sign + whole + "." + fraction;
    assert Formatted(negative, decimals, rounded) == s;
    if !negative {
      if whole != [] {
        assert s[0] == whole[0] && IsDigit(whole[0]);
      } else {
        assert s[0] == '.';
      }
    }
  }

  /** A negative value is written as '-' followed by its magnitude's formatting. */
  lemma FormatNegation(value: real, decimals: nat)
    requires value > 0.0
    ensures FormatFloatOf(-value, decimals) == "-" + FormatFloatOf(value, decimals)
  {
    var rounded := RoundScaled(value, Pow10(decimals));
    var digits := Padded(Decimal(rounded), decimals);
    PaddedProperties(Decimal(rounded), decimals);
    var whole, fraction := IntegerPart(digits, decimals), FractionPart(digits, decimals);
    assert FormatFloatOf(-value, decimals) == "-" + whole + "." + fraction;
    assert FormatFloatOf(value, decimals) == "" + whole + "." + fraction;
  }

  /**
   * With no decimals the slices degenerate: the result is the sign, a '.',
   * and every digit of the rounded value.
   */
  lemma FormatNoDecimals(value: real)
    ensures FormatFloatOf(value, 0) ==
      (if value < 0.0 then "-" else "") + "." + Decimal(RoundScaled(Abs(value), 1))
  {
  }

  lemma DivideBoth(a: real, b: real, p: real)
    requires a <= b && p > 0.0
    ensures a / p <= b / p
  {
  }

  lemma DivideBothStrict(a: real, b: real, p: real)
    requires a < b && p > 0.0
    ensures a / p < b / p
  {
  }

  /** r within half a unit of x = v * p, divided through by p. */
  lemma HalfUnitBracket(v: real, p: real, x: real, r: real)
    requires p > 0.0 && x == v * p && x - 0.5 < r <= x + 0.5
    ensures v - 0.5 / p < r / p <= v + 0.5 / p
  {
    DivideBothStrict(x - 0.5, r, p);
    DivideBoth(r, x + 0.5, p);
    assert (x - 0.5) / p == v - 0.5 / p;
    assert (x + 0.5) / p == v + 0.5 / p;
  }

  /**
   * The formatted digits are within half a unit in the last place of the
   * magnitude: rounded / 10^decimals lies in (|value| - h, |value| + h]
   * with h = 1/(2*10^decimals).
   */
  lemma RoundingAccuracy(value: real, decimals: nat)
    ensures var p := Pow10(decimals) as real;
      var r := RoundScaled(Abs(value), Pow10(decimals)) as real;
      Abs(value) - 0.5 / p < r / p <= Abs(value) + 0.5 / p
  {
    var p := Pow10(decimals) as real;
    var r := RoundScaled(Abs(value), Pow10(decimals)) as real;
    HalfUnitBracket(Abs(value), p, Abs(value) * p, r);
  }
}
