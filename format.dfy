/** The default `operator<<` rendering of a double: six significant digits,
    rounded, trailing zeros dropped, fixed notation for decimal exponents from
    -4 to 5 and scientific notation otherwise (the `%g` conversion). */
module Format {
  import opened Text

  /** x * 10^n, by repeated multiplication. */
  function Up(x: real, n: nat): (r: real)
    ensures x > 0.0 ==> r > 0.0
  {
    if n == 0 then x else Up(x, n - 1) * 10.0
  }

  /** x / 10^n, by repeated division. */
  function Down(x: real, n: nat): (r: real)
    ensures x > 0.0 ==> 0.0 < r <= x
  {
    if n == 0 then x else Down(x, n - 1) / 10.0
  }

  /** x * 10^j for any integer j. */
  function Shift(x: real, j: int): real
  {
    if j >= 0 then Up(x, j) else Down(x, -j)
  }

  lemma {:induction false} DownOfTenth(x: real, n: nat)
    ensures Down(x / 10.0, n) == Down(x, n + 1)
  {
    if n > 0 {
      DownOfTenth(x, n - 1);
    }
  }

  lemma {:induction false} UpOfTenfold(x: real, n: nat)
    ensures Up(x * 10.0, n) == Up(x, n + 1)
  {
    if n > 0 {
      UpOfTenfold(x, n - 1);
    }
  }

  lemma {:induction false} UpIsProduct(x: real, n: nat)
    ensures Up(x, n) == x * Pow10(n) as real
  {
    if n > 0 {
      UpIsProduct(x, n - 1);
      var p := Pow10(n - 1) as real;
      assert Pow10(n) as real == 10.0 * p;
      assert (x * p) * 10.0 == x * (10.0 * p);
    }
  }

  lemma {:induction false} DownIsQuotient(x: real, n: nat)
    ensures Down(x, n) * Pow10(n) as real == x
  {
    if n > 0 {
      DownIsQuotient(x, n - 1);
      var d, p := Down(x, n - 1), Pow10(n - 1) as real;
      assert Pow10(n) as real == 10.0 * p;
      assert (d / 10.0) * (10.0 * p) == d * p;
    }
  }

  function ExponentAtLeastOne(x: real): (e: nat)
    requires x >= 1.0
    ensures 1.0 <= Down(x, e) < 10.0
    decreases x.Floor
  {
    if x < 10.0 then 0
    else
      var e' := ExponentAtLeastOne(x / 10.0);
      DownOfTenth(x, e');
      e' + 1
  }

  function ExponentBelowOne(x: real): (e: nat)
    requires 0.0 < x < 1.0
    ensures e >= 1 && 1.0 <= Up(x, e) < 10.0
    decreases (1.0 / x).Floor
  {
    if x >= 0.1 then 1
    else
      assert (1.0 / (x * 10.0)).Floor < (1.0 / x).Floor by {
        assert 1.0 / (x * 10.0) == (1.0 / x) / 10.0;
        assert 1.0 / x > 10.0;
      }
      var e' := ExponentBelowOne(x * 10.0);
      UpOfTenfold(x, e');
      e' + 1
  }

  /** The decimal exponent of a positive number: 10^e <= x < 10^(e+1). */
  function DecimalExponent(x: real): (e: int)
    requires x > 0.0
    ensures 1.0 <= Shift(x, -e) < 10.0
  {
    if x >= 1.0 then ExponentAtLeastOne(x) else -(ExponentBelowOne(x) as int)
  }

  /** Significant digits n with the decimal point q places from their right
      end, in fixed notation without trailing zeros. */
  function FixedNotation(n: nat, q: nat): string
  {
    var digits := PadLeft(NatToString(n), q + 1, '0');
    var fraction := StripTrailingZeros(digits[|digits| - q..]);
    digits[..|digits| - q] + (if fraction == "" then "" else "." + fraction)
  }

  /** Significant digits n (first digit before the point) and a decimal
      exponent, in the form 1.5e-05 / 1e+06. */
  function ScientificNotation(n: nat, e: int): string
  {
    var digits := NatToString(n);
    var fraction := StripTrailingZeros(digits[1..]);
    var exponent := if e < 0 then -e else e;
    digits[..1] + (if fraction == "" then "" else "." + fraction)
      + "e" + (if e < 0 then "-" else "+") + Pad2(NatToString(exponent))
  }

  /** Rounding to the nearest integer, halves upward. */
  function Round(y: real): (n: int)
    ensures y - 0.5 < n as real <= y + 0.5
  {
    (y + 0.5).Floor
  }

  /** Six significant digits n (rounded, so possibly 10^6) of a number with
      decimal exponent e, in whichever notation `%g` picks. */
  function FormatDigits(n: nat, e: int): string
  {
    var e' := if n >= 1000000 then e + 1 else e;
    if -4 <= e' < 6 && e <= 5 then FixedNotation(n, 5 - e)
    else ScientificNotation(if n >= 1000000 then n / 10 else n, e')
  }

  function FormatPositive(x: real): string
    requires x > 0.0
  {
    var e := DecimalExponent(x);
    FormatDigits(Round(Shift(x, 5 - e)), e)
  }

  /** `operator<<` of a double with the stream's default precision of six
      significant digits. */
  function FormatReal(x: real): string
  {
    if x == 0.0 then "0"
    else if x < 0.0 then "-" + FormatPositive(-x)
    else FormatPositive(x)
  }

  /** The exponent of a number x >= 1 with 1 <= x / 10^k < 10 is k. */
  lemma {:induction false} DecimalExponentOfRange(x: real, k: nat)
    requires x >= 1.0 && 1.0 <= Down(x, k) < 10.0
    ensures DecimalExponent(x) == k
  {
    if k > 0 {
      assert Down(x, k - 1) >= 10.0;
      DownOfTenth(x, k - 1);
      DecimalExponentOfRange(x / 10.0, k - 1);
    }
  }

  /** A positive number with exponent k <= 5 whose six significant digits are
      exactly m is written in fixed notation with 5 - k fraction places. */
  lemma FormatExact(x: real, k: nat, m: nat)
    requires x > 0.0 && k <= 5 && DecimalExponent(x) == k
    requires Up(x, 5 - k) == m as real && m < 1000000
    ensures FormatReal(x) == FixedNotation(m, 5 - k)
  {
    FormatRealOfPositive(x);
    FormatPositiveOfExponent(x, k);
    RoundExact(Shift(x, 5 - k), m);
    FormatDigitsFixed(m, k);
  }

  lemma FormatRealOfPositive(x: real)
    requires x > 0.0
    ensures FormatReal(x) == FormatPositive(x)
  {
  }

  lemma FormatPositiveOfExponent(x: real, k: int)
    requires x > 0.0 && DecimalExponent(x) == k
    ensures FormatPositive(x) == FormatDigits(Round(Shift(x, 5 - k)), k)
  {
    var n := Round(Shift(x, 5 - k));
    assert FormatPositive(x) == FormatDigits(n, k);
  }

  lemma RoundExact(y: real, m: int)
    requires y == m as real
    ensures Round(y) == m
  {
  }

  /** Six digits with an exponent from -4 to 5 are written in fixed notation. */
  lemma FormatDigitsFixed(n: nat, e: int)
    requires n < 1000000 && -4 <= e <= 5
    ensures FormatDigits(n, e) == FixedNotation(n, 5 - e)
  {
  }

  /** Fixed notation of a positive n scaled by 10^q has no fraction part. */
  lemma FixedNotationOfScaled(n: nat, q: nat)
    requires n > 0
    ensures FixedNotation(n * Pow10(q), q) == NatToString(n)
  {
    NatToStringOfScaled(n, q);
    var digits := NatToString(n) + Repeat('0', q);
    assert PadLeft(digits, q + 1, '0') == digits;
    assert digits[..|digits| - q] == NatToString(n);
    StripTrailingZerosOfPadded([], q);
    assert digits[|digits| - q..] == [] + Repeat('0', q);
  }

  /** For d * p == x with p > 0: p <= x < 10p exactly when 1 <= d < 10. */
  lemma QuotientBounds(d: real, p: real, x: real)
    requires p > 0.0 && d * p == x && p <= x < 10.0 * p
    ensures 1.0 <= d < 10.0
  {
    if d < 1.0 {
      MulLess(d, 1.0, p);
    } else if d >= 10.0 {
      MulAtMost(10.0, d, p);
    }
  }

  lemma MulAtMost(a: real, b: real, p: real)
    requires a <= b && p > 0.0
    ensures a * p <= b * p
  {
  }

  lemma MulLess(a: real, b: real, p: real)
    requires a < b && p > 0.0
    ensures a * p < b * p
  {
  }

  /** An integer with k + 1 digits has decimal exponent k. */
  lemma ExponentOfInteger(n: nat, k: nat)
    requires Pow10(k) <= n < Pow10(k + 1)
    ensures DecimalExponent(n as real) == k
  {
    DownIsQuotient(n as real, k);
    assert Pow10(k + 1) as real == 10.0 * Pow10(k) as real;
    QuotientBounds(Down(n as real, k), Pow10(k) as real, n as real);
    DecimalExponentOfRange(n as real, k);
  }

  /** A number with k + 1 digits, shifted to six digits, stays below 10^6. */
  lemma ScaledBelowMillion(n: nat, k: nat)
    requires k <= 5 && n < Pow10(k + 1)
    ensures 0 <= n * Pow10(5 - k) < 1000000
  {
    var p := Pow10(5 - k);
    Pow10Add(k + 1, 5 - k);
    assert Pow10(6) == Pow10(k + 1) * p;
    MulBounds(n, Pow10(k + 1), p);
  }

  lemma MulBounds(a: int, b: int, c: int)
    requires 0 <= a < b && c > 0
    ensures 0 <= a * c < b * c
  {
  }

  lemma {:induction false} UpOfNat(n: nat, j: nat)
    ensures Up(n as real, j) == (n * Pow10(j)) as real
  {
    if j > 0 {
      UpOfNat(n, j - 1);
      var p := Pow10(j - 1);
      assert n * Pow10(j) == (n * p) * 10;
    }
  }

  /** An integer below a million is written as its decimal digits. */
  lemma FormatIntegral(n: nat)
    requires n < 1000000
    ensures FormatReal(n as real) == NatToString(n)
  {
    if n > 0 {
      var k := DigitCount(n);
      FormatIntegralOfWidth(n, k);
    }
  }

  /** The number of digits of n below a million, less one. */
  lemma DigitCount(n: nat) returns (k: nat)
    requires 0 < n < 1000000
    ensures k <= 5 && Pow10(k) <= n < Pow10(k + 1)
  {
    k := |NatToString(n)| - 1;
    NatValueOfNatToString(n);
    NatValueLowerBound(NatToString(n));
    if k > 5 {
      Pow10Monotonic(6, k);
    }
  }

  /** An integer with k + 1 <= 6 digits is written as its digits. */
  lemma FormatIntegralOfWidth(n: nat, k: nat)
    requires 0 < n && k <= 5 && Pow10(k) <= n < Pow10(k + 1)
    ensures FormatReal(n as real) == NatToString(n)
  {
    ExponentOfInteger(n, k);
    ScaledBelowMillion(n, k);
    UpOfNat(n, 5 - k);
    FormatExact(n as real, k, n * Pow10(5 - k));
    FixedNotationOfScaled(n, 5 - k);
  }

  /** Digit text with two integer digits and four fraction digits. */
  lemma FixedNotationOfDigits(whole: string, padded: string)
    requires |whole| == 2 && Canonical(whole)
    requires |padded| == 4 && AllDigits(padded)
    ensures AllDigits(whole + padded)
    ensures FixedNotation(NatValue(whole + padded), 4)
         == whole + (if StripTrailingZeros(padded) == "" then "" else "." + StripTrailingZeros(padded))
  {
    var digits := whole + padded;
    assert Canonical(digits);
    NatToStringOfNatValue(digits);
    assert digits[..2] == whole && digits[2..] == padded;
  }

  /** (n / p) * (p * q) == n * q, with the integers read as reals. */
  lemma ScaleQuotient(n: int, p: int, q: int)
    requires p > 0
    ensures (n as real / p as real) * (p * q) as real == (n * q) as real
  {
    assert (p * q) as real == p as real * q as real;
    assert (n * q) as real == n as real * q as real;
  }

  /** The digits of a decimal with its fraction padded to four places, read
      as an integer. */
  lemma PaddedDigits(whole: string, fraction: string)
    requires AllDigits(whole)
    requires 1 <= |fraction| <= 4 && AllDigits(fraction)
    ensures AllDigits(whole + fraction) && AllDigits(whole + fraction + Repeat('0', 4 - |fraction|))
    ensures NatValue(whole + fraction + Repeat('0', 4 - |fraction|)) == NatValue(whole + fraction) * Pow10(4 - |fraction|)
    ensures Pow10(|fraction|) * Pow10(4 - |fraction|) == 10000
  {
    var k := 4 - |fraction|;
    NatValueOfZeros(k);
    assert AllDigits(whole + fraction);
    NatValueAppend(whole + fraction, Repeat('0', k));
    assert Pow10(4) == 10000;
    Pow10Add(|fraction|, k);
  }

  /** A two-digit decimal with its fraction padded to four places. */
  lemma PaddedDecimal(whole: string, fraction: string) returns (padded: string)
    requires |whole| == 2 && AllDigits(whole) && whole[0] != '0'
    requires 1 <= |fraction| <= 4 && AllDigits(fraction) && fraction[|fraction| - 1] != '0'
    ensures |padded| == 4 && AllDigits(padded) && StripTrailingZeros(padded) == fraction
    ensures AllDigits(whole + fraction) && Canonical(whole + padded)
    ensures NatValue(whole + padded) == NatValue(whole + fraction) * Pow10(4 - |fraction|)
    ensures 100000 <= NatValue(whole + padded) < 1000000
    ensures Pow10(|fraction|) * Pow10(4 - |fraction|) == 10000
  {
    padded := fraction + Repeat('0', 4 - |fraction|);
    PaddedDigits(whole, fraction);
    assert whole + fraction + Repeat('0', 4 - |fraction|) == whole + padded;
    assert Canonical(whole + padded) && |whole + padded| == 6;
    NatValueLowerBound(whole + padded);
    assert Pow10(5) == 100000 && Pow10(6) == 1000000;
    StripTrailingZerosOfPadded(fraction, 4 - |fraction|);
  }

  /** The six significant digits of a two-digit decimal with one to four
      fraction digits, and their fixed notation with four places. */
  lemma TwoDigitDecimalDigits(whole: string, fraction: string) returns (m: nat)
    requires |whole| == 2 && AllDigits(whole) && whole[0] != '0'
    requires 1 <= |fraction| <= 4 && AllDigits(fraction) && fraction[|fraction| - 1] != '0'
    ensures AllDigits(whole + fraction)
    ensures 100000 <= m < 1000000
    ensures m == NatValue(whole + fraction) * Pow10(4 - |fraction|)
    ensures Pow10(|fraction|) * Pow10(4 - |fraction|) == 10000
    ensures FixedNotation(m, 4) == whole + "." + fraction
  {
    var padded := PaddedDecimal(whole, fraction);
    m := NatValue(whole + padded);
    FixedNotationOfDigits(whole, padded);
  }

  /** A decimal with two integer digits (the first non-zero) and one to four
      fraction digits ending in a non-zero digit is written as that text. */
  lemma FormatTwoDigitDecimal(whole: string, fraction: string)
    requires |whole| == 2 && AllDigits(whole) && whole[0] != '0'
    requires 1 <= |fraction| <= 4 && AllDigits(fraction) && fraction[|fraction| - 1] != '0'
    ensures AllDigits(whole + fraction)
    ensures FormatReal(DecimalValue(whole + fraction, |fraction|)) == whole + "." + fraction
  {
    var m := TwoDigitDecimalDigits(whole, fraction);
    var x := DecimalValue(whole + fraction, |fraction|);
    ScaleQuotient(NatValue(whole + fraction), Pow10(|fraction|), Pow10(4 - |fraction|));
    UpIsProduct(x, 4);
    assert Pow10(4) == 10000;
    assert Up(x, 4) == m as real;
    assert Down(x, 1) == x / 10.0;
    DecimalExponentOfRange(x, 1);
    FormatExact(x, 1, m);
  }
}
