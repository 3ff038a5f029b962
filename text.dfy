/** Decimal text: reading digit runs, writing integers, `std::setw`/`std::setfill`
    padding, and the default `operator<<` rendering of a double (six significant
    digits, trailing zeros dropped, scientific form outside 1e-4 .. 1e6). */
module Text {

  predicate IsDigit(c: char)
  {
    '0' <= c <= '9'
  }

  predicate AllDigits(s: string)
  {
    forall i :: 0 <= i < |s| ==> IsDigit(s[i])
  }

  /** A run of digits with no leading zero, as an integer is written. */
  predicate Canonical(s: string)
  {
    |s| >= 1 && AllDigits(s) && (|s| == 1 || s[0] != '0')
  }

  function DigitValue(c: char): (d: nat)
    requires IsDigit(c)
    ensures d < 10
  {
    (c as int - '0' as int) as nat
  }

  function DigitChar(d: nat): (c: char)
    requires d < 10
    ensures IsDigit(c) && DigitValue(c) == d
  {
    ('0' as int + d) as char
  }

  function Pow10(k: nat): (p: nat)
    ensures p >= 1
  {
    if k == 0 then 1 else 10 * Pow10(k - 1)
  }

  lemma {:induction false} Pow10Add(a: nat, b: nat)
    ensures Pow10(a + b) == Pow10(a) * Pow10(b)
  {
    if b > 0 {
      Pow10Add(a, b - 1);
      assert Pow10(a + b) == 10 * Pow10(a + b - 1);
    }
  }

  lemma {:induction false} Pow10Monotonic(a: nat, b: nat)
    requires a <= b
    ensures Pow10(a) <= Pow10(b)
  {
    if a < b {
      Pow10Monotonic(a, b - 1);
    }
  }

  /** The value of a run of decimal digits (`Coords::stoi` on such text); the
      empty run reads as 0. */
  function NatValue(s: string): (n: nat)
    requires AllDigits(s)
    ensures n < Pow10(|s|)
  {
    if s == [] then 0 else NatValue(s[..|s| - 1]) * 10 + DigitValue(s[|s| - 1])
  }

  /** Decimal text of a natural number, without leading zeros. */
  function NatToString(n: nat): (s: string)
    ensures Canonical(s)
  {
    if n < 10 then [DigitChar(n)] else NatToString(n / 10) + [DigitChar(n % 10)]
  }

  /** Decimal text of an integer, as `operator<<` writes an `int`. */
  function IntToString(i: int): (s: string)
    ensures |s| >= 1
  {
    if i < 0 then "-" + NatToString(-i) else NatToString(i)
  }

  lemma {:induction false} NatValueOfNatToString(n: nat)
    ensures NatValue(NatToString(n)) == n
  {
    if n >= 10 {
      NatValueOfNatToString(n / 10);
      var s := NatToString(n);
      assert s[..|s| - 1] == NatToString(n / 10);
    }
  }

  lemma {:induction false} NatValueAppend(a: string, b: string)
    requires AllDigits(a) && AllDigits(b)
    ensures AllDigits(a + b)
    ensures NatValue(a + b) == NatValue(a) * Pow10(|b|) + NatValue(b)
  {
    assert AllDigits(a + b);
    if b == [] {
      assert a + b == a;
    } else {
      var b', c := b[..|b| - 1], b[|b| - 1];
      NatValueAppend(a, b');
      assert b == b' + [c] && a + b == (a + b') + [c];
      NatValueSnoc(a + b', c);
      NatValueSnoc(b', c);
      assert Pow10(|b|) == 10 * Pow10(|b'|);
      ShiftDigit(NatValue(a), NatValue(b'), Pow10(|b'|), DigitValue(c));
    }
  }

  /** Appending a digit multiplies the value by ten and adds the digit. */
  lemma NatValueSnoc(s: string, c: char)
    requires AllDigits(s) && IsDigit(c)
    ensures AllDigits(s + [c]) && NatValue(s + [c]) == NatValue(s) * 10 + DigitValue(c)
  {
    assert (s + [c])[..|s|] == s;
  }

  lemma ShiftDigit(x: int, y: int, p: int, d: int)
    ensures (x * p + y) * 10 + d == x * (10 * p) + (y * 10 + d)
  {
  }

  /** A canonical run with a non-zero first digit is at least 10^(length-1). */
  lemma {:induction false} NatValueLowerBound(s: string)
    requires Canonical(s) && s[0] != '0'
    ensures NatValue(s) >= Pow10(|s| - 1)
  {
    if |s| > 1 {
      var s' := s[..|s| - 1];
      assert Canonical(s') && s'[0] == s[0];
      NatValueLowerBound(s');
    }
  }

  /** Writing the value of canonical digit text gives the text back. */
  lemma {:induction false} NatToStringOfNatValue(s: string)
    requires Canonical(s)
    ensures NatToString(NatValue(s)) == s
  {
    if |s| > 1 {
      var s' := s[..|s| - 1];
      assert Canonical(s') && s'[0] == s[0];
      NatToStringOfNatValue(s');
      NatValueLowerBound(s');
      var n := NatValue(s);
      assert n / 10 == NatValue(s') && n % 10 == DigitValue(s[|s| - 1]);
      assert s == s' + [s[|s| - 1]];
    }
  }

  /** Decimal text of a number below 10^k is at most k characters long. */
  lemma {:induction false} NatToStringLength(n: nat, k: nat)
    requires k >= 1 && n < Pow10(k)
    ensures |NatToString(n)| <= k
  {
    if n >= 10 {
      NatToStringLength(n / 10, k - 1);
    }
  }

  function Repeat(c: char, n: nat): (s: string)
    ensures |s| == n && forall i :: 0 <= i < n ==> s[i] == c
  {
    if n == 0 then [] else [c] + Repeat(c, n - 1)
  }

  /** `std::setw(width) << std::setfill(fill) << s` with the default right
      alignment: the fill goes on the left up to the width. */
  function PadLeft(s: string, width: nat, fill: char): (r: string)
    ensures |r| == if |s| >= width then |s| else width
    ensures r[|r| - |s|..] == s
    ensures forall i :: 0 <= i < |r| - |s| ==> r[i] == fill
  {
    if |s| >= width then s else Repeat(fill, width - |s|) + s
  }

  /** Two-character field filled with '0', as `std::setw(2) << std::setfill('0')`. */
  function Pad2(s: string): string
  {
    PadLeft(s, 2, '0')
  }

  /** Padding digit text of a value back to the text's length restores its
      leading zeros. */
  lemma {:induction false} PadRestoresLeadingZeros(s: string)
    requires |s| >= 1 && AllDigits(s)
    ensures PadLeft(NatToString(NatValue(s)), |s|, '0') == s
  {
    if |s| == 1 || s[0] != '0' {
      NatToStringOfNatValue(s);
    } else {
      var t := s[1..];
      assert s == "0" + t;
      NatValueLeadingZero(t);
      PadRestoresLeadingZeros(t);
      var w := NatToString(NatValue(t));
      NatToStringLength(NatValue(t), |t|);
      PadLeftStep(w, |t|);
    }
  }

  /** A leading zero does not change the value of digit text. */
  lemma NatValueLeadingZero(t: string)
    requires AllDigits(t)
    ensures AllDigits("0" + t) && NatValue("0" + t) == NatValue(t)
  {
    NatValueAppend("0", t);
    assert NatValue("0") == 0;
  }

  /** One more column of padding adds one more fill character in front. */
  lemma PadLeftStep(w: string, n: nat)
    requires |w| <= n
    ensures PadLeft(w, n + 1, '0') == "0" + PadLeft(w, n, '0')
  {
    var r, r' := PadLeft(w, n + 1, '0'), PadLeft(w, n, '0');
    assert |r| == n + 1 && |r'| == n;
    assert forall i :: 0 <= i < |r| ==> r[i] == ("0" + r')[i];
  }

  function StripTrailingZeros(s: string): (r: string)
    ensures r <= s
    ensures r == [] || r[|r| - 1] != '0'
    ensures forall i :: |r| <= i < |s| ==> s[i] == '0'
  {
    if s == [] || s[|s| - 1] != '0' then s else StripTrailingZeros(s[..|s| - 1])
  }

  lemma StripTrailingZerosOfPadded(s: string, k: nat)
    requires s == [] || s[|s| - 1] != '0'
    ensures StripTrailingZeros(s + Repeat('0', k)) == s
  {
    var t := s + Repeat('0', k);
    var r := StripTrailingZeros(t);
    assert s != [] ==> t[|s| - 1] == s[|s| - 1];
    assert forall i :: |s| <= i < |t| ==> t[i] == '0';
    assert |r| == |s|;
  }

  lemma {:induction false} NatToStringOfScaled(n: nat, q: nat)
    requires n > 0
    ensures NatToString(n * Pow10(q)) == NatToString(n) + Repeat('0', q)
  {
    if q > 0 {
      NatToStringOfScaled(n, q - 1);
      var p := Pow10(q - 1);
      var m := n * p;
      ShiftProduct(n, p);
      assert NatToString(m * 10) == NatToString(m) + [DigitChar(0)];
      assert Repeat('0', q) == Repeat('0', q - 1) + "0";
    }
  }

  lemma ShiftProduct(n: int, p: int)
    requires n > 0 && p > 0
    ensures n * (10 * p) == (n * p) * 10 && n * p >= 1
  {
  }

  lemma {:induction false} NatValueOfZeros(k: nat)
    ensures AllDigits(Repeat('0', k)) && NatValue(Repeat('0', k)) == 0
  {
    if k > 0 {
      NatValueOfZeros(k - 1);
      var z := Repeat('0', k);
      assert z[..k - 1] == Repeat('0', k - 1);
    }
  }

  /** The value `std::stod` reads from digit text with the decimal point
      `places` digits from its right end. */
  function DecimalValue(digits: string, places: nat): (v: real)
    requires AllDigits(digits)
    ensures v >= 0.0
  {
    NatValue(digits) as real / Pow10(places) as real
  }
}
