/** The Angle value type (libCoords/angle.h, libCoords/angle.cpp): a single
    value in degrees, built from degrees, minutes and seconds, compared and
    combined exactly, brought back below 360 degrees, and written out as
    degrees, minutes and seconds. */
module Angles {
  import opened Utils
  import opened Text
  import opened Format

  // ----- unit conversions -----

  /** `M_PI` as the double the library uses. */
  const Pi: real := 3.141592653589793

  /** `deg2rad`: degrees times pi over 180. */
  function Deg2Rad(deg: real): (rad: real)
    ensures rad * 180.0 == deg * Pi
  {
    deg * Pi / 180.0
  }

  /** `rad2deg`: radians times 180 over pi. */
  function Rad2Deg(rad: real): (deg: real)
    ensures deg * Pi == rad * 180.0
  {
    rad * 180.0 / Pi
  }

  /** The two conversions undo each other. */
  lemma RadiansRoundTrip(x: real)
    ensures Rad2Deg(Deg2Rad(x)) == x && Deg2Rad(Rad2Deg(x)) == x
    ensures Deg2Rad(180.0) == Pi && Rad2Deg(Pi) == 180.0 && Deg2Rad(0.0) == 0.0
  {
  }

  // ----- the value of the constructor -----

  /** The value `Angle(deg, min, sec)` stores, in degrees. */
  function PartsValue(deg: real, min: real, sec: real): real
  {
    Degrees2Seconds(deg, min, sec) / 3600.0
  }

  /** `Angle(deg, min, sec)` stores `degrees2seconds(deg, min, sec) / 3600`:
      for non-negative parts the sum of degrees, minutes over 60 and seconds
      over 3600; a negative first part makes the whole value negative,
      whatever the signs of the other two; the default arguments 0 give
      the plain degrees. */
  lemma ConstructedValue(deg: real, min: real, sec: real)
    ensures deg >= 0.0 && min >= 0.0 && sec >= 0.0 ==>
      PartsValue(deg, min, sec) == deg + min / 60.0 + sec / 3600.0
    ensures deg < 0.0 ==>
      PartsValue(deg, min, sec) == deg - Abs(min) / 60.0 - Abs(sec) / 3600.0
    ensures PartsValue(deg, 0.0, 0.0) == deg
  {
    if deg >= 0.0 && min >= 0.0 && sec >= 0.0 {
      Degrees2SecondsOfNonNegative(deg, min, sec);
    }
    if deg < 0.0 {
      Degrees2SecondsIgnoresLaterSigns(deg, min, sec);
      Degrees2SecondsOfNonNegative(-deg, Abs(min), Abs(sec));
    }
    if deg >= 0.0 {
      Degrees2SecondsOfNonNegative(deg, 0.0, 0.0);
    }
  }

  // ----- normalize -----

  /** What `normalize` leaves: 360 is taken away while the value exceeds 360. */
  function Normalized(v: real): real
    decreases v.Floor
  {
    if v > 360.0 then Normalized(v - 360.0) else v
  }

  /** The number of times `normalize` takes 360 away. */
  function Turns(v: real): nat
    decreases v.Floor
  {
    if v > 360.0 then 1 + Turns(v - 360.0) else 0
  }

  /** A value up to 360, negative ones included, is left alone; a larger
      one ends in (0, 360] after taking away a whole number of turns. */
  lemma {:induction false} NormalizedRange(v: real)
    ensures Normalized(v) == v - 360.0 * Turns(v) as real
    ensures v <= 360.0 ==> Normalized(v) == v
    ensures v > 360.0 ==> 0.0 < Normalized(v) <= 360.0 && Turns(v) >= 1
    decreases v.Floor
  {
    if v > 360.0 {
      NormalizedRange(v - 360.0);
    }
  }

  /** Normalizing twice is normalizing once. */
  lemma NormalizedIdempotent(v: real)
    ensures Normalized(Normalized(v)) == Normalized(v)
  {
    NormalizedRange(v);
    NormalizedRange(Normalized(v));
  }

  // ----- degrees, minutes and seconds -----

  /** The parts `value2DMSString` and `value2HMSString` write: the sign, the
      whole degrees of the magnitude, its whole minutes and its seconds. */
  datatype Sexagesimal = Sexagesimal(negative: bool, degrees: nat, minutes: nat, seconds: real)

  /** The split of both output functions: whole degrees, then whole minutes
      of the fraction, then the seconds left; they recombine to the
      magnitude. */
  function Split(v: real): (s: Sexagesimal)
    ensures s.negative <==> v < 0.0
    ensures s.minutes <= 59 && 0.0 <= s.seconds < 60.0
    ensures s.degrees as real + s.minutes as real / 60.0 + s.seconds / 3600.0 == Abs(v)
  {
    var degrees := Abs(v);
    var minutes := 60.0 * (degrees - degrees.Floor as real);
    var seconds := 60.0 * (minutes - minutes.Floor as real);
    Sexagesimal(v < 0.0, degrees.Floor, minutes.Floor, seconds)
  }

  /** Whole degrees, minutes below 60 and seconds below 60 are read back by
      the split: it is the only decomposition with those bounds. */
  lemma SplitOfParts(negative: bool, degrees: nat, minutes: nat, seconds: real)
    requires minutes <= 59 && 0.0 <= seconds < 60.0
    requires negative ==> degrees > 0 || minutes > 0 || seconds > 0.0
    ensures var v := degrees as real + minutes as real / 60.0 + seconds / 3600.0;
      Split(if negative then -v else v) == Sexagesimal(negative, degrees, minutes, seconds)
  {
    var v := degrees as real + minutes as real / 60.0 + seconds / 3600.0;
    assert v.Floor == degrees;
    var m := 60.0 * (v - degrees as real);
    assert m == minutes as real + seconds / 60.0;
    assert m.Floor == minutes;
  }

  /** The degrees as written: the sign of the value, even for a magnitude
      below one degree, then the whole degrees. */
  function DegreesText(s: Sexagesimal): string
  {
    (if s.negative then "-" else "") + FormatReal(s.degrees as real)
  }

  /** `value2DMSString`, the text of `operator<<`: `12* 34' 56"`. */
  function DmsString(v: real): string
  {
    var s := Split(v);
    DegreesText(s) + "* " + FormatReal(s.minutes as real) + "' " + FormatReal(s.seconds) + "\""
  }

  /** `value2HMSString`: each part padded to two places with zeros,
      separated by colons. */
  function HmsString(v: real): string
  {
    var s := Split(v);
    Pad2(DegreesText(s)) + ":" + Pad2(FormatReal(s.minutes as real)) + ":" + Pad2(FormatReal(s.seconds))
  }

  /** Whole parts below a million are written as their decimal digits. */
  lemma PartTexts(degrees: nat, minutes: nat, seconds: nat)
    requires degrees < 1000000 && minutes <= 59 && seconds <= 59
    ensures var s := Sexagesimal(false, degrees, minutes, seconds as real);
      DegreesText(s) == NatToString(degrees) && FormatReal(s.minutes as real) == NatToString(minutes)
      && FormatReal(s.seconds) == NatToString(seconds)
  {
    FormatIntegral(degrees);
    FormatIntegral(minutes);
    FormatIntegral(seconds);
  }

  /** An angle of whole degrees, minutes and seconds is written with exactly
      those numbers, in both forms. */
  lemma WrittenParts(degrees: nat, minutes: nat, seconds: nat)
    requires degrees < 1000000 && minutes <= 59 && seconds <= 59
    ensures var v := degrees as real + minutes as real / 60.0 + seconds as real / 3600.0;
      DmsString(v) == NatToString(degrees) + "* " + NatToString(minutes) + "' " + NatToString(seconds) + "\""
      && HmsString(v) == Pad2(NatToString(degrees)) + ":" + Pad2(NatToString(minutes)) + ":" + Pad2(NatToString(seconds))
  {
    SplitOfParts(false, degrees, minutes, seconds as real);
    PartTexts(degrees, minutes, seconds);
  }

  /** The digit texts of the worked outputs. */
  lemma ExampleDigits()
    ensures NatToString(12) == "12" && NatToString(34) == "34" && NatToString(56) == "56"
    ensures Pad2(NatToString(2)) == "02" && Pad2(NatToString(4)) == "04" && Pad2(NatToString(6)) == "06"
  {
    assert NatToString(1) == [DigitChar(1)] == "1";
    assert NatToString(12) == NatToString(1) + [DigitChar(2)];
    assert NatToString(3) == [DigitChar(3)] == "3";
    assert NatToString(34) == NatToString(3) + [DigitChar(4)];
    assert NatToString(5) == [DigitChar(5)] == "5";
    assert NatToString(56) == NatToString(5) + [DigitChar(6)];
    assert NatToString(2) == [DigitChar(2)] == "2";
    assert NatToString(4) == [DigitChar(4)] == "4";
    assert NatToString(6) == [DigitChar(6)] == "6";
    assert Repeat('0', 1) == "0";
  }

  /** The worked outputs, joined. */
  lemma ExampleTexts()
    ensures "12" + "* " + "34" + "' " + "56" + "\"" == "12* 34' 56\""
    ensures "02" + ":" + "04" + ":" + "06" == "02:04:06"
  {
  }

  /** The worked output of `value2DMSString`: 12 degrees 34 minutes 56
      seconds. */
  lemma DmsExample(v: real)
    requires v == PartsValue(12.0, 34.0, 56.0)
    ensures DmsString(v) == "12* 34' 56\""
  {
    ExampleDigits();
    ConstructedValue(12.0, 34.0, 56.0);
    WrittenParts(12, 34, 56);
    assert v == 12 as real + 34 as real / 60.0 + 56 as real / 3600.0;
    assert DmsString(v) == NatToString(12) + "* " + NatToString(34) + "' " + NatToString(56) + "\"";
    assert DmsString(v) == "12" + "* " + "34" + "' " + "56" + "\"";
    ExampleTexts();
  }

  /** The worked output of `value2HMSString`: 2 hours 4 minutes 6 seconds. */
  lemma HmsExample(v: real)
    requires v == PartsValue(2.0, 4.0, 6.0)
    ensures HmsString(v) == "02:04:06"
  {
    ExampleDigits();
    ConstructedValue(2.0, 4.0, 6.0);
    WrittenParts(2, 4, 6);
    assert v == 2 as real + 4 as real / 60.0 + 6 as real / 3600.0;
    assert HmsString(v) == Pad2(NatToString(2)) + ":" + Pad2(NatToString(4)) + ":" + Pad2(NatToString(6));
    assert HmsString(v) == "02" + ":" + "04" + ":" + "06";
    ExampleTexts();
  }

  // ----- the class -----

  class Angle {
    /** `m_value`: degrees. */
    var value: real

    /** `Angle(deg, min, sec)`. */
    constructor (deg: real, min: real, sec: real)
      ensures value == PartsValue(deg, min, sec)
    {
      value := PartsValue(deg, min, sec);
    }

    /** `Angle()` with its default arguments: the zero angle, which is
        `PartsValue(0.0, 0.0, 0.0)` by `ConstructedValue`. */
    constructor Zero()
      ensures value == 0.0 && Radians() == 0.0
    {
      value := 0.0;
    }

    /** `Angle(deg)` with the minutes and seconds defaulted to 0. */
    constructor Degrees(deg: real)
      ensures value == deg
    {
      ConstructedValue(deg, 0.0, 0.0);
      value := PartsValue(deg, 0.0, 0.0);
    }

    /** The copy constructor. */
    constructor Copy(a: Angle)
      ensures value == a.value
    {
      value := a.value;
    }

    /** `operator=`; assigning an angle to itself changes nothing. */
    method Assign(rhs: Angle)
      modifies this
      ensures value == old(rhs.value)
    {
      if this == rhs {
        return;
      }
      value := rhs.value;
    }

    /** `value(x)` and `setValue(x)`. */
    method SetValue(v: real)
      modifies this
      ensures value == v
    {
      value := v;
    }

    /** `radians()` and `getRadians()`: the value converted, not stored. */
    function Radians(): (r: real)
      reads this
      ensures Rad2Deg(r) == value
    {
      RadiansRoundTrip(value);
      Deg2Rad(value)
    }

    /** `radians(x)` and `setRadians(x)`: the value in degrees is stored,
        and reads back as the same radians. */
    method SetRadians(r: real)
      modifies this
      ensures value == Rad2Deg(r) && Radians() == r
    {
      RadiansRoundTrip(r);
      value := Rad2Deg(r);
    }

    // ----- comparisons: exact, on the values -----

    predicate Equal(rhs: Angle)
      reads this, rhs
    {
      value == rhs.value
    }

    predicate NotEqual(rhs: Angle)
      reads this, rhs
    {
      !Equal(rhs)
    }

    predicate Less(rhs: Angle)
      reads this, rhs
    {
      value < rhs.value
    }

    predicate LessOrEqual(rhs: Angle)
      reads this, rhs
    {
      value <= rhs.value
    }

    predicate Greater(rhs: Angle)
      reads this, rhs
    {
      value > rhs.value
    }

    predicate GreaterOrEqual(rhs: Angle)
      reads this, rhs
    {
      value >= rhs.value
    }

    // ----- in-place arithmetic -----

    /** `operator+=`. */
    method AddAssign(rhs: Angle)
      modifies this
      ensures value == old(value) + old(rhs.value)
    {
      value := value + rhs.value;
    }

    /** `operator-=`. */
    method SubtractAssign(rhs: Angle)
      modifies this
      ensures value == old(value) - old(rhs.value)
    {
      value := value - rhs.value;
    }

    /** `operator*=`. */
    method MultiplyAssign(rhs: Angle)
      modifies this
      ensures value == old(value) * old(rhs.value)
    {
      value := value * rhs.value;
    }

    /** `operator/=`: a zero divisor throws and leaves the value as it was. */
    method DivideAssign(rhs: Angle) returns (error: Option<Error>)
      modifies this
      ensures old(rhs.value) == 0.0 ==> error == Some(DivideByZeroError) && value == old(value)
      ensures old(rhs.value) != 0.0 ==> error.None? && value == old(value) / old(rhs.value)
    {
      if rhs.value == 0.0 {
        return Some(DivideByZeroError);
      }
      value := value / rhs.value;
      error := None;
    }

    /** `normalize`: take 360 away while the value exceeds 360. */
    method Normalize()
      modifies this
      ensures value == Normalized(old(value))
    {
      while value > 360.0
        invariant Normalized(value) == Normalized(old(value))
        decreases value.Floor
      {
        value := value - 360.0;
      }
    }
  }

  /** The comparison operators agree with one another: `!=` negates `==`,
      exactly one of `<`, `==` and `>` holds, `<=` is `<` or `==`, and the
      reversed operators swap their operands. */
  lemma ComparisonLaws(a: Angle, b: Angle)
    ensures a.NotEqual(b) <==> !a.Equal(b)
    ensures (a.Less(b) || a.Equal(b) || a.Greater(b)) && !(a.Less(b) && a.Greater(b))
    ensures !(a.Equal(b) && (a.Less(b) || a.Greater(b)))
    ensures a.LessOrEqual(b) <==> a.Less(b) || a.Equal(b)
    ensures a.GreaterOrEqual(b) <==> b.LessOrEqual(a)
    ensures a.Greater(b) <==> b.Less(a)
  {
  }

  // ----- the binary operators: new angles, operands unchanged -----

  /** `operator+(Angle, Angle)`. */
  method Plus(lhs: Angle, rhs: Angle) returns (r: Angle)
    ensures fresh(r) && r.value == lhs.value + rhs.value
  {
    r := new Angle.Degrees(lhs.value + rhs.value);
  }

  /** `operator-(Angle, Angle)`. */
  method Minus(lhs: Angle, rhs: Angle) returns (r: Angle)
    ensures fresh(r) && r.value == lhs.value - rhs.value
  {
    r := new Angle.Degrees(lhs.value - rhs.value);
  }

  /** Unary `operator-`. */
  method Negate(rhs: Angle) returns (r: Angle)
    ensures fresh(r) && r.value == -rhs.value
  {
    r := new Angle.Degrees(-rhs.value);
  }

  /** `operator*(Angle, Angle)`. */
  method Times(lhs: Angle, rhs: Angle) returns (r: Angle)
    ensures fresh(r) && r.value == lhs.value * rhs.value
  {
    r := new Angle.Degrees(lhs.value * rhs.value);
  }

  /** `operator/(Angle, Angle)`: a zero divisor throws. */
  method Divide(lhs: Angle, rhs: Angle) returns (r: Result<Angle>)
    ensures rhs.value == 0.0 <==> r.Failure?
    ensures r.Failure? ==> r.error == DivideByZeroError
    ensures r.Success? ==> fresh(r.value) && r.value.value == lhs.value / rhs.value
  {
    if rhs.value == 0.0 {
      return Failure(DivideByZeroError);
    }
    var q := new Angle.Degrees(lhs.value / rhs.value);
    r := Success(q);
  }
}
