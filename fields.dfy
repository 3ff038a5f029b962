/** The state of a DateTime as a value, and the pure parts of the class that
    work on it: reading the ISO 8601 groups (the constructor of
    libCoords/datetime.cpp:86-123), the range checks of `isValid` with the
    message text of `throwError`, and the text `DateTime2String` writes. */
module DateTimeFields {
  import opened Utils
  import opened Text
  import opened Format
  import opened Calendar
  import opened Iso8601

  /** The data members of a DateTime, as the copy constructor lists them. */
  datatype Fields = Fields(year: int, month: int, day: int, hour: int, minute: int, second: real,
                           isZulu: bool, hasTimezoneColon: bool, timezone: real, isLeapYear: bool,
                           timezoneHH: string, timezoneMM: string)

  /** The member initialisers of the constructors: 1970-01-01T00:00:00, no zone. */
  const Default := Fields(1970, 1, 1, 0, 0, 0.0, false, false, 0.0, false, "", "")

  /** `DateTime::s_resolution`: the tolerance on seconds. */
  const Resolution: real := 0.0001

  const FormatHint := " not in limited ISO-8601 format: year-mm-ddThh:mm:ss[.s*][Z|(+|-)hh[:][mm]]"

  // ----- reading the groups -----

  /** `Coords::stod` on group 8; an absent group reads as 0. */
  function SecondsValue(seconds: Option<Seconds>): (v: real)
    requires seconds.Some? ==> WellFormedSeconds(seconds.value)
    ensures v >= 0.0
  {
    if seconds.None? then 0.0
    else
      var t := seconds.value.text;
      if |t| == 2 then NatValue(t) as real
      else
        assert AllDigits(t[..2] + t[3..]);
        DecimalValue(t[..2] + t[3..], |t| - 3)
  }

  /** Groups 10-14, or nothing when the seconds part is absent. */
  function ZoneOf(seconds: Option<Seconds>): Zone
  {
    if seconds.None? then NoZone else seconds.value.zone
  }

  /** The offset in hours: hh plus mm/60 when mm is present, negated for '-'. */
  function OffsetHours(negative: bool, hh: string, mm: string): real
    requires AllDigits(hh) && AllDigits(mm)
  {
    var magnitude := NatValue(hh) as real + (if mm != "" then NatValue(mm) as real / 60.0 else 0.0);
    if negative then -magnitude else magnitude
  }

  /** The zone members as the constructor sets them from groups 10-14. */
  datatype ZoneFields = ZoneFields(isZulu: bool, hasTimezoneColon: bool, timezone: real,
                                   timezoneHH: string, timezoneMM: string)

  function FieldsOfZone(z: Zone): ZoneFields
    requires WellFormedZone(z)
  {
    match z
    case Zulu => ZoneFields(true, false, 0.0, "", "")
    case NoZone => ZoneFields(false, false, 0.0, "", "")
    case Offset(negative, hh, colon, mm) => ZoneFields(false, colon, OffsetHours(negative, hh, mm), hh, mm)
  }

  /** The members the ISO 8601 constructor sets from the groups. */
  function FieldsOf(c: Captures): (f: Fields)
    requires WellFormed(c)
  {
    var n: int := NatValue(c.year);
    var year := if c.negative then -n else n;
    var z := FieldsOfZone(ZoneOf(c.seconds));
    Fields(year, NatValue(c.month), NatValue(c.day), NatValue(c.hour), NatValue(c.minute),
           SecondsValue(c.seconds), z.isZulu, z.hasTimezoneColon, z.timezone, IsLeapYear(year),
           z.timezoneHH, z.timezoneMM)
  }

  // ----- isValid -----

  /** What the checks of `isValid` accept, stated with the month lengths of
      the calendar. */
  predicate InRange(f: Fields)
  {
    1 <= f.month <= 12 && 1 <= f.day <= MonthLength(f.isLeapYear, f.month)
    && 0 <= f.hour <= 24 && 0 <= f.minute <= 60 && 0.0 <= f.second <= 60.0
    && -12.0 <= f.timezone <= 12.0
  }

  /** The checks of `isValid`, in the order they are made. */
  datatype Violation = MonthRange | DayRange | ThirtyDays | LeapFebruary | CommonFebruary
                     | HourRange | MinuteRange | SecondRange | ZoneRange
  {
    /** The message `isValid` passes to `throwError`. */
    function Message(): string
    {
      match this
      case MonthRange => "month out of range."
      case DayRange => "day out of range."
      case ThirtyDays => "Thirty days hath September, April, June and November"
      case LeapFebruary => "Except for February all alone. It has 28, but 29 each _leap_ year."
      case CommonFebruary => "Except for February all alone. It has _28_, but 29 each leap year."
      case HourRange => "hour out of range."
      case MinuteRange => "minute out of range."
      case SecondRange => "second out of range."
      case ZoneRange => "time zone out of range."
    }
  }

  /** The first check of `isValid` that fails. */
  function FirstViolation(f: Fields): (r: Option<Violation>)
    ensures r.None? <==> InRange(f)
  {
    if f.month < 1 || f.month > 12 then Some(MonthRange)
    else if f.day < 1 || f.day > 31 then Some(DayRange)
    else if IsThirtyDayMonth(f.month) && f.day > 30 then Some(ThirtyDays)
    else if f.isLeapYear && f.month == 2 && f.day > 29 then Some(LeapFebruary)
    else if !f.isLeapYear && f.month == 2 && f.day > 28 then Some(CommonFebruary)
    else if f.hour < 0 || f.hour > 24 then Some(HourRange)
    else if f.minute < 0 || f.minute > 60 then Some(MinuteRange)
    else if f.second < 0.0 || f.second > 60.0 then Some(SecondRange)
    else if f.timezone < -12.0 || f.timezone > 12.0 then Some(ZoneRange)
    else None
  }

  /** A date check is reported before any time check, and the two February
      messages tell the leap and common years apart. */
  lemma ViolationOrder(f: Fields)
    ensures (f.month < 1 || f.month > 12) ==> FirstViolation(f) == Some(MonthRange)
    ensures 1 <= f.month <= 12 && (f.day < 1 || f.day > MonthLength(f.isLeapYear, f.month))
            ==> FirstViolation(f).value in {DayRange, ThirtyDays, LeapFebruary, CommonFebruary}
    ensures f.month == 2 && f.day == 29 ==> (FirstViolation(f) == Some(CommonFebruary) <==> !f.isLeapYear)
    ensures f.month == 2 && f.day == 30 && f.isLeapYear ==> FirstViolation(f) == Some(LeapFebruary)
  {
  }

  /** `throwError`: the given text, or the rendering of the object when the
      text is empty, then the message. */
  function ThrowError(f: Fields, text: string, message: string): (e: Error)
    ensures e.Error? && |e.message| > |message|
    ensures text != "" ==> e.message == text + ": " + message
    ensures text == "" ==> e.message == Render(f) + ": " + message
  {
    Error((if text == "" then Render(f) else text) + ": " + message)
  }

  /** `isValid`: the error it throws, if any. */
  function IsValid(f: Fields, text: string): (r: Option<Error>)
    ensures r.None? <==> InRange(f)
  {
    match FirstViolation(f)
    case None => None
    case Some(v) => Some(ThrowError(f, text, v.Message()))
  }

  // ----- the constructor -----

  /** `DateTime(const std::string&)`: match the grammar, read the groups,
      then check the ranges against the input text. */
  function Parse(s: string): (r: Result<Fields>)
    ensures r.Failure? ==> r.error.Error?
  {
    match Scan(s)
    case None => Failure(Error(s + FormatHint))
    case Some(c) =>
      ScanSound(s);
      var f := FieldsOf(c);
      match IsValid(f, s)
      case Some(e) => Failure(e)
      case None => Success(f)
  }

  // ----- DateTime2String -----

  /** The day and time as written, after the display carries. */
  datatype Clock = Clock(day: int, hour: int, minute: int, second: real)

  /** The carries `DateTime2String` makes before writing: seconds within the
      resolution of 0 or 60 snap to 0 (carrying a minute), minute 60 carries
      an hour and hour 24 a day. */
  function DisplayClock(f: Fields): Clock
  {
    var second0 := if Abs(f.second) < Resolution then 0.0 else f.second;
    var carry := 60.0 - second0 < Resolution && second0 > 0.0;
    var second := if carry then 0.0 else second0;
    var minute0 := if carry then f.minute + 1 else f.minute;
    var minute := if minute0 == 60 then 0 else minute0;
    var hour0 := if minute0 == 60 then f.hour + 1 else f.hour;
    var hour := if hour0 == 24 then 0 else hour0;
    var day := if hour0 == 24 then f.day + 1 else f.day;
    Clock(day, hour, minute, second)
  }

  /** Seconds since the start of day 0 of the month. */
  function Elapsed(day: int, hour: int, minute: int, second: real): real
  {
    (day * 86400 + hour * 3600 + minute * 60) as real + second
  }

  /** The zone members of a DateTime. */
  function ZoneOfFields(f: Fields): ZoneFields
  {
    ZoneFields(f.isZulu, f.hasTimezoneColon, f.timezone, f.timezoneHH, f.timezoneMM)
  }

  /** The text after the seconds: `Z` for a UTC time, then the offset as it
      was written when the object was read from ISO 8601 text, otherwise the
      offset in hours as a double. */
  function ZoneString(z: ZoneFields): string
  {
    (if z.isZulu then "Z" else "")
    + if z.timezone == 0.0 then ""
      else if z.timezoneHH != "" then
        (if z.timezone > 0.0 then "+" else "-") + Pad2(z.timezoneHH)
        + (if z.hasTimezoneColon then ":" else "")
        + (if z.timezoneMM != "" then Pad2(z.timezoneMM) else "")
      else if z.timezone < 0.0 then "-" + Pad2(FormatReal(-z.timezone))
      else "+" + Pad2(FormatReal(z.timezone))
  }

  function ClockString(c: Clock): string
  {
    Pad2(IntToString(c.hour)) + ":" + Pad2(IntToString(c.minute)) + ":" + Pad2(FormatReal(c.second))
  }

  /** `DateTime2String`, the text `operator<<` writes. */
  function Render(f: Fields): string
  {
    var c := DisplayClock(f);
    IntToString(f.year) + "-" + Pad2(IntToString(f.month)) + "-" + Pad2(IntToString(c.day))
    + "T" + ClockString(c) + ZoneString(ZoneOfFields(f))
  }

  // ----- what the grammar guarantees about the groups -----

  lemma TwoDigitValue(s: string)
    requires |s| == 2 && AllDigits(s)
    ensures NatValue(s) == 10 * DigitValue(s[0]) + DigitValue(s[1])
  {
    assert s[..1] == [s[0]];
    assert s[..1][..0] == [];
  }

  /** The grammar admits months 1-12, days 1-31, hours 0-23, minutes 0-59,
      seconds below 60 and offsets of at most 12 hours 59 minutes. */
  lemma GrammarRanges(c: Captures)
    requires WellFormed(c)
    ensures var f := FieldsOf(c);
      1 <= f.month <= 12 && 1 <= f.day <= 31 && 0 <= f.hour <= 23 && 0 <= f.minute <= 59
      && 0.0 <= f.second < 60.0 && Abs(f.timezone) < 13.0
  {
    var f := FieldsOf(c);
    assert f.month == NatValue(c.month) && f.day == NatValue(c.day);
    assert f.hour == NatValue(c.hour) && f.minute == NatValue(c.minute);
    assert f.second == SecondsValue(c.seconds);
    MonthValue(c.month);
    DayValue(c.day);
    HourValue(c.hour);
    MinuteValue(c.minute);
    SecondsBelowSixty(c.seconds);
    ZoneBelowThirteen(c.seconds);
  }

  lemma MonthValue(s: string)
    requires MonthText(s)
    ensures 1 <= NatValue(s) <= 12
  {
    TwoDigitValue(s);
  }

  lemma DayValue(s: string)
    requires DayText(s)
    ensures 1 <= NatValue(s) <= 31
  {
    TwoDigitValue(s);
  }

  lemma HourValue(s: string)
    requires HourText(s)
    ensures NatValue(s) <= 23
  {
    TwoDigitValue(s);
  }

  lemma MinuteValue(s: string)
    requires MinuteText(s)
    ensures NatValue(s) <= 59
  {
    TwoDigitValue(s);
  }

  lemma ZoneHourValue(s: string)
    requires ZoneHourText(s)
    ensures NatValue(s) <= 12
  {
    TwoDigitValue(s);
  }

  lemma ZoneBelowThirteen(seconds: Option<Seconds>)
    requires seconds.Some? ==> WellFormedSeconds(seconds.value)
    ensures Abs(FieldsOfZone(ZoneOf(seconds)).timezone) < 13.0
  {
    var z := ZoneOf(seconds);
    if z.Offset? {
      ZoneHourValue(z.hh);
      if z.mm != "" {
        MinuteValue(z.mm);
      }
    }
  }

  lemma SecondsBelowSixty(seconds: Option<Seconds>)
    requires seconds.Some? ==> WellFormedSeconds(seconds.value)
    ensures SecondsValue(seconds) < 60.0
  {
    if seconds.Some? {
      var t := seconds.value.text;
      var whole := t[..2];
      MinuteValue(whole);
      if |t| > 2 {
        var fraction := t[3..];
        var k := |fraction|;
        assert t[..2] + t[3..] == whole + fraction;
        NatValueAppend(whole, fraction);
        var p := Pow10(k);
        assert NatValue(whole + fraction) < 60 * p by {
          assert NatValue(whole) <= 59;
          MulAtMostInt(NatValue(whole), 59, p);
        }
        QuotientBelow(NatValue(whole + fraction), 60, p);
        assert SecondsValue(seconds) == DecimalValue(whole + fraction, k);
      } else {
        assert whole == t;
      }
    }
  }

  lemma MulAtMostInt(a: int, b: int, p: int)
    requires a <= b && p > 0
    ensures a * p <= b * p
  {
  }

  lemma QuotientBelow(n: nat, bound: nat, p: nat)
    requires p > 0 && n < bound * p
    ensures n as real / p as real < bound as real
  {
    assert (n as real) < (bound as real) * (p as real);
  }

  // ----- the constructor on texts of the grammar -----

  /** A text of the grammar is read into its groups; it is accepted exactly
      when the checks of `isValid` pass, and otherwise the first failing
      check is reported against the input text. */
  lemma ParseOfCaptures(c: Captures)
    requires WellFormed(c)
    ensures InRange(FieldsOf(c)) ==> Parse(Assemble(c)) == Success(FieldsOf(c))
    ensures !InRange(FieldsOf(c)) ==>
      Parse(Assemble(c)) == Failure(Error(Assemble(c) + ": " + FirstViolation(FieldsOf(c)).value.Message()))
  {
    ScanComplete(c);
  }

  /** A text outside the grammar is rejected with the format message. */
  lemma ParseRejects(s: string)
    requires forall c :: WellFormed(c) ==> Assemble(c) != s
    ensures Parse(s) == Failure(Error(s + FormatHint))
  {
    if Scan(s).Some? {
      ScanSound(s);
    }
  }

  /** What a successful parse guarantees: a valid calendar date with the
      leap-year flag of its year, a time of day, and an offset of at most
      twelve hours. */
  lemma ParseSuccessValid(s: string)
    requires Parse(s).Success?
    ensures var f := Parse(s).value;
      ValidDate(Date(f.year, f.month, f.day)) && f.isLeapYear == IsLeapYear(f.year)
      && 0 <= f.hour <= 23 && 0 <= f.minute <= 59 && 0.0 <= f.second < 60.0
      && -12.0 <= f.timezone <= 12.0
  {
    var c := Scan(s).value;
    ScanSound(s);
    GrammarRanges(c);
  }

  /** The offset the constructor stores for `+0430` and `-04:45`. */
  lemma OffsetExamples()
    ensures OffsetHours(false, "04", "30") == 4.5
    ensures OffsetHours(true, "04", "45") == -4.75
    ensures OffsetHours(false, "12", "") == 12.0
  {
    TwoDigitValue("04");
    TwoDigitValue("30");
    TwoDigitValue("45");
    TwoDigitValue("12");
  }

  // ----- DateTime2String -----

  /** For seconds up to 60 (all `isValid` admits), the display carries move
      the time by less than the resolution. */
  lemma DisplayClockClose(f: Fields)
    requires f.second <= 60.0
    ensures var c := DisplayClock(f);
      Abs(Elapsed(c.day, c.hour, c.minute, c.second) - Elapsed(f.day, f.hour, f.minute, f.second)) < Resolution
  {
    var c := DisplayClock(f);
    var second0 := if Abs(f.second) < Resolution then 0.0 else f.second;
    var carry := 60.0 - second0 < Resolution && second0 > 0.0;
    var minute0 := if carry then f.minute + 1 else f.minute;
    var hour0 := if minute0 == 60 then f.hour + 1 else f.hour;
    assert Elapsed(c.day, c.hour, c.minute, 0.0) == Elapsed(f.day, hour0, if minute0 == 60 then 0 else minute0, 0.0);
    assert Elapsed(c.day, c.hour, c.minute, 0.0) == Elapsed(f.day, f.hour, minute0, 0.0);
    if carry {
      assert c.second == 0.0 && second0 == f.second;
      assert Elapsed(f.day, f.hour, minute0, 0.0) == Elapsed(f.day, f.hour, f.minute, 0.0) + 60.0;
      assert Elapsed(c.day, c.hour, c.minute, c.second) - Elapsed(f.day, f.hour, f.minute, f.second) == 60.0 - f.second;
    } else {
      assert c.second == second0;
    }
  }

  /** For a time of day, the displayed time is a time of day too, with the
      seconds below 60 and the day the same or the next one. */
  lemma DisplayClockInRange(f: Fields)
    requires 0 <= f.hour <= 23 && 0 <= f.minute <= 59 && 0.0 <= f.second < 60.0
    ensures var c := DisplayClock(f);
      0 <= c.hour <= 23 && 0 <= c.minute <= 59 && 0.0 <= c.second <= 60.0 - Resolution
      && (c.day == f.day || c.day == f.day + 1)
  {
  }

  /** Seconds away from both ends of the minute are displayed unchanged. */
  lemma DisplayClockUnchanged(f: Fields)
    requires 0 <= f.hour <= 23 && 0 <= f.minute <= 59
    requires f.second == 0.0 || Resolution <= f.second <= 60.0 - Resolution
    ensures DisplayClock(f) == Clock(f.day, f.hour, f.minute, f.second)
  {
  }

  /** The rendering of the default object. */
  lemma RenderDefault()
    ensures Render(Default) == "1970-01-01T00:00:00"
  {
    DisplayClockUnchanged(Default);
    assert IntToString(1970) == "1970" by {
      assert NatToString(1970) == NatToString(197) + "0";
      assert NatToString(197) == NatToString(19) + "7";
      assert NatToString(19) == NatToString(1) + "9";
    }
    assert Pad2(IntToString(1)) == "01" && Pad2(IntToString(0)) == "00";
    assert Pad2(FormatReal(0.0)) == "00";
    assert ZoneString(ZoneOfFields(Default)) == "";
  }

  // ----- rendering reproduces the text that was read -----

  /** Seconds written as two digits, or with a non-zero tens digit, one to
      four decimals and no trailing zero: the forms the `%g`-style output
      writes back unchanged. */
  predicate CanonicalSecondsText(t: string)
  {
    |t| == 2 || (4 <= |t| <= 7 && t[0] != '0' && t[|t| - 1] != '0')
  }

  /** An offset that is not zero (a zero offset is not written back). */
  predicate CanonicalZone(z: Zone)
    requires WellFormedZone(z)
  {
    z.Offset? ==> NatValue(z.hh) != 0 || (z.mm != "" && NatValue(z.mm) != 0)
  }

  /** Groups that the rendering writes back as they were read: a year
      without leading zeros (and not "-0"), and seconds and zone as above. */
  predicate CanonicalCaptures(c: Captures)
  {
    WellFormed(c) && Canonical(c.year) && !(c.negative && c.year == "0")
    && (c.seconds.Some? ==> CanonicalSecondsText(c.seconds.value.text) && CanonicalZone(c.seconds.value.zone))
  }

  lemma RenderYear(negative: bool, year: string)
    requires Canonical(year) && !(negative && year == "0")
    ensures var n: int := NatValue(year);
      IntToString(if negative then -n else n) == YearText(negative, year)
  {
    var n: int := NatValue(year);
    NatToStringOfNatValue(year);
    if negative {
      CanonicalPositive(year);
      assert IntToString(-n) == "-" + NatToString(n);
    } else {
      assert IntToString(n) == NatToString(n);
    }
  }

  /** Canonical digit text other than "0" has a positive value. */
  lemma CanonicalPositive(s: string)
    requires Canonical(s) && s != "0"
    ensures NatValue(s) > 0
  {
    if |s| > 1 {
      NatValueLowerBound(s);
    } else {
      assert s == [s[0]] && s[0] != '0';
      assert s[..0] == [];
      assert NatValue(s) == DigitValue(s[0]);
    }
  }

  lemma RenderTwoDigits(s: string)
    requires |s| == 2 && AllDigits(s)
    ensures Pad2(IntToString(NatValue(s))) == s
  {
    PadRestoresLeadingZeros(s);
  }

  /** Two-digit seconds are displayed as they were written. */
  lemma SecondsWholeDisplay(t: string)
    requires MinuteText(t)
    ensures var v := SecondsValue(Some(Seconds(t, NoZone)));
      (v == 0.0 || Resolution <= v <= 60.0 - Resolution) && Pad2(FormatReal(v)) == t
  {
    var n := NatValue(t);
    MinuteValue(t);
    FormatIntegral(n);
    PadRestoresLeadingZeros(t);
  }

  /** Seconds with decimals are displayed as they were written. */
  lemma SecondsFractionDisplay(t: string)
    requires SecondText(t) && CanonicalSecondsText(t) && |t| > 2
    ensures var v := SecondsValue(Some(Seconds(t, NoZone)));
      Resolution <= v <= 60.0 - Resolution && Pad2(FormatReal(v)) == t
  {
    var whole, fraction := t[..2], t[3..];
    assert MinuteText(whole) && whole[0] != '0' && 1 <= |fraction| <= 4 && AllDigits(fraction);
    assert fraction[|fraction| - 1] != '0' by {
      assert fraction[|fraction| - 1] == t[|t| - 1];
    }
    var v := DecimalValue(whole + fraction, |fraction|);
    assert SecondsValue(Some(Seconds(t, NoZone))) == v;
    assert FormatReal(v) == t by {
      FormatTwoDigitDecimal(whole, fraction);
      assert whole + "." + fraction == t;
    }
    assert Resolution <= v <= 60.0 - Resolution by {
      FractionValueBounds(whole, fraction);
    }
    assert Pad2(t) == t;
  }

  lemma FractionValueBounds(whole: string, fraction: string)
    requires MinuteText(whole) && whole[0] != '0' && 1 <= |fraction| <= 4 && AllDigits(fraction)
    ensures AllDigits(whole + fraction)
    ensures var v := DecimalValue(whole + fraction, |fraction|);
      Resolution <= v <= 60.0 - Resolution
  {
    var k := |fraction|;
    TwoDigitValue(whole);
    MinuteValue(whole);
    NatValueAppend(whole, fraction);
    Pow10Monotonic(k, 4);
    assert Pow10(4) == 10000;
    FractionBounds(NatValue(whole), NatValue(fraction), Pow10(k));
  }

  /** ww.ffff with 10 <= ww <= 59 lies within the resolution of neither end
      of the minute. */
  lemma FractionBounds(w: nat, f: nat, p: nat)
    requires 10 <= w <= 59 && f < p && 1 <= p <= 10000
    ensures var v := (w * p + f) as real / p as real;
      Resolution <= v <= 60.0 - Resolution
  {
    var pr, fr := p as real, f as real;
    SplitQuotient(w, f, p);
    assert fr / pr <= 1.0 - 1.0 / pr by {
      assert fr <= pr - 1.0;
      DivideAtMost(fr, pr - 1.0, pr);
      assert (pr - 1.0) / pr == 1.0 - 1.0 / pr;
    }
    assert 1.0 / pr >= 1.0 / 10000.0 by {
      ReciprocalAntitone(pr, 10000.0);
    }
  }

  lemma SplitQuotient(w: nat, f: nat, p: nat)
    requires p >= 1
    ensures (w * p + f) as real / p as real == w as real + f as real / p as real
    ensures f as real / p as real >= 0.0
  {
    assert (w * p + f) as real == w as real * p as real + f as real;
  }

  lemma DivideAtMost(a: real, b: real, p: real)
    requires a <= b && p > 0.0
    ensures a / p <= b / p
  {
  }

  lemma ReciprocalAntitone(a: real, b: real)
    requires 0.0 < a <= b
    ensures 1.0 / a >= 1.0 / b
  {
    assert 1.0 / a * a == 1.0 && 1.0 / b * b == 1.0;
    assert (1.0 / b) * a <= (1.0 / b) * b;
  }

  /** A non-zero offset and the UTC designator are written back as read. */
  lemma ZoneDisplay(z: Zone)
    requires WellFormedZone(z) && CanonicalZone(z)
    ensures ZoneString(FieldsOfZone(z)) == ZoneText(z)
  {
    if z.Offset? {
      var tz := OffsetHours(z.negative, z.hh, z.mm);
      assert tz != 0.0 && (tz > 0.0 <==> !z.negative);
      assert Pad2(z.hh) == z.hh;
      assert z.mm != "" ==> Pad2(z.mm) == z.mm;
    }
  }

  /** The seconds as displayed: the text read, or "00" when it was absent. */
  lemma SecondsDisplay(seconds: Option<Seconds>)
    requires seconds.Some? ==> WellFormedSeconds(seconds.value) && CanonicalSecondsText(seconds.value.text)
    ensures var v := SecondsValue(seconds);
      (v == 0.0 || Resolution <= v <= 60.0 - Resolution)
      && Pad2(FormatReal(v)) == if seconds.Some? then seconds.value.text else "00"
  {
    if seconds.Some? {
      var t := seconds.value.text;
      assert SecondsValue(seconds) == SecondsValue(Some(Seconds(t, NoZone)));
      if |t| == 2 {
        SecondsWholeDisplay(t);
      } else {
        SecondsFractionDisplay(t);
      }
    } else {
      FormatIntegral(0);
    }
  }

  /** The clock part: hours and minutes as read, then the seconds text, or
      "00" when the seconds were absent. */
  lemma ClockOfCaptures(c: Captures)
    requires CanonicalCaptures(c)
    ensures ClockString(DisplayClock(FieldsOf(c))) ==
      c.hour + ":" + c.minute + ":" + (if c.seconds.Some? then c.seconds.value.text else "00")
    ensures DisplayClock(FieldsOf(c)).day == NatValue(c.day)
  {
    var f := FieldsOf(c);
    var h, m, v := NatValue(c.hour), NatValue(c.minute), SecondsValue(c.seconds);
    assert f.hour == h && f.minute == m && f.second == v && f.day == NatValue(c.day);
    HourValue(c.hour);
    MinuteValue(c.minute);
    SecondsDisplay(c.seconds);
    DisplayClockUnchanged(f);
    RenderTwoDigits(c.hour);
    RenderTwoDigits(c.minute);
  }

  /** The date part is written back as read. */
  lemma DateOfCaptures(c: Captures)
    requires CanonicalCaptures(c)
    ensures var f := FieldsOf(c);
      IntToString(f.year) + "-" + Pad2(IntToString(f.month)) + "-" + Pad2(IntToString(NatValue(c.day))) == DateText(c)
  {
    var f := FieldsOf(c);
    var n: int := NatValue(c.year);
    assert f.year == (if c.negative then -n else n) && f.month == NatValue(c.month);
    assert MonthText(c.month) && DayText(c.day);
    WrittenDate(c.negative, c.year, c.month, c.day, f.year, f.month);
    assert DateText(c) == YearText(c.negative, c.year) + MonthDayText(c.month, c.day);
  }

  /** The year, month and day written as `DateTime2String` does give the
      date text they were read from. */
  lemma WrittenDate(negative: bool, year: string, month: string, day: string, y: int, m: int)
    requires Canonical(year) && !(negative && year == "0")
    requires MonthText(month) && DayText(day)
    requires y == (var n: int := NatValue(year); if negative then -n else n) && m == NatValue(month)
    ensures IntToString(y) + "-" + Pad2(IntToString(m)) + "-" + Pad2(IntToString(NatValue(day)))
            == YearText(negative, year) + MonthDayText(month, day)
  {
    var ys, ms, ds := IntToString(y), Pad2(IntToString(m)), Pad2(IntToString(NatValue(day)));
    assert ys == YearText(negative, year) by {
      RenderYear(negative, year);
    }
    assert ms == month by {
      RenderTwoDigits(month);
    }
    assert ds == day by {
      RenderTwoDigits(day);
    }
    JoinDate(ys, ms, ds);
  }

  lemma JoinDate(y: string, m: string, d: string)
    ensures y + "-" + m + "-" + d == y + MonthDayText(m, d)
  {
  }

  /** The zone is written back as read. */
  lemma ZoneOfCaptures(c: Captures)
    requires CanonicalCaptures(c)
    ensures ZoneString(ZoneOfFields(FieldsOf(c))) == if c.seconds.Some? then ZoneText(c.seconds.value.zone) else ""
  {
    var z := ZoneOf(c.seconds);
    assert ZoneOfFields(FieldsOf(c)) == FieldsOfZone(z);
    if c.seconds.Some? {
      ZoneDisplay(z);
    } else {
      assert FieldsOfZone(z) == ZoneFields(false, false, 0.0, "", "");
    }
  }

  /** Rendering the members read from canonical groups writes back the text
      they were read from; a time without seconds gets ":00" appended. */
  lemma RenderOfCaptures(c: Captures)
    requires CanonicalCaptures(c)
    ensures Render(FieldsOf(c)) == Assemble(c) + (if c.seconds.None? then ":00" else "")
  {
    var f := FieldsOf(c);
    var cl := DisplayClock(f);
    ClockOfCaptures(c);
    DateOfCaptures(c);
    ZoneOfCaptures(c);
    var d, zoneText := DateText(c), if c.seconds.Some? then ZoneText(c.seconds.value.zone) else "";
    var clock := ClockString(cl);
    assert Render(f) == d + "T" + clock + zoneText;
    if c.seconds.Some? {
      var t := c.seconds.value.text;
      assert TimeText(c) == (c.hour + ":" + c.minute) + (":" + (t + zoneText));
      Regroup(d, c.hour, c.minute, t, zoneText, clock, TimeText(c));
      assert Render(f) == Assemble(c) + "";
    } else {
      assert TimeText(c) == (c.hour + ":" + c.minute) + "";
      Regroup(d, c.hour, c.minute, "00", "", clock, TimeText(c));
      assert Render(f) == Assemble(c) + ":00";
    }
  }

  /** Reading a canonical text with seconds and writing the result gives the
      text back. */
  lemma ParseRenderRoundTrip(c: Captures)
    requires CanonicalCaptures(c) && c.seconds.Some? && InRange(FieldsOf(c))
    ensures Parse(Assemble(c)).Success? && Render(Parse(Assemble(c)).value) == Assemble(c)
  {
    ParseOfCaptures(c);
    RenderOfCaptures(c);
  }

  lemma Regroup(d: string, h: string, m: string, t: string, z: string, clock: string, time: string)
    requires clock == h + ":" + m + ":" + t
    ensures time == (h + ":" + m) + (":" + (t + z)) ==> d + "T" + clock + z == (d + "T" + time) + ""
    ensures time == (h + ":" + m) + "" && t == "00" && z == "" ==> d + "T" + clock + z == (d + "T" + time) + ":00"
  {
  }
}
