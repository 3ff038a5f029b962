/** The three Julian Date conversions of a DateTime (libCoords/datetime.cpp:425-661):
    the Wikipedia formula, the Numerical Recipes in C algorithm and the
    Modified Julian Date algorithm of Astronomy on the Personal Computer,
    each forward (fields to day count) and inverse (day count to fields). */
module JulianDates {
  import opened Utils
  import opened Calendar
  import opened DateTimeFields
  import opened Rollover

  /** `s_gDateNRC`: the date key of 1582-10-15, the first Gregorian day. */
  const GregorianDateKey: int := 15 + 31 * (10 + 12 * 1582)

  /** `s_LilianDate`, `s_ModifiedJulianDate`, `s_TruncatedJulianDate`, `s_J2000`. */
  const LilianDate: real := 2299160.5
  const ModifiedJulianDate: real := 2400000.5
  const TruncatedJulianDate: real := 2440000.5
  const J2000: real := 2451545.0

  /** The key the forward conversions compare with `s_gDateNRC`: it grows
      with the date, one step per day within a month. */
  function DateKey(year: int, month: int, day: int): int
  {
    day + 31 * (month + 12 * year)
  }

  /** The time of day and the time zone as a fraction of a day, as the Wiki
      and APC conversions add them. */
  function PartialDay(f: Fields): real
  {
    Degrees2Seconds(f.hour as real, f.minute as real, f.second) / 86400.0 + f.timezone / 24.0
  }

  // ----- toJulianDateWiki -----

  /** The whole days of `toJulianDateWiki`, with C++ integer division; the
      Gregorian formula from the key of 1582-10-15 on, the Julian one before. */
  function WikiDays(year: int, month: int, day: int): int
  {
    var a := Trunc((14 - month) as real / 12.0);
    var y := year + 4800 - a;
    var m := month + 12 * a - 3;
    if DateKey(year, month, day) >= GregorianDateKey then
      day + TruncDiv(153 * m + 2, 5) + 365 * y + TruncDiv(y, 4) - TruncDiv(y, 100) + TruncDiv(y, 400) - 32045
    else
      day + TruncDiv(153 * m + 2, 5) + 365 * y + TruncDiv(y, 4) - 32083
  }

  function WikiJulianDate(f: Fields): real
  {
    WikiDays(f.year, f.month, f.day) as real + PartialDay(f)
  }

  // ----- toJulianDateNRC -----

  const NoYearZero := "There is no year zero in this algorithm, but there should be."

  /** The whole days of `toJulianDateNRC`: the year counted without a year
      zero, March-based months, and the Gregorian correction from the key of
      1582-10-15 on. */
  function NrcDays(year: int, month: int, day: int): int
  {
    var y := if year < 0 then year + 1 else year;
    var (ly, lm) := if month > 2 then (y, month + 1) else (y - 1, month + 13);
    var jdays := (365.25 * ly as real).Floor + (30.6001 * lm as real).Floor + day + 1720995;
    if DateKey(year, month, day) >= GregorianDateKey then
      var ja := Trunc(0.01 * ly as real);
      jdays + 2 - ja + Trunc(0.25 * ja as real)
    else jdays
  }

  /** `toJulianDateNRC`: the year 0 is refused; the time zone is added to the
      hour before the time of day is converted. */
  function NrcJulianDate(f: Fields): (r: Result<real>)
    ensures r.Failure? <==> f.year == 0
    ensures r.Failure? ==> r.error == Error(NoYearZero)
  {
    if f.year == 0 then Failure(Error(NoYearZero))
    else
      Success(NrcDays(f.year, f.month, f.day) as real
              + Degrees2Seconds(f.hour as real + f.timezone, f.minute as real, f.second) / 86400.0)
  }

  // ----- toModifiedJulianDateAPC -----

  /** The whole days of `toModifiedJulianDateAPC`: January and February
      counted as months 13 and 14 of the year before, and the Julian
      calendar up to 1582-10-04. */
  function ApcDays(year: int, month: int, day: int): int
  {
    var (ly, lm) := if month <= 2 then (year - 1, month + 12) else (year, month);
    var b := if 10000 * ly + 100 * lm + day <= 15821004 then -2 + TruncDiv(ly + 4716, 4) - 1179
             else TruncDiv(ly, 400) - TruncDiv(ly, 100) + TruncDiv(ly, 4);
    365 * ly - 679004 + b + Trunc(30.6001 * (lm + 1) as real) + day
  }

  function ApcModifiedJulianDate(f: Fields): real
  {
    ApcDays(f.year, f.month, f.day) as real + PartialDay(f)
  }

  // ----- the time of day of the inverse conversions -----

  datatype Time = Time(hour: int, minute: int, second: real)

  /** The hours, minutes and seconds the inverse conversions read from the
      fraction of the day: they add up to that fraction and lie in range. */
  function TimeOf(jd: real): (t: Time)
    ensures 0 <= t.hour <= 23 && 0 <= t.minute <= 59 && 0.0 <= t.second < 60.0
    ensures 3600.0 * t.hour as real + 60.0 * t.minute as real + t.second == 86400.0 * (jd - jd.Floor as real)
  {
    var hours := 24.0 * (jd - jd.Floor as real);
    var hour := Trunc(hours);
    var minutes := 60.0 * (hours - hours.Floor as real);
    var minute := Trunc(minutes);
    Time(hour, minute, 60.0 * (minutes - minutes.Floor as real))
  }

  // ----- fromJulianDateWiki -----

  /** The date of `fromJulianDateWiki`, with its floating division inside
      the first step and C++ integer arithmetic after it. */
  function WikiDate(jd: real): Date
  {
    var f := Trunc(jd + 1401.0 + (((4.0 * jd + 274277.0) / 146097.0) * 3.0) / 4.0 - 38.0);
    var e := 4 * f + 3;
    var g := TruncDiv(TruncMod(e, 1461), 4);
    var h := 5 * g + 2;
    var month := TruncMod(TruncDiv(h, 153) + 2, 12) + 1;
    Date(TruncDiv(e, 1461) - 4716 + TruncDiv(12 + 2 - month, 12), month, TruncDiv(TruncMod(h, 153), 5) + 1)
  }

  /** `fromJulianDateWiki`: the date and time of the day count; the time
      zone in force before the call is taken off the hour (truncated to a
      whole hour), then the zone becomes 0 and its text is cleared. The leap
      flag and the Zulu flag are not touched. */
  function FromWiki(f: Fields, jd: real): (r: Fields)
    ensures (r.year, r.month, r.day) == (WikiDate(jd).year, WikiDate(jd).month, WikiDate(jd).day)
    ensures r.hour == Trunc(TimeOf(jd).hour as real - f.timezone)
    ensures r.minute == TimeOf(jd).minute && r.second == TimeOf(jd).second
    ensures r.timezone == 0.0 && r.timezoneHH == "" && r.timezoneMM == "" && !r.hasTimezoneColon
    ensures r.isLeapYear == f.isLeapYear && r.isZulu == f.isZulu
  {
    var date := WikiDate(jd);
    var t := TimeOf(jd);
    f.(year := date.year, month := date.month, day := date.day,
       hour := Trunc(t.hour as real - f.timezone), minute := t.minute, second := t.second,
       timezone := 0.0, timezoneHH := "", hasTimezoneColon := false, timezoneMM := "")
  }

  // ----- fromJulianDateNRC -----

  /** The first step of `fromJulianDateNRC`: the Gregorian correction is
      applied when the day count reaches `s_gDateNRC`, which is a date key,
      not a day count. */
  function NrcCorrected(jd: real): int
  {
    if jd >= GregorianDateKey as real then
      var jalpha := Trunc(((jd - 1867216.0) - 0.25) / 36524.25);
      Trunc(jd + 1.0 + jalpha as real - Trunc(0.25 * jalpha as real) as real)
    else Trunc(jd)
  }

  /** The date of `fromJulianDateNRC`; the year before 1 is -1. */
  function NrcDate(jd: real): (r: Date)
    ensures r.year != 0
  {
    NrcDateOfCount(NrcCorrected(jd) + 1524)
  }

  /** The year, month and day `fromJulianDateNRC` reads from its day count
      `jb`; the year before 1 is -1. */
  function NrcDateOfCount(jb: int): (r: Date)
    ensures r.year != 0
  {
    var jc := Trunc(6680.0 + ((jb - 2439870) as real - 122.1) / 365.25);
    var jd' := Trunc(365.0 * jc as real + 0.25 * jc as real);
    var je := Trunc((jb - jd') as real / 30.6001);
    var month := if je - 1 > 12 then je - 13 else je - 1;
    var year := if month > 2 then jc - 4716 else jc - 4715;
    Date(if year <= 0 then year - 1 else year, month, jb - jd' - Trunc(30.6001 * je as real))
  }


  /** `fromJulianDateNRC`: sets the date only; the hour, minute and second
      keep their values, the zone becomes 0 and its text is cleared. */
  function FromNrc(f: Fields, jd: real): (r: Fields)
    ensures Date(r.year, r.month, r.day) == NrcDate(jd) && r.year != 0
    ensures r.hour == f.hour && r.minute == f.minute && r.second == f.second
    ensures r.timezone == 0.0 && r.timezoneHH == "" && r.timezoneMM == "" && !r.hasTimezoneColon
    ensures r.isLeapYear == f.isLeapYear && r.isZulu == f.isZulu
  {
    var date := NrcDate(jd);
    f.(year := date.year, month := date.month, day := date.day,
       timezone := 0.0, timezoneHH := "", hasTimezoneColon := false, timezoneMM := "")
  }

  // ----- fromModifiedJulianDateAPC -----

  /** The date of `fromModifiedJulianDateAPC`: the Julian calendar before
      the day count 2299161, the Gregorian one from it on. */
  function ApcDate(mjd: real): Date
  {
    ApcDateOfCount(ApcDayCount(mjd))
  }

  /** The day count c of `fromModifiedJulianDateAPC`, with the Gregorian
      correction from the Julian Day 2299161 on. */
  function ApcDayCount(mjd: real): int
  {
    var a := Trunc(mjd + 2400001.0);
    if a < 2299161 then a + 1524
    else var b := Trunc((a as real - 1867216.25) / 36524.25); a + b - TruncDiv(b, 4) + 1525
  }

  /** The year, month and day `fromModifiedJulianDateAPC` reads from its
      day count. */
  function ApcDateOfCount(c: int): Date
  {
    var d := Trunc((c as real - 122.1) / 365.25);
    var e := 365 * d + TruncDiv(d, 4);
    var f := Trunc((c - e) as real / 30.6001);
    var month := f - 1 - 12 * TruncDiv(f, 14);
    Date(d - 4715 - TruncDiv(7 + month, 10), month, c - e - Trunc(30.6001 * f as real))
  }


  /** The state an inverse conversion leaves, and the exception it throws
      after setting it, if any. */
  datatype Converted = Converted(fields: Fields, error: Option<Error>)

  /** `fromModifiedJulianDateAPC`: the date and time of the day count are
      stored with the given zone, then adjusted for that zone; an
      out-of-range zone throws with the unadjusted values already stored.
      The zone text, the leap flag and the Zulu flag are not touched. */
  function FromApc(f: Fields, mjd: real, timezone: real): (r: Converted)
    ensures r.error.Some? <==> timezone < -12.0 || timezone > 12.0
    ensures r.fields.timezone == timezone
    ensures r.error.Some? ==> Date(r.fields.year, r.fields.month, r.fields.day) == ApcDate(mjd)
                              && r.fields.hour == TimeOf(mjd).hour
    ensures r.error.None? ==>
      var m := Adjusted(Moment(ApcDate(mjd), TimeOf(mjd).hour, TimeOf(mjd).minute, TimeOf(mjd).second), timezone).value;
      Date(r.fields.year, r.fields.month, r.fields.day) == m.date && r.fields.hour == m.hour
      && r.fields.minute == m.minute && r.fields.second == m.second
    ensures (r.fields.isLeapYear, r.fields.isZulu, r.fields.hasTimezoneColon, r.fields.timezoneHH, r.fields.timezoneMM)
         == (f.isLeapYear, f.isZulu, f.hasTimezoneColon, f.timezoneHH, f.timezoneMM)
  {
    var date := ApcDate(mjd);
    var t := TimeOf(mjd);
    var stored := f.(year := date.year, month := date.month, day := date.day,
                     hour := t.hour, minute := t.minute, second := t.second, timezone := timezone);
    match Adjusted(Moment(date, t.hour, t.minute, t.second), timezone)
    case Failure(e) => Converted(stored, Some(e))
    case Success(m) =>
      Converted(stored.(year := m.date.year, month := m.date.month, day := m.date.day,
                        hour := m.hour, minute := m.minute, second := m.second), None)
  }

  // ----- the choice of algorithm -----

  /** The algorithm `toJulianDate` and `fromJulianDate` use. */
  datatype Algorithm = Wiki | Nrc | Apc

  /** `toJulianDate`: a Julian Date by the chosen algorithm; the APC
      conversion's Modified Julian Date is moved to the Julian Date epoch. */
  function ToJulianDate(f: Fields, alg: Algorithm): (r: Result<real>)
    ensures r.Failure? <==> alg == Nrc && f.year == 0
  {
    match alg
    case Wiki => Success(WikiJulianDate(f))
    case Nrc => NrcJulianDate(f)
    case Apc => Success(ApcModifiedJulianDate(f) + ModifiedJulianDate)
  }

  /** `fromJulianDate(jd, tz)`: the inverse of the chosen algorithm; only
      the APC conversion takes the zone. */
  function FromJulianDate(f: Fields, jd: real, timezone: real, alg: Algorithm): (r: Converted)
    ensures r.error.Some? <==> alg == Apc && (timezone < -12.0 || timezone > 12.0)
  {
    match alg
    case Wiki => Converted(FromWiki(f, jd), None)
    case Nrc => Converted(FromNrc(f, jd), None)
    case Apc => FromApc(f, jd - ModifiedJulianDate, timezone)
  }

  // ----- the forward conversions against the calendar's day count -----

  /** `(x + k * c) / k == x / k + c`. */
  lemma DivAdd(x: int, k: int, c: int)
    requires k > 0
    ensures (x + k * c) / k == x / k + c
  {
    DivOfUnique(x + k * c, k, x / k + c, x % k);
  }

  /** The Gregorian leap-year terms of the formulas, as leap years counted
      from the year 0. */
  lemma GregorianQuotients(x: int)
    ensures x / 4 - x / 100 + x / 400 == LeapYearsBefore(x + 1) - 1
    ensures (x + 4800) / 4 - (x + 4800) / 100 + (x + 4800) / 400 == LeapYearsBefore(x + 1) + 1163
  {
    DivAdd(x, 4, 1);
    DivAdd(x, 100, 1);
    DivAdd(x, 400, 1);
    DivAdd(x, 4, 1200);
    DivAdd(x, 100, 48);
    DivAdd(x, 400, 12);
  }

  /** A date at or after the key of 1582-10-15 is in 1582 or later. */
  lemma GregorianYear(year: int, month: int, day: int)
    requires 1 <= month <= 12 && day <= 31 && DateKey(year, month, day) >= GregorianDateKey
    ensures year >= 1582 && (month <= 2 ==> year >= 1583) && (year == 1582 ==> month >= 10)
  {
  }

  /** The month term of the Wikipedia formula, with months counted from March. */
  lemma WikiMonthTerm(month: int)
    requires 1 <= month <= 12
    ensures month > 2 ==> (153 * (month - 3) + 2) / 5 == DaysBeforeMonth(false, month) - 59
    ensures month <= 2 ==> (153 * (month + 9) + 2) / 5 == DaysBeforeMonth(false, month) + 306
  {
  }

  /** The calendar's day count with the leap days and the month term taken
      apart, once for months from March on and once for January and
      February, counted as the end of the year before. */
  lemma MarchForm(year: int, month: int, day: int)
    requires 1 <= month <= 12
    ensures var n := DayNumber(Date(year, month, day));
      month > 2 ==> n == 365 * year + LeapYearsBefore(year + 1) + DaysBeforeMonth(false, month) + day - 1
    ensures var n := DayNumber(Date(year, month, day));
      month <= 2 ==> n == 365 * year + LeapYearsBefore(year) + DaysBeforeMonth(false, month) + day - 1
    ensures var n := DayNumber(Date(year, month, day));
      month > 2 ==> n == 365 * year + year / 4 - year / 100 + year / 400 + DaysBeforeMonth(false, month) + day
    ensures var n := DayNumber(Date(year, month, day)); var x := year - 1;
      month <= 2 ==> n == 365 * x + x / 4 - x / 100 + x / 400 + DaysBeforeMonth(false, month) + 365 + day
  {
    LeapYearsStep(year);
    GregorianQuotients(year);
    GregorianQuotients(year - 1);
    assert DaysBeforeMonth(IsLeapYear(year), month)
        == DaysBeforeMonth(false, month) + (if month > 2 && IsLeapYear(year) then 1 else 0);
  }

  /** On its Gregorian branch the Wikipedia formula is the calendar's day
      count from 0000-01-01 shifted to the Julian Day Number epoch. */
  lemma WikiGregorianDays(year: int, month: int, day: int)
    requires 1 <= month <= 12 && day <= 31 && DateKey(year, month, day) >= GregorianDateKey
    ensures WikiDays(year, month, day) == DayNumber(Date(year, month, day)) + 1721060
  {
    GregorianYear(year, month, day);
    MarchForm(year, month, day);
    WikiMonthTerm(month);
    var x := if month <= 2 then year - 1 else year;
    WikiForm(year, month, day);
    assert (x + 4800) / 4 - (x + 4800) / 100 + (x + 4800) / 400 == LeapYearsBefore(x + 1) + 1163 by {
      GregorianQuotients(x);
    }
  }

  /** The Gregorian branch of the Wikipedia formula with the cast and the
      truncating divisions resolved, `x` being the March-based year. */
  lemma WikiForm(year: int, month: int, day: int)
    requires 1 <= month <= 12 && year >= 1582 && DateKey(year, month, day) >= GregorianDateKey
    ensures var x := if month <= 2 then year - 1 else year;
      var m := if month <= 2 then month + 9 else month - 3;
      WikiDays(year, month, day)
      == day + (153 * m + 2) / 5 + 365 * (x + 4800) + (x + 4800) / 4 - (x + 4800) / 100 + (x + 4800) / 400 - 32045
  {
    if month <= 2 {
      assert Trunc((14 - month) as real / 12.0) == 1;
    } else {
      assert Trunc((14 - month) as real / 12.0) == 0;
    }
  }

  /** The month term `floor(30.6001 * k)` of the NRC and APC formulas, with
      months counted from March and January and February as months 13 and
      14 of the year before. */
  lemma ThirtyDayTerm(k: int)
    requires 4 <= k <= 15
    ensures (30.6001 * k as real).Floor == Trunc(30.6001 * k as real)
    ensures k <= 13 ==> (30.6001 * k as real).Floor == DaysBeforeMonth(false, k - 1) + 63
    ensures k >= 14 ==> (30.6001 * k as real).Floor == DaysBeforeMonth(false, k - 13) + 428
    ensures (30.6001 * k as real).Floor as real < 30.6001 * k as real
  {
  }

  /** `floor(365.25 * n)` is 365 days a year and one every fourth year. */
  lemma QuarterYears(n: int)
    ensures (365.25 * n as real).Floor == 365 * n + n / 4
  {
    var q, r := n / 4, n % 4;
    assert 365.25 * n as real == (365 * n + q) as real + 0.25 * r as real;
  }

  /** The casts of `0.01 * n` and `0.25 * n` to an integer, for n >= 0. */
  lemma Hundredths(n: int)
    requires n >= 0
    ensures Trunc(0.01 * n as real) == n / 100 && Trunc(0.25 * (n / 100) as real) == n / 400
  {
    var q, r := n / 100, n % 100;
    assert 0.01 * n as real == q as real + 0.01 * r as real;
    var p, t := q / 4, q % 4;
    assert 0.25 * q as real == p as real + 0.25 * t as real;
    DivOfUnique(n, 400, p, 100 * t + r);
  }

  /** On its Gregorian branch the NRC day count is the Wikipedia one. */
  lemma NrcGregorianDays(year: int, month: int, day: int)
    requires 1 <= month <= 12 && day <= 31 && DateKey(year, month, day) >= GregorianDateKey
    ensures NrcDays(year, month, day) == DayNumber(Date(year, month, day)) + 1721060
  {
    GregorianYear(year, month, day);
    MarchForm(year, month, day);
    if month > 2 {
      NrcTerms(year, month + 1, day);
      assert (30.6001 * (month + 1) as real).Floor == DaysBeforeMonth(false, month) + 63 by {
        ThirtyDayTerm(month + 1);
      }
    } else {
      NrcTerms(year - 1, month + 13, day);
      assert (30.6001 * (month + 13) as real).Floor == DaysBeforeMonth(false, month) + 428 by {
        ThirtyDayTerm(month + 13);
      }
    }
  }

  /** The Gregorian NRC day count for a positive March-based year `ly` and
      month `lm`, with the year terms as integer quotients. */
  lemma NrcTerms(ly: int, lm: int, day: int)
    requires ly >= 1
    ensures var ja := Trunc(0.01 * ly as real);
      (365.25 * ly as real).Floor + (30.6001 * lm as real).Floor + day + 1720995 + 2 - ja + Trunc(0.25 * ja as real)
      == 365 * ly + ly / 4 - ly / 100 + ly / 400 + (30.6001 * lm as real).Floor + day + 1720997
  {
    Hundredths(ly);
    QuarterYears(ly);
  }

  /** On its Gregorian branch, which every date from 1582-10-15 on takes,
      the APC day count is the calendar's day count shifted to the Modified
      Julian Date epoch. */
  lemma ApcGregorianDays(year: int, month: int, day: int)
    requires 1 <= month <= 12 && day <= 31 && DateKey(year, month, day) >= GregorianDateKey
    ensures ApcDays(year, month, day) == DayNumber(Date(year, month, day)) - 678941
  {
    GregorianYear(year, month, day);
    MarchForm(year, month, day);
    ApcForm(year, month, day);
    var k := if month <= 2 then month + 13 else month + 1;
    assert (30.6001 * k as real).Floor == DaysBeforeMonth(false, month) + (if month <= 2 then 428 else 63) by {
      ThirtyDayTerm(k);
    }
  }

  /** The Gregorian branch of the APC formula, which every date from
      1582-10-15 on takes, with the truncating divisions resolved. */
  lemma ApcForm(year: int, month: int, day: int)
    requires 1 <= month <= 12 && day <= 31 && DateKey(year, month, day) >= GregorianDateKey
    requires year >= 1582 && (month <= 2 ==> year >= 1583) && (year == 1582 ==> month >= 10)
    ensures var x := if month <= 2 then year - 1 else year;
      var k := if month <= 2 then month + 13 else month + 1;
      ApcDays(year, month, day) == 365 * x - 679004 + x / 400 - x / 100 + x / 4 + (30.6001 * k as real).Floor + day
  {
    var x := if month <= 2 then year - 1 else year;
    var k := if month <= 2 then month + 13 else month + 1;
    assert 10000 * x + 100 * (k - 1) + day > 15821004;
    assert Trunc(30.6001 * k as real) == (30.6001 * k as real).Floor;
  }

  /** From 1582-10-15 on the three forward conversions agree: the APC
      Modified Julian Date is the Wikipedia Julian Date less 2400001 days,
      so `toJulianDate` by APC is half a day below the Wikipedia value; the
      NRC value equals the Wikipedia one whenever the hour plus the zone is
      not negative. */
  lemma ForwardAgreement(f: Fields)
    requires 1 <= f.month <= 12 && f.day <= 31 && DateKey(f.year, f.month, f.day) >= GregorianDateKey
    ensures WikiJulianDate(f) == (DayNumber(Date(f.year, f.month, f.day)) + 1721060) as real + PartialDay(f)
    ensures ApcModifiedJulianDate(f) + 2400001.0 == WikiJulianDate(f)
    ensures ToJulianDate(f, Apc) == Success(WikiJulianDate(f) - 0.5)
    ensures f.hour >= 0 && f.minute >= 0 && f.second >= 0.0 && f.hour as real + f.timezone >= 0.0
            ==> ToJulianDate(f, Nrc) == Success(WikiJulianDate(f))
  {
    var n := DayNumber(Date(f.year, f.month, f.day));
    var w, a, p := WikiDays(f.year, f.month, f.day), ApcDays(f.year, f.month, f.day), PartialDay(f);
    assert w == n + 1721060 by {
      WikiGregorianDays(f.year, f.month, f.day);
    }
    assert a == n - 678941 by {
      ApcGregorianDays(f.year, f.month, f.day);
    }
    assert WikiJulianDate(f) == w as real + p && ApcModifiedJulianDate(f) == a as real + p;
    assert a as real + 2400001.0 == w as real;
    var apc := ApcModifiedJulianDate(f) + ModifiedJulianDate;
    assert apc == WikiJulianDate(f) - 0.5;
    assert ToJulianDate(f, Apc) == Success(apc);
    if f.hour >= 0 && f.minute >= 0 && f.second >= 0.0 && f.hour as real + f.timezone >= 0.0 {
      NrcAgreement(f, w);
      assert ToJulianDate(f, Nrc) == NrcJulianDate(f);
    }
  }

  /** The NRC value is the Wikipedia one when the hour, the minute, the
      second and the hour plus the zone are not negative. */
  lemma NrcAgreement(f: Fields, w: int)
    requires 1 <= f.month <= 12 && f.day <= 31 && DateKey(f.year, f.month, f.day) >= GregorianDateKey
    requires f.hour >= 0 && f.minute >= 0 && f.second >= 0.0 && f.hour as real + f.timezone >= 0.0
    requires w == WikiDays(f.year, f.month, f.day)
    ensures NrcJulianDate(f) == Success(w as real + PartialDay(f))
  {
    assert f.year != 0 && NrcDays(f.year, f.month, f.day) == w by {
      GregorianYear(f.year, f.month, f.day);
      NrcGregorianDays(f.year, f.month, f.day);
      WikiGregorianDays(f.year, f.month, f.day);
    }
    assert Degrees2Seconds(f.hour as real + f.timezone, f.minute as real, f.second) / 86400.0 == PartialDay(f) by {
      Degrees2SecondsOfNonNegative(f.hour as real, f.minute as real, f.second);
      Degrees2SecondsOfNonNegative(f.hour as real + f.timezone, f.minute as real, f.second);
    }
  }

  /** A later day has a larger key, so the next day of a Gregorian date is
      Gregorian too. */
  lemma RollForwardKey(date: Date)
    requires ValidDate(date) && !FebruaryHold(date)
    ensures DateKey(RollForward(date).year, RollForward(date).month, RollForward(date).day)
            > DateKey(date.year, date.month, date.day)
  {
  }

  /** From 1582-10-15 on, each forward conversion counts one more day for
      the next calendar day. */
  lemma NextDay(date: Date)
    requires ValidDate(date) && !FebruaryHold(date) && DateKey(date.year, date.month, date.day) >= GregorianDateKey
    ensures var next := RollForward(date);
      WikiDays(next.year, next.month, next.day) == WikiDays(date.year, date.month, date.day) + 1
      && NrcDays(next.year, next.month, next.day) == NrcDays(date.year, date.month, date.day) + 1
      && ApcDays(next.year, next.month, next.day) == ApcDays(date.year, date.month, date.day) + 1
  {
    var next := RollForward(date);
    RollForwardIsNextDay(date);
    RollForwardKey(date);
    WikiGregorianDays(date.year, date.month, date.day);
    WikiGregorianDays(next.year, next.month, next.day);
    NrcGregorianDays(date.year, date.month, date.day);
    NrcGregorianDays(next.year, next.month, next.day);
    ApcGregorianDays(date.year, date.month, date.day);
    ApcGregorianDays(next.year, next.month, next.day);
  }

  // ----- reference values and quirks -----

  /** The dates of the three unit tests at midnight in zone 0: 1968-05-23
      is Julian Date 2440000 by the Wikipedia and NRC formulas, and
      1582-10-15 is the Lilian Date by APC. The day before the Gregorian
      reform, 1582-10-04, is one day before 1582-10-15 in every formula. */
  lemma ReferenceDays()
    ensures WikiDays(1968, 5, 23) == 2440000 && NrcDays(1968, 5, 23) == 2440000
    ensures ApcDays(1582, 10, 15) as real + ModifiedJulianDate == LilianDate
    ensures WikiDays(1582, 10, 4) + 1 == WikiDays(1582, 10, 15)
    ensures NrcDays(1582, 10, 4) + 1 == NrcDays(1582, 10, 15)
    ensures ApcDays(1582, 10, 4) + 1 == ApcDays(1582, 10, 15)
  {
    WikiGregorianDays(1968, 5, 23);
    NrcGregorianDays(1968, 5, 23);
    ApcGregorianDays(1582, 10, 15);
    assert Trunc((14 - 10) as real / 12.0) == 0;
    assert WikiDays(1582, 10, 4) == 4 + 214 + 365 * 6382 + 1595 - 32083;
    WikiGregorianDays(1582, 10, 15);
  }

  /** The inverse conversions read the same dates back. */
  lemma ReferenceDates()
    ensures WikiDate(2440000.0) == Date(1968, 5, 23)
    ensures NrcDate(2440000.0) == Date(1968, 5, 23)
    ensures ApcDate(LilianDate - ModifiedJulianDate) == Date(1582, 10, 15)
    ensures ApcDate(LilianDate - ModifiedJulianDate - 1.0) == Date(1582, 10, 4)
  {
    WikiReferenceDate();
    NrcReferenceDate();
    ApcReferenceDates();
  }

  lemma NrcReferenceDate()
    ensures NrcDate(2440000.0) == Date(1968, 5, 23)
  {
    assert Trunc(((2440000.0 - 1867216.0) - 0.25) / 36524.25) == 15;
    assert Trunc(0.25 * 15 as real) == 3;
    assert NrcCorrected(2440000.0) == 2440013;
    assert Trunc(6680.0 + ((2441537 - 2439870) as real - 122.1) / 365.25) == 6684;
    assert Trunc(365.0 * 6684 as real + 0.25 * 6684 as real) == 2441331;
    assert Trunc((2441537 - 2441331) as real / 30.6001) == 6;
    assert Trunc(30.6001 * 6 as real) == 183;
  }

  lemma WikiReferenceDate()
    ensures WikiDate(2440000.0) == Date(1968, 5, 23)
  {
    var x := 2440000.0 + 1401.0 + (((4.0 * 2440000.0 + 274277.0) / 146097.0) * 3.0) / 4.0 - 38.0;
    assert 2441414.0 <= x < 2441415.0;
    var e := 4 * 2441414 + 3;
    assert TruncMod(e, 1461) == 335;
    assert TruncDiv(e, 1461) == 6684;
  }

  lemma ApcReferenceDates()
    ensures ApcDate(-100840.0) == Date(1582, 10, 15)
    ensures ApcDate(-100841.0) == Date(1582, 10, 4)
  {
    assert Trunc(-100840.0 + 2400001.0) == 2299161;
    assert Trunc((2299161 as real - 1867216.25) / 36524.25) == 11;
    assert Trunc((2300695 as real - 122.1) / 365.25) == 6298;
    assert Trunc((2300695 - 2300344) as real / 30.6001) == 11;
    assert Trunc(30.6001 * 11 as real) == 336;
    assert Trunc(-100841.0 + 2400001.0) == 2299160;
    assert Trunc((2300684 as real - 122.1) / 365.25) == 6298;
    assert Trunc((2300684 - 2300344) as real / 30.6001) == 11;
  }

  /** Before the reform the APC inverse follows the Julian calendar: it
      gives 29 February 1500, a year the Gregorian rule makes common. */
  lemma ApcJulianLeapDay()
    ensures ApcDate(-131009.0) == Date(1500, 2, 29) && !IsLeapYear(1500)
  {
    assert Trunc(-131009.0 + 2400001.0) == 2268992;
    assert Trunc((2270516 as real - 122.1) / 365.25) == 6215;
    assert Trunc((2270516 - 2270028) as real / 30.6001) == 15;
    assert Trunc(30.6001 * 15 as real) == 459;
  }

  /** `fromJulianDateNRC` compares the day count with a date key: a day
      count between that key and the reform (2299161) gets the Gregorian
      correction, four days for the day count 2000000. */
  lemma NrcThresholdQuirk()
    ensures GregorianDateKey as real <= 2000000.0 < 2299161.0
    ensures NrcCorrected(2000000.0) == Trunc(2000000.0) + 4
  {
  }

  /** `toJulianDateNRC` adds the zone to the hour before the signs of the
      time are combined: at 00:30 in zone -1 the time of day counts as
      -1:30 where the Wikipedia formula counts -0:30. */
  lemma NrcNegativeHourQuirk(f: Fields)
    requires f.year != 0 && f.hour == 0 && f.minute == 30 && f.second == 0.0 && f.timezone == -1.0
    ensures NrcJulianDate(f) == Success(NrcDays(f.year, f.month, f.day) as real - 1.5 / 24.0)
    ensures WikiJulianDate(f) == WikiDays(f.year, f.month, f.day) as real - 0.5 / 24.0
  {
  }

  // ----- the inverse conversions give months and days in range -----

  /** The leap rule of the Julian calendar, every fourth year, on years
      numbered with a year 0 before the year 1. */
  predicate IsJulianLeapYear(y: int)
  {
    y % 4 == 0
  }

  /** Every Gregorian leap year is a Julian one; the two rules part only on
      the century years not divisible by 400. */
  lemma JulianLeapYearRule(y: int)
    ensures IsLeapYear(y) ==> IsJulianLeapYear(y)
    ensures IsJulianLeapYear(y) && !IsLeapYear(y) <==> y % 100 == 0 && y % 400 != 0
  {
    IsLeapYearEuclidean(y);
    CenturyDivisors(y);
  }

  /** A multiple of 400 is one of 100, and a multiple of 100 is one of 4. */
  lemma CenturyDivisors(y: int)
    ensures y % 400 == 0 ==> y % 100 == 0
    ensures y % 100 == 0 ==> y % 4 == 0
  {
    var k := y / 100;
    var q := y / 400;
    assert y == 100 * k + y % 100;
    assert y == 400 * q + y % 400;
  }

  /** The month the NRC and APC inverses read from the March-based month
      count f. */
  function MonthOfCount(f: int): int
  {
    if f <= 13 then f - 1 else f - 13
  }

  /** The step the NRC and APC inverses share: from the day count c since
      the start of their year count, the year d, the day of that year, the
      March-based month f and the day of the month, which lies between 1
      and the month's length; February has its 29th day only when the
      March-based year d has 366 days, that is when d + 1 is divisible by 4. */
  lemma MonthAndDay(c: int)
    requires c >= 123
    ensures var d := Trunc((c as real - 122.1) / 365.25);
      var e := 365 * d + TruncDiv(d, 4);
      var f := Trunc((c - e) as real / 30.6001);
      d >= 0 && 4 <= f <= 15
      && 1 <= c - e - Trunc(30.6001 * f as real) <= MonthLength(d % 4 == 3, MonthOfCount(f))
  {
    var d := Trunc((c as real - 122.1) / 365.25);
    assert 365.25 * d as real <= c as real - 122.1 < 365.25 * d as real + 365.25;
    QuarterYears(d);
    var e := 365 * d + TruncDiv(d, 4);
    assert 365.25 * d as real == e as real + 0.25 * (d % 4) as real;
    var x := c - e;
    assert 123 <= x <= 488;
    assert d % 4 != 3 ==> x <= 487;
    var f := Trunc(x as real / 30.6001);
    assert 30.6001 * f as real <= x as real < 30.6001 * f as real + 30.6001;
    assert 4 <= f <= 15;
    ThirtyDayTerm(f);
    if f < 15 {
      ThirtyDayTerm(f + 1);
      assert x <= (30.6001 * (f + 1) as real).Floor;
    }
  }

  /** `fromModifiedJulianDateAPC` gives a month from 1 to 12 and a day
      within the month's length by the Julian leap rule, for every Modified
      Julian Date from the Julian Date 0.5 on. */
  lemma ApcDateInRange(mjd: real)
    requires mjd >= -2400000.0
    ensures var r := ApcDate(mjd);
      1 <= r.month <= 12 && 1 <= r.day <= MonthLength(IsJulianLeapYear(r.year), r.month)
  {
    var a := Trunc(mjd + 2400001.0);
    assert a >= 1;
    assert ApcDayCount(mjd) >= 123;
    ApcCountInRange(ApcDayCount(mjd));
  }

  /** The date read from an APC day count of at least 123 has a month from
      1 to 12 and a day within the month's length by the Julian leap rule. */
  lemma ApcCountInRange(c: int)
    requires c >= 123
    ensures var r := ApcDateOfCount(c);
      1 <= r.month <= 12 && 1 <= r.day <= MonthLength(IsJulianLeapYear(r.year), r.month)
  {
    var d := Trunc((c as real - 122.1) / 365.25);
    var e := 365 * d + TruncDiv(d, 4);
    var f := Trunc((c - e) as real / 30.6001);
    MonthAndDay(c);
    var month := f - 1 - 12 * TruncDiv(f, 14);
    assert month == MonthOfCount(f);
    if month == 2 {
      assert ApcDateOfCount(c).year == d - 4715;
      assert (d - 4715) % 4 == 0 <==> d % 4 == 3;
    }
  }

  /** `fromJulianDateNRC` gives a month from 1 to 12 and a day within the
      month's length by the Julian leap rule (its year -1 is the year 0 of
      that rule), for every Julian Date from 0 on. */
  lemma NrcDateInRange(jd: real)
    requires jd >= 0.0
    ensures var r := NrcDate(jd);
      1 <= r.month <= 12 && 1 <= r.day <= MonthLength(IsJulianLeapYear(if r.year < 0 then r.year + 1 else r.year), r.month)
  {
    assert NrcCorrected(jd) + 1524 >= 123;
    NrcCountInRange(NrcCorrected(jd) + 1524);
  }

  /** The date read from an NRC day count of at least 123 has a month from
      1 to 12 and a day within the month's length by the Julian leap rule,
      its year -1 being the year 0 of that rule. */
  lemma NrcCountInRange(jb: int)
    requires jb >= 123
    ensures var r := NrcDateOfCount(jb);
      1 <= r.month <= 12 && 1 <= r.day <= MonthLength(IsJulianLeapYear(if r.year < 0 then r.year + 1 else r.year), r.month)
  {
    assert 6680.0 + ((jb - 2439870) as real - 122.1) / 365.25 == (jb as real - 122.1) / 365.25;
    var jc := Trunc((jb as real - 122.1) / 365.25);
    assert jc >= 0;
    assert Trunc(365.0 * jc as real + 0.25 * jc as real) == 365 * jc + TruncDiv(jc, 4) by {
      QuarterYears(jc);
      assert 365.0 * jc as real + 0.25 * jc as real == 365.25 * jc as real;
    }
    MonthAndDay(jb);
    var r := NrcDateOfCount(jb);
    if r.month == 2 {
      assert (if r.year < 0 then r.year + 1 else r.year) == jc - 4715;
      assert (jc - 4715) % 4 == 0 <==> jc % 4 == 3;
    }
  }

  /** The month and day `fromJulianDateWiki` reads from the day g of its
      March-based year: February has its 29th day only on the day 365, the
      last of a year of 366 days. */
  lemma WikiMonthAndDay(g: int)
    requires 0 <= g <= 365
    ensures var h := 5 * g + 2; var month := (h / 153 + 2) % 12 + 1;
      1 <= month <= 12 && 1 <= (h % 153) / 5 + 1 <= MonthLength(g == 365, month)
  {
    var h := 5 * g + 2;
    var k := h / 153;
    assert 153 * k <= h < 153 * k + 153;
    assert 0 <= k <= 11;
  }

  /** `fromJulianDateWiki` gives a month from 1 to 12 and a day within the
      month's length by the Julian leap rule, for every Julian Date from 0
      on. */
  lemma WikiDateInRange(jd: real)
    requires jd >= 0.0
    ensures var r := WikiDate(jd);
      1 <= r.month <= 12 && 1 <= r.day <= MonthLength(IsJulianLeapYear(r.year), r.month)
  {
    var f := Trunc(jd + 1401.0 + (((4.0 * jd + 274277.0) / 146097.0) * 3.0) / 4.0 - 38.0);
    assert f >= 0;
    var e := 4 * f + 3;
    var q := e / 1461;
    var g := (e % 1461) / 4;
    assert TruncDiv(TruncMod(e, 1461), 4) == g;
    WikiMonthAndDay(g);
    var h := 5 * g + 2;
    assert TruncDiv(h, 153) == h / 153 && TruncMod(h, 153) == h % 153;
    var month := (h / 153 + 2) % 12 + 1;
    assert TruncMod(TruncDiv(h, 153) + 2, 12) + 1 == month;
    if month == 2 && g == 365 {
      assert e % 1461 == 1460;
      assert e == 1461 * q + 1460;
      assert q + 1 == 4 * (f - 365 * q - 364);
      assert WikiDate(jd).year == q - 4715;
    }
  }
}
