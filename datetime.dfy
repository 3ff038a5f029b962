/** The DateTime class (libCoords/datetime.cpp): its twelve data members,
    the constructors and copy assignment, the day arithmetic that goes
    through a Julian Date, the difference of two instants and the time
    zone setter. The conversions themselves are in module JulianDates. */
module DateTimes {
  import opened Utils
  import opened Calendar
  import opened DateTimeFields
  import opened Rollover
  import opened JulianDates

  // ----- the operations on the members -----

  /** `operator+=(days)`: the Julian Date of the members moved by `days`
      and read back in the current zone; when the forward conversion throws,
      nothing has changed. */
  function Shifted(f: Fields, days: real, alg: Algorithm): Converted
  {
    match ToJulianDate(f, alg)
    case Failure(e) => Converted(f, Some(e))
    case Success(jd) => FromJulianDate(f, jd + days, f.timezone, alg)
  }

  /** `operator-(DateTime, DateTime)`: the difference of the Julian Dates,
      left operand first. */
  function Difference(a: Fields, b: Fields, alg: Algorithm): Result<real>
  {
    match ToJulianDate(a, alg)
    case Failure(e) => Failure(e)
    case Success(x) =>
      match ToJulianDate(b, alg)
      case Failure(e) => Failure(e)
      case Success(y) => Success(x - y)
  }

  const ZoneOutOfRange := "timezone out of range"

  /** The date and time of day of the members, as `adjustForTimezone` is
      given them. */
  function MomentOf(f: Fields): Moment
  {
    Moment(Date(f.year, f.month, f.day), f.hour, f.minute, f.second)
  }

  /** The first step of `timezone(double)`: a time with a non-zero zone is
      brought back to zone 0 through its Julian Date. */
  function Rebased(f: Fields, alg: Algorithm): Converted
  {
    if f.timezone == 0.0 then Converted(f, None)
    else match ToJulianDate(f, alg)
      case Failure(e) => Converted(f, Some(e))
      case Success(jd) => FromJulianDate(f, jd, 0.0, alg)
  }

  /** The rest of `timezone(double)`: store the offset, adjust the time for
      it, clear the zone text and check the result against the text it
      renders to. */
  function Zoned(g: Fields, offset: real): Converted
  {
    match Adjusted(MomentOf(g), offset)
    case Failure(e) => Converted(g.(timezone := offset), Some(e))
    case Success(m) =>
      var h := g.(year := m.date.year, month := m.date.month, day := m.date.day,
                  hour := m.hour, minute := m.minute, second := m.second, timezone := offset,
                  timezoneHH := "", hasTimezoneColon := false, timezoneMM := "");
      Converted(h, IsValid(h, Render(h)))
  }

  /** `timezone(double)`: an offset outside -12..12 is refused before
      anything changes. */
  function Rezoned(f: Fields, offset: real, alg: Algorithm): Converted
  {
    if offset < -12.0 || offset > 12.0 then Converted(f, Some(Error(ZoneOutOfRange)))
    else if Rebased(f, alg).error.Some? then Rebased(f, alg)
    else Zoned(Rebased(f, alg).fields, offset)
  }

  // ----- what the operations promise -----

  /** `operator+=` throws exactly when the NRC conversion meets the year 0,
      which leaves the object as it was, or when the APC conversion is
      given a stored zone out of range. */
  lemma ShiftedErrors(f: Fields, days: real, alg: Algorithm)
    ensures Shifted(f, days, alg).error.Some?
            <==> (alg == Nrc && f.year == 0) || (alg == Apc && (f.timezone < -12.0 || f.timezone > 12.0))
    ensures alg == Nrc && f.year == 0 ==> Shifted(f, days, alg) == Converted(f, Some(Error(NoYearZero)))
  {
  }

  /** After `operator+=` the APC conversion keeps the zone and its text;
      the Wikipedia and NRC conversions leave zone 0 without text. */
  lemma ShiftedZone(f: Fields, days: real, alg: Algorithm)
    requires Shifted(f, days, alg).error.None?
    ensures var g := Shifted(f, days, alg).fields;
      if alg == Apc then ZoneOfFields(g) == ZoneOfFields(f)
      else g.timezone == 0.0 && g.timezoneHH == "" && g.timezoneMM == "" && !g.hasTimezoneColon
  {
  }

  /** The Julian Date of a time from 1582-10-15 on by each algorithm: the
      calendar day number moved to the Julian Day Number epoch plus the
      fraction of the day, half a day less by APC. */
  lemma GregorianJulianDate(f: Fields, alg: Algorithm)
    requires 1 <= f.month <= 12 && f.day <= 31 && DateKey(f.year, f.month, f.day) >= GregorianDateKey
    requires alg == Nrc ==> f.hour >= 0 && f.minute >= 0 && f.second >= 0.0 && f.hour as real + f.timezone >= 0.0
    ensures ToJulianDate(f, alg) == Success((DayNumber(Date(f.year, f.month, f.day)) + 1721060) as real + PartialDay(f)
                                            - (if alg == Apc then 0.5 else 0.0))
  {
    var w := WikiJulianDate(f);
    ForwardAgreement(f);
    assert w == (DayNumber(Date(f.year, f.month, f.day)) + 1721060) as real + PartialDay(f);
    match alg
    case Wiki =>
      assert ToJulianDate(f, alg) == Success(w);
    case Nrc =>
      assert ToJulianDate(f, alg) == Success(w);
    case Apc =>
      assert ToJulianDate(f, alg) == Success(w - 0.5);
  }

  /** The difference of two instants from 1582-10-15 on is the difference
      of their calendar day numbers plus that of their fractions of a day,
      whichever algorithm computes it (for NRC, when neither hour plus zone
      is negative). */
  lemma DifferenceOfDays(a: Fields, b: Fields, alg: Algorithm)
    requires 1 <= a.month <= 12 && a.day <= 31 && DateKey(a.year, a.month, a.day) >= GregorianDateKey
    requires 1 <= b.month <= 12 && b.day <= 31 && DateKey(b.year, b.month, b.day) >= GregorianDateKey
    requires alg == Nrc ==> a.hour >= 0 && a.minute >= 0 && a.second >= 0.0 && a.hour as real + a.timezone >= 0.0
    requires alg == Nrc ==> b.hour >= 0 && b.minute >= 0 && b.second >= 0.0 && b.hour as real + b.timezone >= 0.0
    ensures Difference(a, b, alg) == Success((DayNumber(Date(a.year, a.month, a.day)) - DayNumber(Date(b.year, b.month, b.day))) as real
                                             + PartialDay(a) - PartialDay(b))
  {
    var na, nb := DayNumber(Date(a.year, a.month, a.day)), DayNumber(Date(b.year, b.month, b.day));
    var x := (DayNumber(Date(a.year, a.month, a.day)) + 1721060) as real + PartialDay(a) - (if alg == Apc then 0.5 else 0.0);
    var y := (DayNumber(Date(b.year, b.month, b.day)) + 1721060) as real + PartialDay(b) - (if alg == Apc then 0.5 else 0.0);
    JulianDateIs(a, alg, x);
    JulianDateIs(b, alg, y);
    DifferenceOfSuccesses(a, b, alg, x, y);
    assert x - y == (na - nb) as real + PartialDay(a) - PartialDay(b);
  }

  lemma JulianDateIs(f: Fields, alg: Algorithm, x: real)
    requires 1 <= f.month <= 12 && f.day <= 31 && DateKey(f.year, f.month, f.day) >= GregorianDateKey
    requires alg == Nrc ==> f.hour >= 0 && f.minute >= 0 && f.second >= 0.0 && f.hour as real + f.timezone >= 0.0
    requires x == (DayNumber(Date(f.year, f.month, f.day)) + 1721060) as real + PartialDay(f) - (if alg == Apc then 0.5 else 0.0)
    ensures ToJulianDate(f, alg) == Success(x)
  {
    GregorianJulianDate(f, alg);
  }

  lemma DifferenceOfSuccesses(a: Fields, b: Fields, alg: Algorithm, x: real, y: real)
    requires ToJulianDate(a, alg) == Success(x) && ToJulianDate(b, alg) == Success(y)
    ensures Difference(a, b, alg) == Success(x - y)
  {
  }

  /** The difference fails exactly when the NRC conversion meets the year 0
      in either operand. */
  lemma DifferenceErrors(a: Fields, b: Fields, alg: Algorithm)
    ensures Difference(a, b, alg).Failure? <==> alg == Nrc && (a.year == 0 || b.year == 0)
    ensures Difference(a, b, alg).Failure? ==> Difference(a, b, alg).error == Error(NoYearZero)
  {
  }

  /** An offset outside -12..12 is refused and nothing changes. */
  lemma RezonedRefuses(f: Fields, offset: real, alg: Algorithm)
    requires offset < -12.0 || offset > 12.0
    ensures Rezoned(f, offset, alg) == Converted(f, Some(Error(ZoneOutOfRange)))
  {
  }

  /** The steps after the return to zone 0, on a valid time and an offset
      in range: the time moves to a valid date and an hour of the day with
      the carried minutes and seconds, the offset is stored and the zone
      text cleared. The check passes unless the seconds were exactly 60
      less the resolution: they are then carried to -resolution and the
      check throws "second out of range." after the rendered text. */
  lemma ZonedValid(g: Fields, offset: real)
    requires -12.0 <= offset <= 12.0
    requires ValidDate(Date(g.year, g.month, g.day)) && g.isLeapYear == IsLeapYear(g.year)
    requires 0 <= g.hour <= 23 && 0 <= g.minute <= 59 && 0.0 <= g.second < 60.0
    ensures var r, c := Zoned(g, offset), Carried(MomentOf(g));
      (r.error.None? <==> g.second != 60.0 - Resolution)
      && (r.error.None? ==> InRange(r.fields))
      && (r.error.Some? ==> r.error.value == Error(Render(r.fields) + ": " + SecondRange.Message()))
      && ValidDate(Date(r.fields.year, r.fields.month, r.fields.day))
      && 0 <= r.fields.hour <= 23 && r.fields.minute == c.minute && r.fields.second == c.second
      && r.fields.timezone == offset && r.fields.timezoneHH == "" && r.fields.timezoneMM == ""
      && !r.fields.hasTimezoneColon && r.fields.isLeapYear == g.isLeapYear && r.fields.isZulu == g.isZulu
  {
    var m := MomentOf(g);
    AdjustedValid(m, offset);
    var r := Adjusted(m, offset).value;
    assert MonthLength(g.isLeapYear, r.date.month) == MonthLength(IsLeapYear(r.date.year), r.date.month);
    var h := g.(year := r.date.year, month := r.date.month, day := r.date.day,
                hour := r.hour, minute := r.minute, second := r.second, timezone := offset,
                timezoneHH := "", hasTimezoneColon := false, timezoneMM := "");
    assert Zoned(g, offset) == Converted(h, IsValid(h, Render(h)));
    if g.second == 60.0 - Resolution {
      assert FirstViolation(h) == Some(SecondRange);
    } else {
      assert InRange(h);
    }
  }

  /** Setting an offset in range on a valid time in zone 0 makes no return
      through a Julian Date: the result is the one `ZonedValid` describes. */
  lemma RezonedFromZoneZero(f: Fields, offset: real, alg: Algorithm)
    requires f.timezone == 0.0 && -12.0 <= offset <= 12.0
    requires ValidDate(Date(f.year, f.month, f.day)) && f.isLeapYear == IsLeapYear(f.year)
    requires 0 <= f.hour <= 23 && 0 <= f.minute <= 59 && 0.0 <= f.second < 60.0
    ensures var r, c := Rezoned(f, offset, alg), Carried(MomentOf(f));
      r == Zoned(f, offset)
      && (r.error.None? <==> f.second != 60.0 - Resolution)
      && (r.error.None? ==> InRange(r.fields))
      && ValidDate(Date(r.fields.year, r.fields.month, r.fields.day))
      && 0 <= r.fields.hour <= 23 && r.fields.minute == c.minute && r.fields.second == c.second
      && r.fields.timezone == offset && r.fields.timezoneHH == "" && r.fields.timezoneMM == ""
      && !r.fields.hasTimezoneColon && r.fields.isLeapYear == f.isLeapYear && r.fields.isZulu == f.isZulu
  {
    assert Rebased(f, alg) == Converted(f, None);
    assert Rezoned(f, offset, alg) == Zoned(f, offset);
    ZonedValid(f, offset);
  }

  /** Unless the February hold applies, moving a valid time to an offset in
      range sets the hour count (24 per day) to that of the carried clock
      less the hours taken for the offset, and moves the instant back by
      those hours, up to the resolution. */
  lemma ZonedShiftsHours(g: Fields, offset: real)
    requires -12.0 <= offset <= 12.0
    requires ValidDate(Date(g.year, g.month, g.day))
    requires 0 <= g.hour <= 23 && 0 <= g.minute <= 59 && 0.0 <= g.second < 60.0
    requires Trunc(Carried(MomentOf(g)).hour as real - offset) < 24 || !FebruaryHold(Date(g.year, g.month, g.day))
    ensures var r, c := Zoned(g, offset).fields, Carried(MomentOf(g));
      ValidDate(Date(r.year, r.month, r.day))
      && 24 * DayNumber(Date(r.year, r.month, r.day)) + r.hour
         == 24 * DayNumber(Date(g.year, g.month, g.day)) + Trunc(c.hour as real - offset)
      && Abs(Instant(MomentOf(r)) - Instant(MomentOf(g)) + 3600.0 * HoursTaken(c.hour, offset) as real) < Resolution
  {
    var m := MomentOf(g);
    AdjustedShiftsByOffset(m, offset);
    var r := Adjusted(m, offset).value;
    var z := Zoned(g, offset).fields;
    assert z.year == r.date.year && z.month == r.date.month && z.day == r.date.day && z.hour == r.hour;
    assert MomentOf(z) == r;
  }

  /** Unless the February hold applies, setting an offset in range on a
      valid time in zone 0 shifts it as `ZonedShiftsHours` states. */
  lemma RezonedShiftsHours(f: Fields, offset: real, alg: Algorithm)
    requires f.timezone == 0.0 && -12.0 <= offset <= 12.0
    requires ValidDate(Date(f.year, f.month, f.day))
    requires 0 <= f.hour <= 23 && 0 <= f.minute <= 59 && 0.0 <= f.second < 60.0
    requires Trunc(Carried(MomentOf(f)).hour as real - offset) < 24 || !FebruaryHold(Date(f.year, f.month, f.day))
    ensures var r, c := Rezoned(f, offset, alg).fields, Carried(MomentOf(f));
      ValidDate(Date(r.year, r.month, r.day))
      && 24 * DayNumber(Date(r.year, r.month, r.day)) + r.hour
         == 24 * DayNumber(Date(f.year, f.month, f.day)) + Trunc(c.hour as real - offset)
      && Abs(Instant(MomentOf(r)) - Instant(MomentOf(f)) + 3600.0 * HoursTaken(c.hour, offset) as real) < Resolution
  {
    assert Rebased(f, alg) == Converted(f, None);
    assert Rezoned(f, offset, alg) == Zoned(f, offset);
    ZonedShiftsHours(f, offset);
  }

  // ----- the class -----

  class DateTime {
    var year: int
    var month: int
    var day: int
    var hour: int
    var minute: int
    var second: real
    var isZulu: bool
    var hasTimezoneColon: bool
    var timezone: real
    var isLeapYear: bool
    var timezoneHH: string
    var timezoneMM: string

    /** The members as one value. */
    function State(): Fields
      reads this
    {
      Fields(year, month, day, hour, minute, second, isZulu, hasTimezoneColon, timezone,
             isLeapYear, timezoneHH, timezoneMM)
    }

    /** The member initialisers: 1970-01-01T00:00:00 without a zone. */
    constructor ()
      ensures State() == Default
    {
      year, month, day, hour, minute, second := 1970, 1, 1, 0, 0, 0.0;
      isZulu, hasTimezoneColon, timezone, isLeapYear := false, false, 0.0, false;
      timezoneHH, timezoneMM := "", "";
    }

    /** The copy constructor: every member of `a`. */
    constructor Copy(a: DateTime)
      ensures State() == a.State()
    {
      year, month, day, hour, minute, second := a.year, a.month, a.day, a.hour, a.minute, a.second;
      isZulu, hasTimezoneColon, timezone, isLeapYear := a.isZulu, a.hasTimezoneColon, a.timezone, a.isLeapYear;
      timezoneHH, timezoneMM := a.timezoneHH, a.timezoneMM;
    }

    /** Writes all twelve members from `f`: the shared body of the copy
        assignment and of the members that overwrite the whole state. */
    method Store(f: Fields)
      modifies this
      ensures State() == f
    {
      year, month, day, hour, minute, second := f.year, f.month, f.day, f.hour, f.minute, f.second;
      isZulu, hasTimezoneColon, timezone, isLeapYear := f.isZulu, f.hasTimezoneColon, f.timezone, f.isLeapYear;
      timezoneHH, timezoneMM := f.timezoneHH, f.timezoneMM;
    }

    /** `operator=`: every member of `rhs`; assigning an object to itself
        changes nothing. */
    method Assign(rhs: DateTime)
      modifies this
      ensures State() == old(rhs.State())
    {
      if this == rhs {
        return;
      }
      Store(rhs.State());
    }

    /** `DateTime(const std::string&)`: a new object with the members read
      from ISO 8601 text, or the error the constructor throws. */
    static method FromIso8601(s: string) returns (r: Result<DateTime>)
      ensures r.Success? <==> Parse(s).Success?
      ensures r.Failure? ==> r.error == Parse(s).error
      ensures r.Success? ==> fresh(r.value) && r.value.State() == Parse(s).value
    {
      match Parse(s)
      case Failure(e) =>
        r := Failure(e);
      case Success(f) =>
        var d := new DateTime();
        d.Store(f);
        r := Success(d);
    }

    /** `fromJulianDate(jd, tz)`: the inverse conversion of the chosen
        algorithm; the APC one stores the date and time, then adjusts them
        for the zone, and an out-of-range zone throws after the store. */
    method FromJulianDate(jd: real, offset: real, alg: Algorithm) returns (error: Option<Error>)
      modifies this
      ensures var c := JulianDates.FromJulianDate(old(State()), jd, offset, alg);
        State() == c.fields && error == c.error
    {
      match alg
      case Wiki =>
        Store(FromWiki(State(), jd));
        error := None;
      case Nrc =>
        Store(FromNrc(State(), jd));
        error := None;
      case Apc =>
        error := FromApcDay(jd - ModifiedJulianDate, offset);
    }

    /** The APC branch of `fromJulianDate`: the date and time of the day
        count are stored with the zone, then adjusted for it. */
    method FromApcDay(mjd: real, offset: real) returns (error: Option<Error>)
      modifies this
      ensures var c := FromApc(old(State()), mjd, offset); State() == c.fields && error == c.error
    {
      var date := ApcDate(mjd);
      var t := TimeOf(mjd);
      var stored := State().(year := date.year, month := date.month, day := date.day,
                             hour := t.hour, minute := t.minute, second := t.second, timezone := offset);
      Store(stored);
      var adjusted := AdjustForTimezone(Moment(date, t.hour, t.minute, t.second), offset);
      match adjusted
      case Failure(e) =>
        error := Some(e);
      case Success(m) =>
        Store(stored.(year := m.date.year, month := m.date.month, day := m.date.day,
                      hour := m.hour, minute := m.minute, second := m.second));
        error := None;
    }

    /** `operator+=(days)`. */
    method AddDays(days: real, alg: Algorithm) returns (error: Option<Error>)
      modifies this
      ensures var c := Shifted(old(State()), days, alg); State() == c.fields && error == c.error
    {
      ghost var g := State();
      var jd := ToJulianDate(State(), alg);
      match jd
      case Failure(e) =>
        assert Shifted(g, days, alg) == Converted(g, Some(e));
        error := Some(e);
      case Success(x) =>
        var moved := x + days;
        assert Shifted(g, days, alg) == JulianDates.FromJulianDate(g, moved, g.timezone, alg);
        error := FromJulianDate(moved, timezone, alg);
    }

    /** `operator-=(days)`: the same as adding `-days`. */
    method SubtractDays(days: real, alg: Algorithm) returns (error: Option<Error>)
      modifies this
      ensures var c := Shifted(old(State()), -days, alg); State() == c.fields && error == c.error
    {
      ghost var g := State();
      var jd := ToJulianDate(State(), alg);
      match jd
      case Failure(e) =>
        assert Shifted(g, -days, alg) == Converted(g, Some(e));
        error := Some(e);
      case Success(x) =>
        var moved := x - days;
        assert moved == x + -days;
        assert Shifted(g, -days, alg) == JulianDates.FromJulianDate(g, moved, g.timezone, alg);
        error := FromJulianDate(moved, timezone, alg);
    }

    /** `operator+(DateTime, double)`: a copy moved by `days`; `lhs` is not
        changed. */
    static method Plus(lhs: DateTime, days: real, alg: Algorithm) returns (r: DateTime, error: Option<Error>)
      ensures fresh(r)
      ensures var c := Shifted(lhs.State(), days, alg); r.State() == c.fields && error == c.error
    {
      r := new DateTime.Copy(lhs);
      error := r.AddDays(days, alg);
    }

    /** `operator+(double, DateTime)`: the same as `rhs + days`. */
    static method PlusCommuted(days: real, rhs: DateTime, alg: Algorithm) returns (r: DateTime, error: Option<Error>)
      ensures fresh(r)
      ensures var c := Shifted(rhs.State(), days, alg); r.State() == c.fields && error == c.error
    {
      r, error := Plus(rhs, days, alg);
    }

    /** `operator-(DateTime, double)`: a copy moved back by `days`. */
    static method Minus(lhs: DateTime, days: real, alg: Algorithm) returns (r: DateTime, error: Option<Error>)
      ensures fresh(r)
      ensures var c := Shifted(lhs.State(), -days, alg); r.State() == c.fields && error == c.error
    {
      r := new DateTime.Copy(lhs);
      error := r.SubtractDays(days, alg);
    }

    /** `timezone(double)`. */
    method SetTimezone(offset: real, alg: Algorithm) returns (error: Option<Error>)
      modifies this
      ensures var c := Rezoned(old(State()), offset, alg); State() == c.fields && error == c.error
    {
      if offset < -12.0 || offset > 12.0 {
        return Some(Error(ZoneOutOfRange));
      }
      if timezone != 0.0 {
        var jd := ToJulianDate(State(), alg);
        if jd.Failure? {
          return Some(jd.error);
        }
        error := FromJulianDate(jd.value, 0.0, alg);
        if error.Some? {
          return;
        }
      }
      assert State() == Rebased(old(State()), alg).fields && Rebased(old(State()), alg).error.None?;
      error := Rezone(offset);
    }

    /** The steps of `timezone(double)` after the return to zone 0. */
    method Rezone(offset: real) returns (error: Option<Error>)
      modifies this
      ensures var c := Zoned(old(State()), offset); State() == c.fields && error == c.error
    {
      ghost var g := State();
      timezone := offset;
      var adjusted := AdjustForTimezone(Moment(Date(year, month, day), hour, minute, second), offset);
      assert adjusted == Adjusted(MomentOf(g), offset);
      match adjusted
      case Failure(e) =>
        assert Zoned(g, offset) == Converted(State(), Some(e));
        error := Some(e);
      case Success(m) =>
        var h := State().(year := m.date.year, month := m.date.month, day := m.date.day,
                          hour := m.hour, minute := m.minute, second := m.second,
                          timezoneHH := "", hasTimezoneColon := false, timezoneMM := "");
        assert Zoned(g, offset) == Converted(h, IsValid(h, Render(h)));
        Store(h);
        error := IsValid(h, Render(h));
    }
  }
}
