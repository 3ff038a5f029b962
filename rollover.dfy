/** `adjustForTimezone` (libCoords/datetime.cpp:252-396): carry seconds into
    minutes and minutes into hours, subtract the time zone from the hour, and
    step the date by at most one day when the hour leaves 0..23. */
module Rollover {
  import opened Utils
  import opened Calendar
  import opened DateTimeFields

  /** The six reference parameters the routine updates. */
  datatype Moment = Moment(date: Date, hour: int, minute: int, second: real)

  // ----- the specification, stage by stage -----

  /** The first loop: while the seconds reach 60 less the resolution, take
      away 60 and add a minute. */
  function CarrySeconds(second: real, minute: int): (real, int)
    decreases second.Floor
  {
    if second >= 60.0 - Resolution then CarrySeconds(second - 60.0, minute + 1) else (second, minute)
  }

  /** Seconds within the resolution of 0 become 0. */
  function Snap(second: real): real
  {
    if Abs(second) < Resolution then 0.0 else second
  }

  /** The second loop: while the minutes reach 60, take away 60 and add an hour. */
  function CarryMinutes(minute: int, hour: int): (int, int)
    decreases minute
  {
    if minute >= 60 then CarryMinutes(minute - 60, hour + 1) else (minute, hour)
  }

  /** The date steps: forward a day when the hour reaches 24, then back a day
      when it is below 0. */
  function StepDate(date: Date, hour: int): (Date, int)
  {
    var (date1, hour1) := if hour >= 24 then (RollForward(date), hour - 24) else (date, hour);
    if hour1 < 0 then (RollBackward(date1), hour1 + 24) else (date1, hour1)
  }

  /** The clock after the two loops and the snap to 0, before the zone is
      applied. */
  function Carried(m: Moment): Moment
  {
    var (second1, minute1) := CarrySeconds(m.second, m.minute);
    var (minute2, hour2) := CarryMinutes(minute1, m.hour);
    Moment(m.date, hour2, minute2, Snap(second1))
  }

  /** What `adjustForTimezone` leaves in its parameters, or the error it throws. */
  function Adjusted(m: Moment, timezone: real): Result<Moment>
  {
    if timezone < -12.0 || timezone > 12.0 then Failure(Error("timezone out of range"))
    else
      var c := Carried(m);
      var (date, hour) := StepDate(c.date, Trunc(c.hour as real - timezone));
      Success(Moment(date, hour, c.minute, c.second))
  }

  /** The whole hours `a_hour -= a_timezone` takes off the hour h: the
      difference is truncated toward zero, so what is taken lies within an
      hour of the offset and is the offset itself when that is whole. */
  function HoursTaken(h: int, timezone: real): (n: int)
    ensures Abs(n as real - timezone) < 1.0
    ensures timezone == timezone.Floor as real ==> n == timezone.Floor
  {
    h - Trunc(h as real - timezone)
  }

  /** The seconds from the start of the day number's epoch to a moment. */
  function Instant(m: Moment): real
    requires 1 <= m.date.month <= 12
  {
    86400.0 * DayNumber(m.date) as real + 3600.0 * m.hour as real + 60.0 * m.minute as real + m.second
  }

  // ----- the routine -----

  method AdjustForTimezone(m: Moment, timezone: real) returns (r: Result<Moment>)
    ensures r == Adjusted(m, timezone)
  {
    if timezone < -12.0 || timezone > 12.0 {
      return Failure(Error("timezone out of range"));
    }
    var year, month, day := m.date.year, m.date.month, m.date.day;
    var hour, minute, second := m.hour, m.minute, m.second;
    while second >= 60.0 - Resolution
      invariant CarrySeconds(second, minute) == CarrySeconds(m.second, m.minute)
      decreases second.Floor
    {
      second := second - 60.0;
      minute := minute + 1;
    }
    if Abs(second) < Resolution {
      second := 0.0;
    }
    while minute >= 60
      invariant CarryMinutes(minute, hour) == CarryMinutes(CarrySeconds(m.second, m.minute).1, m.hour)
    {
      minute := minute - 60;
      hour := hour + 1;
    }
    hour := Trunc(hour as real - timezone);
    if hour >= 24 {
      hour := hour - 24;
      var next := RollForward(Date(year, month, day));
      year, month, day := next.year, next.month, next.day;
    }
    if hour < 0 {
      hour := hour + 24;
      var previous := RollBackward(Date(year, month, day));
      year, month, day := previous.year, previous.month, previous.day;
    }
    r := Success(Moment(Date(year, month, day), hour, minute, second));
  }

  // ----- what the stages preserve -----

  /** The first loop keeps the time (seconds plus 60 per minute) and leaves
      the seconds below 60 less the resolution; seconds that started there
      are left alone, and carried seconds end up no lower than -resolution. */
  lemma {:induction false} CarrySecondsKeepsTime(second: real, minute: int)
    ensures var (s, m) := CarrySeconds(second, minute);
      s + 60.0 * m as real == second + 60.0 * minute as real && s < 60.0 - Resolution
      && m >= minute && (second < 60.0 - Resolution ==> s == second && m == minute)
      && (second >= 60.0 - Resolution ==> s >= -Resolution)
    decreases second.Floor
  {
    if second >= 60.0 - Resolution {
      CarrySecondsKeepsTime(second - 60.0, minute + 1);
    }
  }

  /** The second loop keeps the time (minutes plus 60 per hour) and leaves the
      minutes below 60; non-negative minutes stay non-negative. */
  lemma {:induction false} CarryMinutesKeepsTime(minute: int, hour: int)
    ensures var (m, h) := CarryMinutes(minute, hour);
      m + 60 * h == minute + 60 * hour && m < 60 && h >= hour
      && (minute < 60 ==> m == minute && h == hour) && (minute >= 0 ==> m >= 0)
    decreases minute
  {
    if minute >= 60 {
      CarryMinutesKeepsTime(minute - 60, hour + 1);
    }
  }

  /** The date step keeps the hour count (24 per day) whenever the forward
      step advances the date, and leaves an hour of the day, for a valid date
      and a shifted hour from -24 to 47. */
  lemma StepDateKeepsHours(date: Date, hour: int)
    requires ValidDate(date) && -24 <= hour < 48
    requires hour >= 24 ==> !FebruaryHold(date)
    ensures var (d, h) := StepDate(date, hour);
      ValidDate(d) && 0 <= h < 24 && 24 * DayNumber(d) + h == 24 * DayNumber(date) + hour
  {
    if hour >= 24 {
      RollForwardIsNextDay(date);
    } else if hour < 0 {
      RollBackwardIsPreviousDay(date);
    }
  }

  /** The February quirk: a shift past midnight on a February day before the
      month's last leaves the date as it was. */
  lemma StepDateFebruaryHold(date: Date, hour: int)
    requires ValidDate(date) && FebruaryHold(date) && 24 <= hour < 48
    ensures StepDate(date, hour) == (date, hour - 24)
  {
    RollForwardHoldsFebruary(date);
  }

  // ----- the routine as a whole -----

  /** Only an offset outside -12..12 hours is refused. */
  lemma AdjustedFails(m: Moment, timezone: real)
    ensures Adjusted(m, timezone).Failure? <==> timezone < -12.0 || timezone > 12.0
  {
  }

  /** On a time of day (seconds from 0 to below 60) the loops run at most
      once each: the clock keeps the date, stays within the resolution of
      the time it started at, and has minutes 0..59, an hour up to 24 and
      seconds below 60 less the resolution. The seconds end negative
      (at -resolution) exactly when they started at 60 less the resolution,
      and a clock whose seconds start below that is only snapped. */
  lemma CarriedClock(m: Moment)
    requires 0 <= m.hour <= 23 && 0 <= m.minute <= 59 && 0.0 <= m.second < 60.0
    ensures var c := Carried(m);
      c.date == m.date && 0 <= c.minute <= 59 && m.hour <= c.hour <= m.hour + 1 && c.hour <= 24
      && -Resolution <= c.second < 60.0 - Resolution
      && Abs(3600.0 * c.hour as real + 60.0 * c.minute as real + c.second
             - (3600.0 * m.hour as real + 60.0 * m.minute as real + m.second)) < Resolution
      && (c.second < 0.0 <==> m.second == 60.0 - Resolution)
      && (m.second < 60.0 - Resolution ==> c == Moment(m.date, m.hour, m.minute, Snap(m.second)))
  {
    if m.second >= 60.0 - Resolution {
      assert CarrySeconds(m.second - 60.0, m.minute + 1) == (m.second - 60.0, m.minute + 1);
      assert CarrySeconds(m.second, m.minute) == (m.second - 60.0, m.minute + 1);
      if m.minute == 59 {
        assert CarryMinutes(0, m.hour + 1) == (0, m.hour + 1);
        assert CarryMinutes(m.minute + 1, m.hour) == (0, m.hour + 1);
      } else {
        assert CarryMinutes(m.minute + 1, m.hour) == (m.minute + 1, m.hour);
      }
    } else {
      assert CarrySeconds(m.second, m.minute) == (m.second, m.minute);
      assert CarryMinutes(m.minute, m.hour) == (m.minute, m.hour);
    }
  }

  /** For a valid date and a time of day, unless the February hold applies,
      the result is a valid date and an hour of the day, with the carried
      minutes and seconds; the hour count (24 per day) is that of the
      carried clock less the hours taken for the offset, so the instant
      moves back by those hours, up to the resolution. */
  lemma AdjustedShiftsByOffset(m: Moment, timezone: real)
    requires ValidDate(m.date) && 0 <= m.hour <= 23 && 0 <= m.minute <= 59 && 0.0 <= m.second < 60.0
    requires -12.0 <= timezone <= 12.0
    requires Trunc(Carried(m).hour as real - timezone) >= 24 ==> !FebruaryHold(m.date)
    ensures var r, c := Adjusted(m, timezone).value, Carried(m);
      ValidDate(r.date) && 0 <= r.hour <= 23 && r.minute == c.minute && r.second == c.second
      && 24 * DayNumber(r.date) + r.hour == 24 * DayNumber(m.date) + Trunc(c.hour as real - timezone)
      && Abs(Instant(r) - Instant(m) + 3600.0 * HoursTaken(c.hour, timezone) as real) < Resolution
  {
    var c := Carried(m);
    CarriedClock(m);
    var shifted := Trunc(c.hour as real - timezone);
    StepDateKeepsHours(m.date, shifted);
    var r := Adjusted(m, timezone).value;
    assert 24 * DayNumber(r.date) + r.hour == 24 * DayNumber(m.date) + c.hour - HoursTaken(c.hour, timezone);
    assert 86400.0 * DayNumber(r.date) as real + 3600.0 * r.hour as real
        == 86400.0 * DayNumber(m.date) as real + 3600.0 * c.hour as real - 3600.0 * HoursTaken(c.hour, timezone) as real;
  }

  /** Carrying keeps the time of day: the seconds, minutes and hours after
      the two loops add up to those before, up to the snap to 0. */
  lemma AdjustedCarriesKeepTime(m: Moment, timezone: real)
    requires -12.0 <= timezone <= 12.0
    ensures var (second1, minute1) := CarrySeconds(m.second, m.minute);
      var (minute2, hour2) := CarryMinutes(minute1, m.hour);
      second1 + 60.0 * minute2 as real + 3600.0 * hour2 as real
        == m.second + 60.0 * m.minute as real + 3600.0 * m.hour as real
      && Adjusted(m, timezone).value.minute == minute2 && minute2 < 60
      && Abs(Adjusted(m, timezone).value.second - second1) < Resolution
  {
    var (second1, minute1) := CarrySeconds(m.second, m.minute);
    CarrySecondsKeepsTime(m.second, m.minute);
    CarryMinutesKeepsTime(minute1, m.hour);
  }

  /** For a valid date, a time of day (seconds from 0 to below 60) and an
      offset in range the result is again a valid date and a time of day
      with the carried minutes and seconds, also when the February hold
      keeps the date; the seconds are negative only when they started at 60
      less the resolution. A result in February is in the year it started
      in. */
  lemma AdjustedValid(m: Moment, timezone: real)
    requires ValidDate(m.date) && 0 <= m.hour <= 23 && 0 <= m.minute <= 59 && 0.0 <= m.second < 60.0
    requires -12.0 <= timezone <= 12.0
    ensures var r, c := Adjusted(m, timezone).value, Carried(m);
      ValidDate(r.date) && 0 <= r.hour <= 23 && 0 <= r.minute <= 59
      && r.minute == c.minute && r.second == c.second
      && -Resolution <= r.second < 60.0 - Resolution && (r.second < 0.0 <==> m.second == 60.0 - Resolution)
      && (r.date.month == 2 ==> r.date.year == m.date.year)
  {
    var c := Carried(m);
    CarriedClock(m);
    var shifted := Trunc(c.hour as real - timezone);
    if shifted >= 24 && FebruaryHold(m.date) {
      StepDateFebruaryHold(m.date, shifted);
    } else {
      AdjustedShiftsByOffset(m, timezone);
    }
  }
}
