/** The proleptic Gregorian calendar as the date arithmetic uses it: the
    leap-year rule, month lengths, and the one-day steps forward and backward
    that the timezone adjustment takes (libCoords/datetime.cpp). */
module Calendar {
  import opened Utils

  datatype Date = Date(year: int, month: int, day: int)

  /** `(y % 4 == 0 && y % 100 != 0) || y % 400 == 0` with C++ remainders. */
  predicate IsLeapYear(y: int)
  {
    (TruncMod(y, 4) == 0 && TruncMod(y, 100) != 0) || TruncMod(y, 400) == 0
  }

  /** The same rule written with Dafny's Euclidean remainder. */
  lemma IsLeapYearEuclidean(y: int)
    ensures IsLeapYear(y) <==> (y % 4 == 0 && y % 100 != 0) || y % 400 == 0
  {
    TruncModZeroIff(y, 4);
    TruncModZeroIff(y, 100);
    TruncModZeroIff(y, 400);
  }

  lemma LeapYearExamples()
    ensures IsLeapYear(2000) && IsLeapYear(2012) && IsLeapYear(-4)
    ensures !IsLeapYear(2014) && !IsLeapYear(2100) && !IsLeapYear(1900)
  {
    IsLeapYearEuclidean(2000);
    IsLeapYearEuclidean(2012);
    IsLeapYearEuclidean(-4);
    IsLeapYearEuclidean(2014);
    IsLeapYearEuclidean(2100);
    IsLeapYearEuclidean(1900);
  }

  /** September, April, June and November. */
  predicate IsThirtyDayMonth(m: int)
  {
    m == 9 || m == 4 || m == 6 || m == 11
  }

  /** The number of days of month m; February's length follows the given
      leap flag. */
  function MonthLength(leap: bool, m: int): (n: int)
    ensures 28 <= n <= 31
    ensures n == 28 <==> m == 2 && !leap
    ensures n == 29 <==> m == 2 && leap
    ensures n == 30 <==> IsThirtyDayMonth(m)
  {
    if m == 2 then (if leap then 29 else 28)
    else if IsThirtyDayMonth(m) then 30
    else 31
  }

  predicate ValidDate(date: Date)
  {
    1 <= date.month <= 12 && 1 <= date.day <= MonthLength(IsLeapYear(date.year), date.month)
  }

  // ----- a reference day count -----

  /** Leap years in [0, y) (for negative y, minus those in [y, 0)). */
  function LeapYearsBefore(y: int): int
  {
    (y + 3) / 4 - (y + 99) / 100 + (y + 399) / 400
  }

  /** `(a + 1) / k` exceeds `a / k` by one exactly when k divides a + 1. */
  lemma DivStep(a: int, k: int)
    requires k > 0
    ensures (a + 1) / k == a / k + (if (a + 1) % k == 0 then 1 else 0)
  {
    var q, r := a / k, a % k;
    assert a == k * q + r && 0 <= r < k;
    if r == k - 1 {
      EuclideanUnique(a + 1, k, q + 1, 0);
      DivOfUnique(a + 1, k, q + 1, 0);
    } else {
      EuclideanUnique(a + 1, k, q, r + 1);
      DivOfUnique(a + 1, k, q, r + 1);
    }
  }

  lemma DivOfUnique(a: int, b: int, q: int, r: int)
    requires b > 0 && 0 <= r < b && a == b * q + r
    ensures a / b == q
  {
    EuclideanUnique(a, b, q, r);
  }

  lemma LeapYearsStep(y: int)
    ensures LeapYearsBefore(y + 1) == LeapYearsBefore(y) + (if IsLeapYear(y) then 1 else 0)
  {
    DivStep(y + 3, 4);
    DivStep(y + 99, 100);
    DivStep(y + 399, 400);
    IsLeapYearEuclidean(y);
    Shift(y, 4, 1);
    Shift(y, 100, 1);
    Shift(y, 400, 1);
  }

  /** (y + k * c) % k == y % k. */
  lemma Shift(y: int, k: int, c: int)
    requires k > 0
    ensures (y + k * c) % k == y % k
  {
    EuclideanUnique(y + k * c, k, y / k + c, y % k);
  }

  /** Days in the months before month m of a year with the given leap flag. */
  function DaysBeforeMonth(leap: bool, m: int): int
    requires 1 <= m <= 12
  {
    var table := [0, 31, 59, 90, 120, 151, 181, 212, 243, 273, 304, 334];
    table[m - 1] + (if m > 2 && leap then 1 else 0)
  }

  lemma DaysBeforeNextMonth(leap: bool, m: int)
    requires 1 <= m < 12
    ensures DaysBeforeMonth(leap, m + 1) == DaysBeforeMonth(leap, m) + MonthLength(leap, m)
  {
  }

  function YearStart(y: int): int
  {
    365 * y + LeapYearsBefore(y)
  }

  /** Days from 0000-01-01 of the proleptic Gregorian calendar. */
  function DayNumber(date: Date): int
    requires 1 <= date.month <= 12
  {
    YearStart(date.year) + DaysBeforeMonth(IsLeapYear(date.year), date.month) + date.day - 1
  }

  /** Distinct valid dates have distinct day numbers, and later dates larger ones. */
  lemma DayNumberWithinYear(date: Date)
    requires ValidDate(date)
    ensures YearStart(date.year) <= DayNumber(date) < YearStart(date.year + 1)
  {
    LeapYearsStep(date.year);
    var leap := IsLeapYear(date.year);
    assert DaysBeforeMonth(leap, date.month) + MonthLength(leap, date.month) <= 365 + (if leap then 1 else 0);
  }

  // ----- one-day steps of adjustForTimezone -----

  /** The date step taken when the shifted hour reaches 24. February steps
      only from its last day; every other February day is left as it is. */
  function RollForward(date: Date): (r: Date)
  {
    var Date(y, m, d) := date;
    if m == 2 then
      if (IsLeapYear(y) && d == 29) || (!IsLeapYear(y) && d == 28) then Date(y, 3, 1) else date
    else if m == 12 then
      if d == 31 then Date(y + 1, 1, 1) else Date(y, m, d + 1)
    else if IsThirtyDayMonth(m) then
      if d == 30 then Date(y, m + 1, 1) else Date(y, m, d + 1)
    else
      if d == 31 then Date(y, m + 1, 1) else Date(y, m, d + 1)
  }

  /** The date step taken when the shifted hour falls below 0. */
  function RollBackward(date: Date): (r: Date)
  {
    var Date(y, m, d) := date;
    if m == 1 then
      if d == 1 then Date(y - 1, 12, 31) else Date(y, m, d - 1)
    else if d == 1 then
      Date(y, m - 1, MonthLength(IsLeapYear(y), m - 1))
    else Date(y, m, d - 1)
  }

  /** A February day before the month's last is not advanced. */
  predicate FebruaryHold(date: Date)
  {
    date.month == 2 && date.day < MonthLength(IsLeapYear(date.year), 2)
  }

  lemma RollForwardHoldsFebruary(date: Date)
    requires ValidDate(date) && FebruaryHold(date)
    ensures RollForward(date) == date
  {
  }

  /** Outside that February case, the forward step is the next calendar day. */
  lemma RollForwardIsNextDay(date: Date)
    requires ValidDate(date) && !FebruaryHold(date)
    ensures ValidDate(RollForward(date))
    ensures DayNumber(RollForward(date)) == DayNumber(date) + 1
  {
    var Date(y, m, d) := date;
    var leap := IsLeapYear(y);
    if d == MonthLength(leap, m) {
      if m == 12 {
        LeapYearsStep(y);
        IsLeapYearEuclidean(y);
      } else {
        DaysBeforeNextMonth(leap, m);
      }
    }
  }

  /** The backward step is always the previous calendar day. */
  lemma RollBackwardIsPreviousDay(date: Date)
    requires ValidDate(date)
    ensures ValidDate(RollBackward(date))
    ensures DayNumber(RollBackward(date)) == DayNumber(date) - 1
  {
    var Date(y, m, d) := date;
    var leap := IsLeapYear(y);
    if d == 1 {
      if m == 1 {
        LeapYearsStep(y - 1);
      } else {
        DaysBeforeNextMonth(leap, m - 1);
      }
    }
  }

  /** Stepping back and then forward returns the original date, except when
      the step back lands on a February day that the forward step holds. */
  lemma RollBackwardThenForward(date: Date)
    requires ValidDate(date)
    ensures RollForward(RollBackward(date)) == date <==> !FebruaryHold(RollBackward(date))
  {
    RollBackwardIsPreviousDay(date);
    var prev := RollBackward(date);
    if !FebruaryHold(prev) {
      RollForwardIsNextDay(prev);
      DayNumberInjective(RollForward(prev), date);
    }
  }

  /** Valid dates are determined by their day numbers. */
  lemma DayNumberInjective(a: Date, b: Date)
    requires ValidDate(a) && ValidDate(b) && DayNumber(a) == DayNumber(b)
    ensures a == b
  {
    DayNumberWithinYear(a);
    DayNumberWithinYear(b);
    if a.year < b.year {
      YearStartMonotonic(a.year + 1, b.year);
    } else if a.year > b.year {
      YearStartMonotonic(b.year + 1, a.year);
    } else {
      var leap := IsLeapYear(a.year);
      if a.month < b.month {
        DaysBeforeMonotonic(leap, a.month + 1, b.month);
        DaysBeforeNextMonth(leap, a.month);
      } else if a.month > b.month {
        DaysBeforeMonotonic(leap, b.month + 1, a.month);
        DaysBeforeNextMonth(leap, b.month);
      }
    }
  }

  lemma DaysBeforeMonotonic(leap: bool, m: int, n: int)
    requires 1 <= m <= n <= 12
    ensures DaysBeforeMonth(leap, m) <= DaysBeforeMonth(leap, n)
  {
  }

  lemma {:induction false} YearStartMonotonic(a: int, b: int)
    requires a <= b
    ensures YearStart(a) <= YearStart(b)
    decreases b - a
  {
    if a < b {
      YearStartMonotonic(a + 1, b);
      LeapYearsStep(a);
    }
  }
}
