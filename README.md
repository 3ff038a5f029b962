# libCoords DateTime and Angle, modelled in Dafny

This project models the core of libCoords, the C++ library of the Coordinates
repository. It covers two classes.

- **`Coords::DateTime`** (`libCoords/datetime.cpp`):
  - construction from limited ISO 8601 text, with the range checks of
    `isValid` and the messages of `throwError`;
  - the copy constructor and copy assignment;
  - the day arithmetic `+=`, `-=`, `+` and `-`, and the difference of two
    times;
  - the time-zone setter and the `adjustForTimezone` roll-over;
  - the three Julian Date algorithms (Wikipedia, Numerical Recipes "NRC",
    Astronomy on the Personal Computer "APC"), forward and inverse;
  - `DateTime2String`, the text `operator<<` writes.
- **`Coords::Angle`** (`libCoords/angle.cpp`, `libCoords/angle.h`):
  - the constructor from degrees, minutes and seconds, with its default
    arguments;
  - copy and assignment, and the value and radians accessors;
  - the six comparisons;
  - the in-place and binary `+ - * /`, with `DivideByZeroError`;
  - `normalize`;
  - the degrees/minutes/seconds and hours:minutes:seconds texts.

Modules, one per file:

| file | module | what it holds |
|---|---|---|
| `utils.dfy` | `Utils` | `Error`, `DivideByZeroError`, `Result`/`Option`, and C++ arithmetic: truncating casts, `/` and `%` on signed integers, `degrees2seconds` |
| `text.dfy` | `Text` | decimal digits as `stoi` reads and `operator<<` writes them; `setw`/`setfill` padding |
| `format.dfy` | `Format` | `operator<<` of a `double` with the default six significant digits (`%g`) |
| `calendar.dfy` | `Calendar` | leap years, month lengths, a proleptic Gregorian day number, the one-day roll-over steps of `adjustForTimezone` |
| `iso8601.dfy` | `Iso8601` | a scanner for the ISO 8601 grammar of the constructor, proved sound and complete against a generator (`Assemble`) |
| `fields.dfy` | `DateTimeFields` | the twelve data members as a value; the ISO constructor (`Parse`); `isValid`; `DateTime2String` (`Render`) |
| `rollover.dfy` | `Rollover` | `adjustForTimezone`, as a method with loops proved against a closed form |
| `julian.dfy` | `JulianDates` | the three forward and the three inverse Julian Date conversions |
| `datetime.dfy` | `DateTimes` | the class `DateTime`, whose methods update its members in place |
| `angle.dfy` | `Angles` | the class `Angle` and the output functions |

Doubles are modelled as exact reals. C++ casts of a double to an integer
truncate toward zero (`Trunc`), and integer `/` and `%` on signed values
truncate as well (`TruncDiv`, `TruncMod`).

The conversions reproduce what the code does, including:

- **February roll-forward.** When the hour rolls forward past midnight on
  a February day before the month's last, `adjustForTimezone` moves the
  hour but keeps the date (`Calendar.RollForwardHoldsFebruary`).
- **NRC threshold.** `fromJulianDateNRC` compares a Julian Day number with
  `s_gDateNRC`. That constant is a date key (588829), not a day count, so
  the Gregorian correction starts far too early
  (`JulianDates.NrcThresholdQuirk`).
- **NRC time of day.** `fromJulianDateNRC` sets only the date. The hour,
  minute and second keep their old values (`JulianDates.FromNrc`).
- **NRC zone sign.** `toJulianDateNRC` adds the zone to the hour inside
  `degrees2seconds`. The sign rule of that function then flips the
  minutes and seconds when the hour plus the zone is negative
  (`JulianDates.NrcNegativeHourQuirk`).
- **Truncated zone.** `adjustForTimezone` subtracts the zone from an `int`
  hour, so the fraction of `hour - zone` is dropped and a half-hour zone
  moves the time by a whole hour (`Rollover.HoursTaken`,
  `Rollover.AdjustedShiftsByOffset`).
- **Seconds at 60 less the resolution.** The seconds loop of
  `adjustForTimezone` carries seconds of exactly 60 − 1e-4 to −1e-4, which
  the snap to 0 leaves alone. The time-zone setter then fails its own
  `isValid` check with "second out of range." (`Rollover.CarriedClock`,
  `DateTimes.ZonedValid`).
- **Seconds above 60.** `DateTime2String` carries any second within the
  resolution of 60 to the next minute, and also any second above 60
  (`DateTimeFields.DisplayClockClose` needs `second <= 60`).

What the model proves about the algorithms:

- **Forward conversions agree.** From 1582-10-15 on, the Wikipedia forward
  conversion gives the proleptic Gregorian day number plus 1721060, plus
  the fraction of the day. The NRC conversion gives the same when the hour,
  minute and second are not negative and the hour plus the zone is not
  negative (`JulianDates.NrcAgreement`); outside that condition it can
  differ (`JulianDates.NrcNegativeHourQuirk`).
- **APC.** The APC forward conversion gives that day number minus 678941,
  so its Julian Date is exactly half a day less.
- **Inverse conversions.** Each inverse conversion yields a month 1..12 and
  a day that fits the month by the Julian leap rule (every fourth year).
  Before the reform this is the calendar they follow: the APC inverse gives
  29 February 1500, which the Gregorian rule excludes
  (`JulianDates.ApcJulianLeapDay`).

## Model

| member | source | states |
|---|---|---|
| Utils.Trunc | libCoords/datetime.cpp:483-484 | a cast to an integer truncates toward zero: the result lies within one below a non-negative value, within one above a negative one |
| Utils.TruncDiv | libCoords/datetime.cpp:472-481 | C++ signed integer division: equal to floor division on non-negative operands; otherwise the remainder is below the divisor in magnitude and has the sign of the dividend |
| Utils.TruncMod | libCoords/datetime.cpp:94-97 | C++ `%` on signed integers, the remainder of `TruncDiv`; `TruncModZeroIff` proves it is zero exactly when the Euclidean remainder is |
| Utils.TruncModZeroIff | libCoords/datetime.cpp:94 | a C++ remainder is zero exactly when the Euclidean remainder is, so the leap-year test means the same for negative years |
| Utils.Degrees2Seconds | libCoords/angle.cpp:38 | `degrees2seconds`: the magnitude of the result is 3600·\|deg\| + 60·\|min\| + \|sec\|; it is non-negative when the first non-zero component is |
| Utils.Degrees2SecondsIgnoresLaterSigns | libCoords/angle.cpp:38 | the sign comes from the first non-zero component: after it, the signs of minutes and seconds do not change the result, and negating the degrees negates it |
| Utils.Degrees2SecondsOfNonNegative | libCoords/datetime.cpp:445 | for non-negative components the result is the plain sum 3600·deg + 60·min + sec |
| Text.NatValue | libCoords/datetime.cpp:86-92 | `Coords::stoi` on a group of k digits gives a number below 10^k |
| Text.NatToString | libCoords/datetime.cpp:698 | a non-negative integer is written canonically: digits only, no leading zero except for 0 itself |
| Text.IntToString | libCoords/datetime.cpp:698 | an integer is written with at least one character (`RenderYear` gives its exact text) |
| Text.NatValueOfNatToString | libCoords/datetime.cpp:698 | reading back the written digits of n gives n |
| Text.NatToStringOfNatValue | libCoords/datetime.cpp:86 | writing the value of a canonical digit string gives the same string back |
| Text.PadLeft | libCoords/datetime.cpp:699-704 | `setw(w) << setfill(c)`: the result is as wide as the text or w, whichever is larger; it ends with the text and starts with fill characters |
| Text.PadRestoresLeadingZeros | libCoords/datetime.cpp:699-700 | padding with '0' to the original width restores a digit group read with leading zeros |
| Text.StripTrailingZeros | libCoords/angle.cpp:194 | the `%g` trimming: a prefix of the digits that does not end in '0', and everything removed was '0' |
| Text.DecimalValue | libCoords/datetime.cpp:101 | `Coords::stod` of a seconds group with a fraction is non-negative |
| Format.FormatReal | libCoords/datetime.cpp:704 | `operator<<` of a double with six significant digits; `FormatIntegral`, `FormatTwoDigitDecimal`, `FormatExact` and `FormatDigitsFixed` state its text |
| Format.DecimalExponent | libCoords/angle.cpp:194 | the decimal exponent e of a positive double: 1 <= x / 10^e < 10 |
| Format.Round | libCoords/angle.cpp:194 | the last of six significant digits is rounded to the nearest: within one half of the exact value |
| Format.FormatExact | libCoords/datetime.cpp:704 | a positive value with six exact significant digits and exponent at most 5 is written in fixed notation without trailing zeros |
| Format.FormatDigitsFixed | libCoords/datetime.cpp:704 | six digits with a decimal exponent from -4 to 5 are written in fixed notation, as `%g` chooses |
| Format.FormatIntegral | libCoords/angle.cpp:194 | a whole number below a million is written as its decimal digits, with no point or exponent |
| Format.FormatTwoDigitDecimal | libCoords/datetime.cpp:704 | a seconds value with two whole digits and one to four fraction digits that do not end in 0 is written back as exactly that text |
| Calendar.IsLeapYear | libCoords/datetime.cpp:94-97 | the leap test of the constructor and of `adjustForTimezone`, with C++ `%`; `IsLeapYearEuclidean` proves it is the Gregorian rule and `LeapYearExamples` gives the test years |
| Calendar.IsLeapYearEuclidean | libCoords/datetime.cpp:94-97 | the constructor's leap test with C++ `%` is the Gregorian rule: divisible by 4 and not by 100, or by 400 |
| Calendar.LeapYearExamples | libCoords/datetime.cpp:94-97 | 2000, 2012 and -4 are leap years; 2014, 2100 and 1900 are not |
| Calendar.MonthLength | libCoords/datetime.cpp:151-166 | the longest day `isValid` accepts is 28 to 31: 28 exactly for February of a common year, 29 for a leap February, 30 exactly for September, April, June and November |
| Calendar.LeapYearsStep | libCoords/datetime.cpp:437 | the count of leap years before y grows by one exactly when y is a leap year |
| Calendar.DaysBeforeNextMonth | libCoords/datetime.cpp:437 | the days before month m+1 are those before m plus the length of m |
| Calendar.DayNumberWithinYear | libCoords/datetime.cpp:437 | the day number of a valid date lies between the first day of its year and the first day of the next |
| Calendar.DayNumber | libCoords/datetime.cpp:425-443 | an independent proleptic Gregorian day count that the roll-over and the forward conversions are measured against; `DayNumberWithinYear` and `DayNumberInjective` state its properties |
| Calendar.DayNumberInjective | libCoords/datetime.cpp:435 | two valid dates with the same day number are the same date |
| Calendar.RollForward | libCoords/datetime.cpp:289-346 | the forward date step of `adjustForTimezone`; `RollForwardIsNextDay` and `RollForwardHoldsFebruary` state what it does |
| Calendar.RollForwardHoldsFebruary | libCoords/datetime.cpp:294-307 | pushed to the next day on a February day before the month's last, the date does not change; from the last day of February it moves to 1 March (`RollForwardIsNextDay`) |
| Calendar.RollForwardIsNextDay | libCoords/datetime.cpp:289-346 | on any other valid date the roll forward gives a valid date whose day number is one more |
| Calendar.RollBackwardIsPreviousDay | libCoords/datetime.cpp:349-394 | pulled back across midnight, a valid date becomes a valid date whose day number is one less |
| Calendar.RollBackward | libCoords/datetime.cpp:349-394 | the backward date step of `adjustForTimezone`; `RollBackwardIsPreviousDay` and `RollBackwardThenForward` state what it does |
| Calendar.RollBackwardThenForward | libCoords/datetime.cpp:289-394 | rolling back then forward returns to the date exactly when the day rolled back to is not the last of February |
| Iso8601.Assemble | libCoords/datetime.cpp:40-52 | the text of a set of groups as the grammar generates it, the reference the scanner is proved against by `ScanSoundAndComplete` |
| Iso8601.Scan | libCoords/datetime.cpp:73-84 | the match of the grammar, as a scanner; `ScanSoundAndComplete` proves it accepts exactly the texts `Assemble` generates |
| Iso8601.FindT | libCoords/datetime.cpp:73-84 | the position of the first 'T' in the text, or none when there is no 'T' |
| Iso8601.ScanZoneSound | libCoords/datetime.cpp:103-123 | a zone the scanner accepts (`Z`, or a sign, two hour digits, an optional colon and optional minutes) is well formed and is exactly the text read |
| Iso8601.ScanZoneComplete | libCoords/datetime.cpp:103-123 | every well-formed zone text is read back as that zone |
| Iso8601.ScanSecondsSound | libCoords/datetime.cpp:101-123 | seconds with an optional fraction and zone, once accepted, are well formed and are exactly the text read |
| Iso8601.ScanSecondsComplete | libCoords/datetime.cpp:101-123 | every well-formed seconds-and-zone text is read back as itself |
| Iso8601.ScanTailSound | libCoords/datetime.cpp:99-123 | the part after the minutes, which is empty or `:` and the seconds, is read soundly |
| Iso8601.ScanTailComplete | libCoords/datetime.cpp:99-123 | every well-formed part after the minutes, or none, is read back |
| Iso8601.ScanClockSound | libCoords/datetime.cpp:99-100 | an accepted `hh:mm` has an hour 00-23 and a minute 00-59, and is exactly the text read |
| Iso8601.ScanClockComplete | libCoords/datetime.cpp:99-100 | every hour 00-23 and minute 00-59 is read back from `hh:mm` |
| Iso8601.ScanTimeSound | libCoords/datetime.cpp:99-123 | an accepted time has a valid hour, minute and seconds part, and writes back to the text |
| Iso8601.ScanTimeComplete | libCoords/datetime.cpp:99-123 | the time of a well-formed capture is read back as its groups |
| Iso8601.ScanYearSound | libCoords/datetime.cpp:86-89 | an accepted year is an optional '-' followed by digits, and writes back to the text |
| Iso8601.ScanYearComplete | libCoords/datetime.cpp:86-89 | every signed digit string is read back as its sign and digits |
| Iso8601.ScanMonthDaySound | libCoords/datetime.cpp:91-92 | an accepted `-mm-dd` has a month 01-12 and a day 01-31, and writes back to the text |
| Iso8601.ScanMonthDayComplete | libCoords/datetime.cpp:91-92 | every month 01-12 and day 01-31 is read back from `-mm-dd` |
| Iso8601.ScanDateSound | libCoords/datetime.cpp:86-92 | an accepted date has valid year, month and day groups, and writes back to the text |
| Iso8601.ScanDateComplete | libCoords/datetime.cpp:86-92 | the date of a well-formed capture is read back as its groups |
| Iso8601.ScanSound | libCoords/datetime.cpp:73-84 | whatever text the grammar accepts gives well-formed groups that reassemble to exactly that text |
| Iso8601.ScanComplete | libCoords/datetime.cpp:73-84 | every well-formed set of groups, once written out, is accepted and gives back those groups |
| Iso8601.ScanSoundAndComplete | libCoords/datetime.cpp:73-84 | the scanner accepts s with groups c if and only if c is well formed and writes out to s |
| DateTimeFields.FieldsOf | libCoords/datetime.cpp:86-121 | the members the constructor stores from the groups; `ParseOfCaptures`, `GrammarRanges` and `OffsetExamples` state them |
| DateTimeFields.SecondsValue | libCoords/datetime.cpp:101 | `stod` of the seconds group, or 0 when it is absent, is never negative |
| DateTimeFields.FirstViolation | libCoords/datetime.cpp:146-181 | `isValid` finds no failing check exactly when the month, day for the month and leap flag, hour 0-24, minute 0-60, second 0-60 and zone -12..12 are all in range |
| DateTimeFields.ViolationOrder | libCoords/datetime.cpp:146-167 | a bad month is reported first; a bad day is reported before any time check; the two February messages tell common years from leap years |
| DateTimeFields.ThrowError | libCoords/datetime.cpp:133-144 | the error message is the given text, then ": ", then the message; with empty text the rendering of the object stands in front |
| DateTimeFields.IsValid | libCoords/datetime.cpp:146-181 | `isValid` throws exactly when a member is out of range |
| DateTimeFields.Parse | libCoords/datetime.cpp:66-131 | the ISO constructor only ever throws `Coords::Error` |
| DateTimeFields.GrammarRanges | libCoords/datetime.cpp:86-123 | the groups the grammar admits give a month 1-12, a day 1-31, an hour 0-23, a minute 0-59, seconds below 60 and a zone below 13 hours |
| DateTimeFields.ParseOfCaptures | libCoords/datetime.cpp:66-131 | a well-formed text constructs the members its groups give when they are in range; otherwise it throws "text: message" for the first failing check |
| DateTimeFields.ParseRejects | libCoords/datetime.cpp:73-84 | text outside the grammar throws the text followed by the format hint |
| DateTimeFields.ParseSuccessValid | libCoords/datetime.cpp:66-181 | a constructed DateTime has a valid calendar date, a leap flag that matches its year, an hour 0-23, a minute 0-59, seconds below 60 and a zone in -12..12 |
| DateTimeFields.OffsetExamples | libCoords/datetime.cpp:109-121 | `+04:30` is 4.5 hours, `-04:45` is -4.75, and `+12` is 12 |
| DateTimeFields.DisplayClock | libCoords/datetime.cpp:675-693 | the snap and carries `DateTime2String` applies before writing; `DisplayClockClose`, `DisplayClockInRange` and `DisplayClockUnchanged` state them |
| DateTimeFields.Elapsed | libCoords/datetime.cpp:675-693 | the seconds from the start of the month that a written clock stands for; `DisplayClockClose` states that the display carries move it by less than the resolution |
| DateTimeFields.DisplayClockClose | libCoords/datetime.cpp:675-693 | the carries before writing move the time by less than the resolution when the seconds are at most 60 |
| DateTimeFields.DisplayClockInRange | libCoords/datetime.cpp:675-693 | for a time in range the written hour is 0-23, the minute 0-59 and the seconds below 60 minus the resolution; the day is the same or the next |
| DateTimeFields.DisplayClockUnchanged | libCoords/datetime.cpp:675-693 | seconds of 0, or away from 0 and 60 by the resolution, are written without any carry |
| DateTimeFields.Render | libCoords/datetime.cpp:666-748 | `DateTime2String`; `RenderDefault`, `RenderOfCaptures` and `ParseRenderRoundTrip` state its text |
| DateTimeFields.ClockString | libCoords/datetime.cpp:702-704 | the padded `hh:mm:ss` of `DateTime2String`; `RenderTwoDigits`, `SecondsWholeDisplay`, `SecondsFractionDisplay` and `ClockOfCaptures` state its text |
| DateTimeFields.ZoneString | libCoords/datetime.cpp:709-744 | the zone text of `DateTime2String`; `ZoneDisplay` and `ZoneOfCaptures` state that a zone read from text is written back as read |
| DateTimeFields.RenderDefault | libCoords/datetime.cpp:67-69 | the member initialisers render as `1970-01-01T00:00:00` |
| DateTimeFields.RenderYear | libCoords/datetime.cpp:698 | the year read from a canonical signed group is written as that group |
| DateTimeFields.CanonicalPositive | libCoords/datetime.cpp:86 | a canonical year group other than "0" reads as a positive number |
| DateTimeFields.RenderTwoDigits | libCoords/datetime.cpp:699-703 | a two-digit group read as a number and written with `setw(2) setfill('0')` gives the group back |
| DateTimeFields.SecondsWholeDisplay | libCoords/datetime.cpp:704 | whole seconds 00-59 are written back as their two digits |
| DateTimeFields.SecondsFractionDisplay | libCoords/datetime.cpp:704 | seconds 10-59 with one to four fraction digits, not ending in 0, are written back as the text read |
| DateTimeFields.FractionValueBounds | libCoords/datetime.cpp:675-683 | such seconds lie between the resolution and 60 minus it, so no carry applies |
| DateTimeFields.ZoneDisplay | libCoords/datetime.cpp:709-744 | a zone read from the text, with its hh and mm kept, is written back exactly as it was read |
| DateTimeFields.SecondsDisplay | libCoords/datetime.cpp:701-704 | the seconds group is written back as read, and absent seconds are written as `00` |
| DateTimeFields.ClockOfCaptures | libCoords/datetime.cpp:701-704 | the time is written back as `hh:mm:` followed by the seconds read, or `00` |
| DateTimeFields.DateOfCaptures | libCoords/datetime.cpp:698-700 | the date is written back as the year, month and day groups read |
| DateTimeFields.WrittenDate | libCoords/datetime.cpp:698-700 | the year, then the month and day padded to two digits, join to the date text |
| DateTimeFields.ZoneOfCaptures | libCoords/datetime.cpp:709-744 | the zone is written back as read: `Z`, or the offset text, or nothing |
| DateTimeFields.RenderOfCaptures | libCoords/datetime.cpp:698-744 | a canonical ISO text renders to itself, with `:00` added when it has no seconds |
| DateTimeFields.ParseRenderRoundTrip | libCoords/datetime.cpp:706-707 | a canonical text with seconds and members in range constructs, and its rendering is the text again |
| Rollover.Adjusted | libCoords/datetime.cpp:252-396 | the closed form of `adjustForTimezone`, which the method `AdjustForTimezone` is proved to compute; `AdjustedFails`, `AdjustedValid` and `AdjustedShiftsByOffset` state its properties |
| Rollover.AdjustForTimezone | libCoords/datetime.cpp:252-396 | the method with the seconds and minutes loops computes the closed form `Adjusted`, including the zone error |
| Rollover.CarrySecondsKeepsTime | libCoords/datetime.cpp:271-277 | the seconds loop keeps seconds + 60·minutes, leaves seconds below 60 minus the resolution, and changes nothing when there is nothing to carry |
| Rollover.CarryMinutesKeepsTime | libCoords/datetime.cpp:280-283 | the minutes loop keeps minutes + 60·hours and leaves minutes below 60 |
| Rollover.StepDateKeepsHours | libCoords/datetime.cpp:289-394 | from -24 to 47 hours, the day step gives a valid date and an hour 0-23 that keep 24·day number + hour, except on the February hold |
| Rollover.StepDateFebruaryHold | libCoords/datetime.cpp:294-307 | on a February day before the month's last a forward push only takes 24 off the hour |
| Rollover.AdjustedFails | libCoords/datetime.cpp:260-261 | `adjustForTimezone` throws exactly when the zone is outside -12..12 |
| Rollover.HoursTaken | libCoords/datetime.cpp:286 | `a_hour -= a_timezone` takes off a whole number of hours within one hour of the zone, exactly the zone when it is whole |
| Rollover.CarriedClock | libCoords/datetime.cpp:271-283 | on a time of day each loop runs at most once: minutes 0-59, the hour up by at most one, seconds below 60 less the resolution, the time kept within the resolution; the seconds end negative exactly when they started at 60 less the resolution |
| Rollover.AdjustedShiftsByOffset | libCoords/datetime.cpp:252-396 | for a valid date and any time of day with seconds below 60, unless the February hold applies: a valid date and an hour 0-23 whose hour count is the carried one less the truncated zone, so the instant moves back by the hours taken, up to the resolution |
| Rollover.AdjustedCarriesKeepTime | libCoords/datetime.cpp:271-283 | the two carry loops keep the time of day in seconds |
| Rollover.AdjustedValid | libCoords/datetime.cpp:252-396 | for a valid date, any time of day with seconds below 60 and a zone in range, carries included: a valid date, an hour 0-23, the carried minutes 0-59 and seconds, negative only when they started at 60 less the resolution, and a February result in the starting year |
| JulianDates.WikiJulianDate | libCoords/datetime.cpp:425-450 | `toJulianDateWiki`; `WikiGregorianDays` and `ForwardAgreement` state its value from 1582-10-15 on, `ReferenceDays` the reference day |
| JulianDates.ApcModifiedJulianDate | libCoords/datetime.cpp:586-615 | `toModifiedJulianDateAPC`; `ApcGregorianDays` and `ForwardAgreement` state its value from 1582-10-15 on, `ReferenceDays` the Lilian date |
| JulianDates.NrcJulianDate | libCoords/datetime.cpp:513-514 | `toJulianDateNRC` throws, with its message, exactly for the year 0 |
| JulianDates.TimeOf | libCoords/datetime.cpp:483-490 | the inverse conversions read an hour 0-23, a minute 0-59 and seconds below 60 that add up to the fraction of the day |
| JulianDates.WikiDate | libCoords/datetime.cpp:453-481 | the date `fromJulianDateWiki` computes; `WikiDateInRange` and `WikiReferenceDate` state its properties |
| JulianDates.FromWiki | libCoords/datetime.cpp:453-497 | `fromJulianDateWiki` sets the date of the formula, subtracts the previous zone from the hour, then clears the zone and its text and keeps the leap and Zulu flags |
| JulianDates.NrcDate | libCoords/datetime.cpp:539-575 | the NRC inverse never gives the year 0 |
| JulianDates.NrcDateOfCount | libCoords/datetime.cpp:558-575 | the year step skips 0: the year before 1 is -1 |
| JulianDates.FromNrc | libCoords/datetime.cpp:539-583 | `fromJulianDateNRC` sets only the date: hour, minute and second keep their old values, and the zone is cleared |
| JulianDates.ApcDate | libCoords/datetime.cpp:618-648 | the date `fromModifiedJulianDateAPC` computes; `ApcDateInRange`, `ApcReferenceDates` and `ApcJulianLeapDay` state its properties |
| JulianDates.FromApc | libCoords/datetime.cpp:618-661 | `fromModifiedJulianDateAPC` stores the date, time and zone; a zone out of range throws with the unadjusted values stored; otherwise it stores them as `adjustForTimezone` moves them |
| JulianDates.ToJulianDate | libCoords/datetime.cpp:425-615 | the forward conversion fails only for NRC on the year 0 |
| JulianDates.FromJulianDate | libCoords/datetime.cpp:453-661 | the inverse conversion fails only for APC with a zone outside -12..12 |
| JulianDates.GregorianQuotients | libCoords/datetime.cpp:437 | y/4 - y/100 + y/400 counts the leap years, also after the shift by 4800 years |
| JulianDates.WikiMonthTerm | libCoords/datetime.cpp:429-437 | (153·m + 2)/5 with March-based months counts the days before the month |
| JulianDates.WikiForm | libCoords/datetime.cpp:429-437 | from 1582-10-15 on, the Wikipedia day count is the Gregorian formula with `floor` of non-negative values as integer division |
| JulianDates.WikiGregorianDays | libCoords/datetime.cpp:425-443 | from 1582-10-15 on, the Wikipedia day count is the proleptic Gregorian day number plus 1721060 |
| JulianDates.ThirtyDayTerm | libCoords/datetime.cpp:526 | `floor(30.6001·k)` for months 4 to 15 counts the days before the month, offset by 63 or 428 |
| JulianDates.QuarterYears | libCoords/datetime.cpp:526 | `floor(365.25·y)` is 365·y + y/4 |
| JulianDates.Hundredths | libCoords/datetime.cpp:529-530 | `(int)(0.01·y)` and `(int)(0.25·ja)` are y/100 and y/400 |
| JulianDates.NrcTerms | libCoords/datetime.cpp:526-531 | for years from 1 on, the NRC day count with its Gregorian correction is the integer formula |
| JulianDates.NrcGregorianDays | libCoords/datetime.cpp:500-531 | from 1582-10-15 on, the NRC day count equals the Wikipedia one: the day number plus 1721060 |
| JulianDates.ApcForm | libCoords/datetime.cpp:598-608 | from 1582-10-15 on, the APC day count takes the Gregorian branch |
| JulianDates.ApcGregorianDays | libCoords/datetime.cpp:586-608 | from 1582-10-15 on, the APC day count is the day number minus 678941 |
| JulianDates.ForwardAgreement | libCoords/datetime.cpp:425-615 | from 1582-10-15 on, the Wikipedia Julian Date is the day number plus 1721060 plus the fraction of the day; APC plus 2400001 equals it; NRC equals it when the hour plus the zone is not negative |
| JulianDates.NrcAgreement | libCoords/datetime.cpp:533-535 | with a non-negative hour plus zone, the NRC fraction of the day is the Wikipedia one |
| JulianDates.NextDay | libCoords/datetime.cpp:425-608 | from 1582-10-15 on, each of the three day counts grows by one from a date to the next day |
| JulianDates.ReferenceDays | libCoords/datetime.cpp:59-61 | 1968-05-23 is day 2440000 by Wikipedia and NRC; APC puts 1582-10-15 at `s_LilianDate`; 1582-10-04 is the day before 1582-10-15 in all three |
| JulianDates.ReferenceDates | libCoords/datetime.cpp:453-661 | the inverses read day 2440000 as 1968-05-23 (Wikipedia, NRC) and the Lilian date and the day before as 1582-10-15 and 1582-10-04 (APC) |
| JulianDates.NrcReferenceDate | libCoords/datetime.cpp:539-575 | the NRC inverse reads day 2440000 as 1968-05-23 |
| JulianDates.WikiReferenceDate | libCoords/datetime.cpp:453-481 | the Wikipedia inverse reads day 2440000 as 1968-05-23 |
| JulianDates.ApcReferenceDates | libCoords/datetime.cpp:618-648 | the APC inverse reads modified days -100840 and -100841 as 1582-10-15 and 1582-10-04 |
| JulianDates.NrcThresholdQuirk | libCoords/datetime.cpp:552-556 | Julian Day 2000000 lies past the key `s_gDateNRC`, though it is before the 1582 reform, and it still gets the Gregorian correction of +4 days |
| JulianDates.NrcNegativeHourQuirk | libCoords/datetime.cpp:533 | 00:30 in zone -1 gives NRC -1.5 hours where the Wikipedia formula gives -0.5 hours |
| JulianDates.ApcJulianLeapDay | libCoords/datetime.cpp:632-648 | before the reform the APC inverse follows the Julian calendar: modified day -131009 is 29 February 1500, a common year by the Gregorian rule |
| JulianDates.JulianLeapYearRule | libCoords/datetime.cpp:642-646 | every Gregorian leap year is a Julian one, and the two rules part exactly on century years not divisible by 400 |
| JulianDates.MonthAndDay | libCoords/datetime.cpp:642-646 | the day-count steps give a March-based month 4-15 and a day from 1 to the length of the month it names, with a 29 February only in a year of 366 days |
| JulianDates.ApcDateInRange | libCoords/datetime.cpp:632-648 | from modified day -2400000 on, the APC inverse gives a month 1-12 and a day within the month by the Julian leap rule |
| JulianDates.ApcCountInRange | libCoords/datetime.cpp:642-648 | the APC date steps give a month 1-12 and a day within the month by the Julian leap rule for any count from 123 |
| JulianDates.NrcDateInRange | libCoords/datetime.cpp:552-567 | from day 0 on, the NRC inverse gives a month 1-12 and a day within the month by the Julian leap rule, its year -1 counting as year 0 |
| JulianDates.NrcCountInRange | libCoords/datetime.cpp:558-567 | the NRC date steps give a month 1-12 and a day within the month by the Julian leap rule for any count from 123 |
| JulianDates.WikiMonthAndDay | libCoords/datetime.cpp:475-477 | the day g of the March-based year gives a month 1-12 and a day within the month, with a 29 February only on day 365 |
| JulianDates.WikiDateInRange | libCoords/datetime.cpp:472-479 | from day 0 on, the Wikipedia inverse gives a month 1-12 and a day within the month by the Julian leap rule |
| DateTimes.Shifted | libCoords/datetime.cpp:221-224 | `+=` by days on the members; `ShiftedErrors` and `ShiftedZone` state its errors and zone, `DateTime.AddDays` is the method |
| DateTimes.ShiftedErrors | libCoords/datetime.cpp:221-224 | `+=` throws exactly for NRC on the year 0, leaving the object unchanged, or for APC with a stored zone out of range |
| DateTimes.ShiftedZone | libCoords/datetime.cpp:221-224 | after `+=`, APC keeps the zone and its text; Wikipedia and NRC leave zone 0 without text |
| DateTimes.GregorianJulianDate | libCoords/datetime.cpp:425-615 | from 1582-10-15 on, every algorithm gives the day number plus 1721060 plus the fraction of the day, half a day less for APC (for NRC when the hour plus the zone is not negative) |
| DateTimes.Difference | libCoords/datetime.cpp:245-247 | `operator-(DateTime, DateTime)`; `DifferenceOfDays` and `DifferenceErrors` state its value and errors |
| DateTimes.DifferenceOfDays | libCoords/datetime.cpp:245-247 | from 1582-10-15 on, `lhs - rhs` is the difference of the day numbers plus that of the fractions of the day, for every algorithm |
| DateTimes.DifferenceErrors | libCoords/datetime.cpp:245-247 | the difference throws exactly when NRC meets the year 0 in either operand |
| DateTimes.Rezoned | libCoords/datetime.cpp:399-420 | `timezone(x)` on the members; `RezonedRefuses`, `RezonedFromZoneZero` and `RezonedShiftsHours` state it, `DateTime.SetTimezone` is the method |
| DateTimes.RezonedRefuses | libCoords/datetime.cpp:399-402 | `timezone(x)` with x outside -12..12 throws and changes nothing |
| DateTimes.ZonedValid | libCoords/datetime.cpp:408-418 | on a valid time with seconds below 60, storing a zone in range and adjusting gives a valid date and hour, keeps the carried minutes and seconds and clears the zone text; `isValid` passes unless the seconds were 60 less the resolution, when it throws "second out of range." after the rendered text |
| DateTimes.RezonedFromZoneZero | libCoords/datetime.cpp:399-420 | from zone 0 and any valid time with seconds below 60, `timezone(x)` with x in range makes no Julian Date round trip and gives the result `ZonedValid` states |
| DateTimes.ZonedShiftsHours | libCoords/datetime.cpp:408-409 | on any valid time with seconds below 60, carries included, the stored date and hour are the carried ones moved by the truncated `hour - x`, and the instant moves back by the hours taken, unless the February hold applies |
| DateTimes.RezonedShiftsHours | libCoords/datetime.cpp:399-420 | from zone 0, `timezone(x)` moves the date and hour as `ZonedShiftsHours` states |
| DateTimes.DateTime.constructor | libCoords/datetime.cpp:66-69 | a new object holds the member initialisers |
| DateTimes.DateTime.Copy | libCoords/datetime.cpp:185-198 | the copy has every member of the original |
| DateTimes.DateTime.Assign | libCoords/datetime.cpp:202-217 | after `operator=` the object has every member `rhs` had, self-assignment included |
| DateTimes.DateTime.FromIso8601 | libCoords/datetime.cpp:66-131 | the constructor succeeds exactly when `Parse` does; the new object holds the parsed members, otherwise the error is the one thrown |
| DateTimes.DateTime.FromJulianDate | libCoords/datetime.cpp:453-661 | `fromJulianDate` leaves the members and the error of the chosen inverse conversion |
| DateTimes.DateTime.FromApcDay | libCoords/datetime.cpp:618-661 | `fromModifiedJulianDateAPC` stores, then adjusts, as `FromApc` states |
| DateTimes.DateTime.AddDays | libCoords/datetime.cpp:221-224 | `+=` leaves the members and the error of the Julian Date moved by `days` and read back in the current zone |
| DateTimes.DateTime.SubtractDays | libCoords/datetime.cpp:226-229 | `-=` is `+=` with the days negated |
| DateTimes.DateTime.Plus | libCoords/datetime.cpp:231-234 | `lhs + days` is a new object moved as `+=` moves it; `lhs` is not changed |
| DateTimes.DateTime.PlusCommuted | libCoords/datetime.cpp:236-238 | `days + rhs` equals `rhs + days` |
| DateTimes.DateTime.Minus | libCoords/datetime.cpp:240-243 | `lhs - days` is a new object moved as `-=` moves it |
| DateTimes.DateTime.SetTimezone | libCoords/datetime.cpp:399-420 | `timezone(x)` checks the range, rebases a zoned time to zone 0, then stores x, adjusts the time, clears the zone text and validates |
| DateTimes.DateTime.Rezone | libCoords/datetime.cpp:408-418 | the steps after the rebase leave the state and the error of `Zoned` |
| Angles.Deg2Rad | libCoords/angle.h:45 | `deg2rad`: rad·180 = deg·π |
| Angles.Rad2Deg | libCoords/angle.h:46 | `rad2deg`: deg·π = rad·180 |
| Angles.RadiansRoundTrip | libCoords/angle.h:45-46 | the two conversions invert each other; 180° is π and 0° is 0 |
| Angles.ConstructedValue | libCoords/angle.cpp:35-39 | `Angle(d, m, s)` holds d + m/60 + s/3600 for non-negative parts; a negative d makes the whole value negative, whatever the signs of m and s; `Angle(d)` holds d |
| Angles.Normalized | libCoords/angle.cpp:165-169 | the value `normalize` leaves; `NormalizedRange` and `NormalizedIdempotent` state its properties, `Angle.Normalize` is the loop |
| Angles.NormalizedRange | libCoords/angle.cpp:165-169 | `normalize` takes a whole number of turns of 360 away; a value up to 360 is unchanged, a larger one ends in (0, 360] |
| Angles.NormalizedIdempotent | libCoords/angle.cpp:165-169 | normalizing twice is the same as once |
| Angles.Split | libCoords/angle.cpp:180-192 | the output split records the sign, gives whole minutes 0-59 and seconds below 60, and recombines to the magnitude |
| Angles.SplitOfParts | libCoords/angle.cpp:180-192 | degrees, minutes below 60 and seconds below 60 are split back into themselves, sign included |
| Angles.PartTexts | libCoords/angle.cpp:194 | whole degrees, minutes and seconds are each written as their decimal digits |
| Angles.WrittenParts | libCoords/angle.cpp:176-220 | an angle of whole degrees, minutes and seconds is written `D* M' S"` by `value2DMSString` and `DD:MM:SS` by `value2HMSString` |
| Angles.DmsString | libCoords/angle.cpp:176-196 | `value2DMSString`; `Split`, `WrittenParts` and `DmsExample` state its text |
| Angles.DmsExample | libCoords/angle.cpp:176-196 | `Angle(12, 34, 56)` is written `12* 34' 56"` |
| Angles.HmsString | libCoords/angle.cpp:198-220 | `value2HMSString`; `Split`, `WrittenParts` and `HmsExample` state its text |
| Angles.HmsExample | libCoords/angle.cpp:198-220 | `Angle(2, 4, 6)` is written `02:04:06` as a time |
| Angles.Angle.constructor | libCoords/angle.cpp:35-39 | the value is `degrees2seconds(d, m, s) / 3600` |
| Angles.Angle.Zero | libCoords/angle.h:50-52 | `Angle()` with its default arguments is the zero angle, also in radians |
| Angles.Angle.Degrees | libCoords/angle.h:50-52 | `Angle(d)` with minutes and seconds defaulted holds d |
| Angles.Angle.Copy | libCoords/angle.cpp:52-55 | the copy holds the value of the original |
| Angles.Angle.Assign | libCoords/angle.cpp:57-62 | after `operator=` the value is that of `rhs`, self-assignment included |
| Angles.Angle.SetValue | libCoords/angle.h:64-67 | `value(x)` and `setValue(x)` store x |
| Angles.Angle.Radians | libCoords/angle.h:71-74 | `radians()` converts back to the stored degrees |
| Angles.Angle.SetRadians | libCoords/angle.h:70-73 | `radians(r)` stores r in degrees, and reading the radians back gives r |
| Angles.Angle.AddAssign | libCoords/angle.cpp:92-95 | `+=` adds the value of `rhs` |
| Angles.Angle.SubtractAssign | libCoords/angle.cpp:97-100 | `-=` subtracts the value of `rhs` |
| Angles.Angle.MultiplyAssign | libCoords/angle.cpp:102-105 | `*=` multiplies by the value of `rhs` |
| Angles.Angle.DivideAssign | libCoords/angle.cpp:107-112 | `/=` by a zero angle throws `DivideByZeroError` and changes nothing; otherwise it divides |
| Angles.Angle.Normalize | libCoords/angle.cpp:165-169 | the loop leaves the normalized value, which `NormalizedRange` bounds |
| Angles.Angle.Equal | libCoords/angle.cpp:66-68 | `operator==` compares the stored values exactly; `ComparisonLaws` states how it relates to the other comparisons |
| Angles.Angle.NotEqual | libCoords/angle.cpp:70-72 | `operator!=` compares the stored values exactly; `ComparisonLaws` states how it relates to the other comparisons |
| Angles.Angle.Less | libCoords/angle.cpp:74-76 | `operator<` compares the stored values exactly; `ComparisonLaws` states how it relates to the other comparisons |
| Angles.Angle.LessOrEqual | libCoords/angle.cpp:78-80 | `operator<=` compares the stored values exactly; `ComparisonLaws` states how it relates to the other comparisons |
| Angles.Angle.Greater | libCoords/angle.cpp:82-84 | `operator>` compares the stored values exactly; `ComparisonLaws` states how it relates to the other comparisons |
| Angles.Angle.GreaterOrEqual | libCoords/angle.cpp:86-88 | `operator>=` compares the stored values exactly; `ComparisonLaws` states how it relates to the other comparisons |
| Angles.ComparisonLaws | libCoords/angle.cpp:66-88 | `!=` is the negation of `==`; exactly one of `<`, `==` and `>` holds; `<=` is `<` or `==`; `>=` and `>` are `<=` and `<` with the operands swapped |
| Angles.Plus | libCoords/angle.cpp:118-120 | `lhs + rhs` is a new angle holding the sum |
| Angles.Minus | libCoords/angle.cpp:122-124 | `lhs - rhs` is a new angle holding the difference |
| Angles.Negate | libCoords/angle.cpp:126-128 | unary `-` is a new angle holding the negated value |
| Angles.Times | libCoords/angle.cpp:130-132 | `lhs * rhs` is a new angle holding the product |
| Angles.Divide | libCoords/angle.cpp:134-139 | `lhs / rhs` throws `DivideByZeroError` exactly when `rhs` is zero; otherwise it is a new angle holding the quotient |

## Left out

- The `std::regex` grammar (`s_ISO8601_format`) is replaced by a hand-written scanner. The grammar text is not part of this model. The scanner follows the groups the constructor reads: an optional sign, year digits, two-digit month 01-12 and day 01-31, hour 00-23, minute 00-59, optional seconds `ss[.s*]`, then `Z` or `(+|-)hh[:][mm]` with hh 00-12.
- `Coords::stoi`, `Coords::stod` and `degrees2seconds` live in `utils.h`, which is not part of this model. They are rebuilt from their uses: digits read as a decimal number; an absent group reads as 0; the sign of `degrees2seconds` comes from its first non-zero argument.
- The `toJulianDate`/`fromJulianDate` dispatchers live in `datetime.h`, which is not part of this model. They are modelled with an explicit `Algorithm` parameter, and only the APC inverse takes the zone.
- IEEE 754 rounding and the `float` casts of `fromJulianDateNRC` are not modelled: doubles are exact reals, so results that differ only by rounding are not captured.
- `operator<<` of a `double` is modelled as `%g` with six significant digits, rounding half up on exact reals.
- Format.FormatReal: only integral values below a million and two-digit decimal seconds are proved to print exactly. Other values have no stated text.
- FieldsOf reads the year group as an unbounded integer. The source stores it in an `int` through `Coords::stoi`, whose out-of-range failure on a long year group is not modelled, and neither is overflow of `int`.
- ParseOfCaptures promises the members of any well-formed text, so also for year groups too long for an `int`, where `Coords::stoi` would fail. The `int` and `long int` widths of the Julian Date formulas are not modelled either: they compute on unbounded integers.
- The inverse round trips (`fromJulianDate(toJulianDate())`) are not proved.
- MonthAndDay bounds the day by the month length of the March-based year (29 February only in a year of 366 days). That this is the Gregorian length after the reform is not proved.
- ApcDateInRange bounds the day by the Julian leap rule. That the Gregorian branch, from day 2299161 on, never gives 29 February of a Gregorian common year is not proved.
- ApcCountInRange bounds the day by the Julian leap rule, with the same gap as ApcDateInRange.
- NrcDateInRange bounds the day by the Julian leap rule. That the Gregorian correction never gives 29 February of a Gregorian common year is not proved.
- NrcCountInRange bounds the day by the Julian leap rule, with the same gap as NrcDateInRange.
- WikiDateInRange bounds the day by the Julian leap rule. `fromJulianDateWiki` divides in floating point where the formula divides integers, so no Gregorian bound is stated for it.
- `JulianDate_1` and the test cases that contradict each other in the angle unit tests are not modelled.
- `Latitude`, `Declination`, `complement` and `normalize(lo, hi)` are not modelled, and neither are the Python bindings.
- The `Angle(const std::string&, …)` constructor is not modelled: it rests on `Coords::stod` of arbitrary text.
- The `Angle` `operator<<` writes `value2DMSString` of the value; it is modelled directly by `Angles.DmsString` rather than as a separate member.
- The values of `value()` and `getValue()` are read as the field `value`. `getRadians()` is `Radians()`.
- Stream state (`std::stringstream` objects, `setw` on a non-integral value) is modelled only as the resulting text.
- DateTimeFields.DisplayClockClose requires `second <= 60`. The source carries any second above 60 to the next minute and drops the excess.
- Calendar.DayNumberInjective and the day-number lemmas use the proleptic Gregorian calendar throughout. The Julian branches of the forward conversions are stated only through the reference dates around 1582-10-15.
