/** The restricted ISO 8601 profile of the DateTime constructor
    (libCoords/datetime.cpp:40-52): a calendar date with an optional sign on
    the year, a time of day, and optional seconds followed by an optional UTC
    designator or offset. The captured groups are a datatype, `Assemble` writes
    them as text, and `Scan` is the scanner that takes the place of the regular
    expression; `ScanSoundAndComplete` shows the two agree. */
module Iso8601 {
  import opened Utils
  import opened Text

  /** Groups 10-14: nothing, `Z`, or a signed offset `hh[:][mm]`. */
  datatype Zone = NoZone | Zulu | Offset(negative: bool, hh: string, colon: bool, mm: string)

  /** Group 8 (two digits, optionally a point and more digits) and the zone. */
  datatype Seconds = Seconds(text: string, zone: Zone)

  /** Groups 1-6 and the optional seconds part. */
  datatype Captures = Captures(negative: bool, year: string, month: string, day: string,
                               hour: string, minute: string, seconds: Option<Seconds>)

  /** `(0[1-9]|1[012])` */
  predicate MonthText(s: string)
  {
    |s| == 2 && AllDigits(s) && ((s[0] == '0' && '1' <= s[1] <= '9') || (s[0] == '1' && '0' <= s[1] <= '2'))
  }

  /** `(0[1-9]|1\d|2\d|3[01])` */
  predicate DayText(s: string)
  {
    |s| == 2 && AllDigits(s) && ((s[0] == '0' && '1' <= s[1] <= '9') || ('1' <= s[0] <= '2' && IsDigit(s[1]))
                 || (s[0] == '3' && '0' <= s[1] <= '1'))
  }

  /** `([01]\d|2[0-3])` */
  predicate HourText(s: string)
  {
    |s| == 2 && AllDigits(s) && (('0' <= s[0] <= '1' && IsDigit(s[1])) || (s[0] == '2' && '0' <= s[1] <= '3'))
  }

  /** `([0-5]\d)` */
  predicate MinuteText(s: string)
  {
    |s| == 2 && AllDigits(s) && '0' <= s[0] <= '5' && IsDigit(s[1])
  }

  /** `(0[0-9]|1[012])` */
  predicate ZoneHourText(s: string)
  {
    |s| == 2 && AllDigits(s) && ((s[0] == '0' && IsDigit(s[1])) || (s[0] == '1' && '0' <= s[1] <= '2'))
  }

  /** `([0-5]\d(\.\d*){0,1})` */
  predicate SecondText(s: string)
  {
    |s| >= 2 && MinuteText(s[..2]) && (|s| == 2 || (s[2] == '.' && AllDigits(s[3..])))
  }

  predicate WellFormedZone(z: Zone)
  {
    z.Offset? ==> ZoneHourText(z.hh) && (z.mm == "" || MinuteText(z.mm))
  }

  predicate WellFormedSeconds(s: Seconds)
  {
    SecondText(s.text) && WellFormedZone(s.zone)
  }

  predicate WellFormed(c: Captures)
  {
    AllDigits(c.year) && MonthText(c.month) && DayText(c.day) && HourText(c.hour)
    && MinuteText(c.minute) && (c.seconds.Some? ==> WellFormedSeconds(c.seconds.value))
  }

  function ZoneText(z: Zone): string
  {
    match z
    case NoZone => ""
    case Zulu => "Z"
    case Offset(negative, hh, colon, mm) =>
      (if negative then "-" else "+") + hh + (if colon then ":" else "") + mm
  }

  function SecondsText(s: Seconds): string
  {
    s.text + ZoneText(s.zone)
  }

  function YearText(negative: bool, year: string): string
  {
    (if negative then "-" else "") + year
  }

  function MonthDayText(month: string, day: string): string
  {
    "-" + month + "-" + day
  }

  function DateText(c: Captures): string
  {
    YearText(c.negative, c.year) + MonthDayText(c.month, c.day)
  }

  function ClockText(hour: string, minute: string): string
  {
    hour + ":" + minute
  }

  function TailText(seconds: Option<Seconds>): string
  {
    if seconds.Some? then ":" + SecondsText(seconds.value) else ""
  }

  function TimeText(c: Captures): string
  {
    ClockText(c.hour, c.minute) + TailText(c.seconds)
  }

  /** The text whose match yields these groups. */
  function Assemble(c: Captures): string
  {
    DateText(c) + "T" + TimeText(c)
  }

  // ----- the scanner -----

  function ScanZone(z: string): (r: Option<Zone>)
  {
    if z == "" then Some(NoZone)
    else if z == "Z" then Some(Zulu)
    else if |z| >= 3 && (z[0] == '+' || z[0] == '-') && ZoneHourText(z[1..3]) then
      var rest := z[3..];
      var colon := rest != "" && rest[0] == ':';
      var mm := if colon then rest[1..] else rest;
      if mm == "" || MinuteText(mm) then Some(Offset(z[0] == '-', z[1..3], colon, mm)) else None
    else None
  }

  /** The number of leading digits of s. */
  function DigitPrefix(s: string): (n: nat)
    ensures n <= |s| && AllDigits(s[..n]) && (n < |s| ==> !IsDigit(s[n]))
  {
    if s == [] || !IsDigit(s[0]) then 0
    else
      var n := 1 + DigitPrefix(s[1..]);
      assert s[..n] == [s[0]] + s[1..][..n - 1];
      n
  }

  function ScanSeconds(r: string): Option<Seconds>
  {
    if |r| < 2 || !MinuteText(r[..2]) then None
    else
      var n := if |r| > 2 && r[2] == '.' then 3 + DigitPrefix(r[3..]) else 2;
      match ScanZone(r[n..])
      case None => None
      case Some(z) => Some(Seconds(r[..n], z))
  }

  function ScanTail(r: string): Option<Option<Seconds>>
  {
    if r == "" then Some(None)
    else if r[0] != ':' then None
    else
      match ScanSeconds(r[1..])
      case None => None
      case Some(s) => Some(Some(s))
  }

  function ScanClock(t: string): Option<(string, string)>
    requires |t| == 5
  {
    if HourText(t[..2]) && t[2] == ':' && MinuteText(t[3..]) then Some((t[..2], t[3..])) else None
  }

  function ScanTime(t: string): Option<(string, string, Option<Seconds>)>
  {
    if |t| < 5 then None
    else
      match (ScanClock(t[..5]), ScanTail(t[5..]))
      case (Some((hour, minute)), Some(seconds)) => Some((hour, minute, seconds))
      case _ => None
  }

  function ScanYear(p: string): Option<(bool, string)>
  {
    if AllDigits(p) then Some((false, p))
    else if p[0] == '-' && AllDigits(p[1..]) then Some((true, p[1..]))
    else None
  }

  function ScanMonthDay(t: string): Option<(string, string)>
    requires |t| == 6
  {
    if t[0] == '-' && MonthText(t[1..3]) && t[3] == '-' && DayText(t[4..])
    then Some((t[1..3], t[4..])) else None
  }

  function ScanDate(d: string): Option<(bool, string, string, string)>
  {
    if |d| < 6 then None
    else
      match (ScanYear(d[..|d| - 6]), ScanMonthDay(d[|d| - 6..]))
      case (Some((negative, year)), Some((month, day))) => Some((negative, year, month, day))
      case _ => None
  }

  /** Index of the first 'T' in s, if any. */
  function FindT(s: string): (r: Option<nat>)
    ensures r.Some? ==> r.value < |s| && s[r.value] == 'T' && forall i :: 0 <= i < r.value ==> s[i] != 'T'
    ensures r.None? ==> forall i :: 0 <= i < |s| ==> s[i] != 'T'
  {
    if s == [] then None
    else if s[0] == 'T' then Some(0)
    else match FindT(s[1..])
      case None => None
      case Some(i) => Some(i + 1)
  }

  /** `std::regex_match` of s against the grammar, giving the groups. */
  function Scan(s: string): Option<Captures>
  {
    match FindT(s)
    case None => None
    case Some(i) =>
      match (ScanDate(s[..i]), ScanTime(s[i + 1..]))
      case (Some((negative, year, month, day)), Some((hour, minute, seconds))) =>
        Some(Captures(negative, year, month, day, hour, minute, seconds))
      case _ => None
  }

  // ----- the scanner and the grammar agree -----

  lemma Split(a: string, b: string)
    ensures (a + b)[..|a|] == a && (a + b)[|a|..] == b
  {
  }

  lemma SplitAround(s: string, i: nat)
    requires i < |s|
    ensures s == s[..i] + [s[i]] + s[i + 1..]
  {
  }

  lemma ScanZoneSound(z: string)
    requires ScanZone(z).Some?
    ensures WellFormedZone(ScanZone(z).value) && ZoneText(ScanZone(z).value) == z
  {
    if |z| >= 3 && z != "Z" {
      var rest := z[3..];
      var colon := rest != "" && rest[0] == ':';
      if colon {
        assert z == z[..1] + z[1..3] + ":" + rest[1..];
      } else {
        assert z == z[..1] + z[1..3] + rest;
      }
    }
  }

  lemma ScanZoneComplete(z: Zone)
    requires WellFormedZone(z)
    ensures ScanZone(ZoneText(z)) == Some(z)
  {
    if z.Offset? {
      var t := ZoneText(z);
      assert t[1..3] == z.hh;
      if z.colon {
        assert t[3..] == ":" + z.mm;
      } else {
        assert t[3..] == z.mm;
      }
    }
  }

  /** Zone text never begins with a digit or a point. */
  lemma ZoneTextStart(z: Zone)
    ensures ZoneText(z) != "" ==> ZoneText(z)[0] in {'Z', '+', '-'}
  {
  }

  lemma ScanSecondsSound(r: string)
    requires ScanSeconds(r).Some?
    ensures WellFormedSeconds(ScanSeconds(r).value) && SecondsText(ScanSeconds(r).value) == r
  {
    var n := if |r| > 2 && r[2] == '.' then 3 + DigitPrefix(r[3..]) else 2;
    ScanZoneSound(r[n..]);
    assert r == r[..n] + r[n..];
    if n > 2 {
      assert r[..n][3..] == r[3..][..n - 3];
    }
  }

  lemma ScanSecondsComplete(s: Seconds)
    requires WellFormedSeconds(s)
    ensures ScanSeconds(SecondsText(s)) == Some(s)
  {
    var r := SecondsText(s);
    var t := s.text;
    ZoneTextStart(s.zone);
    assert r[..2] == t[..2];
    if |t| > 2 {
      assert r[2] == '.';
      var digits := t[3..];
      assert r[3..] == digits + ZoneText(s.zone);
      DigitPrefixOfAppend(digits, ZoneText(s.zone));
      assert r[..3 + |digits|] == t;
      assert r[3 + |digits|..] == ZoneText(s.zone);
    } else {
      assert r[2..] == ZoneText(s.zone);
    }
    ScanZoneComplete(s.zone);
  }

  /** A digit run followed by text that does not start with a digit. */
  lemma {:induction false} DigitPrefixOfAppend(digits: string, rest: string)
    requires AllDigits(digits) && (rest != "" ==> !IsDigit(rest[0]))
    ensures DigitPrefix(digits + rest) == |digits|
  {
    if digits != [] {
      assert (digits + rest)[1..] == digits[1..] + rest;
      DigitPrefixOfAppend(digits[1..], rest);
    } else {
      assert digits + rest == rest;
    }
  }

  lemma ScanTailSound(r: string)
    requires ScanTail(r).Some?
    ensures var seconds := ScanTail(r).value;
      (seconds.Some? ==> WellFormedSeconds(seconds.value)) && TailText(seconds) == r
  {
    if r != "" {
      ScanSecondsSound(r[1..]);
      assert r == ":" + r[1..];
    }
  }

  lemma ScanTailComplete(seconds: Option<Seconds>)
    requires seconds.Some? ==> WellFormedSeconds(seconds.value)
    ensures ScanTail(TailText(seconds)) == Some(seconds)
  {
    if seconds.Some? {
      var r := TailText(seconds);
      Split(":", SecondsText(seconds.value));
      ScanSecondsComplete(seconds.value);
    }
  }

  lemma ScanClockSound(t: string)
    requires |t| == 5 && ScanClock(t).Some?
    ensures HourText(ScanClock(t).value.0) && MinuteText(ScanClock(t).value.1)
    ensures ClockText(ScanClock(t).value.0, ScanClock(t).value.1) == t
  {
    assert t == t[..2] + ":" + t[3..];
  }

  lemma ScanClockComplete(hour: string, minute: string)
    requires HourText(hour) && MinuteText(minute)
    ensures |ClockText(hour, minute)| == 5 && ScanClock(ClockText(hour, minute)) == Some((hour, minute))
  {
    var t := ClockText(hour, minute);
    assert t[..2] == hour && t[3..] == minute;
  }

  lemma ScanTimeSound(t: string)
    requires ScanTime(t).Some?
    ensures var (hour, minute, seconds) := ScanTime(t).value;
      HourText(hour) && MinuteText(minute)
      && (seconds.Some? ==> WellFormedSeconds(seconds.value))
      && ClockText(hour, minute) + TailText(seconds) == t
  {
    ScanClockSound(t[..5]);
    ScanTailSound(t[5..]);
    assert t == t[..5] + t[5..];
  }

  lemma ScanTimeComplete(c: Captures)
    requires WellFormed(c)
    ensures ScanTime(TimeText(c)) == Some((c.hour, c.minute, c.seconds))
  {
    ScanClockComplete(c.hour, c.minute);
    ScanTailComplete(c.seconds);
    Split(ClockText(c.hour, c.minute), TailText(c.seconds));
  }

  lemma ScanYearSound(p: string)
    requires ScanYear(p).Some?
    ensures AllDigits(ScanYear(p).value.1) && YearText(ScanYear(p).value.0, ScanYear(p).value.1) == p
  {
    if !AllDigits(p) {
      assert p == "-" + p[1..];
    }
  }

  lemma ScanYearComplete(negative: bool, year: string)
    requires AllDigits(year)
    ensures ScanYear(YearText(negative, year)) == Some((negative, year))
  {
    var p := YearText(negative, year);
    if negative {
      assert p == "-" + year;
      assert p[0] == '-' && !IsDigit(p[0]);
      assert !AllDigits(p);
      assert p[1..] == year;
    } else {
      assert p == year;
    }
  }

  lemma ScanMonthDaySound(t: string)
    requires |t| == 6 && ScanMonthDay(t).Some?
    ensures MonthText(ScanMonthDay(t).value.0) && DayText(ScanMonthDay(t).value.1)
    ensures MonthDayText(ScanMonthDay(t).value.0, ScanMonthDay(t).value.1) == t
  {
    assert t == "-" + t[1..3] + "-" + t[4..];
  }

  lemma ScanMonthDayComplete(month: string, day: string)
    requires MonthText(month) && DayText(day)
    ensures |MonthDayText(month, day)| == 6 && ScanMonthDay(MonthDayText(month, day)) == Some((month, day))
  {
    var t := MonthDayText(month, day);
    assert t[1..3] == month && t[4..] == day;
  }

  lemma ScanDateSound(d: string)
    requires ScanDate(d).Some?
    ensures var (negative, year, month, day) := ScanDate(d).value;
      AllDigits(year) && MonthText(month) && DayText(day)
      && YearText(negative, year) + MonthDayText(month, day) == d
  {
    ScanYearSound(d[..|d| - 6]);
    ScanMonthDaySound(d[|d| - 6..]);
    assert d == d[..|d| - 6] + d[|d| - 6..];
  }

  lemma ScanDateComplete(c: Captures)
    requires WellFormed(c)
    ensures ScanDate(DateText(c)) == Some((c.negative, c.year, c.month, c.day))
  {
    var p, t := YearText(c.negative, c.year), MonthDayText(c.month, c.day);
    ScanYearComplete(c.negative, c.year);
    ScanMonthDayComplete(c.month, c.day);
    Split(p, t);
  }

  /** The date part has no 'T', so the first 'T' of the text is the separator. */
  lemma FindTOfAssemble(c: Captures)
    requires WellFormed(c)
    ensures FindT(Assemble(c)) == Some(|DateText(c)|)
  {
    var s := Assemble(c);
    var d := DateText(c);
    assert forall i :: 0 <= i < |d| ==> d[i] == '-' || IsDigit(d[i]);
    assert forall i :: 0 <= i < |d| ==> s[i] == d[i];
    FindTFirst(s, |d|);
  }

  lemma {:induction false} FindTFirst(s: string, k: nat)
    requires k < |s| && s[k] == 'T' && forall i :: 0 <= i < k ==> s[i] != 'T'
    ensures FindT(s) == Some(k)
  {
    if k > 0 {
      FindTFirst(s[1..], k - 1);
    }
  }

  /** What the scanner returns is built from the date part before the first
      'T' and the time part after it. */
  lemma ScanParts(s: string)
    requires Scan(s).Some?
    ensures var i := FindT(s).value; var c := Scan(s).value;
      ScanDate(s[..i]) == Some((c.negative, c.year, c.month, c.day))
      && ScanTime(s[i + 1..]) == Some((c.hour, c.minute, c.seconds))
  {
  }

  lemma ScanSound(s: string)
    requires Scan(s).Some?
    ensures WellFormed(Scan(s).value) && Assemble(Scan(s).value) == s
  {
    var i := FindT(s).value;
    var d, t := s[..i], s[i + 1..];
    var c := Scan(s).value;
    ScanParts(s);
    ScanDateSound(d);
    ScanTimeSound(t);
    SplitAround(s, i);
  }

  lemma ScanComplete(c: Captures)
    requires WellFormed(c)
    ensures Scan(Assemble(c)) == Some(c)
  {
    var d, t := DateText(c), TimeText(c);
    FindTOfAssemble(c);
    Split(d, "T" + t);
    Split("T", t);
    assert Assemble(c) == d + ("T" + t);
    ScanDateComplete(c);
    ScanTimeComplete(c);
  }

  /** The scanner accepts exactly the texts the grammar generates, and gives
      back the groups they were generated from. */
  lemma ScanSoundAndComplete(s: string, c: Captures)
    ensures Scan(s) == Some(c) <==> WellFormed(c) && Assemble(c) == s
  {
    if Scan(s) == Some(c) {
      ScanSound(s);
    }
    if WellFormed(c) && Assemble(c) == s {
      ScanComplete(c);
    }
  }
}
