/** The pair of calendar conversions the startup code uses for the real-time
  * clock: seconds since 1970 to broken-down time and back.
  *
  * The two disagree on the calendar. `GmTime` gives every fourth year a leap
  * day; `CalcTimeT` counts every fourth year that is already over the same way
  * but applies the Gregorian rule to the year itself.
  */
module Calendar {
  import opened Common

  datatype Tm = Tm(year: int, mon: int, mday: int, hour: int, min: int, sec: int, wday: int, yday: int)

  const DAY := 86400

  const MDAYS: seq<seq<nat>> :=
    [[31, 28, 31, 30, 31, 30, 31, 31, 30, 31, 30, 31],
     [31, 29, 31, 30, 31, 30, 31, 31, 30, 31, 30, 31]]

  const MONTH_SEC: seq<nat> :=
    [0, 2678400, 5097600, 7776000, 10368000, 13046400,
     15638400, 18316800, 20995200, 23587200, 26265600, 28857600]

  // ----- The calendar with a leap day every fourth year -----

  predicate FourthYear(y: nat) {
    (y + 2) % 4 == 0
  }

  function YearLength(y: nat): nat {
    if FourthYear(y) then 366 else 365
  }

  /** Days from 1 January 1970 to 1 January of year 1970 + y. */
  function YearStart(y: nat): nat {
    if y == 0 then 0 else YearStart(y - 1) + YearLength(y - 1)
  }

  function MonthLength(leap: bool, mon: nat): nat
    requires mon < 12
  {
    MDAYS[if leap then 1 else 0][mon]
  }

  function MonthStart(leap: bool, mon: nat): nat
    requires mon <= 12
  {
    if mon == 0 then 0 else MonthStart(leap, mon - 1) + MonthLength(leap, mon - 1)
  }

  predicate ClockFields(tm: Tm) {
    0 <= tm.hour < 24 && 0 <= tm.min < 60 && 0 <= tm.sec < 60
  }

  function ClockSeconds(tm: Tm): int {
    tm.hour * 3600 + tm.min * 60 + tm.sec
  }

  /** tm is the moment t seconds after 1 January 1970 when every fourth year is a leap year. */
  predicate Denotes(tm: Tm, t: nat) {
    && tm.year >= 70 && 0 <= tm.mon < 12 && ClockFields(tm)
    && var leap := FourthYear(tm.year - 70);
    && 1 <= tm.mday <= MonthLength(leap, tm.mon)
    && tm.yday == MonthStart(leap, tm.mon) + tm.mday - 1
    && (YearStart(tm.year - 70) + tm.yday) * DAY + ClockSeconds(tm) == t
    && tm.wday == (t / DAY + 4) % 7
  }

  // ----- Month tables -----

  lemma {:induction false} MonthStarts(leap: bool)
    ensures MonthStart(leap, 0) == 0 && MonthStart(leap, 1) == 31
    ensures var d := if leap then 1 else 0;
            && MonthStart(leap, 2) == 59 + d && MonthStart(leap, 3) == 90 + d && MonthStart(leap, 4) == 120 + d
            && MonthStart(leap, 5) == 151 + d && MonthStart(leap, 6) == 181 + d && MonthStart(leap, 7) == 212 + d
            && MonthStart(leap, 8) == 243 + d && MonthStart(leap, 9) == 273 + d && MonthStart(leap, 10) == 304 + d
            && MonthStart(leap, 11) == 334 + d && MonthStart(leap, 12) == 365 + d
  {
    var days := MDAYS[if leap then 1 else 0];
    assert days[0] == 31 && days[2] == 31 && days[3] == 30 && days[4] == 31 && days[5] == 30 && days[6] == 31;
    assert days[7] == 31 && days[8] == 30 && days[9] == 31 && days[10] == 30 && days[11] == 31;
    assert MonthStart(leap, 1) == 31;
    assert MonthStart(leap, 2) == 31 + days[1];
    assert MonthStart(leap, 3) == MonthStart(leap, 2) + 31;
    assert MonthStart(leap, 4) == MonthStart(leap, 3) + 30;
    assert MonthStart(leap, 5) == MonthStart(leap, 4) + 31;
    assert MonthStart(leap, 6) == MonthStart(leap, 5) + 30;
    assert MonthStart(leap, 7) == MonthStart(leap, 6) + 31;
    assert MonthStart(leap, 8) == MonthStart(leap, 7) + 31;
    assert MonthStart(leap, 9) == MonthStart(leap, 8) + 30;
    assert MonthStart(leap, 10) == MonthStart(leap, 9) + 31;
    assert MonthStart(leap, 11) == MonthStart(leap, 10) + 30;
    assert MonthStart(leap, 12) == MonthStart(leap, 11) + 31;
  }

  /** The table of seconds is the running sum of the month lengths of a common year. */
  lemma {:induction false} MonthTable(leap: bool, mon: nat)
    requires mon < 12
    ensures MONTH_SEC[mon] + (if leap && mon >= 2 then DAY else 0) == MonthStart(leap, mon) * DAY
  {
    MonthStarts(leap);
  }

  lemma {:induction false} MonthsAscend(leap: bool, a: nat, b: nat)
    requires a < b <= 12
    ensures MonthStart(leap, a) + MonthLength(leap, a) <= MonthStart(leap, b)
  {
    if a + 1 < b {
      MonthsAscend(leap, a, b - 1);
    }
  }

  // ----- Years -----

  /** Adding up year lengths comes to 365y plus one day for every fourth year. */
  lemma {:induction false} YearClosedForm(y: nat)
    ensures YearStart(y) == 365 * y + (y + 1) / 4
  {
    if y > 0 {
      YearClosedForm(y - 1);
    }
  }

  lemma {:induction false} YearsAscend(a: nat, b: nat)
    requires a < b
    ensures YearStart(a) + YearLength(a) <= YearStart(b)
  {
    if a + 1 < b {
      YearsAscend(a, b - 1);
    }
  }

  // ----- _gmtime -----

  lemma SameDay(tm: Tm, t: nat)
    requires Denotes(tm, t)
    ensures YearStart(tm.year - 70) + tm.yday == t / DAY && ClockSeconds(tm) == t % DAY
  {
    assert 0 <= ClockSeconds(tm) < DAY;
  }

  lemma WithinYear(tm: Tm, t: nat)
    requires Denotes(tm, t)
    ensures 0 <= tm.yday < YearLength(tm.year - 70)
  {
    MonthStarts(FourthYear(tm.year - 70));
    if tm.mon < 11 {
      MonthsAscend(FourthYear(tm.year - 70), tm.mon, 11);
    }
  }

  lemma SameYear(a: Tm, b: Tm, t: nat)
    requires Denotes(a, t) && Denotes(b, t)
    ensures a.year == b.year && a.yday == b.yday
  {
    SameDay(a, t);
    SameDay(b, t);
    WithinYear(a, t);
    WithinYear(b, t);
    assert a.year >= 70 && b.year >= 70;
    hide Denotes, YearStart, YearLength, ClockSeconds;
    if a.year < b.year {
      YearsAscend(a.year - 70, b.year - 70);
    } else if b.year < a.year {
      YearsAscend(b.year - 70, a.year - 70);
    }
  }

  lemma FieldsInRange(tm: Tm, t: nat)
    requires Denotes(tm, t)
    ensures tm.year >= 70 && 0 <= tm.mon < 12 && ClockFields(tm)
    ensures 1 <= tm.mday <= MonthLength(FourthYear(tm.year - 70), tm.mon)
    ensures tm.yday == MonthStart(FourthYear(tm.year - 70), tm.mon) + tm.mday - 1
    ensures tm.wday == (t / DAY + 4) % 7
  {
  }

  lemma SameMonth(a: Tm, b: Tm, t: nat)
    requires Denotes(a, t) && Denotes(b, t) && a.year == b.year && a.yday == b.yday
    ensures a.mon == b.mon && a.mday == b.mday
  {
    FieldsInRange(a, t);
    FieldsInRange(b, t);
    hide Denotes, MonthStart, MonthLength, FourthYear;
    var leap := FourthYear(a.year - 70);
    if a.mon < b.mon {
      MonthsAscend(leap, a.mon, b.mon);
    } else if b.mon < a.mon {
      MonthsAscend(leap, b.mon, a.mon);
    }
  }

  lemma SameClock(a: Tm, b: Tm)
    requires ClockFields(a) && ClockFields(b) && ClockSeconds(a) == ClockSeconds(b)
    ensures a.hour == b.hour && a.min == b.min && a.sec == b.sec
  {
  }

  /** A moment has one broken-down form. */
  lemma DenotesOnce(a: Tm, b: Tm, t: nat)
    requires Denotes(a, t) && Denotes(b, t)
    ensures a == b
  {
    hide Denotes, ClockSeconds, ClockFields, YearStart, MonthStart, MonthLength;
    SameYear(a, b, t);
    SameMonth(a, b, t);
    SameDay(a, t);
    SameDay(b, t);
    FieldsInRange(a, t);
    FieldsInRange(b, t);
    SameClock(a, b);
  }

  /** The year loop: whole years off the front. */
  method TakeYears(total: nat) returns (year: nat, days: nat)
    ensures YearStart(year) + days == total && days < YearLength(year)
  {
    year, days := 0, total;
    while true
      invariant YearStart(year) + days == total
      decreases days
    {
      var t := 365 + (if (year + 2) % 4 == 0 then 1 else 0);
      if t > days {
        break;
      }
      days := days - t;
      year := year + 1;
    }
  }

  /** The month loop: whole months off the front. */
  method TakeMonths(leap: bool, yday: nat) returns (mon: nat, days: nat)
    requires yday < 365 + if leap then 1 else 0
    ensures mon < 12 && MonthStart(leap, mon) + days == yday && days < MonthLength(leap, mon)
  {
    mon, days := 0, yday;
    while mon < 12
      invariant mon <= 12 && MonthStart(leap, mon) + days == yday
    {
      var t := MDAYS[if leap then 1 else 0][mon];
      if t > days {
        return;
      }
      days := days - t;
      mon := mon + 1;
    }
    MonthStarts(leap);
    assert false;
  }

  /** Seconds within a day as hour, minute and second. */
  lemma ClockOf(secs: nat)
    requires secs < DAY
    ensures secs / 60 / 60 < 24 && (secs / 60) % 60 < 60 && secs % 60 < 60
    ensures (secs / 60 / 60) * 3600 + ((secs / 60) % 60) * 60 + secs % 60 == secs
  {
    var minutes := secs / 60;
    assert secs == minutes * 60 + secs % 60;
    assert minutes == (minutes / 60) * 60 + minutes % 60;
  }

  lemma Recompose(t: nat)
    ensures (t / DAY) * DAY + t % DAY == t && t % DAY < DAY
  {
  }

  method GmTime(timer: nat) returns (tm: Tm)
    ensures Denotes(tm, timer)
  {
    var days := timer / DAY;
    var secs := timer % DAY;
    var wday := (days + 4) % 7;
    var year, yday := TakeYears(days);
    var mon, rest := TakeMonths((year + 2) % 4 == 0, yday);
    tm := Tm(year + 70, mon, rest + 1, secs / 60 / 60, (secs / 60) % 60, secs % 60, wday, yday);
    Recompose(timer);
    ClockOf(secs);
    hide YearStart, MonthStart, MonthLength;
  }

  // ----- calc_time_t -----

  predicate GregorianLeap(year: int) {
    year % 4 == 0 && (year % 100 != 0 || year % 400 == 0)
  }

  predicate SkippedCentury(year: int) {
    year % 100 == 0 && year % 400 != 0
  }

  function Unsigned32(x: int): nat {
    x % 0x1_0000_0000
  }

  function Unsigned64(x: int): nat {
    x % 0x1_0000_0000_0000_0000
  }

  /** The whole-number value of the sum, before it is reduced to 64 bits. */
  function CalcSum(tm: Tm): int
    requires 0 <= tm.mon < 12
  {
    var year := Unsigned32(tm.year - 70);
    (year * 365 + Unsigned32(year + 1) / 4) * DAY + MONTH_SEC[tm.mon]
    + (if tm.mon >= 2 && GregorianLeap(Unsigned32(tm.year + 1900)) then DAY else 0)
    + (tm.mday - 1) * DAY + ClockSeconds(tm)
  }

  lemma Reduce(a: int, b: int)
    ensures Unsigned64(Unsigned64(a) + b) == Unsigned64(a + b)
  {
    var m := 0x1_0000_0000_0000_0000;
    var q := a / m;
    assert a == q * m + Unsigned64(a);
    assert (a + b) % m == (Unsigned64(a) + b + q * m) % m;
  }

  lemma Small(x: int)
    requires 0 <= x < 0x1_0000_0000_0000_0000
    ensures Unsigned64(x) == x
  {
  }

  /** None stands for the crash on a month out of range. */
  method CalcTimeT(tm: Tm) returns (r: Option<nat>)
    ensures r.None? <==> !(0 <= tm.mon < 12)
    ensures r.Some? ==> r.value == Unsigned64(CalcSum(tm))
  {
    hide Unsigned64;
    var year := Unsigned32(tm.year - 70);
    ghost var sum := (year * 365 + Unsigned32(year + 1) / 4) * DAY;
    Small(year * 365 + Unsigned32(year + 1) / 4);
    var sec := Unsigned64(Unsigned64(year * 365 + Unsigned32(year + 1) / 4) * DAY);
    if tm.mon >= 0 && tm.mon < |MONTH_SEC| {
      Reduce(sum, MONTH_SEC[tm.mon]);
      sum := sum + MONTH_SEC[tm.mon];
      sec := Unsigned64(sec + MONTH_SEC[tm.mon]);
    } else {
      return None;
    }
    year := Unsigned32(tm.year + 1900);
    if tm.mon >= 2 && year % 4 == 0 && (year % 100 != 0 || year % 400 == 0) {
      Reduce(sum, DAY);
      sum := sum + DAY;
      sec := Unsigned64(sec + DAY);
    }
    Reduce(sum, (tm.mday - 1) * DAY);
    sum := sum + (tm.mday - 1) * DAY;
    sec := Unsigned64(sec + (tm.mday - 1) * DAY);
    Reduce(sum, tm.hour * 3600);
    sum := sum + tm.hour * 3600;
    sec := Unsigned64(sec + tm.hour * 3600);
    Reduce(sum, tm.min * 60);
    sum := sum + tm.min * 60;
    sec := Unsigned64(sec + tm.min * 60);
    Reduce(sum, tm.sec);
    return Some(Unsigned64(sec + tm.sec));
  }

  /** The first second whose year number no longer fits a signed 32-bit integer. */
  const FIRST_BAD_YEAR: nat := 0x8000_0000 - 1970
  const TIME_LIMIT: nat := (365 * FIRST_BAD_YEAR + (FIRST_BAD_YEAR + 1) / 4) * DAY

  lemma YearFits(tm: Tm, t: nat)
    requires Denotes(tm, t) && t < TIME_LIMIT
    ensures 70 <= tm.year < FIRST_BAD_YEAR + 70
  {
    SameDay(tm, t);
    YearClosedForm(FIRST_BAD_YEAR);
    if tm.year - 70 > FIRST_BAD_YEAR {
      YearsAscend(FIRST_BAD_YEAR, tm.year - 70);
    }
    WithinYear(tm, t);
    assert t / DAY < YearStart(FIRST_BAD_YEAR);
  }

  /** From March of a century year that the Gregorian rule skips. */
  predicate LateInSkippedCentury(tm: Tm) {
    tm.mon >= 2 && SkippedCentury(tm.year + 1900)
  }

  lemma NarrowYear(tm: Tm)
    requires 70 <= tm.year < FIRST_BAD_YEAR + 70
    ensures Unsigned32(tm.year - 70) == tm.year - 70
    ensures Unsigned32(tm.year - 70 + 1) == tm.year - 70 + 1
    ensures Unsigned32(tm.year + 1900) == tm.year + 1900
  {
  }

  lemma LeapRules(y: nat)
    ensures GregorianLeap(y + 1970) <==> FourthYear(y) && !SkippedCentury(y + 1970)
    ensures SkippedCentury(y + 1970) ==> FourthYear(y)
  {
  }

  /** The round trip is exact, except that it loses one day from March on in a
    * century year not divisible by 400. */
  lemma RoundTrip(tm: Tm, t: nat)
    requires Denotes(tm, t) && t < TIME_LIMIT
    ensures Unsigned64(CalcSum(tm)) == if LateInSkippedCentury(tm) then t - DAY else t
    ensures Unsigned64(CalcSum(tm)) == t <==> !LateInSkippedCentury(tm)
  {
    YearFits(tm, t);
    NarrowYear(tm);
    LeapRules(tm.year - 70);
    YearClosedForm(tm.year - 70);
    MonthTable(FourthYear(tm.year - 70), tm.mon);
    hide Unsigned64, Unsigned32, GregorianLeap, FourthYear, SkippedCentury, YearStart, MonthStart, MonthLength;
    assert CalcSum(tm) == if LateInSkippedCentury(tm) then t - DAY else t;
    Small(CalcSum(tm));
  }

  // ----- Both conversions against the Gregorian calendar -----

  function GregorianYearStart(y: nat): nat {
    if y == 0 then 0
    else GregorianYearStart(y - 1) + (if GregorianLeap(1969 + y) then 366 else 365)
  }

  function GregorianSeconds(tm: Tm): int
    requires tm.year >= 70 && 0 <= tm.mon < 12
  {
    (GregorianYearStart(tm.year - 70) + MonthStart(GregorianLeap(tm.year + 1900), tm.mon) + tm.mday - 1) * DAY
    + ClockSeconds(tm)
  }

  predicate GregorianDate(tm: Tm) {
    && tm.year >= 70 && 0 <= tm.mon < 12 && ClockFields(tm)
    && 1 <= tm.mday <= MonthLength(GregorianLeap(tm.year + 1900), tm.mon)
  }

  /** Years since 1970, before year 1970 + y, that the Gregorian rule skips. */
  function Skipped(y: nat): nat {
    if y == 0 then 0 else Skipped(y - 1) + (if SkippedCentury(1969 + y) then 1 else 0)
  }

  lemma {:induction false} GregorianYears(y: nat)
    ensures GregorianYearStart(y) + Skipped(y) == YearStart(y)
  {
    if y > 0 {
      GregorianYears(y - 1);
      LeapRules(y - 1);
      hide GregorianLeap, SkippedCentury, FourthYear;
    }
  }

  lemma {:induction false} FirstSkipped(y: nat)
    ensures Skipped(y) == 0 <==> y <= 130
  {
    if y > 0 {
      FirstSkipped(y - 1);
    }
  }

  /** Read as a Gregorian date, CalcTimeT is a day ahead for every skipped century
    * year that is over, so it is right exactly through 2100. */
  lemma CalcAgainstGregorian(tm: Tm)
    requires GregorianDate(tm) && tm.year < FIRST_BAD_YEAR + 70
    ensures Unsigned64(CalcSum(tm)) == GregorianSeconds(tm) + Skipped(tm.year - 70) * DAY
    ensures Unsigned64(CalcSum(tm)) == GregorianSeconds(tm) <==> tm.year + 1900 <= 2100
  {
    var leap := GregorianLeap(tm.year + 1900);
    NarrowYear(tm);
    YearClosedForm(tm.year - 70);
    GregorianYears(tm.year - 70);
    FirstSkipped(tm.year - 70);
    MonthTable(leap, tm.mon);
    MonthBound(leap, tm.mon);
    hide Unsigned64, Unsigned32, GregorianLeap, YearStart, MonthStart, MonthLength, GregorianYearStart, Skipped;
    assert CalcSum(tm) == GregorianSeconds(tm) + Skipped(tm.year - 70) * DAY;
    Small(CalcSum(tm));
  }

  lemma {:induction false} MonthBound(leap: bool, mon: nat)
    requires mon < 12
    ensures MonthStart(leap, mon) <= 335 && MonthLength(leap, mon) <= 31
  {
    MonthStarts(leap);
  }

  /** The first second of 1 March 2100, in the Gregorian calendar. */
  const MARCH_2100: nat := 4107542400

  lemma EveryFourth(y: nat)
    requires y < 130
    ensures GregorianLeap(y + 1970) == FourthYear(y)
  {
  }

  lemma NotLonger(tm: Tm, t: nat)
    requires Denotes(tm, t) && tm.year > 200
    ensures GregorianSeconds(tm) < t && t >= MARCH_2100
  {
    var y := tm.year - 70;
    SameDay(tm, t);
    WithinYear(tm, t);
    YearsAscend(130, y);
    YearClosedForm(130);
    GregorianYears(y);
    FirstSkipped(y);
    LeapRules(y);
    MonthTable(false, tm.mon);
    MonthTable(true, tm.mon);
    hide GregorianLeap, SkippedCentury, FourthYear, YearStart, MonthLength, MonthStart, GregorianYearStart, Skipped;
    assert MonthStart(GregorianLeap(tm.year + 1900), tm.mon) <= MonthStart(FourthYear(y), tm.mon);
  }

  lemma {:induction false} LeapAgainstCommon(mon: nat)
    requires mon < 12
    ensures MonthStart(true, mon) == MonthStart(false, mon) + if mon >= 2 then 1 else 0
    ensures MonthLength(true, mon) == MonthLength(false, mon) + if mon == 1 then 1 else 0
    ensures mon < 2 ==> MonthStart(false, mon) + MonthLength(false, mon) <= 59
    ensures mon == 1 ==> MonthStart(false, mon) + MonthLength(false, mon) == 59
    ensures mon >= 2 ==> MonthStart(false, mon) >= 59
  {
    MonthStarts(true);
    MonthStarts(false);
  }

  /** Day number within 2100 as the Gregorian rule counts it, without 29 February. */
  lemma DayIn2100(tm: Tm, t: nat) returns (day: int)
    requires Denotes(tm, t) && tm.year == 200
    ensures GregorianSeconds(tm) == (47482 + day) * DAY + ClockSeconds(tm)
    ensures if tm.mon < 2 then tm.yday == day <= 59 else tm.yday == day + 1 >= 60
    ensures GregorianDate(tm) <==> !(tm.mon < 2 && day == 59)
  {
    hide YearStart, MonthStart, MonthLength, GregorianYearStart, Skipped;
    YearClosedForm(130);
    GregorianYears(130);
    FirstSkipped(130);
    LeapAgainstCommon(tm.mon);
    day := MonthStart(false, tm.mon) + tm.mday - 1;
    assert FourthYear(130) && !GregorianLeap(2100);
  }

  lemma In2100(tm: Tm, t: nat)
    requires Denotes(tm, t) && tm.year == 200
    ensures GregorianDate(tm) && GregorianSeconds(tm) == t <==> t < MARCH_2100
  {
    hide Denotes, GregorianDate, GregorianSeconds, YearStart, ClockSeconds;
    var day := DayIn2100(tm, t);
    SameDay(tm, t);
    YearClosedForm(130);
    assert t / DAY == 47482 + tm.yday;
  }

  lemma EarlyDay(tm: Tm, t: nat)
    requires Denotes(tm, t) && tm.year < 200
    ensures t < MARCH_2100
  {
    SameDay(tm, t);
    WithinYear(tm, t);
    FieldsInRange(tm, t);
    hide Denotes, YearStart, YearLength, ClockSeconds;
    YearsAscend(tm.year - 70, 130);
    YearClosedForm(130);
    assert t / DAY < 47482;
  }

  lemma Before2100(tm: Tm, t: nat)
    requires Denotes(tm, t) && tm.year < 200
    ensures GregorianDate(tm) && GregorianSeconds(tm) == t
  {
    var y := tm.year - 70;
    EveryFourth(y);
    GregorianYears(y);
    FirstSkipped(y);
    SameDay(tm, t);
    FieldsInRange(tm, t);
    Recompose(t);
    hide Denotes, GregorianLeap, FourthYear, YearStart, MonthStart, MonthLength, GregorianYearStart, Skipped,
         ClockSeconds, ClockFields;
    GregorianSecondsAre(tm, t / DAY);
  }

  lemma GregorianSecondsAre(tm: Tm, days: int)
    requires tm.year >= 70 && 0 <= tm.mon < 12
    requires days == GregorianYearStart(tm.year - 70) + MonthStart(GregorianLeap(tm.year + 1900), tm.mon) + tm.mday - 1
    ensures GregorianSeconds(tm) == days * DAY + ClockSeconds(tm)
  {
  }

  /** GmTime names the Gregorian date and time of t exactly before March 2100. */
  lemma GmTimeAgainstGregorian(tm: Tm, t: nat)
    requires Denotes(tm, t)
    ensures GregorianDate(tm) && GregorianSeconds(tm) == t <==> t < MARCH_2100
  {
    FieldsInRange(tm, t);
    hide Denotes, GregorianDate, GregorianSeconds;
    if tm.year < 200 {
      Before2100(tm, t);
      EarlyDay(tm, t);
    } else if tm.year > 200 {
      NotLonger(tm, t);
    } else {
      In2100(tm, t);
    }
  }
}
