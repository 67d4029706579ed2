/** UTC calendar arithmetic in the proleptic Gregorian calendar, and the two
    date-time texts the loaders write: `datetime.fromtimestamp(t, tz=utc)`
    broken down into fields, and `strftime('%Y-%m-%dT%H:%M:%S.%f')` (ISO 8601
    combined date and time, extended format) of those fields. */
module CivilTime {
  import opened Wrappers
  import opened Numbers

  predicate IsLeapYear(y: int) {
    y % 4 == 0 && (y % 100 != 0 || y % 400 == 0)
  }

  function DaysInYear(y: int): int {
    if IsLeapYear(y) then 366 else 365
  }

  /** Leap years among years 1 .. y-1 (counted with floor division, so the
      formula extends to years before 1). */
  function LeapYearsBefore(y: int): int {
    (y - 1) / 4 - (y - 1) / 100 + (y - 1) / 400
  }

  /** Days from 1970-01-01 to January 1st of year `y` (negative before 1970). */
  function DaysBeforeYear(y: int): int {
    365 * (y - 1970) + LeapYearsBefore(y) - LeapYearsBefore(1970)
  }

  lemma DaysBeforeNextYear(y: int)
    ensures DaysBeforeYear(y + 1) == DaysBeforeYear(y) + DaysInYear(y)
  {
    DivStep(y, 4);
    DivStep(y, 100);
    DivStep(y, 400);
  }

  /** Floor division by `m` steps up by one exactly at the multiples of `m`. */
  lemma DivStep(y: int, m: int)
    requires m > 0
    ensures y / m - (y - 1) / m == (if y % m == 0 then 1 else 0)
  {
    var q, r := (y - 1) / m, (y - 1) % m;
    if r == m - 1 {
      DivModUnique(y, m, q + 1, 0);
    } else {
      DivModUnique(y, m, q, r + 1);
    }
  }

  lemma {:induction false} DaysBeforeYearIncreasing(a: int, b: int)
    requires a < b
    ensures DaysBeforeYear(a) + DaysInYear(a) <= DaysBeforeYear(b)
    decreases b - a
  {
    DaysBeforeNextYear(a);
    if a + 1 < b {
      DaysBeforeYearIncreasing(a + 1, b);
    }
  }

  /** The year and day-of-year (from 0) of the day `d` days after January
      1st of year `y`. */
  function YearDay(d: int, y: int): (r: (int, int))
    ensures 0 <= r.1 < DaysInYear(r.0)
    ensures DaysBeforeYear(r.0) + r.1 == DaysBeforeYear(y) + d
    decreases if d >= 0 then d else 366 - d
  {
    if d < 0 then
      DaysBeforeNextYear(y - 1);
      YearDay(d + DaysInYear(y - 1), y - 1)
    else if d < DaysInYear(y) then
      (y, d)
    else
      DaysBeforeNextYear(y);
      YearDay(d - DaysInYear(y), y + 1)
  }

  /** A day number has one year and day-of-year. */
  lemma YearDayUnique(y: int, doy: int, y': int, doy': int)
    requires 0 <= doy < DaysInYear(y) && 0 <= doy' < DaysInYear(y')
    requires DaysBeforeYear(y) + doy == DaysBeforeYear(y') + doy'
    ensures y == y' && doy == doy'
  {
    if y < y' {
      DaysBeforeYearIncreasing(y, y');
    } else if y' < y {
      DaysBeforeYearIncreasing(y', y);
    }
  }

  /** Days in the months before month `m` (1 .. 13) of a year. */
  function DaysBeforeMonth(m: int, leap: bool): int
    requires 1 <= m <= 13
  {
    var common :=
      if m == 1 then 0 else if m == 2 then 31 else if m == 3 then 59
      else if m == 4 then 90 else if m == 5 then 120 else if m == 6 then 151
      else if m == 7 then 181 else if m == 8 then 212 else if m == 9 then 243
      else if m == 10 then 273 else if m == 11 then 304 else if m == 12 then 334
      else 365;
    if leap && m > 2 then common + 1 else common
  }

  function DaysInMonth(m: int, leap: bool): int
    requires 1 <= m <= 12
  {
    DaysBeforeMonth(m + 1, leap) - DaysBeforeMonth(m, leap)
  }

  lemma DaysBeforeMonthIncreasing(a: int, b: int, leap: bool)
    requires 1 <= a < b <= 13
    ensures DaysBeforeMonth(a, leap) + 28 <= DaysBeforeMonth(b, leap)
  {
  }

  lemma DaysBeforeMonthMonotone(a: int, b: int, leap: bool)
    requires 1 <= a <= b <= 13
    ensures DaysBeforeMonth(a, leap) <= DaysBeforeMonth(b, leap)
  {
  }

  /** The month (at most `m`) holding day-of-year `doy`. */
  function MonthOf(doy: int, leap: bool, m: int): (r: int)
    requires 1 <= m <= 12 && 0 <= doy
    ensures 1 <= r <= m && DaysBeforeMonth(r, leap) <= doy
    ensures doy < DaysBeforeMonth(m + 1, leap) ==> doy < DaysBeforeMonth(r + 1, leap)
    decreases m
  {
    if m == 1 || DaysBeforeMonth(m, leap) <= doy then m else MonthOf(doy, leap, m - 1)
  }

  /** A broken-down UTC date and time, as a Python `datetime` holds it. */
  datatype DateTime = DateTime(year: int, month: int, day: int,
                               hour: int, minute: int, second: int, microsecond: int)

  /** The fields name a real calendar day and a time of day. */
  predicate InRange(dt: DateTime) {
    1 <= dt.month <= 12 && 1 <= dt.day <= DaysInMonth(dt.month, IsLeapYear(dt.year)) &&
    0 <= dt.hour < 24 && 0 <= dt.minute < 60 && 0 <= dt.second < 60 &&
    0 <= dt.microsecond < 1_000_000
  }

  /** Microseconds since 1970-01-01T00:00:00 UTC of a date and time. */
  function ToMicros(dt: DateTime): int
    requires 1 <= dt.month <= 12
  {
    DayNumber(dt.year, dt.month, dt.day) * 86_400_000_000
    + dt.hour * 3_600_000_000 + dt.minute * 60_000_000 + dt.second * 1_000_000 + dt.microsecond
  }

  /** The year, month and day of the day `days` days after 1970-01-01. */
  function CivilDate(days: int): (r: (int, int, int))
    ensures 1 <= r.1 <= 12 && 1 <= r.2 <= DaysInMonth(r.1, IsLeapYear(r.0))
  {
    var yd := YearDay(days, 1970);
    var leap := IsLeapYear(yd.0);
    var m := MonthOf(yd.1, leap, 12);
    (yd.0, m, yd.1 - DaysBeforeMonth(m, leap) + 1)
  }

  /** The day number (days since 1970-01-01) of a date. */
  function DayNumber(year: int, month: int, day: int): int
    requires 1 <= month <= 12
  {
    DaysBeforeYear(year) + DaysBeforeMonth(month, IsLeapYear(year)) + day - 1
  }

  /** The UTC date and time of an instant given in microseconds since the
      epoch: what `datetime.fromtimestamp(t, tz=timezone.utc)` holds. */
  function FromMicros(us: int): (dt: DateTime)
    ensures InRange(dt)
  {
    var date := CivilDate(us / 86_400_000_000);
    var rest := us % 86_400_000_000;
    DateTime(date.0, date.1, date.2,
             rest / 3_600_000_000, rest % 3_600_000_000 / 60_000_000,
             rest % 60_000_000 / 1_000_000, rest % 1_000_000)
  }

  lemma SplitTimeOfDay(rest: int)
    requires 0 <= rest < 86_400_000_000
    ensures rest == rest / 3_600_000_000 * 3_600_000_000
                    + rest % 3_600_000_000 / 60_000_000 * 60_000_000
                    + rest % 60_000_000 / 1_000_000 * 1_000_000
                    + rest % 1_000_000
  {
    var h, a := rest / 3_600_000_000, rest % 3_600_000_000;
    var mi, b := a / 60_000_000, a % 60_000_000;
    assert rest % 60_000_000 == b by {
      DivModUnique(rest, 60_000_000, h * 60 + mi, b);
    }
    var s, c := b / 1_000_000, b % 1_000_000;
    assert rest % 1_000_000 == c by {
      DivModUnique(rest, 1_000_000, h * 3600 + mi * 60 + s, c);
    }
  }

  /** The date of a day number has that day number. */
  lemma DayNumberOfCivilDate(days: int)
    ensures var date := CivilDate(days); DayNumber(date.0, date.1, date.2) == days
  {
    assert DaysBeforeYear(1970) == 0;
  }

  /** Breaking an instant down and adding the fields back up gives the instant. */
  lemma ToFromMicros(us: int)
    ensures ToMicros(FromMicros(us)) == us
  {
    DayNumberOfCivilDate(us / 86_400_000_000);
    SplitTimeOfDay(us % 86_400_000_000);
  }

  /** The month holding the `day`-th day of month `month` is `month`. */
  lemma MonthOfDay(month: int, day: int, leap: bool)
    requires 1 <= month <= 12 && 1 <= day <= DaysInMonth(month, leap)
    ensures MonthOf(DaysBeforeMonth(month, leap) + day - 1, leap, 12) == month
  {
    var doy := DaysBeforeMonth(month, leap) + day - 1;
    var m := MonthOf(doy, leap, 12);
    assert doy < DaysBeforeMonth(m + 1, leap) by {
      DaysBeforeMonthMonotone(month + 1, 13, leap);
    }
    MonthBetween(doy, leap, m, month);
  }

  /** Months cover disjoint stretches of days. */
  lemma MonthBetween(doy: int, leap: bool, m: int, month: int)
    requires 1 <= m <= 12 && 1 <= month <= 12
    requires DaysBeforeMonth(m, leap) <= doy < DaysBeforeMonth(m + 1, leap)
    requires DaysBeforeMonth(month, leap) <= doy < DaysBeforeMonth(month + 1, leap)
    ensures m == month
  {
    if m < month {
      DaysBeforeMonthMonotone(m + 1, month, leap);
    } else if m > month {
      DaysBeforeMonthMonotone(month + 1, m, leap);
    }
  }

  /** The day `doy` days into year `y` has that year and day-of-year. */
  lemma YearDayOf(y: int, doy: int)
    requires 0 <= doy < DaysInYear(y)
    ensures YearDay(DaysBeforeYear(y) + doy, 1970) == (y, doy)
  {
    var yd := YearDay(DaysBeforeYear(y) + doy, 1970);
    assert DaysBeforeYear(1970) == 0;
    YearDayUnique(yd.0, yd.1, y, doy);
  }

  /** A day of a valid date falls inside its year. */
  lemma DayOfYearBound(month: int, day: int, leap: bool)
    requires 1 <= month <= 12 && 1 <= day <= DaysInMonth(month, leap)
    ensures DaysBeforeMonth(month, leap) + day - 1 < (if leap then 366 else 365)
  {
    if month < 12 {
      DaysBeforeMonthIncreasing(month + 1, 13, leap);
    }
  }

  /** The day number of a valid date breaks down into that date. */
  lemma CivilDateOfDayNumber(year: int, month: int, day: int)
    requires 1 <= month <= 12 && 1 <= day <= DaysInMonth(month, IsLeapYear(year))
    ensures CivilDate(DayNumber(year, month, day)) == (year, month, day)
  {
    var leap := IsLeapYear(year);
    var doy := DaysBeforeMonth(month, leap) + day - 1;
    var n := DayNumber(year, month, day);
    var yd := YearDay(n, 1970);
    assert yd == (year, doy) by {
      assert n == DaysBeforeYear(year) + doy;
      DayOfYearBound(month, day, leap);
      YearDayOf(year, doy);
    }
    assert MonthOf(yd.1, IsLeapYear(yd.0), 12) == month by {
      MonthOfDay(month, day, leap);
    }
  }

  /** A valid time of day breaks down into its own fields. */
  lemma TimeOfDayFields(h: int, mi: int, s: int, us: int)
    requires 0 <= h < 24 && 0 <= mi < 60 && 0 <= s < 60 && 0 <= us < 1_000_000
    ensures var rest := h * 3_600_000_000 + mi * 60_000_000 + s * 1_000_000 + us;
            rest / 3_600_000_000 == h && rest % 3_600_000_000 / 60_000_000 == mi &&
            rest % 60_000_000 / 1_000_000 == s && rest % 1_000_000 == us
  {
    var rest := h * 3_600_000_000 + mi * 60_000_000 + s * 1_000_000 + us;
    DivModUnique(rest, 3_600_000_000, h, mi * 60_000_000 + s * 1_000_000 + us);
    DivModUnique(mi * 60_000_000 + s * 1_000_000 + us, 60_000_000, mi, s * 1_000_000 + us);
    DivModUnique(rest, 60_000_000, h * 60 + mi, s * 1_000_000 + us);
    DivModUnique(s * 1_000_000 + us, 1_000_000, s, us);
    DivModUnique(rest, 1_000_000, h * 3600 + mi * 60 + s, us);
  }

  /** Adding valid fields up and breaking the instant down gives the fields:
      with `ToFromMicros`, the breakdown is a bijection between instants and
      valid calendar fields. */
  lemma FromToMicros(dt: DateTime)
    requires InRange(dt)
    ensures FromMicros(ToMicros(dt)) == dt
  {
    var days := DayNumber(dt.year, dt.month, dt.day);
    var rest := dt.hour * 3_600_000_000 + dt.minute * 60_000_000 + dt.second * 1_000_000 + dt.microsecond;
    var us := ToMicros(dt);
    assert us / 86_400_000_000 == days && us % 86_400_000_000 == rest by {
      DivModUnique(us, 86_400_000_000, days, rest);
    }
    TimeOfDayFields(dt.hour, dt.minute, dt.second, dt.microsecond);
    CivilDateOfDayNumber(dt.year, dt.month, dt.day);
  }

  /** A day between January 1st of `lo` and the end of `hi` falls in a
      year from `lo` to `hi`. */
  lemma YearOfDay(days: int, lo: int, hi: int)
    requires DaysBeforeYear(lo) <= days < DaysBeforeYear(hi + 1)
    ensures lo <= YearDay(days, 1970).0 <= hi
  {
    var yd := YearDay(days, 1970);
    assert DaysBeforeYear(1970) == 0;
    if yd.0 < lo {
      DaysBeforeYearIncreasing(yd.0, lo);
      assert false;
    } else if yd.0 > hi + 1 {
      DaysBeforeYearIncreasing(hi + 1, yd.0);
      assert false;
    }
  }

  /** A day whose year is from `lo` to `hi` lies between January 1st of
      `lo` and the end of `hi`. */
  lemma DayOfYears(days: int, lo: int, hi: int)
    requires lo <= YearDay(days, 1970).0 <= hi
    ensures DaysBeforeYear(lo) <= days < DaysBeforeYear(hi + 1)
  {
    var yd := YearDay(days, 1970);
    assert DaysBeforeYear(1970) == 0;
    if lo < yd.0 {
      DaysBeforeYearIncreasing(lo, yd.0);
    }
    DaysBeforeYearIncreasing(yd.0, hi + 1);
  }

  /** The instants a Python `datetime` can hold, those of the years
      1 .. 9999, are the microsecond counts from -62135596800 seconds up
      to 253402300800 seconds. */
  lemma PythonYears(us: int)
    ensures 1 <= FromMicros(us).year <= 9999 <==>
            -62_135_596_800_000_000 <= us < 253_402_300_800_000_000
  {
    var days := us / 86_400_000_000;
    assert DaysBeforeYear(1) == -719_162 && DaysBeforeYear(10000) == 2_932_897;
    if 1 <= FromMicros(us).year <= 9999 {
      DayOfYears(days, 1, 9999);
    }
    if -62_135_596_800_000_000 <= us < 253_402_300_800_000_000 {
      YearOfDay(days, 1, 9999);
    }
  }

  // ---------------------------------------------------------------------
  // The `strftime('%Y-%m-%dT%H:%M:%S.%f')` text and reading it back.

  /** Every field of `%Y-%m-%dT%H:%M:%S` fits its zero-padded width: four
      digits for the year, two for the others. */
  predicate FitsWidths(dt: DateTime) {
    0 <= dt.year < 10000 && 0 <= dt.month < 100 && 0 <= dt.day < 100 &&
    0 <= dt.hour < 100 && 0 <= dt.minute < 100 && 0 <= dt.second < 100
  }

  lemma InRangeFitsWidths(dt: DateTime)
    requires 0 <= dt.year <= 9999 && InRange(dt)
    ensures FitsWidths(dt)
  {
    DaysBeforeMonthMonotone(dt.month + 1, 13, IsLeapYear(dt.year));
  }

  /** `%Y-%m-%dT%H:%M:%S` of a date and time, the year zero-padded to four digits. */
  function DateTimePrefix(dt: DateTime): (r: string)
    requires FitsWidths(dt)
    ensures |r| == 19
  {
    Padded(dt.year, 4) + "-" + Padded(dt.month, 2) + "-" + Padded(dt.day, 2) + "T" +
    Padded(dt.hour, 2) + ":" + Padded(dt.minute, 2) + ":" + Padded(dt.second, 2)
  }

  /** `strftime('%Y-%m-%dT%H:%M:%S.%f')` of a Python `datetime` (whose year is 1 .. 9999). */
  function IsoText(dt: DateTime): (r: string)
    requires 1 <= dt.year <= 9999 && InRange(dt)
    ensures |r| == 26
  {
    InRangeFitsWidths(dt);
    DateTimePrefix(dt) + "." + Padded(dt.microsecond, 6)
  }

  predicate DigitsIn(s: string, lo: int, hi: int)
    requires 0 <= lo <= hi <= |s|
  {
    AllDigits(s[lo..hi])
  }

  /** `s` has the layout `DDDD-DD-DDTDD:DD:DD`. */
  predicate PrefixShape(s: string) {
    |s| == 19 && DigitsIn(s, 0, 4) && s[4] == '-' && DigitsIn(s, 5, 7) && s[7] == '-' &&
    DigitsIn(s, 8, 10) && s[10] == 'T' && DigitsIn(s, 11, 13) && s[13] == ':' &&
    DigitsIn(s, 14, 16) && s[16] == ':' && DigitsIn(s, 17, 19)
  }

  /** The date and time a `%Y-%m-%dT%H:%M:%S` text names, with the given
      microsecond, when the text has that layout and names a real time. */
  function ReadDateTime(s: string, microsecond: int): Option<DateTime> {
    if !PrefixShape(s) then None
    else
      var dt := DateTime(ValueOf(s[0..4]), ValueOf(s[5..7]), ValueOf(s[8..10]),
                         ValueOf(s[11..13]), ValueOf(s[14..16]), ValueOf(s[17..19]), microsecond);
      if InRange(dt) then Some(dt) else None
  }

  lemma PrefixPieces(dt: DateTime)
    requires FitsWidths(dt)
    ensures var p := DateTimePrefix(dt);
      p[0..4] == Padded(dt.year, 4) && p[4] == '-' && p[5..7] == Padded(dt.month, 2) && p[7] == '-' &&
      p[8..10] == Padded(dt.day, 2) && p[10] == 'T' && p[11..13] == Padded(dt.hour, 2) && p[13] == ':' &&
      p[14..16] == Padded(dt.minute, 2) && p[16] == ':' && p[17..19] == Padded(dt.second, 2)
  {
  }

  lemma PrefixShapeOf(dt: DateTime)
    requires FitsWidths(dt)
    ensures PrefixShape(DateTimePrefix(dt))
  {
    PrefixPieces(dt);
  }

  lemma PrefixDateValues(dt: DateTime)
    requires FitsWidths(dt)
    ensures var p := DateTimePrefix(dt);
      ValueOf(p[0..4]) == dt.year && ValueOf(p[5..7]) == dt.month && ValueOf(p[8..10]) == dt.day
  {
    PrefixPieces(dt);
    assert Pow10(2) == 100 && Pow10(4) == 10000;
    ValueOfPaddedSmall(dt.year, 4);
    ValueOfPaddedSmall(dt.month, 2);
    ValueOfPaddedSmall(dt.day, 2);
  }

  lemma PrefixTimeValues(dt: DateTime)
    requires FitsWidths(dt)
    ensures var p := DateTimePrefix(dt);
      ValueOf(p[11..13]) == dt.hour && ValueOf(p[14..16]) == dt.minute && ValueOf(p[17..19]) == dt.second
  {
    PrefixPieces(dt);
    assert Pow10(2) == 100;
    ValueOfPaddedSmall(dt.hour, 2);
    ValueOfPaddedSmall(dt.minute, 2);
    ValueOfPaddedSmall(dt.second, 2);
  }

  /** Reading back the `%Y-%m-%dT%H:%M:%S` text of a date and time gives it back. */
  lemma ReadDateTimePrefix(dt: DateTime)
    requires 1 <= dt.year <= 9999 && InRange(dt)
    ensures ReadDateTime(DateTimePrefix(dt), dt.microsecond) == Some(dt)
  {
    InRangeFitsWidths(dt);
    PrefixShapeOf(dt);
    PrefixDateValues(dt);
    PrefixTimeValues(dt);
  }

  /** Dropping the last three characters of the `%f` text leaves the
      milliseconds. */
  lemma IsoTextMillis(dt: DateTime)
    requires 1 <= dt.year <= 9999 && InRange(dt)
    ensures IsoText(dt)[..23] == DateTimePrefix(dt) + "." + Padded(dt.microsecond / 1000, 3)
  {
    PaddedSplit(dt.microsecond, 3, 3);
    assert Pow10(3) == 1000;
    assert IsoText(dt) == (DateTimePrefix(dt) + "." + Padded(dt.microsecond / 1000, 3)) + Padded(dt.microsecond % 1000, 3);
  }
}
