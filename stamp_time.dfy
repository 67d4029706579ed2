/** The instants the two loaders turn into text. The trajectory loader of
    the MobilityDB importer writes a `datetime.fromtimestamp` instant to the
    millisecond with a `+00` offset; the QuestDB importer writes a pandas
    `Timestamp` to the microsecond with a `Z`. Instants are integers of
    nanoseconds since 1970-01-01T00:00:00 UTC. */
module StampTime {
  import opened Wrappers
  import opened Numbers
  import opened CivilTime

  /** A number of seconds in nanoseconds, digits below the nanosecond cut
      off toward zero. */
  function Nanoseconds(seconds: Decimal): int {
    var magnitude := seconds.whole * 1_000_000_000 + DropDigits(seconds.fraction * 1_000_000_000, seconds.scale);
    if seconds.negative then -magnitude else magnitude
  }

  /** The integer part of a number, cut toward zero. */
  function IntegerPart(d: Decimal): int {
    if d.negative then -(d.whole as int) else d.whole
  }

  /** The microsecond `datetime.fromtimestamp` keeps of an instant: the
      nearest one, a tie going to the even one. */
  function RoundToMicros(ns: int): (us: int)
    ensures -500 <= ns - us * 1000 <= 500
    ensures ns - us * 1000 == 500 || ns - us * 1000 == -500 ==> us % 2 == 0
  {
    var q, r := ns / 1000, ns % 1000;
    if r > 500 || (r == 500 && q % 2 == 1) then q + 1 else q
  }

  /** Rounding to the microsecond keeps the order of instants. */
  lemma RoundToMicrosMonotone(a: int, b: int)
    requires a <= b
    ensures RoundToMicros(a) <= RoundToMicros(b)
  {
    var ua, ub := RoundToMicros(a), RoundToMicros(b);
    if ua > ub {
      assert false;
    }
  }

  /** `datetime.fromtimestamp(t, tz=timezone.utc)` succeeds: the instant
      falls in the years 1 .. 9999 a Python `datetime` can hold (see
      `PythonYears`). */
  predicate Convertible(ns: int) {
    -62_135_596_800_000_000 <= RoundToMicros(ns) < 253_402_300_800_000_000
  }

  /** `strftime('%Y-%m-%dT%H:%M:%S.%f')[:-3] + '+00'` of the instant. */
  function TimeText(ns: int): (r: string)
    requires Convertible(ns)
    ensures |r| == 26
  {
    PythonYears(RoundToMicros(ns));
    var text := IsoText(FromMicros(RoundToMicros(ns)));
    text[..|text| - 3] + "+00"
  }

  /** The milliseconds since the epoch a `YYYY-MM-DDTHH:MM:SS.mmm+00` text
      names. */
  function ReadTimeText(s: string): Option<int> {
    if |s| == 26 && s[19] == '.' && DigitsIn(s, 20, 23) && s[23..] == "+00" then
      match ReadDateTime(s[..19], ValueOf(s[20..23]) * 1000)
      case Some(dt) => Some(ToMicros(dt) / 1000)
      case None => None
    else None
  }

  /** Cutting a microsecond count below the millisecond: the instant of a
      date and time whose microsecond is replaced by its whole
      milliseconds. */
  lemma TruncatedMillis(dt: DateTime)
    requires InRange(dt)
    ensures ToMicros(dt.(microsecond := dt.microsecond / 1000 * 1000)) / 1000 == ToMicros(dt) / 1000
  {
    var ms := dt.microsecond / 1000;
    var base := DayNumber(dt.year, dt.month, dt.day) * 86_400_000
                + dt.hour * 3_600_000 + dt.minute * 60_000 + dt.second * 1000;
    assert ToMicros(dt) == (base + ms) * 1000 + dt.microsecond % 1000;
    DivModUnique(ToMicros(dt), 1000, base + ms, dt.microsecond % 1000);
    DivModUnique(ToMicros(dt.(microsecond := ms * 1000)), 1000, base + ms, 0);
  }

  /** The time text of a date and time: `%Y-%m-%dT%H:%M:%S`, a dot, the
      milliseconds and `+00`. */
  function MillisText(dt: DateTime): (r: string)
    requires FitsWidths(dt) && 0 <= dt.microsecond
  {
    DateTimePrefix(dt) + "." + Padded(dt.microsecond / 1000, 3) + "+00"
  }

  /** Cutting the `%f` text to three digits leaves the milliseconds. */
  lemma TimeTextIsMillisText(ns: int)
    requires Convertible(ns)
    ensures var dt := FromMicros(RoundToMicros(ns));
      1 <= dt.year <= 9999 && FitsWidths(dt) && TimeText(ns) == MillisText(dt)
  {
    var dt := FromMicros(RoundToMicros(ns));
    PythonYears(RoundToMicros(ns));
    InRangeFitsWidths(dt);
    IsoTextMillis(dt);
  }

  lemma ReadMillisText(dt: DateTime)
    requires 1 <= dt.year <= 9999 && InRange(dt)
    ensures FitsWidths(dt)
    ensures ReadTimeText(MillisText(dt)) == Some(ToMicros(dt) / 1000)
  {
    InRangeFitsWidths(dt);
    var ms := dt.microsecond / 1000;
    var s := MillisText(dt);
    assert s[..19] == DateTimePrefix(dt) && s[19] == '.';
    assert s[20..23] == Padded(ms, 3);
    assert s[23..] == "+00";
    assert Pow10(3) == 1000;
    ValueOfPaddedSmall(ms, 3);
    var dt' := dt.(microsecond := ms * 1000);
    assert DateTimePrefix(dt') == DateTimePrefix(dt);
    ReadDateTimePrefix(dt');
    TruncatedMillis(dt);
  }

  /** Reading the time text of an instant gives back the instant to the
      millisecond (below the microsecond rounding, cut toward the past). */
  lemma ReadTimeTextRoundTrip(ns: int)
    requires Convertible(ns)
    ensures ReadTimeText(TimeText(ns)) == Some(RoundToMicros(ns) / 1000)
  {
    var us := RoundToMicros(ns);
    TimeTextIsMillisText(ns);
    ReadMillisText(FromMicros(us));
    ToFromMicros(us);
  }

  predicate TimeChar(c: char) {
    IsDigit(c) || c == '-' || c == 'T' || c == ':' || c == '.' || c == '+'
  }

  lemma AllDigitsTimeChars(s: string)
    requires AllDigits(s)
    ensures forall i :: 0 <= i < |s| ==> TimeChar(s[i])
  {
    forall i | 0 <= i < |s| ensures TimeChar(s[i]) { assert IsDigit(s[i]); }
  }

  lemma PrefixTimeChars(dt: DateTime)
    requires FitsWidths(dt)
    ensures var p := DateTimePrefix(dt); forall i :: 0 <= i < |p| ==> TimeChar(p[i])
  {
    var p := DateTimePrefix(dt);
    PrefixPieces(dt);
    AllDigitsTimeChars(p[0..4]);
    AllDigitsTimeChars(p[5..7]);
    AllDigitsTimeChars(p[8..10]);
    AllDigitsTimeChars(p[11..13]);
    AllDigitsTimeChars(p[14..16]);
    AllDigitsTimeChars(p[17..19]);
    forall i | 0 <= i < |p| ensures TimeChar(p[i]) {
      if i < 4 { assert p[i] == p[0..4][i]; }
      else if 5 <= i < 7 { assert p[i] == p[5..7][i - 5]; }
      else if 8 <= i < 10 { assert p[i] == p[8..10][i - 8]; }
      else if 11 <= i < 13 { assert p[i] == p[11..13][i - 11]; }
      else if 14 <= i < 16 { assert p[i] == p[14..16][i - 14]; }
      else if 17 <= i < 19 { assert p[i] == p[17..19][i - 17]; }
    }
  }

  lemma MillisTextChars(dt: DateTime)
    requires FitsWidths(dt) && 0 <= dt.microsecond
    ensures var s := MillisText(dt); forall i :: 0 <= i < |s| ==> TimeChar(s[i])
  {
    var p := DateTimePrefix(dt);
    var ms := Padded(dt.microsecond / 1000, 3);
    var s := MillisText(dt);
    PrefixTimeChars(dt);
    AllDigitsTimeChars(ms);
    forall i | 0 <= i < |s| ensures TimeChar(s[i]) {
      if i < 19 { assert s[i] == p[i]; }
      else if 20 <= i < 23 { assert s[i] == ms[i - 20]; }
    }
  }

  /** The time text holds digits and the separators `-T:.+` only; in
      particular no `@` and no `,`. */
  lemma TimeTextChars(ns: int)
    requires Convertible(ns)
    ensures forall i :: 0 <= i < |TimeText(ns)| ==> TimeChar(TimeText(ns)[i])
  {
    TimeTextIsMillisText(ns);
    MillisTextChars(FromMicros(RoundToMicros(ns)));
  }

  /** pandas' `Timestamp` range: 64-bit nanoseconds, the smallest value
      being reserved for `NaT`. */
  predicate InTimestampRange(ns: int) {
    -0x7FFF_FFFF_FFFF_FFFF <= ns <= 0x7FFF_FFFF_FFFF_FFFF
  }

  /** Every pandas `Timestamp` falls in the years 1677 .. 2262. */
  lemma TimestampYears(ns: int)
    requires InTimestampRange(ns)
    ensures 1677 <= FromMicros(ns / 1000).year <= 2262
  {
    var days := ns / 1000 / 86_400_000_000;
    assert -106_753 <= days <= 106_752;
    assert DaysBeforeYear(1677) == -107_015;
    assert DaysBeforeYear(2263) == 107_016;
    YearOfDay(days, 1677, 2262);
  }

  /** `Timestamp.strftime('%Y-%m-%dT%H:%M:%S.%fZ')`: the nanoseconds below
      the microsecond are dropped. */
  function TsText(ns: int): (r: string)
    requires InTimestampRange(ns)
    ensures |r| == 27 && r[26] == 'Z'
  {
    TimestampYears(ns);
    IsoText(FromMicros(ns / 1000)) + "Z"
  }

  /** The microseconds since the epoch a `YYYY-MM-DDTHH:MM:SS.ffffffZ`
      text names. */
  function ReadTsText(s: string): Option<int> {
    if |s| == 27 && s[19] == '.' && DigitsIn(s, 20, 26) && s[26] == 'Z' then
      match ReadDateTime(s[..19], ValueOf(s[20..26]))
      case Some(dt) => Some(ToMicros(dt))
      case None => None
    else None
  }

  lemma ReadIsoText(dt: DateTime)
    requires 1 <= dt.year <= 9999 && InRange(dt)
    ensures ReadTsText(IsoText(dt) + "Z") == Some(ToMicros(dt))
  {
    InRangeFitsWidths(dt);
    var s := IsoText(dt) + "Z";
    assert s[..19] == DateTimePrefix(dt) && s[19] == '.';
    assert s[20..26] == Padded(dt.microsecond, 6);
    assert Pow10(6) == 1_000_000;
    ValueOfPaddedSmall(dt.microsecond, 6);
    ReadDateTimePrefix(dt);
  }

  /** Reading the text of a timestamp gives back the timestamp to the
      microsecond. */
  lemma ReadTsTextRoundTrip(ns: int)
    requires InTimestampRange(ns)
    ensures ReadTsText(TsText(ns)) == Some(ns / 1000)
  {
    TimestampYears(ns);
    ReadIsoText(FromMicros(ns / 1000));
    ToFromMicros(ns / 1000);
  }
}
