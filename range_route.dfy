/** The decision logic of the planner server's routes: the `/api/validate/range` handler
    (required fields, which failure is reported, the duration of a valid range) and the
    date and month strings the page routes build from their path segments. Responses are
    values; HTTP status codes, `toISOString` and the file lookups that follow are not part
    of this model. */
module RangeRoute {
  import opened Wrappers
  import opened Text
  import opened Civil
  import opened Catalogue
  import opened DateParser

  // ---------------------------------------------------------------------------------------
  // Duration

  /** The `duration` object of a valid range. */
  datatype Duration = Duration(totalDays: int, totalHours: int, humanReadable: string)

  /** `diffDays === 1 ? '1 day' : `${diffDays} days``. */
  function HumanReadable(days: int): (s: string)
    ensures s == "1 day" <==> days == 1
    ensures days != 1 ==> s == IntToDecimal(days) + " days"
  {
    if days == 1 then "1 day" else IntToDecimal(days) + " days"
  }

  /** Whole days and whole hours in a non-negative span of milliseconds, rounded down
      (`Math.floor(diffMs / (1000 * 60 * 60 * 24))` and `... / (1000 * 60 * 60)`). */
  function DurationOf(diffMs: nat): (d: Duration)
    ensures 0 <= d.totalDays && d.totalDays * MsPerDay <= diffMs < (d.totalDays + 1) * MsPerDay
    ensures 0 <= d.totalHours && d.totalHours * MsPerHour <= diffMs < (d.totalHours + 1) * MsPerHour
    ensures d.humanReadable == HumanReadable(d.totalDays)
  {
    var days := diffMs / MsPerDay;
    Duration(days, diffMs / MsPerHour, HumanReadable(days))
  }

  /** A day has 24 hours: the hour count lies in the day count's band. */
  lemma {:induction false} HoursWithinDays(diffMs: nat)
    ensures 24 * DurationOf(diffMs).totalDays <= DurationOf(diffMs).totalHours
    ensures DurationOf(diffMs).totalHours < 24 * (DurationOf(diffMs).totalDays + 1)
  {
    var d := DurationOf(diffMs);
    assert MsPerDay == 24 * MsPerHour;
    assert 24 * d.totalDays * MsPerHour <= diffMs < (d.totalHours + 1) * MsPerHour;
    assert d.totalHours * MsPerHour <= diffMs < 24 * (d.totalDays + 1) * MsPerHour;
  }

  // ---------------------------------------------------------------------------------------
  // The range handler

  /** One side of a valid range as the response reports it: the text received, the parsed
      instant and the detected format. */
  datatype RangeEnd = RangeEnd(original: string, parsed: int, format: Detected)

  /** The JSON bodies the handler sends. */
  datatype RangeResponse =
    | MissingDates
    | BadDate(error: string, field: string)
    | BadRange(error: string, startDate: int, endDate: int)
    | RangeOk(start: RangeEnd, end: RangeEnd, duration: Duration, timezone: Zone)

  const MissingDatesError := "Both startDate and endDate are required in request body"

  /** JavaScript's `!value` for a body field: absent, `null` or the empty string. */
  predicate Falsy(v: Option<string>) {
    v.None? || v.value == []
  }

  /** The handler once both fields are present: `s` and `e` are the parses of the start
      and end texts. The start is reported before the end, and the range is compared only
      when both parsed. */
  function Judge(startText: string, endText: string, s: ParseResult, e: ParseResult,
                 zone: Zone): (r: RangeResponse)
    requires WellShaped(s) && WellShaped(e)
    ensures !r.MissingDates?
    ensures r.BadDate? && r.field == "startDate" <==> !s.success
    ensures r.BadDate? && r.field == "endDate" <==> s.success && !e.success
    ensures r.BadDate? ==> r.field == "startDate" || r.field == "endDate"
    ensures !s.success ==> r.error == "Invalid start date: " + s.error.value
    ensures s.success && !e.success ==> r.error == "Invalid end date: " + e.error.value
    ensures r.BadRange? ==>
      (s.success && e.success && r.startDate == s.date.value && r.endDate == e.date.value
       && (r.error == BothMustBeValid || (r.error == StartAfterEnd && r.startDate > r.endDate)))
    ensures r.RangeOk? <==>
      (s.success && e.success && IsValidDate(At(s.date.value)) && IsValidDate(At(e.date.value))
       && s.date.value <= e.date.value)
    ensures r.RangeOk? ==>
      r.start == RangeEnd(startText, s.date.value, s.format.value)
      && r.end == RangeEnd(endText, e.date.value, e.format.value)
      && r.duration == DurationOf(e.date.value - s.date.value) && r.timezone == zone
  {
    if !s.success then BadDate("Invalid start date: " + s.error.value, "startDate")
    else if !e.success then BadDate("Invalid end date: " + e.error.value, "endDate")
    else
      var check := ValidateDateRange(At(s.date.value), At(e.date.value));
      if !check.valid then BadRange(check.error.value, s.date.value, e.date.value)
      else
        RangeOk(RangeEnd(startText, s.date.value, s.format.value),
                RangeEnd(endText, e.date.value, e.format.value),
                DurationOf(e.date.value - s.date.value), zone)
  }

  /** `POST /api/validate/range` on a body `{ startDate, endDate, timezone }`. */
  function ValidateRange(startDate: Option<string>, endDate: Option<string>, zone: Zone,
                         refYear: int): (r: RangeResponse)
    ensures r.MissingDates? <==> Falsy(startDate) || Falsy(endDate)
    ensures !r.MissingDates? ==>
      r == Judge(startDate.value, endDate.value, ParseDate(startDate, zone, refYear),
                 ParseDate(endDate, zone, refYear), zone)
  {
    if Falsy(startDate) || Falsy(endDate) then MissingDates
    else
      Judge(startDate.value, endDate.value, ParseDate(startDate, zone, refYear),
            ParseDate(endDate, zone, refYear), zone)
  }

  // ---------------------------------------------------------------------------------------
  // What the handler promises

  /** The count can be read back from the phrase: its first word is the number of days. */
  lemma HumanReadableCount(days: nat)
    ensures var w := FirstWord(HumanReadable(days));
      AllDigits(w) && DigitsValue(w) == days
  {
    var n := NatToDecimal(days);
    assert ' ' !in n by {
      forall i | 0 <= i < |n| ensures n[i] != ' ' {
        assert IsDigit(n[i]);
      }
    }
    var h := HumanReadable(days);
    assert h[..|n|] == n && h[|n|] == ' ';
    FirstWordOf(n, h);
  }

  /** With a reference year from 50 to 9950 every parsed date is a valid JavaScript date:
      the four-digit patterns stay within years 0 to 9999, and so does the two-digit window. */
  lemma ParsedInstantValid(raw: Option<string>, zone: Zone, refYear: int)
    requires 50 <= refYear <= 9950
    requires ParseDate(raw, zone, refYear).success
    ensures IsValidDate(At(ParseDate(raw, zone, refYear).date.value))
  {
    var p := ParseDate(raw, zone, refYear);
    ReadBounds(p.format.value.key, Trim(raw.value), refYear);
    FourDigitYearInRange(Read(p.format.value.key, Trim(raw.value), refYear).value, zone);
  }

  /** With such a reference year, two dates that parse make a range exactly when the start
      is not after the end, and the only refusal of such a range is that it runs backwards. */
  lemma {:induction false} RangeOnlyRefusedBackwards(startDate: string, endDate: string,
                                                     zone: Zone, refYear: int)
    requires 50 <= refYear <= 9950
    requires startDate != [] && endDate != []
    requires ParseDate(Some(startDate), zone, refYear).success
    requires ParseDate(Some(endDate), zone, refYear).success
    ensures var r := ValidateRange(Some(startDate), Some(endDate), zone, refYear);
      var s := ParseDate(Some(startDate), zone, refYear).date.value;
      var e := ParseDate(Some(endDate), zone, refYear).date.value;
      (r.RangeOk? <==> s <= e) && (r.BadRange? <==> s > e)
      && (r.BadRange? ==> r.error == StartAfterEnd)
  {
    ParsedInstantValid(Some(startDate), zone, refYear);
    ParsedInstantValid(Some(endDate), zone, refYear);
  }

  /** A text given as both ends is a range of no length: "0 days". */
  lemma {:induction false} SameDateRange(text: string, zone: Zone, refYear: int)
    requires 50 <= refYear <= 9950
    requires text != [] && ParseDate(Some(text), zone, refYear).success
    ensures var r := ValidateRange(Some(text), Some(text), zone, refYear);
      r.RangeOk? && r.duration == Duration(0, 0, "0 days")
  {
    ParsedInstantValid(Some(text), zone, refYear);
    var p := ParseDate(Some(text), zone, refYear);
    var r := Judge(text, text, p, p, zone);
    assert r.RangeOk?;
    assert r.duration == DurationOf(0);
    assert HumanReadable(0) == "0 days" by {
      assert NatToDecimal(0) == "0";
    }
  }

  /** Between midnights of two calendar dates in one zone lie exactly as many whole days as
      the dates are apart, each of 24 hours. */
  lemma {:induction false} MidnightsApart(a: Date, b: Date, zone: Zone)
    requires Valid(StartOfDay(a)) && Valid(StartOfDay(b))
    requires DaysFromCivil(a) <= DaysFromCivil(b)
    ensures ToUtc(StartOfDay(a), zone) <= ToUtc(StartOfDay(b), zone)
    ensures var d := DurationOf(ToUtc(StartOfDay(b), zone) - ToUtc(StartOfDay(a), zone));
      d.totalDays == DaysFromCivil(b) - DaysFromCivil(a) && d.totalHours == 24 * d.totalDays
  {
    var n := DaysFromCivil(b) - DaysFromCivil(a);
    assert DateOf(StartOfDay(a)) == a && DateOf(StartOfDay(b)) == b;
    var diff := ToUtc(StartOfDay(b), zone) - ToUtc(StartOfDay(a), zone);
    assert diff == n * MsPerDay;
    var d := DurationOf(diff);
    assert d.totalDays * MsPerDay <= n * MsPerDay < (d.totalDays + 1) * MsPerDay;
    assert d.totalHours * MsPerHour <= n * 24 * MsPerHour < (d.totalHours + 1) * MsPerHour;
  }

  /** Midnights of two dates in one zone are in the order of the dates. */
  lemma {:induction false} MidnightsInOrder(a: Date, b: Date, zone: Zone)
    requires Valid(StartOfDay(a)) && Valid(StartOfDay(b))
    requires ToUtc(StartOfDay(a), zone) <= ToUtc(StartOfDay(b), zone)
    ensures DaysFromCivil(a) <= DaysFromCivil(b)
  {
    assert DateOf(StartOfDay(a)) == a && DateOf(StartOfDay(b)) == b;
    assert (DaysFromCivil(b) - DaysFromCivil(a)) * MsPerDay >= 0;
  }

  /** Two midnights, as wall clocks of one zone, in order. */
  lemma {:induction false} DaysBetweenMidnights(a: DateTime, b: DateTime, zone: Zone)
    requires Valid(a) && Valid(b) && a == StartOfDay(DateOf(a)) && b == StartOfDay(DateOf(b))
    requires ToUtc(a, zone) <= ToUtc(b, zone)
    ensures var d := DurationOf(ToUtc(b, zone) - ToUtc(a, zone));
      d.totalDays == DaysFromCivil(DateOf(b)) - DaysFromCivil(DateOf(a))
      && d.totalHours == 24 * d.totalDays
  {
    MidnightsInOrder(DateOf(a), DateOf(b), zone);
    MidnightsApart(DateOf(a), DateOf(b), zone);
  }

  /** A text parsed without a time of day is midnight of the date read, in the zone. */
  lemma ParsedMidnight(raw: string, zone: Zone, refYear: int) returns (w: DateTime)
    requires ParseDate(Some(raw), zone, refYear).success
    requires ParseDate(Some(raw), zone, refYear).format != Some(Keyed(ISO_DATETIME))
    ensures var p := ParseDate(Some(raw), zone, refYear);
      Read(p.format.value.key, Trim(raw), refYear) == Some(w)
      && Valid(w) && w == StartOfDay(DateOf(w)) && p.date == Some(ToUtc(w, zone))
  {
    var p := ParseDate(Some(raw), zone, refYear);
    w := Read(p.format.value.key, Trim(raw), refYear).value;
    ReadBounds(p.format.value.key, Trim(raw), refYear);
  }

  /** For two texts without a time of day, the duration is the number of calendar days
      from the start date to the end date, whatever the zone. */
  lemma {:induction false} DateOnlyRangeDays(startDate: string, endDate: string, zone: Zone,
                                             refYear: int)
    requires var r := ValidateRange(Some(startDate), Some(endDate), zone, refYear);
      r.RangeOk? && r.start.format != Keyed(ISO_DATETIME) && r.end.format != Keyed(ISO_DATETIME)
    ensures var r := ValidateRange(Some(startDate), Some(endDate), zone, refYear);
      var a := Read(r.start.format.key, Trim(startDate), refYear).value;
      var b := Read(r.end.format.key, Trim(endDate), refYear).value;
      r.duration.totalDays == DaysFromCivil(DateOf(b)) - DaysFromCivil(DateOf(a))
      && r.duration.totalHours == 24 * r.duration.totalDays
  {
    var r := ValidateRange(Some(startDate), Some(endDate), zone, refYear);
    var s := ParseDate(Some(startDate), zone, refYear);
    var e := ParseDate(Some(endDate), zone, refYear);
    assert r == Judge(startDate, endDate, s, e, zone);
    assert s.success && e.success && s.format == Some(r.start.format) && e.format == Some(r.end.format);
    var a := ParsedMidnight(startDate, zone, refYear);
    var b := ParsedMidnight(endDate, zone, refYear);
    JudgedMidnights(startDate, endDate, s, e, a, b, zone);
  }

  /** A range the handler accepts between two midnights lasts as many days as the dates
      are apart. */
  lemma {:induction false} JudgedMidnights(startText: string, endText: string, s: ParseResult,
                                           e: ParseResult, a: DateTime, b: DateTime, zone: Zone)
    requires WellShaped(s) && WellShaped(e) && Judge(startText, endText, s, e, zone).RangeOk?
    requires Valid(a) && Valid(b) && a == StartOfDay(DateOf(a)) && b == StartOfDay(DateOf(b))
    requires s.date == Some(ToUtc(a, zone)) && e.date == Some(ToUtc(b, zone))
    ensures var d := Judge(startText, endText, s, e, zone).duration;
      d.totalDays == DaysFromCivil(DateOf(b)) - DaysFromCivil(DateOf(a))
      && d.totalHours == 24 * d.totalDays
  {
    DaysBetweenMidnights(a, b, zone);
  }

  // ---------------------------------------------------------------------------------------
  // Examples

  lemma ReadIsoNewYear()
    ensures ReadIso("2025-01-01") == Some(DateTime(2025, 1, 1, 0, 0, 0))
    ensures ReadIso("2025-01-02") == Some(DateTime(2025, 1, 2, 0, 0, 0))
    ensures ReadIso("2025-02-01") == Some(DateTime(2025, 2, 1, 0, 0, 0))
  {
    var a, b, c := "2025-01-01", "2025-01-02", "2025-02-01";
    assert a[0..4] == "2025" && a[5..7] == "01" && a[8..10] == "01";
    assert b[0..4] == "2025" && b[5..7] == "01" && b[8..10] == "02";
    assert c[0..4] == "2025" && c[5..7] == "02" && c[8..10] == "01";
    DigitsValue4("2025"); DigitsValue2("01"); DigitsValue2("02");
  }

  /** The texts above have nothing to trim and read as midnights. */
  lemma NewYearTexts()
    ensures Trim("2025-01-01") == "2025-01-01" && ReadIso("2025-01-01") == Some(StartOfDay(Date(2025, 1, 1)))
    ensures Trim("2025-01-02") == "2025-01-02" && ReadIso("2025-01-02") == Some(StartOfDay(Date(2025, 1, 2)))
    ensures Trim("2025-02-01") == "2025-02-01" && ReadIso("2025-02-01") == Some(StartOfDay(Date(2025, 2, 1)))
  {
    ReadIsoNewYear();
    DigitsAtEnds("2025-01-01");
    DigitsAtEnds("2025-01-02");
    DigitsAtEnds("2025-02-01");
  }

  /** Day numbers of the dates above: 2024 is year 24 of the sixth 400-year era. */
  lemma NewYearDayNumbers()
    ensures DaysFromCivil(Date(2025, 1, 1)) == 20089
    ensures DaysFromCivil(Date(2025, 1, 2)) == 20090
    ensures DaysFromCivil(Date(2025, 2, 1)) == 20120
  {
    assert 2024 / 400 == 5 && 2024 % 400 == 24;
    assert YearStartInEra(24) == 8766;
    assert MarchIndex(1) == 10 && MarchIndex(2) == 11;
  }

  /** A `yyyy-MM-dd` text with nothing to trim parses to midnight of its date in the zone. */
  lemma ParsedIsoDate(text: string, w: DateTime, zone: Zone)
    requires text != [] && Trim(text) == text && ReadIso(text) == Some(w)
    ensures ParseDate(Some(text), zone, 2025).success
    ensures ParseDate(Some(text), zone, 2025).date == Some(ToUtc(w, zone))
  {
    IsoFirst(text, zone, 2025);
  }

  /** Two `yyyy-MM-dd` texts with nothing to trim: a range of as many days as their dates
      are apart when the start date is not after the end date, and refused as running
      backwards otherwise. */
  lemma {:induction false} IsoRange(a: string, b: string, da: Date, db: Date, zone: Zone)
    requires a != [] && Trim(a) == a && ReadIso(a) == Some(StartOfDay(da))
    requires b != [] && Trim(b) == b && ReadIso(b) == Some(StartOfDay(db))
    ensures var r := ValidateRange(Some(a), Some(b), zone, 2025);
      DaysFromCivil(da) <= DaysFromCivil(db) ==>
        r.RangeOk? && r.duration.totalDays == DaysFromCivil(db) - DaysFromCivil(da)
        && r.duration.totalHours == 24 * r.duration.totalDays
    ensures var r := ValidateRange(Some(a), Some(b), zone, 2025);
      DaysFromCivil(da) > DaysFromCivil(db) ==> r.BadRange? && r.error == StartAfterEnd
  {
    ParsedIsoDate(a, StartOfDay(da), zone);
    ParsedIsoDate(b, StartOfDay(db), zone);
    RangeOnlyRefusedBackwards(a, b, zone, 2025);
    if DaysFromCivil(da) <= DaysFromCivil(db) {
      MidnightsApart(da, db, zone);
    } else if ToUtc(StartOfDay(da), zone) <= ToUtc(StartOfDay(db), zone) {
      MidnightsInOrder(da, db, zone);
    }
  }

  /** From 1 to 2 January 2025 is "1 day", 24 hours, in any zone. */
  lemma OneDayRange(zone: Zone)
    ensures var r := ValidateRange(Some("2025-01-01"), Some("2025-01-02"), zone, 2025);
      r.RangeOk? && r.duration == Duration(1, 24, "1 day")
  {
    NewYearTexts();
    NewYearDayNumbers();
    IsoRange("2025-01-01", "2025-01-02", Date(2025, 1, 1), Date(2025, 1, 2), zone);
  }

  /** The same date at both ends is "0 days". */
  lemma NewYearToItself(zone: Zone)
    ensures var r := ValidateRange(Some("2025-01-01"), Some("2025-01-01"), zone, 2025);
      r.RangeOk? && r.duration == Duration(0, 0, "0 days")
  {
    NewYearTexts();
    ParsedIsoDate("2025-01-01", StartOfDay(Date(2025, 1, 1)), zone);
    SameDateRange("2025-01-01", zone, 2025);
  }

  /** From 1 February back to 1 January 2025 is refused as running backwards. */
  lemma BackwardsRange(zone: Zone)
    ensures var r := ValidateRange(Some("2025-02-01"), Some("2025-01-01"), zone, 2025);
      r.BadRange? && r.error == StartAfterEnd
  {
    NewYearTexts();
    NewYearDayNumbers();
    IsoRange("2025-02-01", "2025-01-01", Date(2025, 2, 1), Date(2025, 1, 1), zone);
  }

  // ---------------------------------------------------------------------------------------
  // The page routes' date and month texts

  /** `${year}-${month.padStart(2, '0')}-${day.padStart(2, '0')}` from the segments of
      `/api/pages/:year/:month/:day`. */
  function DailyPageDate(year: string, month: string, day: string): string {
    year + "-" + PadStart(month, 2, '0') + "-" + PadStart(day, 2, '0')
  }

  /** `${year}-${month.padStart(2, '0')}` from the segments of `/api/pages/:year/:month`. */
  function MonthlyPageKey(year: string, month: string): string {
    year + "-" + PadStart(month, 2, '0')
  }

  /** A ten-character text that starts with digits and is no `yyyy-MM-dd` date is no date
      at all. */
  lemma IsoShapeOnly(s: string, refYear: int)
    requires |s| == 10 && IsDigit(s[0]) && s[2] != '/' && ReadIso(s).None?
    ensures forall k: FormatKey :: Read(k, s, refYear).None?
  {
    forall k: FormatKey ensures Read(k, s, refYear).None? {
      if k != ISO {
        OnlyIsoShape(s, refYear, k);
      }
    }
  }

  /** The daily page date is a `yyyy-MM-dd` text of the segments' numbers. */
  lemma {:induction false} DailyPageDateShape(year: string, month: string, day: string)
    requires |year| == 4 && AllDigits(year)
    requires 1 <= |month| <= 2 && AllDigits(month) && 1 <= |day| <= 2 && AllDigits(day)
    ensures var s := DailyPageDate(year, month, day);
      |s| == 10 && IsDigit(s[0]) && s[2] != '/' && Trim(s) == s
      && ReadIso(s) == Checked(DateTime(DigitsValue(year), DigitsValue(month), DigitsValue(day), 0, 0, 0))
  {
    var mm, dd := PadStart(month, 2, '0'), PadStart(day, 2, '0');
    PaddedDigits(month, 2);
    PaddedDigits(day, 2);
    var s := DailyPageDate(year, month, day);
    DashParts(year, mm, dd);
    assert DigitsAt(s, 0, 4) && DigitsAt(s, 5, 2) && DigitsAt(s, 8, 2);
    assert IsDigit(s[0]) && IsDigit(s[2]) && IsDigit(s[9]) by {
      assert s[0] == s[0..4][0] && s[2] == s[0..4][2] && s[9] == s[8..10][1];
    }
    DigitsAtEnds(s);
  }

  /** The date the daily page route builds from a four-digit year and a month and day of one
      or two digits parses, in UTC, exactly when those numbers name a calendar date, and
      then as a `yyyy-MM-dd` text at midnight UTC of that date. */
  lemma {:induction false} DailyPageDateParses(year: string, month: string, day: string,
                                               refYear: int)
    requires |year| == 4 && AllDigits(year)
    requires 1 <= |month| <= 2 && AllDigits(month) && 1 <= |day| <= 2 && AllDigits(day)
    ensures var w := DateTime(DigitsValue(year), DigitsValue(month), DigitsValue(day), 0, 0, 0);
      var r := ParseDate(Some(DailyPageDate(year, month, day)), UTC, refYear);
      (r.success <==> Valid(w)) && (r.success ==> r == Success(ToUtc(w, UTC), Keyed(ISO)))
  {
    var w := DateTime(DigitsValue(year), DigitsValue(month), DigitsValue(day), 0, 0, 0);
    var s := DailyPageDate(year, month, day);
    DailyPageDateShape(year, month, day);
    var r := ParseDate(Some(s), UTC, refYear);
    if Valid(w) {
      IsoFirst(s, UTC, refYear);
      assert r.success && r == Success(ToUtc(w, UTC), Keyed(ISO));
    } else {
      IsoShapeOnly(s, refYear);
    }
  }

  lemma YearMonthParts(y: string, m: string)
    requires |y| == 4 && |m| == 2
    ensures var s := y + "-" + m; |s| == 7 && s[0..4] == y && s[4] == '-' && s[5..7] == m
  {
    var s := y + "-" + m;
    assert s[0..4] == y && s[5..7] == m;
  }

  /** The month the monthly page route builds from a four-digit year and a month of one or
      two digits from 1 to 12 is the first of that month, at midnight UTC, on any host: the
      route's `parseMonth` reads years 0000 to 0099 as 1900 to 1999, where the intended
      parser keeps the year as written. */
  lemma {:induction false} MonthlyPageKeyParses(year: string, month: string, host: Zone, refYear: int)
    requires |year| == 4 && AllDigits(year) && 1 <= |month| <= 2 && AllDigits(month)
    requires 1 <= DigitsValue(month) <= 12
    ensures ParseMonthAsWritten(Some(MonthlyPageKey(year, month)), UTC, host, refYear)
      == Success(ToUtc(MonthStart(LegacyYear(DigitsValue(year)), DigitsValue(month)), UTC), YearMonth)
    ensures ParseMonth(Some(MonthlyPageKey(year, month)), UTC, refYear)
      == Success(ToUtc(MonthStart(DigitsValue(year), DigitsValue(month)), UTC), YearMonth)
  {
    var mm := PadStart(month, 2, '0');
    PaddedDigits(month, 2);
    var s := MonthlyPageKey(year, month);
    YearMonthParts(year, mm);
    assert DigitsAt(s, 0, 4) && DigitsAt(s, 5, 2);
    assert YearMonthMatch(s) == Some((DigitsValue(year), DigitsValue(month)));
    assert IsDigit(s[0]) && IsDigit(s[6]) by {
      assert s[0] == s[0..4][0] && s[6] == s[5..7][1];
    }
    DigitsAtEnds(s);
    MonthFromYearMonth(s, UTC, refYear);
  }
}
