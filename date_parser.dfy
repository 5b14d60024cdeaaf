/** The shared date engine: `parseDate`, `parseMonth`, `formatDate` and `validateDateRange`.

    Instants are milliseconds since the epoch. A timezone is a fixed offset (`Zone`); the
    host's own local timezone, which `new Date(y, m, d)` and `getFullYear`/`getMonth` use,
    is an explicit `host` zone. `refYear` is the year of `new Date()`, the reference date
    date-fns uses to complete a two-digit year. */
module DateParser {
  import opened Wrappers
  import opened Text
  import opened Civil
  import opened Catalogue

  // ---------------------------------------------------------------------------------------
  // Results

  /** The `format` a successful parse reports: a `DATE_FORMATS` key, or `YYYY-MM`. */
  datatype Detected = Keyed(key: FormatKey) | YearMonth

  /** `{ success, date, error, format }` as the parsers return it; `None` is `null`. */
  datatype ParseResult = ParseResult(success: bool, date: Option<int>, error: Option<string>,
                                     format: Option<Detected>)

  /** Success carries a date and a format and no error; failure carries an error only. */
  predicate WellShaped(r: ParseResult) {
    if r.success then r.date.Some? && r.error.None? && r.format.Some?
    else r.date.None? && r.error.Some? && r.format.None?
  }

  function Success(t: int, f: Detected): (r: ParseResult)
    ensures WellShaped(r) && r.success && r.date == Some(t) && r.format == Some(f)
  {
    ParseResult(true, Some(t), None, Some(f))
  }

  function Failure(e: string): (r: ParseResult)
    ensures WellShaped(r) && !r.success && r.error == Some(e)
  {
    ParseResult(false, None, Some(e), None)
  }

  const DateRequired := "Date string is required"
  const MonthRequired := "Month string is required"
  const InvalidMonthFormat := "Invalid month format. Use YYYY-MM (e.g., 2025-09) or any valid date format"
  const InvalidDateProvided := "Invalid date provided"

  /** The failure message naming every accepted pattern, in catalogue order. */
  function InvalidDateFormat(): string {
    "Invalid date format. Accepted formats: " + Join(Patterns(), ", ")
  }

  /** The format error lists the six patterns in catalogue order, joined by ", ". */
  lemma FormatErrorText()
    ensures InvalidDateFormat() == "Invalid date format. Accepted formats: "
      + ("yyyy-MM-dd" + ", " + "yyyy-MM-dd HH:mm:ss" + ", " + "MM/dd/yyyy" + ", "
         + "dd/MM/yyyy" + ", " + "MM/dd/yy" + ", " + "MMMM d, yyyy")
  {
    var iso := ["yyyy-MM-dd"];
    var dateTime := iso + ["yyyy-MM-dd HH:mm:ss"];
    JoinSnoc(iso, "yyyy-MM-dd HH:mm:ss", ", ");
    var us := dateTime + ["MM/dd/yyyy"];
    JoinSnoc(dateTime, "MM/dd/yyyy", ", ");
    var eu := us + ["dd/MM/yyyy"];
    JoinSnoc(us, "dd/MM/yyyy", ", ");
    var short := eu + ["MM/dd/yy"];
    JoinSnoc(eu, "MM/dd/yy", ", ");
    JoinSnoc(short, "MMMM d, yyyy", ", ");
    PatternsListed();
    assert Patterns() == short + ["MMMM d, yyyy"];
  }



  // ---------------------------------------------------------------------------------------
  // parseDate

  /** The position of a key in `DATE_FORMATS`, which is also the order the parser tries it. */
  function IndexOf(k: FormatKey): (i: nat)
    ensures i < |Keys| && Keys[i] == k
  {
    match k
    case ISO => 0
    case ISO_DATETIME => 1
    case US => 2
    case EU => 3
    case SHORT => 4
    case NATURAL => 5
  }

  /** The attempts made after the ISO reading, in order. */
  const AttemptOrder: seq<FormatKey> := [ISO_DATETIME, US, EU, SHORT, NATURAL]

  /** The index of the first attempt that reads `s`: the loop with early return. */
  function FirstMatch(attempts: seq<FormatKey>, s: string, refYear: int): (r: Option<nat>)
    ensures r.Some? ==> r.value < |attempts| && Read(attempts[r.value], s, refYear).Some?
    ensures r.Some? ==> forall j :: 0 <= j < r.value ==> Read(attempts[j], s, refYear).None?
    ensures r.None? ==> forall j :: 0 <= j < |attempts| ==> Read(attempts[j], s, refYear).None?
  {
    if attempts == [] then None
    else if Read(attempts[0], s, refYear).Some? then Some(0)
    else match FirstMatch(attempts[1..], s, refYear)
      case None => None
      case Some(i) => Some(i + 1)
  }

  /** The key that reads `s`: ISO first, then the attempt list. Every key before it in
      catalogue order fails. */
  function Detect(s: string, refYear: int): (r: Option<FormatKey>)
    ensures r.Some? ==> Read(r.value, s, refYear).Some?
    ensures r.Some? ==> forall j :: 0 <= j < IndexOf(r.value) ==> Read(Keys[j], s, refYear).None?
    ensures r.None? ==> forall j :: 0 <= j < |Keys| ==> Read(Keys[j], s, refYear).None?
  {
    assert forall j :: 1 <= j < |Keys| ==> Keys[j] == AttemptOrder[j - 1];
    if ReadIso(s).Some? then Some(ISO)
    else match FirstMatch(AttemptOrder, s, refYear)
      case None => None
      case Some(i) =>
        assert IndexOf(AttemptOrder[i]) == i + 1;
        Some(AttemptOrder[i])
  }

  /** Some key reads `s` exactly when one of `Keys` does. */
  lemma AnyKey(s: string, refYear: int)
    ensures (exists k: FormatKey :: Read(k, s, refYear).Some?) <==>
      exists j :: 0 <= j < |Keys| && Read(Keys[j], s, refYear).Some?
  {
    if k: FormatKey :| Read(k, s, refYear).Some? {
      assert Keys[IndexOf(k)] == k;
    }
  }

  /** `parseDate(dateString, timezone)`. `None` stands for `null`, `undefined` or a value
      that is not a string. */
  function ParseDate(raw: Option<string>, zone: Zone, refYear: int): (r: ParseResult)
    ensures WellShaped(r)
    ensures raw.None? || raw.value == [] ==> r == Failure(DateRequired)
    ensures r.success <==>
      raw.Some? && raw.value != [] && exists k: FormatKey :: Read(k, Trim(raw.value), refYear).Some?
    ensures r.success ==>
      var d := Detect(Trim(raw.value), refYear); d.Some? && r.format == Some(Keyed(d.value))
    ensures r.success ==>
      var w := Read(r.format.value.key, Trim(raw.value), refYear);
      w.Some? && r.date == Some(ToUtc(w.value, zone))
    ensures raw.Some? && raw.value != [] && !r.success ==> r == Failure(InvalidDateFormat())
  {
    if raw.None? || raw.value == [] then Failure(DateRequired)
    else
      var s := Trim(raw.value);
      AnyKey(s, refYear);
      match Detect(s, refYear)
      case Some(k) => Success(ToUtc(Read(k, s, refYear).value, zone), Keyed(k))
      case None => Failure(InvalidDateFormat())
  }

  /** First match wins: every key tried before the reported one fails on the trimmed text. */
  lemma ParseDateFirstKey(raw: string, zone: Zone, refYear: int)
    requires ParseDate(Some(raw), zone, refYear).success
    ensures var k := ParseDate(Some(raw), zone, refYear).format.value.key;
      forall j :: 0 <= j < IndexOf(k) ==> Read(Keys[j], Trim(raw), refYear).None?
  {
  }

  /** The detected key is the only one that reads the text, except that a text both
      `MM/dd/yyyy` and `dd/MM/yyyy` read is detected as US. */
  lemma {:induction false} DetectUnique(s: string, refYear: int, k: FormatKey)
    requires Detect(s, refYear).Some? && Read(k, s, refYear).Some?
    ensures var d := Detect(s, refYear).value; d == k || (d == US && k == EU)
  {
    var d := Detect(s, refYear).value;
    if d != k {
      OnlyUsAndEuOverlap(d, k, s, refYear);
      assert IndexOf(d) <= IndexOf(k);
    }
  }

  /** The reported key is the only one that reads the trimmed text, except that a text both
      `MM/dd/yyyy` and `dd/MM/yyyy` read is reported as US. */
  lemma ParseDateUnique(raw: string, zone: Zone, refYear: int, k: FormatKey)
    requires ParseDate(Some(raw), zone, refYear).success && Read(k, Trim(raw), refYear).Some?
    ensures var d := ParseDate(Some(raw), zone, refYear).format.value.key;
      d == k || (d == US && k == EU)
  {
    DetectUnique(Trim(raw), refYear, k);
  }

  /** Whenever `MM/dd/yyyy` reads the text, it is reported as US. */
  lemma UsWins(raw: string, zone: Zone, refYear: int)
    requires raw != [] && ReadUs(Trim(raw)).Some?
    ensures ParseDate(Some(raw), zone, refYear).format == Some(Keyed(US))
    ensures ParseDate(Some(raw), zone, refYear).date == Some(ToUtc(ReadUs(Trim(raw)).value, zone))
  {
    assert Read(US, Trim(raw), refYear).Some?;
    ParseDateUnique(raw, zone, refYear, US);
  }

  /** EU is reported only for a text `MM/dd/yyyy` does not read. */
  lemma EuOnlyWhenUsFails(raw: string, zone: Zone, refYear: int)
    requires ParseDate(Some(raw), zone, refYear).format == Some(Keyed(EU))
    ensures ReadEu(Trim(raw)).Some? && ReadUs(Trim(raw)).None?
  {
    ParseDateFirstKey(raw, zone, refYear);
    assert Keys[2] == US;
  }

  /** A text `yyyy-MM-dd` reads is reported as ISO, whatever the later patterns say. */
  lemma IsoFirst(raw: string, zone: Zone, refYear: int)
    requires raw != [] && ReadIso(Trim(raw)).Some?
    ensures ParseDate(Some(raw), zone, refYear).format == Some(Keyed(ISO))
    ensures ParseDate(Some(raw), zone, refYear).date == Some(ToUtc(ReadIso(Trim(raw)).value, zone))
  {
    assert Read(ISO, Trim(raw), refYear).Some?;
    DetectUnique(Trim(raw), refYear, ISO);
  }

  /** A text `dd/MM/yyyy` reads but `MM/dd/yyyy` does not is reported as EU. */
  lemma EuWhenUsFails(raw: string, zone: Zone, refYear: int)
    requires raw != [] && ReadUs(Trim(raw)).None? && ReadEu(Trim(raw)).Some?
    ensures ParseDate(Some(raw), zone, refYear).format == Some(Keyed(EU))
    ensures ParseDate(Some(raw), zone, refYear).date == Some(ToUtc(ReadEu(Trim(raw)).value, zone))
  {
    DetectEu(Trim(raw), refYear);
  }

  /** A text `dd/MM/yyyy` reads but `MM/dd/yyyy` does not is detected as EU. */
  lemma {:induction false} DetectEu(s: string, refYear: int)
    requires ReadUs(s).None? && ReadEu(s).Some?
    ensures Detect(s, refYear) == Some(EU)
  {
    assert Read(Keys[3], s, refYear).Some?;
    DetectUnique(s, refYear, EU);
    assert Read(US, s, refYear).None?;
  }

  /** Whitespace alone is not "required": the emptiness test comes before the trim, so it
      fails as an unrecognised format. */
  lemma WhitespaceOnly(raw: string, zone: Zone, refYear: int)
    requires raw != [] && AllWhitespace(raw)
    ensures ParseDate(Some(raw), zone, refYear) == Failure(InvalidDateFormat())
  {
    TrimEmpty(raw);
    forall k: FormatKey ensures Read(k, Trim(raw), refYear).None? {
      NoPatternReads(Trim(raw), refYear, k);
    }
  }

  // ---------------------------------------------------------------------------------------
  // Examples

  lemma ReadUsExample()
    ensures ReadUs("01/02/2025") == Some(DateTime(2025, 1, 2, 0, 0, 0))
  {
    SlashDigits("01/02/2025");
  }

  /** A text both day-first and month-first read is taken month first. */
  lemma AmbiguousIsUs(zone: Zone)
    ensures ParseDate(Some("01/02/2025"), zone, 2025).format == Some(Keyed(US))
    ensures ParseDate(Some("01/02/2025"), zone, 2025).date == Some(ToUtc(DateTime(2025, 1, 2, 0, 0, 0), zone))
  {
    DigitsAtEnds("01/02/2025");
    ReadUsExample();
    UsWins("01/02/2025", zone, 2025);
  }

  lemma ReadEuExample()
    ensures ReadUs("14/09/2025").None?
    ensures ReadEu("14/09/2025") == Some(DateTime(2025, 9, 14, 0, 0, 0))
  {
    SlashDigits("14/09/2025");
  }

  /** Fourteen is no month, so the day-first reading is the one taken. */
  lemma DayFirstIsEu(zone: Zone)
    ensures ParseDate(Some("14/09/2025"), zone, 2025).format == Some(Keyed(EU))
    ensures ParseDate(Some("14/09/2025"), zone, 2025).date == Some(ToUtc(DateTime(2025, 9, 14, 0, 0, 0), zone))
  {
    DigitsAtEnds("14/09/2025");
    ReadEuExample();
    EuWhenUsFails("14/09/2025", zone, 2025);
  }

  lemma ReadIsoExample()
    ensures ReadIso("2025-09-14") == Some(DateTime(2025, 9, 14, 0, 0, 0))
    ensures ReadIso("2025-02-30").None?
  {
    var s, t := "2025-09-14", "2025-02-30";
    assert s[0..4] == "2025" && s[5..7] == "09" && s[8..10] == "14";
    assert t[0..4] == "2025" && t[5..7] == "02" && t[8..10] == "30";
    DigitsValue4("2025"); DigitsValue2("09"); DigitsValue2("14"); DigitsValue2("02");
    DigitsValue2("30");
  }

  lemma IsoExample(zone: Zone)
    ensures ParseDate(Some("2025-09-14"), zone, 2025).format == Some(Keyed(ISO))
    ensures ParseDate(Some("2025-09-14"), zone, 2025).date == Some(ToUtc(DateTime(2025, 9, 14, 0, 0, 0), zone))
  {
    DigitsAtEnds("2025-09-14");
    ReadIsoExample();
    IsoFirst("2025-09-14", zone, 2025);
  }

  /** A non-empty text no pattern reads after trimming is rejected with the list of
      accepted patterns. */
  lemma Unrecognised(raw: string, zone: Zone, refYear: int)
    requires raw != [] && forall k: FormatKey :: Read(k, Trim(raw), refYear).None?
    ensures ParseDate(Some(raw), zone, refYear) == Failure(InvalidDateFormat())
  {
  }

  lemma NoReadingOfFebruary30(refYear: int, k: FormatKey)
    ensures Read(k, "2025-02-30", refYear).None?
  {
    if k == ISO { ReadIsoExample(); } else { OnlyIsoShape("2025-02-30", refYear, k); }
  }

  /** February 30 matches the ISO layout but is no calendar date: it is rejected, not rolled
      over into March. */
  lemma CalendarInvalidRejected(zone: Zone, refYear: int)
    ensures ParseDate(Some("2025-02-30"), zone, refYear) == Failure(InvalidDateFormat())
  {
    DigitsAtEnds("2025-02-30");
    forall k: FormatKey ensures Read(k, "2025-02-30", refYear).None? {
      NoReadingOfFebruary30(refYear, k);
    }
    Unrecognised("2025-02-30", zone, refYear);
  }

  lemma NotADate(zone: Zone, refYear: int)
    ensures ParseDate(Some("not-a-date"), zone, refYear) == Failure(InvalidDateFormat())
  {
    NotWhitespace('n');
    NotWhitespace('e');
    TrimmedAlready("not-a-date");
    forall k: FormatKey ensures Read(k, "not-a-date", refYear).None? {
      NoPatternReads("not-a-date", refYear, k);
    }
    Unrecognised("not-a-date", zone, refYear);
  }

  /** An empty input is told apart from blank and unrecognised ones, which share the format
      error. */
  lemma DistinctRejections(zone: Zone, refYear: int)
    ensures ParseDate(Some(""), zone, refYear).error == Some(DateRequired)
    ensures ParseDate(Some("   "), zone, refYear).error == Some(InvalidDateFormat())
    ensures ParseDate(Some("not-a-date"), zone, refYear).error == Some(InvalidDateFormat())
    ensures DateRequired != InvalidDateFormat()
  {
    WhitespaceOnly("   ", zone, refYear);
    NotADate(zone, refYear);
    assert InvalidDateFormat()[0] == 'I';
  }

  // ---------------------------------------------------------------------------------------
  // formatDate

  /** The names `DATE_FORMATS[name]` finds on `Object.prototype`, which every object
      inherits: for them the lookup is a function or an object, never `undefined`. */
  predicate InheritedName(name: string) {
    name in {"constructor", "hasOwnProperty", "isPrototypeOf", "propertyIsEnumerable",
             "toLocaleString", "toString", "valueOf", "__proto__", "__defineGetter__",
             "__defineSetter__", "__lookupGetter__", "__lookupSetter__"}
  }

  /** `DATE_FORMATS[formatKey] || DATE_FORMATS.ISO`: an unknown key means ISO. */
  function KeyOrIso(key: string): (k: FormatKey)
    ensures Lookup(key).Some? ==> k == Lookup(key).value
    ensures Lookup(key).None? ==> k == ISO
  {
    match Lookup(key)
    case Some(k) => k
    case None => ISO
  }

  /** `formatDate(date, formatKey, timezone)`: the clocks of `zone` at the instant, written
      in the pattern; an invalid date is refused with "Invalid date provided". */
  function FormatDate(d: JsDate, key: string, zone: Zone): (r: Result<string>)
    ensures r.Err? <==> !IsValidDate(d)
    ensures r.Err? ==> r.error == InvalidDateProvided
    ensures r.Ok? ==> Valid(InZone(d.ms, zone)) && r.value == Render(KeyOrIso(key), InZone(d.ms, zone))
  {
    if !IsValidDate(d) then Err(InvalidDateProvided)
    else
      InZoneInverse(d.ms, zone);
      Ok(Render(KeyOrIso(key), InZone(d.ms, zone)))
  }

  /** A key `DATE_FORMATS` neither has nor inherits formats exactly as ISO does. */
  lemma UnknownKeyIsIso(d: JsDate, key: string, zone: Zone)
    requires forall k: FormatKey :: KeyName(k) != key
    requires !InheritedName(key)
    ensures FormatDate(d, key, zone) == FormatDate(d, "ISO", zone)
  {
  }

  /** A text with nothing to trim that pattern `k` reads is reported as `k`, unless it is a
      day-first text the month-first pattern reads too. */
  lemma {:induction false} ParseSoleReading(s: string, k: FormatKey, zone: Zone, refYear: int)
    requires s != [] && Trim(s) == s && Read(k, s, refYear).Some?
    requires k == EU ==> ReadUs(s).None?
    ensures var r := ParseDate(Some(s), zone, refYear);
      r.format == Some(Keyed(k)) && r.date == Some(ToUtc(Read(k, s, refYear).value, zone))
  {
    assert Read(Keys[IndexOf(k)], s, refYear).Some?;
    DetectUnique(s, refYear, k);
  }

  /** Parsing a rendered wall clock finds the pattern again and what the pattern keeps of
      the clock, except for a day-first text whose day could be a month. */
  lemma {:induction false} ParseRendered(w: DateTime, k: FormatKey, zone: Zone, refYear: int)
    requires Renderable(k, w, refYear) && (k == EU ==> w.day > 12)
    ensures var r := ParseDate(Some(Render(k, w)), zone, refYear);
      r.format == Some(Keyed(k)) && r.date == Some(ToUtc(Kept(k, w), zone))
  {
    var s := Render(k, w);
    ReadRender(k, w, refYear);
    ReadTrimmed(k, s, refYear);
    assert k == EU ==> ReadUs(s).None? by {
      if k == EU { EuAsUs(w); }
    }
    ParseSoleReading(s, k, zone, refYear);
  }

  /** `formatDate` in a known pattern renders the zone's wall clock in it. */
  lemma FormatKnownKey(t: int, k: FormatKey, zone: Zone)
    requires IsValidDate(At(t))
    ensures Valid(InZone(t, zone))
    ensures FormatDate(At(t), KeyName(k), zone) == Ok(Render(k, InZone(t, zone)))
  {
    InZoneInverse(t, zone);
    LookupKeyName(k);
    var r := FormatDate(At(t), KeyName(k), zone);
    assert KeyOrIso(KeyName(k)) == k;
    assert r.Ok? && r.value == Render(k, InZone(t, zone));
  }

  /** Formatting in a pattern and parsing the text back, in the same zone, finds the pattern
      again and the instant the pattern keeps: to the second for `yyyy-MM-dd HH:mm:ss`,
      midnight of the zone's date for the date-only patterns. A day-first text whose day is
      12 or less is the exception, since the month-first reading is tried before it. */
  lemma {:induction false} FormatThenParse(t: int, k: FormatKey, zone: Zone, refYear: int)
    requires IsValidDate(At(t))
    requires Renderable(k, InZone(t, zone), refYear)
    requires k == EU ==> InZone(t, zone).day > 12
    ensures FormatDate(At(t), KeyName(k), zone).Ok?
    ensures var r := ParseDate(Some(FormatDate(At(t), KeyName(k), zone).value), zone, refYear);
      r.format == Some(Keyed(k)) && r.date == Some(ToUtc(Kept(k, InZone(t, zone)), zone))
  {
    var w := InZone(t, zone);
    FormatKnownKey(t, k, zone);
    var text := FormatDate(At(t), KeyName(k), zone).value;
    assert text == Render(k, w);
    ParseRendered(w, k, zone, refYear);
  }

  /** With `yyyy-MM-dd HH:mm:ss` the round trip gives the instant back to the second. */
  lemma {:induction false} FormatThenParseToSecond(t: int, zone: Zone, refYear: int)
    requires IsValidDate(At(t))
    requires Renderable(ISO_DATETIME, InZone(t, zone), refYear)
    ensures FormatDate(At(t), KeyName(ISO_DATETIME), zone).Ok?
    ensures ParseDate(Some(FormatDate(At(t), KeyName(ISO_DATETIME), zone).value), zone, refYear).date
      == Some(WholeSecond(t))
  {
    var w := InZone(t, zone);
    FormatThenParse(t, ISO_DATETIME, zone, refYear);
    assert Kept(ISO_DATETIME, w) == w;
    InZoneInverse(t, zone);
    assert ToUtc(w, zone) == WholeSecond(t);
  }

  /** An instant cut down to its whole second. */
  function WholeSecond(t: int): int {
    t - t % MsPerSecond
  }

  /** A day-first text whose day is 12 or less comes back as the month-first reading: day
      and month trade places. */
  lemma {:induction false} EuRoundTripSwaps(t: int, zone: Zone, refYear: int)
    requires IsValidDate(At(t))
    requires Renderable(EU, InZone(t, zone), refYear) && InZone(t, zone).day <= 12
    ensures var w := InZone(t, zone);
      var r := ParseDate(Some(FormatDate(At(t), "EU", zone).value), zone, refYear);
      r.format == Some(Keyed(US))
      && r.date == Some(ToUtc(DateTime(w.year, w.day, w.month, 0, 0, 0), zone))
  {
    var w := InZone(t, zone);
    FormatKnownKey(t, EU, zone);
    var s := Render(EU, w);
    EuAsUs(w);
    assert Read(US, s, refYear).Some?;
    ReadTrimmed(US, s, refYear);
    UsWins(s, zone, refYear);
  }

  /** Parsing a fixed-width text and formatting the instant in the reported pattern, in the
      same zone, gives the trimmed text back. */
  lemma {:induction false} ParseThenFormat(raw: string, zone: Zone, refYear: int, k: FormatKey)
    requires ParseDate(Some(raw), zone, refYear).format == Some(Keyed(k)) && k != NATURAL
    requires 1 <= Read(k, Trim(raw), refYear).value.year <= 9999
    ensures var r := ParseDate(Some(raw), zone, refYear);
      FormatDate(At(r.date.value), KeyName(k), zone) == Ok(Trim(raw))
  {
    var w := Read(k, Trim(raw), refYear).value;
    var t := ToUtc(w, zone);
    FourDigitYearInRange(w, zone);
    ZoneRoundTrip(w, zone);
    LookupKeyName(k);
    RenderRead(k, Trim(raw), refYear);
  }

  // ---------------------------------------------------------------------------------------
  // validateDateRange

  /** `{ valid, error }`. */
  datatype RangeCheck = RangeCheck(valid: bool, error: Option<string>)

  const BothMustBeValid := "Both start and end dates must be valid"
  const StartAfterEnd := "Start date cannot be after end date"

  /** `validateDateRange(startDate, endDate)`. */
  function ValidateDateRange(start: JsDate, end: JsDate): (r: RangeCheck)
    ensures r.valid <==> IsValidDate(start) && IsValidDate(end) && start.ms <= end.ms
    ensures r.valid <==> r.error.None?
    ensures !(IsValidDate(start) && IsValidDate(end)) ==> r.error == Some(BothMustBeValid)
    ensures IsValidDate(start) && IsValidDate(end) && start.ms > end.ms ==>
      r.error == Some(StartAfterEnd)
  {
    if !IsValidDate(start) || !IsValidDate(end) then RangeCheck(false, Some(BothMustBeValid))
    else if start.ms > end.ms then RangeCheck(false, Some(StartAfterEnd))
    else RangeCheck(true, None)
  }

  /** A range accepted in both directions is a single instant. */
  lemma RangeAntisymmetric(a: JsDate, b: JsDate)
    requires ValidateDateRange(a, b).valid && ValidateDateRange(b, a).valid
    ensures a == b
  {
  }

  // ---------------------------------------------------------------------------------------
  // parseMonth

  /** `^(\d{4})-(\d{1,2})$` on the trimmed text: the year and month numbers it captures. */
  predicate YearMonthShape(s: string) {
    (|s| == 6 || |s| == 7) && DigitsAt(s, 0, 4) && s[4] == '-' && DigitsAt(s, 5, |s| - 5)
  }

  function YearMonthMatch(s: string): (r: Option<(nat, nat)>)
    ensures r.Some? <==> YearMonthShape(s)
    ensures r.Some? ==> r.value == (Number(s, 0, 4), Number(s, 5, |s| - 5))
    ensures r.Some? ==> r.value.0 < 10000 && r.value.1 < 100
  {
    if YearMonthShape(s)
    then Some((Number(s, 0, 4), Number(s, 5, |s| - 5)))
    else None
  }

  /** A four-digit and a two-digit field joined by '-' match with the numbers they spell. */
  lemma YearMonthOfDigits(yt: string, mt: string)
    requires |yt| == 4 && |mt| == 2 && AllDigits(yt) && AllDigits(mt)
    ensures YearMonthMatch(yt + "-" + mt) == Some((DigitsValue(yt), DigitsValue(mt)))
  {
    var s := yt + "-" + mt;
    assert s[0..4] == yt && s[5..7] == mt;
    assert DigitsAt(s, 0, 4) && DigitsAt(s, 5, 2);
  }

  /** The regular expression captures the numbers a zero-padded `yyyy-MM` text spells. */
  lemma {:induction false} YearMonthText(y: nat, m: nat)
    requires y < 10000 && m < 100
    ensures YearMonthMatch(ZeroPad(y, 4) + "-" + ZeroPad(m, 2)) == Some((y, m))
  {
    ZeroPadFixed(y, 4);
    ZeroPadFixed(m, 2);
    YearMonthOfDigits(ZeroPad(y, 4), ZeroPad(m, 2));
  }

  /** A text with '-' at index 4 is its first four characters, '-' and the rest. */
  lemma DashAtFour(s: string)
    requires |s| >= 5 && s[4] == '-'
    ensures s == s[0..4] + "-" + s[5..5 + (|s| - 5)]
  {
    assert s == s[0..4] + [s[4]] + s[5..];
  }

  /** A text the regular expression matches is the zero-padded year, '-' and the month
      padded to the width it was written in: nothing else is captured or skipped. */
  lemma {:induction false} YearMonthSpelled(s: string)
    requires YearMonthMatch(s).Some?
    ensures var (y, m) := YearMonthMatch(s).value;
      s == ZeroPad(y, 4) + "-" + ZeroPad(m, |s| - 5)
  {
    var w := |s| - 5;
    assert YearMonthMatch(s).value == (Number(s, 0, 4), Number(s, 5, w));
    FieldBack(s, 0, 4);
    FieldBack(s, 5, w);
    DashAtFour(s);
  }

  /** The year-month the strict path accepts: the match, with a month from 1 to 12. */
  predicate IsYearMonth(s: string) {
    YearMonthMatch(s).Some? && 1 <= YearMonthMatch(s).value.1 <= 12
  }

  /** Midnight of the first day of a month. */
  function MonthStart(year: int, month: int): (w: DateTime)
    requires 1 <= month <= 12
    ensures Valid(w)
  {
    DateTime(year, month, 1, 0, 0, 0)
  }

  /** The year `new Date(year, monthIndex, 1)` stands for: ECMAScript's MakeDate reads
      years 0 to 99 as 1900 to 1999. */
  function LegacyYear(y: int): (r: int)
    ensures 0 <= y <= 99 ==> r == 1900 + y
    ensures !(0 <= y <= 99) ==> r == y
  {
    if 0 <= y <= 99 then 1900 + y else y
  }

  /** `parseMonth(monthString, timezone)` as the source has it: the strict path builds
      `new Date(year, month - 1, 1)`, and the fallback truncates the parsed instant with the
      host's local `getFullYear`/`getMonth`; `zonedTimeToUtc` then reads that local date
      as a wall clock of `zone`. */
  function ParseMonthAsWritten(raw: Option<string>, zone: Zone, host: Zone, refYear: int)
    : (r: ParseResult)
    ensures WellShaped(r)
    ensures raw.None? || raw.value == [] ==> r == Failure(MonthRequired)
    ensures r.success <==>
      raw.Some? && raw.value != [] && (IsYearMonth(Trim(raw.value)) || ParseDate(raw, zone, refYear).success)
    ensures raw.Some? && raw.value != [] && !r.success ==> r == Failure(InvalidMonthFormat)
    ensures r.success ==>
      var w := InZone(r.date.value, zone); Valid(w) && w == MonthStart(w.year, w.month)
    ensures raw.Some? && raw.value != [] && IsYearMonth(Trim(raw.value)) ==>
      var (y, m) := YearMonthMatch(Trim(raw.value)).value;
      r == Success(ToUtc(MonthStart(LegacyYear(y), m), zone), YearMonth)
  {
    if raw.None? || raw.value == [] then Failure(MonthRequired)
    else
      var s := Trim(raw.value);
      if IsYearMonth(s) then
        var (y, m) := YearMonthMatch(s).value;
        ZoneRoundTrip(MonthStart(LegacyYear(y), m), zone);
        Success(ToUtc(MonthStart(LegacyYear(y), m), zone), YearMonth)
      else
        var d := ParseDate(raw, zone, refYear);
        if d.success then
          var h := InZone(d.date.value, host);
          InZoneInverse(d.date.value, host);
          ZoneRoundTrip(MonthStart(LegacyYear(h.year), h.month), zone);
          Success(ToUtc(MonthStart(LegacyYear(h.year), h.month), zone), d.format.value)
        else Failure(InvalidMonthFormat)
  }

  /** `parseMonth` as evidently intended: the year is taken as written, and the fallback
      truncates to the first of the month in `zone`, the timezone the date was parsed in. */
  function ParseMonth(raw: Option<string>, zone: Zone, refYear: int): (r: ParseResult)
    ensures WellShaped(r)
    ensures raw.None? || raw.value == [] ==> r == Failure(MonthRequired)
    ensures raw.Some? && raw.value != [] && !r.success ==> r == Failure(InvalidMonthFormat)
    ensures r.success <==>
      raw.Some? && raw.value != [] && (IsYearMonth(Trim(raw.value)) || ParseDate(raw, zone, refYear).success)
    ensures r.success ==>
      var w := InZone(r.date.value, zone); Valid(w) && w == MonthStart(w.year, w.month)
  {
    if raw.None? || raw.value == [] then Failure(MonthRequired)
    else
      var s := Trim(raw.value);
      if IsYearMonth(s) then
        var (y, m) := YearMonthMatch(s).value;
        ZoneRoundTrip(MonthStart(y, m), zone);
        Success(ToUtc(MonthStart(y, m), zone), YearMonth)
      else
        var d := ParseDate(raw, zone, refYear);
        if d.success then
          var w := InZone(d.date.value, zone);
          InZoneInverse(d.date.value, zone);
          ZoneRoundTrip(MonthStart(w.year, w.month), zone);
          Success(ToUtc(MonthStart(w.year, w.month), zone), d.format.value)
        else Failure(InvalidMonthFormat)
  }

  /** The strict path: a `yyyy-M` or `yyyy-MM` text with a month from 1 to 12 gives midnight
      of the first of that month in `zone`, reported as `YYYY-MM`. */
  lemma MonthFromYearMonth(raw: string, zone: Zone, refYear: int)
    requires raw != [] && IsYearMonth(Trim(raw))
    ensures var r := ParseMonth(Some(raw), zone, refYear);
      var (y, m) := YearMonthMatch(Trim(raw)).value;
      r == Success(ToUtc(MonthStart(y, m), zone), YearMonth)
      && InZone(r.date.value, zone) == MonthStart(y, m)
  {
    var (y, m) := YearMonthMatch(Trim(raw)).value;
    ZoneRoundTrip(MonthStart(y, m), zone);
  }

  /** The fallback: any other text the date parser reads gives midnight of the first of the
      month it names, with the date parser's format. */
  lemma {:induction false} MonthFromDate(raw: string, zone: Zone, refYear: int)
    requires raw != [] && !IsYearMonth(Trim(raw)) && ParseDate(Some(raw), zone, refYear).success
    ensures var p := ParseDate(Some(raw), zone, refYear);
      var w := Read(p.format.value.key, Trim(raw), refYear).value;
      var r := ParseMonth(Some(raw), zone, refYear);
      r == Success(ToUtc(MonthStart(w.year, w.month), zone), p.format.value)
      && InZone(r.date.value, zone) == MonthStart(w.year, w.month)
  {
    var p := ParseDate(Some(raw), zone, refYear);
    var w := Read(p.format.value.key, Trim(raw), refYear).value;
    ZoneRoundTrip(w, zone);
    ZoneRoundTrip(MonthStart(w.year, w.month), zone);
  }

  lemma {:induction false} OneOrTwoDigitMatch(year: string, d: char)
    requires |year| == 4 && AllDigits(year) && '1' <= d <= '9'
    ensures IsYearMonth(year + "-" + [d])
    ensures YearMonthMatch(year + "-" + [d]) == YearMonthMatch(year + "-0" + [d])
  {
    var s, t := year + "-" + [d], year + "-0" + [d];
    assert s[0..4] == year && t[0..4] == year;
    assert s[5..6] == [d] && t[5..7] == ['0', d];
    DigitsValue2(t[5..7]);
  }

  /** With a one-digit month the strict path reads the same month as with a two-digit one. */
  lemma OneOrTwoDigitMonth(year: string, d: char, zone: Zone, refYear: int)
    requires |year| == 4 && AllDigits(year) && '1' <= d <= '9'
    ensures ParseMonth(Some(year + "-" + [d]), zone, refYear)
      == ParseMonth(Some(year + "-0" + [d]), zone, refYear)
  {
    var s, t := year + "-" + [d], year + "-0" + [d];
    OneOrTwoDigitMatch(year, d);
    DigitsAtEnds(s);
    DigitsAtEnds(t);
    MonthFromYearMonth(s, zone, refYear);
    MonthFromYearMonth(t, zone, refYear);
  }

  lemma YearMonthExample()
    ensures YearMonthMatch("2025-09") == Some((2025, 9))
  {
    var t := "2025-09";
    assert t[0..4] == "2025" && t[5..7] == "09";
    DigitsValue4("2025"); DigitsValue2("09");
  }

  lemma SeptemberOneDigit(zone: Zone, refYear: int)
    ensures ParseMonth(Some("2025-9"), zone, refYear) == ParseMonth(Some("2025-09"), zone, refYear)
  {
    assert "2025-9" == "2025" + "-" + ['9'] && "2025-09" == "2025" + "-0" + ['9'];
    OneOrTwoDigitMonth("2025", '9', zone, refYear);
  }

  lemma SeptemberTwoDigits(zone: Zone, refYear: int)
    ensures ParseMonth(Some("2025-09"), zone, refYear) == Success(ToUtc(MonthStart(2025, 9), zone), YearMonth)
  {
    DigitsAtEnds("2025-09");
    YearMonthExample();
    MonthFromYearMonth("2025-09", zone, refYear);
  }

  /** `parseMonth("2025-9")` and `parseMonth("2025-09")` are the first of September 2025. */
  lemma September2025(zone: Zone, refYear: int)
    ensures ParseMonth(Some("2025-9"), zone, refYear) == ParseMonth(Some("2025-09"), zone, refYear)
    ensures ParseMonth(Some("2025-09"), zone, refYear) == Success(ToUtc(MonthStart(2025, 9), zone), YearMonth)
  {
    SeptemberOneDigit(zone, refYear);
    SeptemberTwoDigits(zone, refYear);
  }

  /** Where the host runs in `zone` and no year from 0 to 99 is involved, the source's
      `parseMonth` and the intended one agree. */
  lemma {:induction false} AsWrittenAgreesInHostZone(raw: Option<string>, zone: Zone, refYear: int)
    requires var r := ParseMonth(raw, zone, refYear);
      r.success ==> !(0 <= InZone(r.date.value, zone).year <= 99)
    ensures ParseMonthAsWritten(raw, zone, zone, refYear) == ParseMonth(raw, zone, refYear)
  {
    if raw.Some? && raw.value != [] {
      var s := Trim(raw.value);
      if IsYearMonth(s) {
        var (y, m) := YearMonthMatch(s).value;
        ZoneRoundTrip(MonthStart(y, m), zone);
      } else if ParseDate(raw, zone, refYear).success {
        var w := InZone(ParseDate(raw, zone, refYear).date.value, zone);
        InZoneInverse(ParseDate(raw, zone, refYear).date.value, zone);
        ZoneRoundTrip(MonthStart(w.year, w.month), zone);
      }
    }
  }

  // ---------------------------------------------------------------------------------------
  // Where the source's parseMonth departs from its intent

  lemma ReadUsSeptemberFirst()
    ensures ReadUs("09/01/2025") == Some(DateTime(2025, 9, 1, 0, 0, 0))
  {
    SlashDigits("09/01/2025");
  }

  /** Midnight of 1 September 2025 nine hours east of UTC is 15:00 on 31 August in UTC. */
  lemma TokyoMidnightInUtc()
    ensures ToUtc(DateTime(2025, 9, 1, 0, 0, 0), 540) == ToUtc(DateTime(2025, 8, 31, 15, 0, 0), UTC)
  {
    assert DaysFromCivil(Date(2025, 9, 1)) == 20332;
    assert DaysFromCivil(Date(2025, 8, 31)) == 20331;
  }

  /** The source's fallback: the month start is built from the host's local fields of the
      parsed instant. */
  lemma AsWrittenFallback(raw: string, zone: Zone, host: Zone, refYear: int, t: int, f: Detected)
    requires raw != [] && !IsYearMonth(Trim(raw)) && ParseDate(Some(raw), zone, refYear) == Success(t, f)
    ensures var h := InZone(t, host);
      Valid(h) && ParseMonthAsWritten(Some(raw), zone, host, refYear)
        == Success(ToUtc(MonthStart(LegacyYear(h.year), h.month), zone), f)
  {
    InZoneInverse(t, host);
  }

  lemma ParseSeptemberFirst(zone: Zone)
    ensures ParseDate(Some("09/01/2025"), zone, 2025)
      == Success(ToUtc(DateTime(2025, 9, 1, 0, 0, 0), zone), Keyed(US))
  {
    DigitsAtEnds("09/01/2025");
    ReadUsSeptemberFirst();
    UsWins("09/01/2025", zone, 2025);
  }

  lemma SeptemberFirstNotYearMonth()
    ensures !IsYearMonth(Trim("09/01/2025"))
  {
    DigitsAtEnds("09/01/2025");
  }

  /** The intended parser keeps September for "09/01/2025" in every zone. */
  lemma MonthOfSeptemberFirst(zone: Zone)
    ensures ParseMonth(Some("09/01/2025"), zone, 2025)
      == Success(ToUtc(MonthStart(2025, 9), zone), Keyed(US))
  {
    SeptemberFirstNotYearMonth();
    ParseSeptemberFirst(zone);
    DigitsAtEnds("09/01/2025");
    ReadUsSeptemberFirst();
    MonthFromDate("09/01/2025", zone, 2025);
  }

  /** The fallback truncates in the host's timezone: parsed nine hours east of a host on UTC,
      1 September 2025 becomes the first of August (`MonthOfSeptemberFirst` keeps
      September). */
  lemma {:induction false} HostZoneTruncation(zone: Zone, host: Zone)
    requires zone == 540 && host == UTC
    ensures ParseMonthAsWritten(Some("09/01/2025"), zone, host, 2025)
      == Success(ToUtc(MonthStart(2025, 8), zone), Keyed(US))
  {
    SeptemberFirstAsWritten(zone, host);
    TokyoHostFields(zone, host);
  }

  /** The source's fallback on "09/01/2025": the month of the host's fields of the parse. */
  lemma SeptemberFirstAsWritten(zone: Zone, host: Zone)
    ensures var h := InZone(ToUtc(DateTime(2025, 9, 1, 0, 0, 0), zone), host);
      Valid(h) && ParseMonthAsWritten(Some("09/01/2025"), zone, host, 2025)
        == Success(ToUtc(MonthStart(LegacyYear(h.year), h.month), zone), Keyed(US))
  {
    SeptemberFirstNotYearMonth();
    ParseSeptemberFirst(zone);
    AsWrittenFallback("09/01/2025", zone, host, 2025, ToUtc(DateTime(2025, 9, 1, 0, 0, 0), zone), Keyed(US));
  }

  /** On a host on UTC, the instant parsed nine hours east shows 15:00 on 31 August. */
  lemma TokyoHostFields(zone: Zone, host: Zone)
    requires zone == 540 && host == UTC
    ensures InZone(ToUtc(DateTime(2025, 9, 1, 0, 0, 0), zone), host) == DateTime(2025, 8, 31, 15, 0, 0)
  {
    TokyoMidnightInUtc();
    ZoneRoundTrip(DateTime(2025, 8, 31, 15, 0, 0), host);
  }

  lemma YearMonthEarlyYear()
    ensures YearMonthMatch("0025-03") == Some((25, 3))
  {
    var t := "0025-03";
    assert t[0..4] == "0025" && t[5..7] == "03";
    DigitsValue4("0025"); DigitsValue2("03");
  }

  /** `new Date(25, 2, 1)` is 1 March 1925: the source's strict path moves years 0 to 99
      into the twentieth century, where the intended parser keeps year 25. */
  lemma {:induction false} EarlyYearShift(zone: Zone, host: Zone, refYear: int)
    ensures ParseMonthAsWritten(Some("0025-03"), zone, host, refYear)
      == Success(ToUtc(MonthStart(1925, 3), zone), YearMonth)
    ensures ParseMonth(Some("0025-03"), zone, refYear)
      == Success(ToUtc(MonthStart(25, 3), zone), YearMonth)
  {
    DigitsAtEnds("0025-03");
    YearMonthEarlyYear();
  }
}
