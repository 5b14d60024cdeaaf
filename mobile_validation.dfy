/** The mobile app's form validation: `validateDateInput` and `validateMonthInput` wrap the
    shared parsers and describe an accepted input in several renderings. `formatDate`
    throws on an invalid date; that exception, which would leave these functions, is the
    `Err` of their result. */
module MobileValidation {
  import opened Wrappers
  import opened Text
  import opened Civil
  import opened Catalogue
  import opened DateParser

  const DateIsRequired := "Date is required"
  const MonthIsRequired := "Month is required"

  // ---------------------------------------------------------------------------------------
  // validateDateInput

  /** The `formatted` object of an accepted date. */
  datatype DateFormatted = DateFormatted(iso: string, display: string, us: string, eu: string)

  /** What `validateDateInput` returns: a missing input, an accepted one with its renderings,
      parsed instant and detected format, or the parser's error with the accepted patterns. */
  datatype DateInputCheck =
    | DateMissing
    | DateAccepted(formatted: DateFormatted, parsedDate: int, detectedFormat: Detected)
    | DateRejected(error: string, supportedFormats: seq<string>)

  /** Handing the parser an already trimmed text changes nothing: it trims again. */
  lemma ParseDatePreTrimmed(input: string, zone: Zone, refYear: int)
    requires Trim(input) != []
    ensures ParseDate(Some(Trim(input)), zone, refYear) == ParseDate(Some(input), zone, refYear)
  {
    TrimIdempotent(input);
  }

  /** `validateDateInput(input, timezone)`. */
  function ValidateDateInput(input: Option<string>, zone: Zone, refYear: int)
    : (r: Result<DateInputCheck>)
    ensures input.None? || Trim(input.value) == [] ==> r == Ok(DateMissing)
    ensures r.Ok? && r.value.DateAccepted? <==>
      input.Some? && Trim(input.value) != [] && ParseDate(input, zone, refYear).success
      && IsValidDate(At(ParseDate(input, zone, refYear).date.value))
    ensures r.Ok? && r.value.DateAccepted? ==>
      var p := ParseDate(input, zone, refYear);
      var w := InZone(r.value.parsedDate, zone);
      Some(r.value.parsedDate) == p.date && Some(r.value.detectedFormat) == p.format && Valid(w)
      && r.value.formatted
         == DateFormatted(Render(ISO, w), Render(NATURAL, w), Render(US, w), Render(EU, w))
    ensures r.Ok? && r.value.DateRejected? <==>
      input.Some? && Trim(input.value) != [] && !ParseDate(input, zone, refYear).success
    ensures r.Ok? && r.value.DateRejected? ==>
      r.value.error == InvalidDateFormat() && r.value.supportedFormats == Patterns()
    ensures r.Err? ==> r.error == InvalidDateProvided
  {
    if input.None? || Trim(input.value) == [] then Ok(DateMissing)
    else
      var p := ParseDate(Some(Trim(input.value)), zone, refYear);
      ParseDatePreTrimmed(input.value, zone, refYear);
      if p.success then
        var d := At(p.date.value);
        match FormatDate(d, KeyName(ISO), zone)
        case Err(e) => Err(e)
        case Ok(iso) =>
          LookupKeyName(ISO);
          LookupKeyName(NATURAL);
          LookupKeyName(US);
          LookupKeyName(EU);
          Ok(DateAccepted(DateFormatted(iso, FormatDate(d, KeyName(NATURAL), zone).value,
                                        FormatDate(d, KeyName(US), zone).value,
                                        FormatDate(d, KeyName(EU), zone).value),
                          p.date.value, p.format.value))
      else Ok(DateRejected(p.error.value, Patterns()))
  }

  /** The ISO rendering of an accepted date-only input is a text the parser reads back as
      the same instant, reported as ISO. */
  lemma {:induction false} IsoRenderingReparses(input: string, zone: Zone, refYear: int)
    requires var r := ValidateDateInput(Some(input), zone, refYear);
      r.Ok? && r.value.DateAccepted? && r.value.detectedFormat != Keyed(ISO_DATETIME)
    requires var r := ValidateDateInput(Some(input), zone, refYear);
      1 <= InZone(r.value.parsedDate, zone).year <= 9999
    ensures var r := ValidateDateInput(Some(input), zone, refYear);
      ParseDate(Some(r.value.formatted.iso), zone, refYear)
        == Success(r.value.parsedDate, Keyed(ISO))
  {
    var r := ValidateDateInput(Some(input), zone, refYear);
    var p := ParseDate(Some(input), zone, refYear);
    var k := p.format.value.key;
    var w := Read(k, Trim(input), refYear).value;
    ReadBounds(k, Trim(input), refYear);
    assert r.value.parsedDate == ToUtc(w, zone);
    ZoneRoundTrip(w, zone);
    assert r.value.formatted.iso == Render(ISO, w);
    MidnightReparses(w, zone, refYear);
  }

  /** A midnight rendered as ISO reads back in `zone` as the same instant. */
  lemma {:induction false} MidnightReparses(w: DateTime, zone: Zone, refYear: int)
    requires Valid(w) && 1 <= w.year <= 9999 && w == StartOfDay(DateOf(w))
    ensures ParseDate(Some(Render(ISO, w)), zone, refYear) == Success(ToUtc(w, zone), Keyed(ISO))
  {
    ParseRendered(w, ISO, zone, refYear);
    assert Kept(ISO, w) == w;
  }

  /** A blank input is "Date is required", where the parser itself would have called it an
      unrecognised format. */
  lemma BlankDate(input: string, zone: Zone, refYear: int)
    requires AllWhitespace(input)
    ensures ValidateDateInput(Some(input), zone, refYear) == Ok(DateMissing)
    ensures input != [] ==> ParseDate(Some(input), zone, refYear) == Failure(InvalidDateFormat())
  {
    TrimEmpty(input);
    if input != [] {
      WhitespaceOnly(input, zone, refYear);
    }
  }

  // ---------------------------------------------------------------------------------------
  // validateMonthInput

  /** The `formatted` object of an accepted month. */
  datatype MonthFormatted = MonthFormatted(yearMonth: string, display: string)

  /** The `monthInfo` object of an accepted month. */
  datatype MonthInfo = MonthInfo(year: int, month: int, monthName: string)

  datatype MonthInputCheck =
    | MonthMissing
    | MonthAccepted(formatted: MonthFormatted, parsedDate: int, detectedFormat: Detected,
                    monthInfo: MonthInfo)
    | MonthRejected(error: string)

  /** No month name has a space in it. */
  lemma MonthNameOneWord(m: int)
    requires 1 <= m <= 12
    ensures ' ' !in MonthName(m)
  {
    var names := ["January", "February", "March", "April", "May", "June", "July", "August",
                  "September", "October", "November", "December"];
    assert MonthName(m) == names[m - 1];
  }

  /** `format(date, 'MMMM d, yyyy').split(' ')[0]`: the month's name. */
  lemma NaturalFirstWord(w: DateTime)
    requires Valid(w)
    ensures FirstWord(Render(NATURAL, w)) == MonthName(w.month)
  {
    var name, s := MonthName(w.month), Render(NATURAL, w);
    MonthNameOneWord(w.month);
    assert s == name + (" " + NatToDecimal(w.day) + ", " + Year4(w));
    assert s[..|name|] == name && s[|name|] == ' ';
    FirstWordOf(name, s);
  }

  /** The accepted month as the source builds it: `fields` are the local fields the
      `getFullYear`/`getMonth` calls read, `zone` the one `formatDate` renders in. */
  function Describe(t: int, format: Detected, fields: DateTime, zone: Zone)
    : (r: Result<MonthInputCheck>)
    requires 1 <= fields.month <= 12
    ensures r.Err? <==> !IsValidDate(At(t))
    ensures r.Err? ==> r.error == InvalidDateProvided
    ensures r.Ok? ==>
      (r.value.MonthAccepted? && r.value.parsedDate == t && r.value.detectedFormat == format
       && r.value.monthInfo == MonthInfo(fields.year, fields.month, MonthName(InZone(t, zone).month))
       && r.value.formatted == MonthFormatted(
            IntToDecimal(fields.year) + "-" + ZeroPad(fields.month, 2),
            MonthName(InZone(t, zone).month) + " " + IntToDecimal(fields.year)))
  {
    match FormatDate(At(t), KeyName(NATURAL), zone)
    case Err(e) => Err(e)
    case Ok(natural) =>
      LookupKeyName(NATURAL);
      NaturalFirstWord(InZone(t, zone));
      var name := FirstWord(natural);
      Ok(MonthAccepted(MonthFormatted(IntToDecimal(fields.year) + "-" + ZeroPad(fields.month, 2),
                                      name + " " + IntToDecimal(fields.year)),
                       t, format, MonthInfo(fields.year, fields.month, name)))
  }

  /** `validateMonthInput(input, timezone)` as the source has it: the source's `parseMonth`,
      and the year and month read with the host's local `getFullYear`/`getMonth` while the
      month name comes from `formatDate` in `zone`. */
  function ValidateMonthInputAsWritten(input: Option<string>, zone: Zone, host: Zone,
                                       refYear: int): (r: Result<MonthInputCheck>)
    ensures input.None? || Trim(input.value) == [] ==> r == Ok(MonthMissing)
    ensures r.Ok? && r.value.MonthRejected? <==>
      input.Some? && Trim(input.value) != []
      && !ParseMonthAsWritten(Some(Trim(input.value)), zone, host, refYear).success
    ensures r.Ok? && r.value.MonthRejected? ==> r.value.error == InvalidMonthFormat
    ensures r.Ok? && r.value.MonthAccepted? ==>
      var p := ParseMonthAsWritten(Some(Trim(input.value)), zone, host, refYear);
      var h := InZone(p.date.value, host);
      p.success && Valid(h) && r == Describe(p.date.value, p.format.value, h, zone)
    ensures r.Err? ==> r.error == InvalidDateProvided
  {
    if input.None? || Trim(input.value) == [] then Ok(MonthMissing)
    else
      var p := ParseMonthAsWritten(Some(Trim(input.value)), zone, host, refYear);
      if p.success then
        var h := InZone(p.date.value, host);
        InZoneInverse(p.date.value, host);
        Describe(p.date.value, p.format.value, h, zone)
      else Ok(MonthRejected(p.error.value))
  }

  /** `validateMonthInput` as evidently intended: the intended `parseMonth`, and every field
      read in `zone`, so that the month name, the year and month and both texts describe
      the one month the parser found. */
  function ValidateMonthInput(input: Option<string>, zone: Zone, refYear: int)
    : (r: Result<MonthInputCheck>)
    ensures input.None? || Trim(input.value) == [] ==> r == Ok(MonthMissing)
    ensures r.Ok? && r.value.MonthRejected? <==>
      input.Some? && Trim(input.value) != [] && !ParseMonth(input, zone, refYear).success
    ensures r.Ok? && r.value.MonthRejected? ==> r.value.error == InvalidMonthFormat
    ensures r.Ok? && r.value.MonthAccepted? ==>
      var i := r.value.monthInfo;
      Some(r.value.parsedDate) == ParseMonth(input, zone, refYear).date
      && 1 <= i.month <= 12 && InZone(r.value.parsedDate, zone) == MonthStart(i.year, i.month)
      && i.monthName == MonthName(i.month)
      && r.value.formatted == MonthFormatted(IntToDecimal(i.year) + "-" + ZeroPad(i.month, 2),
                                             i.monthName + " " + IntToDecimal(i.year))
    ensures r.Err? ==> r.error == InvalidDateProvided
  {
    if input.None? || Trim(input.value) == [] then Ok(MonthMissing)
    else
      var p := ParseMonth(Some(Trim(input.value)), zone, refYear);
      ParseMonthPreTrimmed(input.value, zone, refYear);
      if p.success then
        var w := InZone(p.date.value, zone);
        Describe(p.date.value, p.format.value, w, zone)
      else Ok(MonthRejected(p.error.value))
  }

  /** Handing `parseMonth` an already trimmed text changes nothing. */
  lemma ParseMonthPreTrimmed(input: string, zone: Zone, refYear: int)
    requires Trim(input) != []
    ensures ParseMonth(Some(Trim(input)), zone, refYear) == ParseMonth(Some(input), zone, refYear)
  {
    TrimIdempotent(input);
    ParseDatePreTrimmed(input, zone, refYear);
    SameTextSameMonth(Trim(input), input, zone, refYear);
  }

  /** `parseMonth` sees its input only through the trimmed text and what `parseDate` makes
      of it. */
  lemma SameTextSameMonth(a: string, b: string, zone: Zone, refYear: int)
    requires a != [] && b != [] && Trim(a) == Trim(b)
    requires ParseDate(Some(a), zone, refYear) == ParseDate(Some(b), zone, refYear)
    ensures ParseMonth(Some(a), zone, refYear) == ParseMonth(Some(b), zone, refYear)
  {
  }

  /** Where the host runs in `zone` and no year from 0 to 99 is involved, the source's
      `validateMonthInput` and the intended one agree. */
  lemma {:induction false} MonthInputAgreesInHostZone(input: Option<string>, zone: Zone,
                                                       refYear: int)
    requires input.Some? && Trim(input.value) != []
    requires var r := ParseMonth(Some(Trim(input.value)), zone, refYear);
      r.success ==> !(0 <= InZone(r.date.value, zone).year <= 99)
    ensures ValidateMonthInputAsWritten(input, zone, zone, refYear)
      == ValidateMonthInput(input, zone, refYear)
  {
    var raw := Some(Trim(input.value));
    AsWrittenAgreesInHostZone(raw, zone, refYear);
    SameParseSameCheck(input, zone, refYear);
  }

  /** Once both parsers agree on the trimmed text, both validations describe the same. */
  lemma SameParseSameCheck(input: Option<string>, zone: Zone, refYear: int)
    requires input.Some? && Trim(input.value) != []
    requires var raw := Some(Trim(input.value));
      ParseMonthAsWritten(raw, zone, zone, refYear) == ParseMonth(raw, zone, refYear)
    ensures ValidateMonthInputAsWritten(input, zone, zone, refYear)
      == ValidateMonthInput(input, zone, refYear)
  {
    var p := ParseMonth(Some(Trim(input.value)), zone, refYear);
    if p.success {
      AsWrittenDescribes(input, zone, refYear, p);
      IntendedDescribes(input, zone, refYear, p);
    } else {
      AsWrittenRejects(input, zone, refYear, p);
      IntendedRejects(input, zone, refYear, p);
    }
  }

  /** A month the source's parser refuses is reported with the parser's error. */
  lemma AsWrittenRejects(input: Option<string>, zone: Zone, refYear: int, p: ParseResult)
    requires input.Some? && Trim(input.value) != []
    requires p == ParseMonthAsWritten(Some(Trim(input.value)), zone, zone, refYear) && !p.success
    ensures ValidateMonthInputAsWritten(input, zone, zone, refYear) == Ok(MonthRejected(p.error.value))
  {
  }

  /** A month the intended parser refuses is reported with the parser's error. */
  lemma IntendedRejects(input: Option<string>, zone: Zone, refYear: int, p: ParseResult)
    requires input.Some? && Trim(input.value) != []
    requires p == ParseMonth(Some(Trim(input.value)), zone, refYear) && !p.success
    ensures ValidateMonthInput(input, zone, refYear) == Ok(MonthRejected(p.error.value))
  {
  }

  /** A month the source's parser accepts, on a host in `zone`, is described from the zone's
      fields. */
  lemma AsWrittenDescribes(input: Option<string>, zone: Zone, refYear: int, p: ParseResult)
    requires input.Some? && Trim(input.value) != []
    requires p == ParseMonthAsWritten(Some(Trim(input.value)), zone, zone, refYear) && p.success
    ensures ValidateMonthInputAsWritten(input, zone, zone, refYear)
      == Describe(p.date.value, p.format.value, InZone(p.date.value, zone), zone)
  {
  }

  /** A month the intended parser accepts is described from the zone's fields. */
  lemma IntendedDescribes(input: Option<string>, zone: Zone, refYear: int, p: ParseResult)
    requires input.Some? && Trim(input.value) != []
    requires p == ParseMonth(Some(Trim(input.value)), zone, refYear) && p.success
    ensures ValidateMonthInput(input, zone, refYear)
      == Describe(p.date.value, p.format.value, InZone(p.date.value, zone), zone)
  {
  }

  // ---------------------------------------------------------------------------------------
  // Where the source's validateMonthInput departs from its intent

  lemma JanuaryMatch()
    ensures YearMonthMatch("2025-01") == Some((2025, 1))
  {
    var t := "2025-01";
    assert t[0..4] == "2025" && t[5..7] == "01";
    DigitsValue4("2025"); DigitsValue2("01");
  }

  lemma YearEndDays()
    ensures DaysFromCivil(Date(2025, 1, 1)) == 20089
    ensures DaysFromCivil(Date(2024, 12, 31)) == 20088
  {
    assert 2024 / 400 == 5 && 2024 % 400 == 24;
    assert YearStartInEra(24) == 8766;
    assert MarchIndex(1) == 10 && MarchIndex(12) == 9;
  }

  lemma JanuaryNumbers()
    ensures IntToDecimal(2024) == "2024" && IntToDecimal(2025) == "2025"
    ensures ZeroPad(12, 2) == "12" && ZeroPad(1, 2) == "01"
  {
    assert NatToDecimal(2) == "2" && NatToDecimal(20) == "20" && NatToDecimal(202) == "202";
    assert NatToDecimal(1) == "1" && NatToDecimal(12) == "12";
  }

  lemma JanuaryTexts()
    ensures IntToDecimal(2024) == "2024" && IntToDecimal(2025) == "2025"
    ensures ZeroPad(12, 2) == "12" && ZeroPad(1, 2) == "01"
    ensures IntToDecimal(2024) + "-" + ZeroPad(12, 2) == "2024-12"
    ensures IntToDecimal(2025) + "-" + ZeroPad(1, 2) == "2025-01"
    ensures "January" + " " + IntToDecimal(2024) == "January 2024"
    ensures "January" + " " + IntToDecimal(2025) == "January 2025"
  {
    JanuaryNumbers();
  }

  /** Midnight of 1 January 2025 in UTC is 19:00 on 31 December 2024 five hours west. */
  lemma NewYearFiveHoursWest(zone: Zone, host: Zone)
    requires zone == UTC && host == -300
    ensures InZone(ToUtc(MonthStart(2025, 1), zone), host) == DateTime(2024, 12, 31, 19, 0, 0)
  {
    YearEndDays();
    var h := DateTime(2024, 12, 31, 19, 0, 0);
    assert ToUtc(h, host) == ToUtc(MonthStart(2025, 1), zone);
    ZoneRoundTrip(h, host);
  }

  /** The source's path for "2025-01": the strict match, then fields read on the host. */
  lemma {:induction false} AsWrittenJanuary(zone: Zone, host: Zone)
    requires zone == UTC && host == -300
    ensures ValidateMonthInputAsWritten(Some("2025-01"), zone, host, 2025)
      == Describe(ToUtc(MonthStart(2025, 1), zone), YearMonth, DateTime(2024, 12, 31, 19, 0, 0), zone)
  {
    var s := "2025-01";
    var t := ToUtc(MonthStart(2025, 1), zone);
    JanuaryMatch();
    DigitsAtEnds(s);
    assert IsYearMonth(s);
    var p := ParseMonthAsWritten(Some(s), zone, host, 2025);
    assert p == Success(t, YearMonth);
    NewYearFiveHoursWest(zone, host);
  }

  /** The description built from those host fields. */
  lemma {:induction false} DescribeJanuaryWest(zone: Zone)
    requires zone == UTC
    ensures Describe(ToUtc(MonthStart(2025, 1), zone), YearMonth, DateTime(2024, 12, 31, 19, 0, 0), zone)
      == Ok(MonthAccepted(MonthFormatted("2024-12", "January 2024"),
                          ToUtc(MonthStart(2025, 1), zone), YearMonth,
                          MonthInfo(2024, 12, "January")))
  {
    var t := ToUtc(MonthStart(2025, 1), zone);
    var h := DateTime(2024, 12, 31, 19, 0, 0);
    JanuaryTexts();
    ZoneRoundTrip(MonthStart(2025, 1), zone);
    FourDigitYearInRange(MonthStart(2025, 1), zone);
    assert MonthName(InZone(t, zone).month) == "January";
    var d := Describe(t, YearMonth, h, zone);
    assert d.Ok? && d.value.MonthAccepted?;
    assert d.value.monthInfo == MonthInfo(2024, 12, "January");
    assert d.value.formatted == MonthFormatted("2024-12", "January 2024");
  }

  /** The source: "2025-01" in UTC on a device five hours west of UTC is described as
      "2024-12", "January 2024", with month 12 named January. */
  lemma HostMonthSkew(zone: Zone, host: Zone)
    requires zone == UTC && host == -300
    ensures ValidateMonthInputAsWritten(Some("2025-01"), zone, host, 2025)
      == Ok(MonthAccepted(MonthFormatted("2024-12", "January 2024"),
                          ToUtc(MonthStart(2025, 1), zone), YearMonth,
                          MonthInfo(2024, 12, "January")))
  {
    AsWrittenJanuary(zone, host);
    DescribeJanuaryWest(zone);
  }

  /** The intended path for "2025-01": the strict match, then fields read in `zone`. */
  lemma {:induction false} IntendedJanuary(zone: Zone)
    ensures ValidateMonthInput(Some("2025-01"), zone, 2025)
      == Describe(ToUtc(MonthStart(2025, 1), zone), YearMonth, MonthStart(2025, 1), zone)
  {
    var s := "2025-01";
    var t := ToUtc(MonthStart(2025, 1), zone);
    JanuaryMatch();
    DigitsAtEnds(s);
    MonthFromYearMonth(s, zone, 2025);
    assert ParseMonth(Some(s), zone, 2025) == Success(t, YearMonth);
    ZoneRoundTrip(MonthStart(2025, 1), zone);
  }

  /** The description built from the fields of 1 January 2025 in `zone`. */
  lemma {:induction false} DescribeJanuary(zone: Zone)
    ensures Describe(ToUtc(MonthStart(2025, 1), zone), YearMonth, MonthStart(2025, 1), zone)
      == Ok(MonthAccepted(MonthFormatted("2025-01", "January 2025"),
                          ToUtc(MonthStart(2025, 1), zone), YearMonth,
                          MonthInfo(2025, 1, "January")))
  {
    var t := ToUtc(MonthStart(2025, 1), zone);
    JanuaryTexts();
    ZoneRoundTrip(MonthStart(2025, 1), zone);
    FourDigitYearInRange(MonthStart(2025, 1), zone);
    assert MonthName(InZone(t, zone).month) == "January";
    var d := Describe(t, YearMonth, MonthStart(2025, 1), zone);
    assert d.Ok? && d.value.MonthAccepted?;
    assert d.value.monthInfo == MonthInfo(2025, 1, "January");
    assert d.value.formatted == MonthFormatted("2025-01", "January 2025");
  }

  /** The intended description of "2025-01": January 2025, in any zone. */
  lemma JanuaryDescribed(zone: Zone)
    ensures ValidateMonthInput(Some("2025-01"), zone, 2025)
      == Ok(MonthAccepted(MonthFormatted("2025-01", "January 2025"),
                          ToUtc(MonthStart(2025, 1), zone), YearMonth,
                          MonthInfo(2025, 1, "January")))
  {
    IntendedJanuary(zone);
    DescribeJanuary(zone);
  }
}
