# daily-planner date engine, in Dafny

This project models the date handling of the daily-planner application:

- the shared parser module (`DATE_FORMATS`, `parseDate`, `parseMonth`, `formatDate`,
  `validateDateRange`);
- the decision logic of the server's `POST /api/validate/range` handler, and the date and
  month strings its page routes build from path segments;
- the mobile app's `validateDateInput` and `validateMonthInput`.

Everything in the model is a pure function over values. Its conventions:

- An instant is an integer count of milliseconds, as a JavaScript `Date` holds it. An
  Invalid Date is a separate value, `JsDate.InvalidDate`.
- A timezone is a fixed offset in minutes east of UTC.
- The host's own local timezone is an explicit `host` zone parameter. The host's zone is
  what `new Date(y, m, d)` and `getFullYear`/`getMonth` use.
- The year of `new Date()` is a `refYear` parameter. date-fns uses that reference date to
  complete a two-digit `yy` year.
- `null`, `undefined` and non-string inputs are `None`.
- The exception `formatDate` throws is the `Err` of a `Result`.

Files:

- `wrappers.dfy`: `Option` and `Result`.
- `text.dfy`: the JavaScript string built-ins the code relies on: `trim`, `padStart`,
  `join`, `split(' ')[0]` and decimal rendering.
- `civil.dfy`: the proleptic Gregorian calendar. It covers day numbers and their inverse,
  wall clocks against instants, and fixed zones. `zonedTimeToUtc` is `ToUtc`, and
  `utcToZonedTime` followed by reading the fields is `InZone`. It also has JavaScript
  `Date` validity.
- `catalogue.dfy`: the six `DATE_FORMATS` entries. Each has a strict reader (date-fns
  `parse` with `isValid`) and a renderer (date-fns `format`). Reading a rendering gives
  back what the pattern keeps of the wall clock, for every pattern. The other direction,
  that an accepted text is the rendering of its reading, is proved for the five fixed-width
  patterns and years from 1.
- `date_parser.dfy`: the parser module.
- `range_route.dfy`: the range handler and the page routes' strings.
- `mobile_validation.dfy`: the mobile validators.

Some behaviours of the code that a reader might not expect, all kept by the model:

- A whitespace-only string given to `parseDate` is refused as "Invalid date format. …",
  not as "Date string is required". The emptiness test runs before the trim
  (`DateParser.WhitespaceOnly`).
- A timezone is never rejected. Every offset is accepted.
- `parseMonth`'s fallback truncates to the first of the month in the host's local time,
  not in `timezone`. See Findings.

## Model

| member | source | states |
|---|---|---|
| Text.TrimEmpty | shared/dateParser.js:24-28 | a string trims to nothing exactly when all of it is whitespace |
| Text.TrimIdempotent | mobile/utils/validation.js:19 | trimming an already trimmed input changes nothing |
| Text.NatToDecimal | mobile/utils/validation.js:66 | the decimal text of a number has digits only, no leading zero, and reads back as the number |
| Text.PadStart | server/index.js:217 | `padStart` keeps the text as a suffix, fills only the front and reaches the width |
| Text.ZeroPadFixed | shared/dateParser.js:137 | zero padding a number that fits gives exactly `width` digits that read back as the number |
| Text.DigitsInjective | shared/dateParser.js:137 | two digit strings of one length with one value are equal |
| Text.FirstWord | mobile/utils/validation.js:74 | `split(' ')[0]` is the prefix before the first space and holds no space |
| Civil.DaysInMonth | shared/dateParser.js:33 | every month has 28 to 31 days |
| Civil.CivilFromDaysInverse | shared/dateParser.js:136 | every day number is a valid date that converts back to the same day number |
| Civil.DaysFromCivilInverse | shared/dateParser.js:35 | a valid date converts to its day number and back unchanged |
| Civil.WallFromMsInverse | shared/dateParser.js:136 | an instant read as a UTC wall clock and converted back loses only its milliseconds |
| Civil.WallMsInverse | shared/dateParser.js:56 | a valid wall clock converted to an instant and read back is unchanged |
| Civil.ZoneRoundTrip | shared/dateParser.js:35-36 | `utcToZonedTime` after `zonedTimeToUtc` in one zone gives the wall clock back |
| Civil.InZoneInverse | shared/dateParser.js:136-137 | `zonedTimeToUtc` after `utcToZonedTime` gives the instant back to the second |
| Civil.InZoneWall | shared/dateParser.js:136 | the zone's clocks at an instant, read as UTC, are the instant moved by the offset, to the second |
| Civil.FourDigitYearInRange | shared/dateParser.js:33 | a wall clock of years 0 to 9999 in any zone is a valid JavaScript date |
| Catalogue.PatternsListed | shared/dateParser.js:8-15 | `Object.values(DATE_FORMATS)` is the six literal patterns, in declaration order |
| Catalogue.Lookup | shared/dateParser.js:133 | `DATE_FORMATS[name]` finds a key exactly when `name` spells one |
| Catalogue.LookupKeyName | shared/dateParser.js:133 | each key's own name finds that key |
| Catalogue.TwoDigitYear | shared/dateParser.js:13 | `yy` reads to the one year within 50 years before or 49 after the reference year that ends in those digits |
| Catalogue.TwoDigitYearOf | shared/dateParser.js:13 | a year in that window is what its last two digits read back as |
| Catalogue.MonthNamesPrefixFree | shared/dateParser.js:14 | no month name starts a text that another month name starts |
| Catalogue.Read | shared/dateParser.js:53-54 | every reading `parse` accepts is a valid calendar date and time |
| Catalogue.ReadBounds | shared/dateParser.js:53-54 | readings have four-digit years, from 1 for the `yyyy` patterns `parse` reads (the year of the era) and from 0 for `parseISO`, or years in the `yy` window; they are midnight except for `yyyy-MM-dd HH:mm:ss` |
| Catalogue.ReadRender | shared/dateParser.js:137 | reading what `format` writes in a pattern gives back the date, and for `yyyy-MM-dd HH:mm:ss` the time to the second |
| Catalogue.RenderRead | shared/dateParser.js:53 | a text a fixed-width pattern accepts is exactly what that pattern writes for the date read |
| Catalogue.OnlyUsAndEuOverlap | shared/dateParser.js:43-49 | only `MM/dd/yyyy` and `dd/MM/yyyy` can both accept one text |
| Catalogue.EuAsUs | shared/dateParser.js:11-12 | a date written day first reads month first, day and month swapped, exactly when its day is 12 or less |
| Catalogue.NoPatternReads | shared/dateParser.js:51-62 | a text that starts with neither a digit nor a capital letter matches no pattern |
| Catalogue.ReadTrimmed | shared/dateParser.js:28 | a text any pattern accepts has nothing for `trim` to remove |
| DateParser.FirstMatch | shared/dateParser.js:51-62 | the loop returns the first attempt that reads the text, and every earlier attempt fails |
| DateParser.Detect | shared/dateParser.js:30-62 | the ISO reading is tried first, then the attempt list; the key found reads the text and every key before it fails |
| DateParser.FormatErrorText | shared/dateParser.js:64-69 | the format error is "Invalid date format. Accepted formats: " and the six literal patterns joined by ", " |
| DateParser.ParseDate | shared/dateParser.js:23-70 | success carries a date and a format and no error, failure an error only; a missing or empty input gives "Date string is required"; success holds exactly when some pattern reads the trimmed text; then the first such key is reported and the date is its reading in `zone`; otherwise the error lists every pattern |
| DateParser.ParseDateFirstKey | shared/dateParser.js:51-58 | every key tried before the reported one fails on the trimmed text |
| DateParser.DetectUnique | shared/dateParser.js:43-62 | the detected key is the only one that reads the text, except that US wins over EU |
| DateParser.ParseDateUnique | shared/dateParser.js:43-62 | the reported key is the only one that reads the trimmed text, except that US wins over EU |
| DateParser.IsoFirst | shared/dateParser.js:30-37 | a text `yyyy-MM-dd` reads is reported as ISO with its reading in `zone` |
| DateParser.UsWins | shared/dateParser.js:44-45 | a text `MM/dd/yyyy` reads is reported as US |
| DateParser.EuOnlyWhenUsFails | shared/dateParser.js:45-46 | EU is reported only for a text `MM/dd/yyyy` does not read |
| DateParser.EuWhenUsFails | shared/dateParser.js:45-46 | a text only `dd/MM/yyyy` reads, of the two, is reported as EU |
| DateParser.WhitespaceOnly | shared/dateParser.js:24-28 | a whitespace-only input fails with the format error, not "required" |
| DateParser.Unrecognised | shared/dateParser.js:64-69 | a text no pattern reads fails with the message listing the accepted patterns |
| DateParser.AmbiguousIsUs | shared/dateParser.js:44-46 | "01/02/2025" is 2 January 2025, reported as US |
| DateParser.DayFirstIsEu | shared/dateParser.js:44-46 | "14/09/2025" is 14 September 2025, reported as EU |
| DateParser.IsoExample | shared/dateParser.js:9 | "2025-09-14" is 14 September 2025, reported as ISO |
| DateParser.CalendarInvalidRejected | shared/dateParser.js:32-33 | "2025-02-30" is refused, not rolled over into March |
| DateParser.NotADate | shared/dateParser.js:64-69 | "not-a-date" is refused with the format error |
| DateParser.DistinctRejections | shared/dateParser.js:24-25 | an empty input gets "Date string is required"; blank and unrecognised inputs share the format error; the two messages differ |
| DateParser.KeyOrIso | shared/dateParser.js:133 | a key `DATE_FORMATS` has selects its own pattern, and a key it lacks selects ISO |
| DateParser.FormatDate | shared/dateParser.js:128-138 | an invalid date is refused with "Invalid date provided"; otherwise the result is the zone's wall clock written in the selected pattern |
| DateParser.UnknownKeyIsIso | shared/dateParser.js:133 | formatting with a key `DATE_FORMATS` neither has nor inherits from `Object.prototype` is formatting as ISO |
| DateParser.FormatKnownKey | shared/dateParser.js:133-137 | formatting with a key's name writes the zone's wall clock in that key's pattern |
| DateParser.ParseRendered | shared/dateParser.js:23-70 | parsing a rendered wall clock reports its pattern and what the pattern keeps of the clock |
| DateParser.FormatThenParse | shared/dateParser.js:128-138 | format then parse in one zone reports the pattern again, with the instant the pattern keeps (EU needs a day above 12) |
| DateParser.FormatThenParseToSecond | shared/dateParser.js:10 | with `yyyy-MM-dd HH:mm:ss` the round trip gives the instant back to the second |
| DateParser.EuRoundTripSwaps | shared/dateParser.js:44-46 | a day-first text whose day is 12 or less comes back as US with day and month swapped |
| DateParser.ParseThenFormat | shared/dateParser.js:23-70 | formatting a parsed fixed-width text in its reported pattern gives the trimmed text back |
| DateParser.ValidateDateRange | shared/dateParser.js:146-156 | valid exactly when both dates are valid and the start is not after the end, with the code's two messages |
| DateParser.RangeAntisymmetric | shared/dateParser.js:151 | a range valid in both directions is a single instant |
| DateParser.YearMonthText | shared/dateParser.js:86-91 | the regex captures the year and month a zero-padded `yyyy-MM` text spells |
| DateParser.YearMonthSpelled | shared/dateParser.js:86-91 | a text the regex matches is exactly the zero-padded captured year, '-', and the captured month at the width it was written in |
| DateParser.MonthStart | shared/dateParser.js:95 | the first of a month at midnight is a valid wall clock |
| DateParser.ParseMonthAsWritten | shared/dateParser.js:78-119 | the code's `parseMonth`: "Month string is required" for a missing or empty input; success exactly when the regex path or `parseDate` succeeds, always at midnight of a first of a month in `zone`; the regex path gives the first of the captured month, with years 0 to 99 read as 1900 to 1999, as `YYYY-MM`; otherwise "Invalid month format" |
| DateParser.ParseMonth | shared/dateParser.js:78-119 | the intended `parseMonth`: the same outcomes, with the code's errors, and success at the first of a month in `zone` |
| DateParser.MonthFromYearMonth | shared/dateParser.js:86-98 | a `yyyy-M` or `yyyy-MM` text with month 1 to 12 is the first of that month in `zone`, reported as `YYYY-MM` |
| DateParser.MonthFromDate | shared/dateParser.js:103-111 | any other parseable text is the first of the month of the date it reads, with `parseDate`'s format |
| DateParser.OneOrTwoDigitMonth | shared/dateParser.js:86 | a one-digit month parses like the same month written with two digits |
| DateParser.September2025 | shared/dateParser.js:86-98 | "2025-9" and "2025-09" are both the first of September 2025 |
| DateParser.AsWrittenFallback | shared/dateParser.js:104-110 | the code's fallback builds the month start from the host's local fields of the parsed instant |
| DateParser.AsWrittenAgreesInHostZone | shared/dateParser.js:103-111 | with the host in `zone` and no year 0 to 99, the code's and the intended `parseMonth` agree |
| DateParser.HostZoneTruncation | shared/dateParser.js:107-109 | "09/01/2025" parsed nine hours east on a UTC host becomes the first of August |
| DateParser.MonthOfSeptemberFirst | shared/dateParser.js:103-110 | the intended parser keeps September for "09/01/2025" in every zone |
| DateParser.EarlyYearShift | shared/dateParser.js:95 | "0025-03" is March 1925 as written and March of year 25 as intended |
| RangeRoute.HumanReadable | server/index.js:206 | "1 day" exactly for one day, and otherwise the count followed by " days" |
| RangeRoute.HumanReadableCount | server/index.js:206 | the first word of the phrase is the day count |
| RangeRoute.DurationOf | server/index.js:187-189 | the whole days and whole hours in the span, each rounded down |
| RangeRoute.HoursWithinDays | server/index.js:188-189 | the hour count lies between 24 times the days and 24 times one day more |
| RangeRoute.Judge | server/index.js:156-209 | the start is reported before the end; only two parsed dates are compared; a valid range reports both texts, instants, formats, the duration and the zone |
| RangeRoute.ValidateRange | server/index.js:147-209 | a missing or empty field gives the "required" response; otherwise the response is the judgement of both parses |
| RangeRoute.ParsedInstantValid | server/index.js:175 | with a reference year from 50 to 9950 every parsed date is a valid JavaScript date |
| RangeRoute.RangeOnlyRefusedBackwards | server/index.js:175-184 | two parsed dates make a range exactly when the start is not after the end, and otherwise the refusal is "Start date cannot be after end date" |
| RangeRoute.SameDateRange | server/index.js:186-206 | a text given as both ends is "0 days" of 0 hours |
| RangeRoute.MidnightsApart | server/index.js:187-189 | between midnights of two dates in one zone lie as many whole days as the dates are apart, 24 hours each |
| RangeRoute.DateOnlyRangeDays | server/index.js:187-189 | for two texts with no time of day, the duration is the number of calendar days between their dates, in any zone |
| RangeRoute.IsoRange | server/index.js:156-209 | two `yyyy-MM-dd` texts give a range of the days between them, or are refused as backwards |
| RangeRoute.OneDayRange | server/index.js:206 | 1 to 2 January 2025 is "1 day", 24 hours, in any zone |
| RangeRoute.NewYearToItself | server/index.js:206 | 1 January 2025 to itself is "0 days" |
| RangeRoute.BackwardsRange | server/index.js:177-183 | 1 February back to 1 January 2025 is refused as starting after its end |
| RangeRoute.DailyPageDateShape | server/index.js:217 | the daily page date of digit segments is a `yyyy-MM-dd` text of their numbers with nothing to trim |
| RangeRoute.DailyPageDateParses | server/index.js:217-221 | that text parses in UTC exactly when the numbers name a calendar date, and then as ISO midnight UTC of it |
| RangeRoute.MonthlyPageKeyParses | server/index.js:257-261 | the monthly page key of a four-digit year and a month 1 to 12 parses with the code's `parseMonth`, on any host, to the first of that month in UTC, years 0 to 99 read as 1900 to 1999; the intended `parseMonth` gives the first of the month as written |
| MobileValidation.ParseDatePreTrimmed | mobile/utils/validation.js:19 | handing `parseDate` the trimmed input changes nothing |
| MobileValidation.ValidateDateInput | mobile/utils/validation.js:10-42 | a blank input is "required"; otherwise it is accepted exactly when `parseDate` succeeds with a valid date, with the four renderings of the zone's wall clock, the instant and the format, or rejected with the parser's error and the pattern list |
| MobileValidation.BlankDate | mobile/utils/validation.js:11-17 | a blank input is "Date is required", where `parseDate` alone would give the format error |
| MobileValidation.IsoRenderingReparses | mobile/utils/validation.js:26 | the `iso` rendering of an accepted date-only input parses back to the same instant, as ISO |
| MobileValidation.MidnightReparses | mobile/utils/validation.js:26 | a midnight written as ISO parses back in its zone as the same instant |
| MobileValidation.MonthNameOneWord | mobile/utils/validation.js:74 | no month name contains a space |
| MobileValidation.NaturalFirstWord | mobile/utils/validation.js:74 | the first word of the NATURAL rendering is the month's name |
| MobileValidation.Describe | mobile/utils/validation.js:61-76 | an accepted month carries the instant, the format, year and month from the given fields, and the zone's month name in both texts |
| MobileValidation.ValidateMonthInputAsWritten | mobile/utils/validation.js:50-84 | the code's validator: "Month is required" for a blank input; a rejection carries "Invalid month format"; an acceptance is the description of the code's `parseMonth` result, with `yearMonth`, the display year and `monthInfo` taken from the host's fields of the instant, the month name from the zone, and the parser's format |
| MobileValidation.ValidateMonthInput | mobile/utils/validation.js:50-84 | the intended validator: every field describes the one month parsed in `zone`, and the name is that month's |
| MobileValidation.ParseMonthPreTrimmed | mobile/utils/validation.js:59 | handing `parseMonth` the trimmed input changes nothing |
| MobileValidation.MonthInputAgreesInHostZone | mobile/utils/validation.js:59-76 | with the host in `zone` and no year 0 to 99, the code's and the intended validators agree |
| MobileValidation.HostMonthSkew | mobile/utils/validation.js:66-74 | "2025-01" in UTC, on a device five hours west, is described as "2024-12", "January 2024", month 12 named January |
| MobileValidation.JanuaryDescribed | mobile/utils/validation.js:66-74 | the intended validator describes "2025-01" as "2025-01", "January 2025", month 1 named January, in any zone |

## Left out

- Catalogue.Read: each pattern is read strictly, with the field widths and spelling the pattern writes. Any leniency of date-fns `parse` beyond that is not modelled.
- Catalogue.Read: the ISO entry is `parseISO` restricted to ISO 8601 calendar dates in extended format (ISO 8601:2004, section 4.1.2.2). Other forms `parseISO` may accept are not modelled.
- Catalogue.RenderRead: stated only for the fixed-width patterns. `MMMM d, yyyy` also reads a two-digit day with a leading zero that `format` never writes.
- DateParser.KeyOrIso: a property name every object inherits from `Object.prototype` (`toString`, `constructor`, `__proto__`, …) is treated like any key `DATE_FORMATS` lacks. The code finds a truthy inherited value there, skips the ISO fallback and hands it to `format`, which throws; that path is not modelled.
- DateParser.FormatDate: for the inherited property names above the model writes ISO, where the code throws inside `format`.
- DateParser.FormatThenParse: only for years 1 to 9999. The `yyyy` token writes the year of the era, so years 0 and below do not read back.
- RangeRoute.ParsedInstantValid: needs a reference year from 50 to 9950, so that the `yy` window stays within years 0 to 9999.
- RangeRoute.DailyPageDateParses: only for digit path segments of the usual widths. Other segments go to `parseDate` like any other text.
- Time zones are fixed offsets from UTC. IANA zone names, daylight-saving rules and unknown zone names are not modelled.
- Milliseconds: every parsed instant is a whole second, and no pattern writes milliseconds, so `InZone` drops them.
- `Math.floor` on floating-point division is integer division. The range handler divides only a non-negative difference, and every parsed instant is an exact integer well inside the range of doubles.
- Non-string request fields and inputs are not modelled: they are `None`, the same as a missing field.
- `toISOString`: a refused range carries the two instants, not their ISO strings.
- HTTP status codes, Express, the settings store and the file lookups of the page routes are not modelled. So are `debounce` and `getDateFormatExamples` in the mobile utilities.
- The current date: `new Date()` as date-fns's reference date is the `refYear` parameter.

## Findings

| source | as written | input that shows it | evidently intended | confidence | as-written member | corrected member |
|---|---|---|---|---|---|---|
| shared/dateParser.js:107-109 | the fallback cuts the parsed instant to the first of its month using the host's local `getFullYear`/`getMonth` | "09/01/2025" with timezone nine hours east of UTC, on a host running in UTC, gives the first of August | the first of the month the date names, in the requested timezone: September | not executed | DateParser.HostZoneTruncation | DateParser.MonthFromDate |
| shared/dateParser.js:95 | `new Date(year, month - 1, 1)` turns years 0 to 99 into 1900 to 1999 | "0025-03" gives March 1925 | the year as written: March of year 25 | not executed | DateParser.EarlyYearShift | DateParser.MonthFromYearMonth |
| mobile/utils/validation.js:66-74 | `yearMonth`, the display year and `monthInfo` read the device's local fields, while the month name comes from `formatDate` in the timezone | "2025-01" with timezone UTC on a device five hours west of UTC gives "2024-12", "January 2024" and month 12 named January | every field describes the month parsed in the timezone: "2025-01", "January 2025", month 1 | not executed | MobileValidation.HostMonthSkew | MobileValidation.ValidateMonthInput |
