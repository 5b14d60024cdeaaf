/** The catalogue of accepted date formats (`DATE_FORMATS`) and, for each entry, a strict
    reader and a renderer of its pattern.

    A reader accepts exactly the text its pattern describes, field widths and separators
    included, and only when the fields form a valid calendar date and time; it yields the
    wall clock the text spells out. A renderer writes a wall clock in the pattern. The two
    are proved to be inverse in both directions. */
module Catalogue {
  import opened Wrappers
  import opened Text
  import opened Civil

  /** The keys of `DATE_FORMATS`. */
  datatype FormatKey = ISO | ISO_DATETIME | US | EU | SHORT | NATURAL

  /** The keys in the order `DATE_FORMATS` declares them (and `Object.values` lists them). */
  const Keys: seq<FormatKey> := [ISO, ISO_DATETIME, US, EU, SHORT, NATURAL]

  function KeyName(k: FormatKey): string {
    match k
    case ISO => "ISO"
    case ISO_DATETIME => "ISO_DATETIME"
    case US => "US"
    case EU => "EU"
    case SHORT => "SHORT"
    case NATURAL => "NATURAL"
  }

  /** The date-fns pattern `DATE_FORMATS` maps each key to. */
  function Pattern(k: FormatKey): string {
    match k
    case ISO => "yyyy-MM-dd"
    case ISO_DATETIME => "yyyy-MM-dd HH:mm:ss"
    case US => "MM/dd/yyyy"
    case EU => "dd/MM/yyyy"
    case SHORT => "MM/dd/yy"
    case NATURAL => "MMMM d, yyyy"
  }

  /** `Object.values(DATE_FORMATS)`. */
  function Patterns(): seq<string> {
    seq(|Keys|, i requires 0 <= i < |Keys| => Pattern(Keys[i]))
  }

  /** `Object.values(DATE_FORMATS)` lists the six patterns in declaration order. */
  lemma PatternsListed()
    ensures Patterns() == ["yyyy-MM-dd", "yyyy-MM-dd HH:mm:ss", "MM/dd/yyyy", "dd/MM/yyyy",
                           "MM/dd/yy", "MMMM d, yyyy"]
  {
  }

  /** `DATE_FORMATS[name]`: the key spelled `name`, if there is one. */
  function Lookup(name: string): (r: Option<FormatKey>)
    ensures r.Some? ==> KeyName(r.value) == name
    ensures r.None? ==> forall k: FormatKey :: KeyName(k) != name
  {
    if name == "ISO" then Some(ISO)
    else if name == "ISO_DATETIME" then Some(ISO_DATETIME)
    else if name == "US" then Some(US)
    else if name == "EU" then Some(EU)
    else if name == "SHORT" then Some(SHORT)
    else if name == "NATURAL" then Some(NATURAL)
    else None
  }

  /** Looking up a key's own name finds that key. */
  lemma LookupKeyName(k: FormatKey)
    ensures Lookup(KeyName(k)) == Some(k)
  {
  }

  // ---------------------------------------------------------------------------------------
  // Fields

  function MonthName(m: int): string
    requires 1 <= m <= 12
  {
    ["January", "February", "March", "April", "May", "June", "July", "August", "September",
     "October", "November", "December"][m - 1]
  }

  /** The month whose name starts with the three letters `a` (0 when there is none). */
  function MonthOfAbbreviation(a: string): int {
    if a == "Jan" then 1 else if a == "Feb" then 2 else if a == "Mar" then 3
    else if a == "Apr" then 4 else if a == "May" then 5 else if a == "Jun" then 6
    else if a == "Jul" then 7 else if a == "Aug" then 8 else if a == "Sep" then 9
    else if a == "Oct" then 10 else if a == "Nov" then 11 else if a == "Dec" then 12 else 0
  }

  lemma MonthAbbreviation(m: int)
    requires 1 <= m <= 12
    ensures |MonthName(m)| >= 3 && MonthOfAbbreviation(MonthName(m)[..3]) == m
  {
    var names := ["January", "February", "March", "April", "May", "June", "July", "August",
                  "September", "October", "November", "December"];
    var abbreviations := ["Jan", "Feb", "Mar", "Apr", "May", "Jun", "Jul", "Aug", "Sep", "Oct",
                          "Nov", "Dec"];
    assert MonthName(m) == names[m - 1];
    assert names[m - 1][..3] == abbreviations[m - 1];
  }

  /** No month name begins another month's name followed by any text: the first three
      letters already tell the months apart. */
  lemma MonthNamesPrefixFree(i: int, j: int, s: string)
    requires 1 <= i <= 12 && 1 <= j <= 12
    requires MonthName(i) <= s && MonthName(j) <= s
    ensures i == j
  {
    MonthAbbreviation(i);
    MonthAbbreviation(j);
    assert MonthName(i)[..3] == s[..3] == MonthName(j)[..3];
  }

  /** The first month, from `m` on, whose English name `s` starts with: the alternation of
      full month names date-fns tries for the `MMMM` token. */
  function LeadingMonth(s: string, m: int): (r: Option<int>)
    requires 1 <= m <= 13
    ensures r.Some? ==> m <= r.value <= 12 && MonthName(r.value) <= s
    ensures r.None? ==> forall j :: m <= j <= 12 ==> !(MonthName(j) <= s)
    decreases 13 - m
  {
    if m == 13 then None
    else if MonthName(m) <= s then Some(m)
    else LeadingMonth(s, m + 1)
  }

  /** The year as the `y` token writes it: the year of the era, so year 0 is 1 BC. */
  function YearOfEra(y: int): nat {
    if y > 0 then y else 1 - y
  }

  /** The year the `yy` token reads two digits as: the one year in the hundred-year window
      around the reference year that ends in those digits. */
  function TwoDigitYear(yy: int, refYear: int): (y: int)
    ensures refYear - 50 <= y <= refYear + 49
    ensures (y - yy) % 100 == 0
  {
    refYear - 50 + (yy - (refYear - 50)) % 100
  }

  /** A year in the window is the one its last two digits read back as. */
  lemma TwoDigitYearOf(y: int, refYear: int)
    requires refYear - 50 <= y <= refYear + 49
    ensures TwoDigitYear(y % 100, refYear) == y
  {
    var b := refYear - 50;
    var y' := TwoDigitYear(y % 100, refYear);
    assert (y' - y) % 100 == 0;
    assert -100 < y' - y < 100;
  }

  predicate DigitsAt(s: string, i: nat, w: nat) {
    i + w <= |s| && AllDigits(s[i..i + w])
  }

  function Number(s: string, i: nat, w: nat): nat
    requires DigitsAt(s, i, w)
  {
    DigitsValue(s[i..i + w])
  }

  /** The reading, provided it is a valid calendar date and time. */
  function Checked(w: DateTime): (r: Option<DateTime>)
    ensures r.Some? <==> Valid(w)
    ensures r.Some? ==> r.value == w
  {
    if Valid(w) then Some(w) else None
  }

  /** The reading of a text with a `yyyy` field, which holds the year of the era: year 0
      is refused along with every invalid date. */
  function CheckedEra(w: DateTime): (r: Option<DateTime>)
    ensures r.Some? <==> Valid(w) && w.year >= 1
    ensures r.Some? ==> r.value == w
  {
    if w.year >= 1 then Checked(w) else None
  }

  // ---------------------------------------------------------------------------------------
  // Readers

  /** `yyyy-MM-dd`. */
  function ReadIso(s: string): Option<DateTime> {
    if |s| == 10 && DigitsAt(s, 0, 4) && s[4] == '-' && DigitsAt(s, 5, 2) && s[7] == '-'
       && DigitsAt(s, 8, 2)
    then Checked(DateTime(Number(s, 0, 4), Number(s, 5, 2), Number(s, 8, 2), 0, 0, 0))
    else None
  }

  /** `yyyy-MM-dd HH:mm:ss`. */
  function ReadIsoDateTime(s: string): Option<DateTime> {
    if |s| == 19 && DigitsAt(s, 0, 4) && s[4] == '-' && DigitsAt(s, 5, 2) && s[7] == '-'
       && DigitsAt(s, 8, 2) && s[10] == ' ' && DigitsAt(s, 11, 2) && s[13] == ':'
       && DigitsAt(s, 14, 2) && s[16] == ':' && DigitsAt(s, 17, 2)
    then CheckedEra(DateTime(Number(s, 0, 4), Number(s, 5, 2), Number(s, 8, 2),
                             Number(s, 11, 2), Number(s, 14, 2), Number(s, 17, 2)))
    else None
  }

  /** The common layout of `MM/dd/yyyy`, `dd/MM/yyyy` and `MM/dd/yy`: two digits, '/', two
      digits, '/', then `yearWidth` digits. */
  predicate SlashShape(s: string, yearWidth: nat) {
    |s| == 6 + yearWidth && DigitsAt(s, 0, 2) && s[2] == '/' && DigitsAt(s, 3, 2) && s[5] == '/'
    && DigitsAt(s, 6, yearWidth)
  }

  /** A ten-character text of digits with slashes at indices 2 and 5 has the four-digit slash
      layout, and its fields are the numbers its digits spell. */
  lemma SlashDigits(s: string)
    requires |s| == 10 && s[2] == '/' && s[5] == '/'
    requires IsDigit(s[0]) && IsDigit(s[1]) && IsDigit(s[3]) && IsDigit(s[4])
    requires IsDigit(s[6]) && IsDigit(s[7]) && IsDigit(s[8]) && IsDigit(s[9])
    ensures SlashShape(s, 4)
    ensures Number(s, 0, 2) == 10 * DigitValue(s[0]) + DigitValue(s[1])
    ensures Number(s, 3, 2) == 10 * DigitValue(s[3]) + DigitValue(s[4])
    ensures Number(s, 6, 4)
      == 1000 * DigitValue(s[6]) + 100 * DigitValue(s[7]) + 10 * DigitValue(s[8]) + DigitValue(s[9])
  {
    DigitsValue2(s[0..2]);
    DigitsValue2(s[3..5]);
    DigitsValue4(s[6..10]);
  }

  /** `MM/dd/yyyy`. */
  function ReadUs(s: string): Option<DateTime> {
    if SlashShape(s, 4)
    then CheckedEra(DateTime(Number(s, 6, 4), Number(s, 0, 2), Number(s, 3, 2), 0, 0, 0))
    else None
  }

  /** `dd/MM/yyyy`. */
  function ReadEu(s: string): Option<DateTime> {
    if SlashShape(s, 4)
    then CheckedEra(DateTime(Number(s, 6, 4), Number(s, 3, 2), Number(s, 0, 2), 0, 0, 0))
    else None
  }

  /** `MM/dd/yy`, the century taken from the window around the reference year. */
  function ReadShort(s: string, refYear: int): Option<DateTime> {
    if SlashShape(s, 2)
    then Checked(DateTime(TwoDigitYear(Number(s, 6, 2), refYear), Number(s, 0, 2),
                          Number(s, 3, 2), 0, 0, 0))
    else None
  }

  /** How many digits the `d` token takes at index 1 of `t`: two when there are two. */
  function DayWidth(t: string): nat {
    if |t| >= 3 && IsDigit(t[1]) && IsDigit(t[2]) then 2 else 1
  }

  /** `MMMM d, yyyy`: a full month name, a space, a day of one or two digits, a comma, a
      space and a four-digit year. */
  function ReadNatural(s: string): Option<DateTime> {
    match LeadingMonth(s, 1)
    case None => None
    case Some(m) =>
      var t := s[|MonthName(m)|..];
      var n := DayWidth(t);
      if |t| == n + 7 && t[0] == ' ' && DigitsAt(t, 1, n) && t[n + 1] == ',' && t[n + 2] == ' '
         && DigitsAt(t, n + 3, 4)
      then CheckedEra(DateTime(Number(t, n + 3, 4), m, Number(t, 1, n), 0, 0, 0))
      else None
  }

  /** date-fns `parse(s, DATE_FORMATS[k], referenceDate)` followed by `isValid`, read
      strictly; `refYear` is the year of the reference date. The ISO entry stands for
      `parseISO` restricted to calendar dates in extended format (ISO 8601, section
      4.1.2.2). */
  function Read(k: FormatKey, s: string, refYear: int): (r: Option<DateTime>)
    ensures r.Some? ==> Valid(r.value)
  {
    match k
    case ISO => ReadIso(s)
    case ISO_DATETIME => ReadIsoDateTime(s)
    case US => ReadUs(s)
    case EU => ReadEu(s)
    case SHORT => ReadShort(s, refYear)
    case NATURAL => ReadNatural(s)
  }

  /** What a reading can be: a four-digit year, at least 1 where `parse` reads the year of
      the era and possibly 0 for `parseISO`, or a year in the two-digit window; and midnight
      unless the pattern has a time of day. */
  lemma ReadBounds(k: FormatKey, s: string, refYear: int)
    requires Read(k, s, refYear).Some?
    ensures k != SHORT ==> 0 <= Read(k, s, refYear).value.year <= 9999
    ensures k != SHORT && k != ISO ==> 1 <= Read(k, s, refYear).value.year
    ensures k == SHORT ==> refYear - 50 <= Read(k, s, refYear).value.year <= refYear + 49
    ensures k != ISO_DATETIME ==> Read(k, s, refYear).value == StartOfDay(DateOf(Read(k, s, refYear).value))
  {
  }

  // ---------------------------------------------------------------------------------------
  // Renderers

  /** The `yyyy` field: the year of the era, at least four digits. */
  function Year4(w: DateTime): string {
    ZeroPad(YearOfEra(w.year), 4)
  }

  /** `yyyy-MM-dd`. */
  function RenderIso(w: DateTime): string
    requires Valid(w)
  {
    Year4(w) + "-" + ZeroPad(w.month, 2) + "-" + ZeroPad(w.day, 2)
  }

  /** `yyyy-MM-dd HH:mm:ss`. */
  function RenderIsoDateTime(w: DateTime): string
    requires Valid(w)
  {
    RenderIso(w) + " " + ZeroPad(w.hour, 2) + ":" + ZeroPad(w.minute, 2) + ":"
      + ZeroPad(w.second, 2)
  }

  /** `a/b/c`, the layout of `MM/dd/yyyy`, `dd/MM/yyyy` and `MM/dd/yy`. */
  function Slashed(a: string, b: string, c: string): string {
    a + "/" + b + "/" + c
  }

  /** `MMMM d, yyyy`. */
  function RenderNatural(w: DateTime): string
    requires Valid(w)
  {
    MonthName(w.month) + (" " + NatToDecimal(w.day) + ", " + Year4(w))
  }

  /** date-fns `format(w, DATE_FORMATS[k])` on a date whose local fields are `w`. */
  function Render(k: FormatKey, w: DateTime): string
    requires Valid(w)
  {
    match k
    case ISO => RenderIso(w)
    case ISO_DATETIME => RenderIsoDateTime(w)
    case US => Slashed(ZeroPad(w.month, 2), ZeroPad(w.day, 2), Year4(w))
    case EU => Slashed(ZeroPad(w.day, 2), ZeroPad(w.month, 2), Year4(w))
    case SHORT => Slashed(ZeroPad(w.month, 2), ZeroPad(w.day, 2), ZeroPad(YearOfEra(w.year) % 100, 2))
    case NATURAL => RenderNatural(w)
  }

  /** What a format keeps of a wall clock: the whole reading for `yyyy-MM-dd HH:mm:ss`,
      midnight of the date for every date-only pattern. */
  function Kept(k: FormatKey, w: DateTime): DateTime {
    if k == ISO_DATETIME then w else StartOfDay(DateOf(w))
  }

  /** The years a format renders so that they read back: four-digit years of the common era,
      and for `yy` also inside the reference year's window. */
  predicate Renderable(k: FormatKey, w: DateTime, refYear: int) {
    Valid(w) && 1 <= w.year <= 9999
    && (k == SHORT ==> refYear - 50 <= w.year <= refYear + 49)
  }

  // ---------------------------------------------------------------------------------------
  // Rendering then reading

  /** The fixed-width fields of a renderable wall clock. */
  lemma FieldsFixed(w: DateTime)
    requires Valid(w) && 1 <= w.year <= 9999
    ensures |Year4(w)| == 4 && AllDigits(Year4(w))
    ensures DigitsValue(Year4(w)) == w.year
    ensures |ZeroPad(w.month, 2)| == 2 && AllDigits(ZeroPad(w.month, 2))
    ensures DigitsValue(ZeroPad(w.month, 2)) == w.month
    ensures |ZeroPad(w.day, 2)| == 2 && AllDigits(ZeroPad(w.day, 2))
    ensures DigitsValue(ZeroPad(w.day, 2)) == w.day
  {
    ZeroPadFixed(YearOfEra(w.year), 4);
    ZeroPadFixed(w.month, 2);
    ZeroPadFixed(w.day, 2);
  }

  /** `y-m-d` with a four-digit `y` and two-digit `m` and `d` has its fields in place. */
  lemma DashParts(y: string, m: string, d: string)
    requires |y| == 4 && |m| == 2 && |d| == 2
    ensures var s := y + "-" + m + "-" + d;
      |s| == 10 && s[0..4] == y && s[4] == '-' && s[5..7] == m && s[7] == '-' && s[8..10] == d
  {
    var s := y + "-" + m + "-" + d;
    assert s[0..4] == y && s[5..7] == m && s[8..10] == d;
  }

  /** `date h:m:s` with a ten-character date and two-digit fields has its fields in place. */
  lemma ClockParts(date: string, h: string, m: string, sec: string)
    requires |date| == 10 && |h| == 2 && |m| == 2 && |sec| == 2
    ensures var s := date + " " + h + ":" + m + ":" + sec;
      |s| == 19 && s[..10] == date && s[10] == ' ' && s[11..13] == h && s[13] == ':'
      && s[14..16] == m && s[16] == ':' && s[17..19] == sec
  {
    var s := date + " " + h + ":" + m + ":" + sec;
    assert s[..10] == date && s[11..13] == h && s[14..16] == m && s[17..19] == sec;
  }

  /** A `yyyy-MM-dd` text put together from digit fields reads as those fields. */
  lemma ReadIsoParts(y: string, m: string, d: string)
    requires |y| == 4 && |m| == 2 && |d| == 2 && AllDigits(y) && AllDigits(m) && AllDigits(d)
    ensures ReadIso(y + "-" + m + "-" + d)
      == Checked(DateTime(DigitsValue(y), DigitsValue(m), DigitsValue(d), 0, 0, 0))
  {
    var s := y + "-" + m + "-" + d;
    DashParts(y, m, d);
    assert DigitsAt(s, 0, 4) && DigitsAt(s, 5, 2) && DigitsAt(s, 8, 2);
    assert Number(s, 0, 4) == DigitsValue(y) && Number(s, 5, 2) == DigitsValue(m);
    assert Number(s, 8, 2) == DigitsValue(d);
  }

  lemma {:induction false} ReadRenderIso(w: DateTime)
    requires Valid(w) && 1 <= w.year <= 9999
    ensures ReadIso(RenderIso(w)) == Some(StartOfDay(DateOf(w)))
  {
    FieldsFixed(w);
    ReadIsoParts(Year4(w), ZeroPad(w.month, 2), ZeroPad(w.day, 2));
    assert Valid(StartOfDay(DateOf(w)));
  }

  /** A `yyyy-MM-dd HH:mm:ss` text put together from digit fields reads as those fields. */
  lemma ReadIsoDateTimeParts(date: string, h: string, mi: string, sec: string)
    requires |date| == 10 && date[4] == '-' && date[7] == '-'
    requires DigitsAt(date, 0, 4) && DigitsAt(date, 5, 2) && DigitsAt(date, 8, 2)
    requires |h| == 2 && |mi| == 2 && |sec| == 2 && AllDigits(h) && AllDigits(mi) && AllDigits(sec)
    ensures ReadIsoDateTime(date + " " + h + ":" + mi + ":" + sec)
      == CheckedEra(DateTime(Number(date, 0, 4), Number(date, 5, 2), Number(date, 8, 2),
                             DigitsValue(h), DigitsValue(mi), DigitsValue(sec)))
  {
    var s := date + " " + h + ":" + mi + ":" + sec;
    ClockParts(date, h, mi, sec);
    assert s[0..4] == date[0..4] && s[5..7] == date[5..7] && s[8..10] == date[8..10];
    assert s[4] == '-' && s[7] == '-';
    assert DigitsAt(s, 0, 4) && DigitsAt(s, 5, 2) && DigitsAt(s, 8, 2);
    assert DigitsAt(s, 11, 2) && DigitsAt(s, 14, 2) && DigitsAt(s, 17, 2);
    assert Number(s, 0, 4) == Number(date, 0, 4) && Number(s, 5, 2) == Number(date, 5, 2);
    assert Number(s, 8, 2) == Number(date, 8, 2);
    assert Number(s, 11, 2) == DigitsValue(h) && Number(s, 14, 2) == DigitsValue(mi);
    assert Number(s, 17, 2) == DigitsValue(sec);
  }

  lemma {:induction false} ReadRenderIsoDateTime(w: DateTime)
    requires Valid(w) && 1 <= w.year <= 9999
    ensures ReadIsoDateTime(RenderIsoDateTime(w)) == Some(w)
  {
    FieldsFixed(w);
    ZeroPadFixed(w.hour, 2);
    ZeroPadFixed(w.minute, 2);
    ZeroPadFixed(w.second, 2);
    var date := RenderIso(w);
    DashParts(Year4(w), ZeroPad(w.month, 2), ZeroPad(w.day, 2));
    assert DigitsAt(date, 0, 4) && DigitsAt(date, 5, 2) && DigitsAt(date, 8, 2);
    assert Number(date, 0, 4) == w.year && Number(date, 5, 2) == w.month;
    assert Number(date, 8, 2) == w.day;
    ReadIsoDateTimeParts(date, ZeroPad(w.hour, 2), ZeroPad(w.minute, 2), ZeroPad(w.second, 2));
  }

  /** `a/b/c` with two-digit `a` and `b` has the slash layout, with the fields in place. */
  lemma SlashParts(a: string, b: string, c: string)
    requires |a| == 2 && |b| == 2 && AllDigits(a) && AllDigits(b) && AllDigits(c)
    ensures SlashShape(a + "/" + b + "/" + c, |c|)
    ensures var s := a + "/" + b + "/" + c; s[0..2] == a && s[3..5] == b && s[6..6 + |c|] == c
  {
    var s := a + "/" + b + "/" + c;
    assert s[0..2] == a && s[3..5] == b && s[6..6 + |c|] == c;
  }

  /** The numbers in the fields of `a/b/c`. */
  lemma SlashNumbers(a: string, b: string, c: string)
    requires |a| == 2 && |b| == 2 && AllDigits(a) && AllDigits(b) && AllDigits(c)
    ensures SlashShape(a + "/" + b + "/" + c, |c|)
    ensures var s := a + "/" + b + "/" + c;
      Number(s, 0, 2) == DigitsValue(a) && Number(s, 3, 2) == DigitsValue(b)
      && Number(s, 6, |c|) == DigitsValue(c)
  {
    SlashParts(a, b, c);
  }

  /** What the two four-digit-year slash readers make of `a/b/c`. */
  lemma SlashedReads(a: string, b: string, c: string)
    requires |a| == 2 && |b| == 2 && |c| == 4 && AllDigits(a) && AllDigits(b) && AllDigits(c)
    ensures ReadUs(a + "/" + b + "/" + c)
      == CheckedEra(DateTime(DigitsValue(c), DigitsValue(a), DigitsValue(b), 0, 0, 0))
    ensures ReadEu(a + "/" + b + "/" + c)
      == CheckedEra(DateTime(DigitsValue(c), DigitsValue(b), DigitsValue(a), 0, 0, 0))
  {
    SlashNumbers(a, b, c);
  }

  lemma {:induction false} ReadRenderUs(w: DateTime)
    requires Valid(w) && 1 <= w.year <= 9999
    ensures ReadUs(Render(US, w)) == Some(StartOfDay(DateOf(w)))
  {
    FieldsFixed(w);
    SlashedReads(ZeroPad(w.month, 2), ZeroPad(w.day, 2), Year4(w));
    assert Valid(StartOfDay(DateOf(w)));
  }

  lemma {:induction false} ReadRenderEu(w: DateTime)
    requires Valid(w) && 1 <= w.year <= 9999
    ensures ReadEu(Render(EU, w)) == Some(StartOfDay(DateOf(w)))
  {
    FieldsFixed(w);
    SlashedReads(ZeroPad(w.day, 2), ZeroPad(w.month, 2), Year4(w));
    assert Valid(StartOfDay(DateOf(w)));
  }

  lemma {:induction false} ReadRenderShort(w: DateTime, refYear: int)
    requires Valid(w) && 1 <= w.year <= 9999 && refYear - 50 <= w.year <= refYear + 49
    ensures ReadShort(Render(SHORT, w), refYear) == Some(StartOfDay(DateOf(w)))
  {
    FieldsFixed(w);
    ZeroPadFixed(w.year % 100, 2);
    SlashNumbers(ZeroPad(w.month, 2), ZeroPad(w.day, 2), ZeroPad(w.year % 100, 2));
    TwoDigitYearOf(w.year, refYear);
    assert Valid(StartOfDay(DateOf(w)));
  }

  /** The text after the month name in `MMMM d, yyyy`, with its fields in place. */
  lemma NaturalTail(d: string, y: string)
    requires 1 <= |d| <= 2 && AllDigits(d) && |y| == 4 && AllDigits(y)
    ensures var t := " " + d + ", " + y;
      DayWidth(t) == |d| && |t| == |d| + 7 && t[0] == ' ' && t[1..1 + |d|] == d
      && t[|d| + 1] == ',' && t[|d| + 2] == ' ' && t[|d| + 3..|d| + 7] == y
  {
    var t := " " + d + ", " + y;
    assert t[1..1 + |d|] == d && t[|d| + 3..|d| + 7] == y;
    assert t[1] == d[0];
    if |d| == 2 { assert t[2] == d[1]; } else { assert t[2] == ','; }
  }

  /** A `MMMM d, yyyy` text put together from a month's name and digit fields reads as
      that month and those fields. */
  lemma {:induction false} ReadNaturalParts(m: int, d: string, y: string)
    requires 1 <= m <= 12 && 1 <= |d| <= 2 && AllDigits(d) && |y| == 4 && AllDigits(y)
    ensures ReadNatural(MonthName(m) + (" " + d + ", " + y))
      == CheckedEra(DateTime(DigitsValue(y), m, DigitsValue(d), 0, 0, 0))
  {
    var name, t := MonthName(m), " " + d + ", " + y;
    var s := name + t;
    NaturalTail(d, y);
    assert name <= s;
    var lm := LeadingMonth(s, 1);
    MonthNamesPrefixFree(lm.value, m, s);
    assert s[|name|..] == t;
    var n := |d|;
    assert DigitsAt(t, 1, n) && DigitsAt(t, n + 3, 4);
    assert Number(t, 1, n) == DigitsValue(d) && Number(t, n + 3, 4) == DigitsValue(y);
  }

  lemma {:induction false} ReadRenderNatural(w: DateTime)
    requires Valid(w) && 1 <= w.year <= 9999
    ensures ReadNatural(RenderNatural(w)) == Some(StartOfDay(DateOf(w)))
  {
    FieldsFixed(w);
    DecimalFits(w.day, 2);
    ReadNaturalParts(w.month, NatToDecimal(w.day), Year4(w));
    assert Valid(StartOfDay(DateOf(w)));
  }

  /** Reading what a format renders gives back what the format keeps of the wall clock:
      the date, and for `yyyy-MM-dd HH:mm:ss` the time to the second. */
  lemma ReadRender(k: FormatKey, w: DateTime, refYear: int)
    requires Renderable(k, w, refYear)
    ensures Read(k, Render(k, w), refYear) == Some(Kept(k, w))
  {
    match k
    case ISO => ReadRenderIso(w);
    case ISO_DATETIME => ReadRenderIsoDateTime(w);
    case US => ReadRenderUs(w);
    case EU => ReadRenderEu(w);
    case SHORT => ReadRenderShort(w, refYear);
    case NATURAL => ReadRenderNatural(w);
  }

  // ---------------------------------------------------------------------------------------
  // Reading then rendering: the fixed-width patterns are strict

  /** A fixed-width digit field renders back, zero padded, as the text it was read from. */
  lemma {:induction false} FieldBack(s: string, i: nat, w: nat)
    requires 1 <= w && DigitsAt(s, i, w)
    ensures ZeroPad(Number(s, i, w), w) == s[i..i + w]
  {
    ZeroPadFixed(Number(s, i, w), w);
    DigitsInjective(ZeroPad(Number(s, i, w), w), s[i..i + w]);
  }

  lemma DashJoin(s: string)
    requires |s| == 10 && s[4] == '-' && s[7] == '-'
    ensures s == s[0..4] + "-" + s[5..7] + "-" + s[8..10]
  {
    assert s == s[0..4] + [s[4]] + s[5..7] + [s[7]] + s[8..10];
  }

  lemma ClockJoin(s: string)
    requires |s| == 19 && s[10] == ' ' && s[13] == ':' && s[16] == ':'
    ensures s == s[..10] + " " + s[11..13] + ":" + s[14..16] + ":" + s[17..19]
  {
    assert s == s[..10] + [s[10]] + s[11..13] + [s[13]] + s[14..16] + [s[16]] + s[17..19];
  }

  lemma SlashJoin(s: string, yearWidth: nat)
    requires SlashShape(s, yearWidth)
    ensures s == s[0..2] + "/" + s[3..5] + "/" + s[6..6 + yearWidth]
  {
    assert s == s[0..2] + [s[2]] + s[3..5] + [s[5]] + s[6..6 + yearWidth];
  }

  lemma {:induction false} RenderReadIso(s: string)
    requires ReadIso(s).Some? && ReadIso(s).value.year >= 1
    ensures RenderIso(ReadIso(s).value) == s
  {
    var w := ReadIso(s).value;
    assert w.year == Number(s, 0, 4) && w.month == Number(s, 5, 2) && w.day == Number(s, 8, 2);
    FieldBack(s, 0, 4); FieldBack(s, 5, 2); FieldBack(s, 8, 2);
    DashJoin(s);
  }

  lemma {:induction false} RenderReadIsoDateTime(s: string)
    requires ReadIsoDateTime(s).Some? && ReadIsoDateTime(s).value.year >= 1
    ensures RenderIsoDateTime(ReadIsoDateTime(s).value) == s
  {
    var w := ReadIsoDateTime(s).value;
    assert w.year == Number(s, 0, 4) && w.month == Number(s, 5, 2) && w.day == Number(s, 8, 2);
    assert w.hour == Number(s, 11, 2) && w.minute == Number(s, 14, 2);
    assert w.second == Number(s, 17, 2);
    FieldBack(s, 0, 4); FieldBack(s, 5, 2); FieldBack(s, 8, 2);
    FieldBack(s, 11, 2); FieldBack(s, 14, 2); FieldBack(s, 17, 2);
    var date := s[..10];
    assert date[0..4] == s[0..4] && date[5..7] == s[5..7] && date[8..10] == s[8..10];
    DashJoin(date);
    assert RenderIso(w) == date;
    ClockJoin(s);
  }

  lemma {:induction false} RenderReadUs(s: string)
    requires ReadUs(s).Some? && ReadUs(s).value.year >= 1
    ensures Render(US, ReadUs(s).value) == s
  {
    var w := ReadUs(s).value;
    assert w.year == Number(s, 6, 4) && w.month == Number(s, 0, 2) && w.day == Number(s, 3, 2);
    FieldBack(s, 0, 2); FieldBack(s, 3, 2); FieldBack(s, 6, 4);
    SlashJoin(s, 4);
  }

  lemma {:induction false} RenderReadEu(s: string)
    requires ReadEu(s).Some? && ReadEu(s).value.year >= 1
    ensures Render(EU, ReadEu(s).value) == s
  {
    var w := ReadEu(s).value;
    assert w.year == Number(s, 6, 4) && w.month == Number(s, 3, 2) && w.day == Number(s, 0, 2);
    FieldBack(s, 0, 2); FieldBack(s, 3, 2); FieldBack(s, 6, 4);
    SlashJoin(s, 4);
  }

  lemma {:induction false} RenderReadShort(s: string, refYear: int)
    requires ReadShort(s, refYear).Some? && ReadShort(s, refYear).value.year >= 1
    ensures Render(SHORT, ReadShort(s, refYear).value) == s
  {
    var w := ReadShort(s, refYear).value;
    var mm, dd, yy := Number(s, 0, 2), Number(s, 3, 2), Number(s, 6, 2);
    assert w == DateTime(TwoDigitYear(yy, refYear), mm, dd, 0, 0, 0);
    assert YearOfEra(w.year) == w.year;
    LastTwoDigits(w.year, yy);
    FieldBack(s, 0, 2); FieldBack(s, 3, 2); FieldBack(s, 6, 2);
    assert Render(SHORT, w) == Slashed(ZeroPad(mm, 2), ZeroPad(dd, 2), ZeroPad(yy, 2));
    SlashJoin(s, 2);
  }

  /** A year that differs from a two-digit number by whole centuries ends in that number. */
  lemma LastTwoDigits(y: int, yy: int)
    requires 0 <= yy < 100 && (y - yy) % 100 == 0
    ensures y % 100 == yy
  {
    var k := (y - yy) / 100;
    assert y == 100 * k + yy;
    DivMod100(k, yy);
  }

  /** A string any fixed-width pattern accepts is exactly what that pattern renders for the
      date it reads (years of the common era): no other spelling of the same date is
      accepted. */
  lemma RenderRead(k: FormatKey, s: string, refYear: int)
    requires k != NATURAL
    requires Read(k, s, refYear).Some? && Read(k, s, refYear).value.year >= 1
    ensures Render(k, Read(k, s, refYear).value) == s
  {
    if k == ISO {
      RenderReadIso(s);
    } else if k == ISO_DATETIME {
      RenderReadIsoDateTime(s);
    } else if k == US {
      RenderReadUs(s);
    } else if k == EU {
      RenderReadEu(s);
    } else {
      RenderReadShort(s, refYear);
    }
  }

  // ---------------------------------------------------------------------------------------
  // Which patterns can accept the same text

  /** Every English month name starts with a capital letter. */
  lemma MonthNameInitial(m: int)
    requires 1 <= m <= 12
    ensures |MonthName(m)| >= 1 && 'A' <= MonthName(m)[0] <= 'Z'
  {
    var names := ["January", "February", "March", "April", "May", "June", "July", "August",
                  "September", "October", "November", "December"];
    assert MonthName(m) == names[m - 1];
    assert names[m - 1][0] in "JFMASOND";
  }

  /** The only two patterns that accept a common text are `MM/dd/yyyy` and `dd/MM/yyyy`:
      every other pair differs in length, in a separator or in the leading character. */
  lemma {:induction false} OnlyUsAndEuOverlap(k1: FormatKey, k2: FormatKey, s: string, refYear: int)
    requires k1 != k2 && Read(k1, s, refYear).Some? && Read(k2, s, refYear).Some?
    ensures {k1, k2} == {US, EU}
  {
    if k1 == NATURAL || k2 == NATURAL {
      var m := LeadingMonth(s, 1).value;
      MonthNameInitial(m);
    }
  }

  /** A text `MMMM d, yyyy` reads starts with a capital letter. */
  lemma NaturalStartsWithCapital(s: string)
    requires ReadNatural(s).Some?
    ensures s != [] && 'A' <= s[0] <= 'Z'
  {
    var m := LeadingMonth(s, 1).value;
    MonthNameInitial(m);
    assert s[0] == MonthName(m)[0];
  }

  /** A text with digit fields at its start and at its end starts and ends with a digit. */
  lemma DigitFieldsAtEnds(s: string, w0: nat, i: nat, w: nat)
    requires 1 <= w0 && DigitsAt(s, 0, w0) && 1 <= w && DigitsAt(s, i, w) && i + w == |s|
    ensures s != [] && IsDigit(s[0]) && IsDigit(s[|s| - 1])
  {
    assert s[0..w0][0] == s[0];
    assert s[i..i + w][w - 1] == s[|s| - 1];
  }

  /** A text a fixed-width pattern reads starts and ends with a digit. */
  lemma FixedWidthEnds(k: FormatKey, s: string, refYear: int)
    requires k != NATURAL && Read(k, s, refYear).Some?
    ensures s != [] && IsDigit(s[0]) && IsDigit(s[|s| - 1])
  {
    match k
    case ISO => DigitFieldsAtEnds(s, 4, 8, 2);
    case ISO_DATETIME => DigitFieldsAtEnds(s, 4, 17, 2);
    case US => DigitFieldsAtEnds(s, 2, 6, 4);
    case EU => DigitFieldsAtEnds(s, 2, 6, 4);
    case SHORT => DigitFieldsAtEnds(s, 2, 6, 2);
  }

  /** A text every fixed-width pattern reads starts with a digit. */
  lemma FixedWidthStartsWithDigit(k: FormatKey, s: string, refYear: int)
    requires k != NATURAL && Read(k, s, refYear).Some?
    ensures s != [] && IsDigit(s[0])
  {
    FixedWidthEnds(k, s, refYear);
  }

  /** A text `MMMM d, yyyy` reads ends with the last digit of its year. */
  lemma NaturalEndsWithDigit(s: string)
    requires ReadNatural(s).Some?
    ensures s != [] && IsDigit(s[|s| - 1])
  {
    var t := s[|MonthName(LeadingMonth(s, 1).value)|..];
    var n := DayWidth(t);
    assert s[|s| - 1] == t[|t| - 1] == t[n + 3..n + 7][3];
  }

  /** A text that starts with neither a digit nor a capital letter is read by no pattern. */
  lemma NoPatternReads(s: string, refYear: int, k: FormatKey)
    requires s == [] || (!IsDigit(s[0]) && !('A' <= s[0] <= 'Z'))
    ensures Read(k, s, refYear).None?
  {
    if Read(k, s, refYear).Some? {
      if k == NATURAL {
        NaturalStartsWithCapital(s);
      } else {
        FixedWidthStartsWithDigit(k, s, refYear);
      }
    }
  }

  /** A ten-character text with a digit first and no '/' at index 2 can only be read as
      `yyyy-MM-dd`. */
  lemma OnlyIsoShape(s: string, refYear: int, k: FormatKey)
    requires |s| == 10 && IsDigit(s[0]) && s[2] != '/' && k != ISO
    ensures Read(k, s, refYear).None?
  {
    if k == NATURAL && ReadNatural(s).Some? {
      NaturalStartsWithCapital(s);
    }
  }

  /** A text any pattern reads has nothing for `trim` to remove. */
  lemma ReadTrimmed(k: FormatKey, s: string, refYear: int)
    requires Read(k, s, refYear).Some?
    ensures Trim(s) == s
  {
    ReadEnds(k, s, refYear);
    NotWhitespace(s[0]);
    NotWhitespace(s[|s| - 1]);
    TrimmedAlready(s);
  }

  /** A text any pattern reads starts with a digit or a capital letter and ends with a
      digit. */
  lemma ReadEnds(k: FormatKey, s: string, refYear: int)
    requires Read(k, s, refYear).Some?
    ensures s != [] && (IsDigit(s[0]) || 'A' <= s[0] <= 'Z') && IsDigit(s[|s| - 1])
  {
    if k == NATURAL {
      NaturalStartsWithCapital(s);
      NaturalEndsWithDigit(s);
    } else {
      FixedWidthEnds(k, s, refYear);
    }
  }

  /** A date rendered day first reads month first too when its day could be a month: the
      day and month trade places. */
  lemma {:induction false} EuAsUs(w: DateTime)
    requires Valid(w) && 1 <= w.year <= 9999
    ensures w.day <= 12 ==> ReadUs(Render(EU, w)) == Some(DateTime(w.year, w.day, w.month, 0, 0, 0))
    ensures w.day > 12 ==> ReadUs(Render(EU, w)).None?
  {
    var a, b, c := ZeroPad(w.day, 2), ZeroPad(w.month, 2), Year4(w);
    FieldsFixed(w);
    SlashedReads(a, b, c);
    assert Render(EU, w) == a + "/" + b + "/" + c;
    var v := DateTime(w.year, w.day, w.month, 0, 0, 0);
    assert w.day <= 12 ==> DaysInMonth(v.year, v.month) >= 28 && Valid(v);
  }
}
