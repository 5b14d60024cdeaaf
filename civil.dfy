/** The proleptic Gregorian calendar, wall-clock times, instants and fixed time-zone offsets.

    An instant is an integer count of milliseconds since 1970-01-01T00:00:00Z, as a JavaScript
    `Date` holds it. Civil dates are converted to day numbers by splitting the March-based
    year into 400-year eras, centuries, four-year cycles and single years, and the inverse
    conversion undoes that split; the two are proved to be inverse on valid dates. */
module Civil {

  predicate IsLeapYear(y: int) {
    y % 4 == 0 && (y % 100 != 0 || y % 400 == 0)
  }

  function DaysInMonth(y: int, m: int): (n: int)
    requires 1 <= m <= 12
    ensures 28 <= n <= 31
  {
    if m == 2 then (if IsLeapYear(y) then 29 else 28)
    else if m == 4 || m == 6 || m == 9 || m == 11 then 30
    else 31
  }

  datatype Date = Date(year: int, month: int, day: int)

  /** A calendar-valid date: month 1..12 and a day that exists in that month of that year. */
  predicate ValidDate(d: Date) {
    1 <= d.month <= 12 && 1 <= d.day <= DaysInMonth(d.year, d.month)
  }

  /** A wall-clock reading: the fields of a date and time as written, with no zone attached. */
  datatype DateTime = DateTime(year: int, month: int, day: int, hour: int, minute: int, second: int)

  function DateOf(w: DateTime): Date {
    Date(w.year, w.month, w.day)
  }

  predicate Valid(w: DateTime) {
    ValidDate(DateOf(w)) && 0 <= w.hour < 24 && 0 <= w.minute < 60 && 0 <= w.second < 60
  }

  /** Midnight at the start of a date. */
  function StartOfDay(d: Date): DateTime {
    DateTime(d.year, d.month, d.day, 0, 0, 0)
  }

  // ---------------------------------------------------------------------------------------
  // Day numbers

  const DaysPerEra := 146097    // days in 400 Gregorian years
  const DaysPerCentury := 36524 // days in a March-based century whose last year is not leap
  const DaysPerCycle := 1461    // days in four years, one of them leap
  const EpochShift := 719468    // days from 0000-03-01 to 1970-01-01

  /** Days from March 1 to the first day of the `mp`-th month of a March-based year
      (0 = March, ..., 11 = February, 12 = the next March). */
  function MarchMonthStart(mp: int): int
    requires 0 <= mp <= 12
  {
    [0, 31, 61, 92, 122, 153, 184, 214, 245, 275, 306, 337, 366][mp]
  }

  function MarchIndex(m: int): int
    requires 1 <= m <= 12
  {
    if m > 2 then m - 3 else m + 9
  }

  /** The March-based month that contains day `doy` of a March-based year. */
  function MarchMonthOf(doy: int): (mp: int)
    requires 0 <= doy < 366
    ensures 0 <= mp < 12 && MarchMonthStart(mp) <= doy < MarchMonthStart(mp + 1)
  {
    if doy < 31 then 0 else if doy < 61 then 1 else if doy < 92 then 2
    else if doy < 122 then 3 else if doy < 153 then 4 else if doy < 184 then 5
    else if doy < 214 then 6 else if doy < 245 then 7 else if doy < 275 then 8
    else if doy < 306 then 9 else if doy < 337 then 10 else 11
  }

  /** Days from the start of a 400-year era to the start of its `yoe`-th March-based year. */
  function YearStartInEra(yoe: int): int
    requires 0 <= yoe < 400
  {
    var r := yoe % 100;
    DaysPerCentury * (yoe / 100) + DaysPerCycle * (r / 4) + 365 * (r % 4)
  }

  /** The number of days from 1970-01-01 to `d` (negative before it). */
  function DaysFromCivil(d: Date): int
    requires 1 <= d.month <= 12
  {
    var yp := if d.month <= 2 then d.year - 1 else d.year;
    DaysPerEra * (yp / 400) + YearStartInEra(yp % 400)
      + MarchMonthStart(MarchIndex(d.month)) + d.day - 1 - EpochShift
  }

  /** The unit counts of a day of an era: each within its bounds, and day 365 (the 366th)
      only at the end of a four-year cycle that ends with a leap day. */
  predicate IsEraSplit(c: int, q: int, a: int, doy: int) {
    0 <= c <= 3 && 0 <= q <= 24 && 0 <= a <= 3 && 0 <= doy <= 365
    && (doy == 365 ==> a == 3 && (q < 24 || c == 3))
  }

  /** The day of an era at century `c`, cycle `q`, year `a` and day of year `doy`. */
  function EraDay(c: int, q: int, a: int, doy: int): int {
    DaysPerCentury * c + DaysPerCycle * q + 365 * a + doy
  }

  /** Splits a day of a 400-year era into its century, four-year cycle within the century,
      year within the cycle and day within that (March-based) year: each part within its
      bounds, and together adding back up to the day. */
  function SplitEraDay(doe: int): (r: (int, int, int, int))
    requires 0 <= doe < DaysPerEra
    ensures IsEraSplit(r.0, r.1, r.2, r.3) && EraDay(r.0, r.1, r.2, r.3) == doe
  {
    var c := if doe / DaysPerCentury < 3 then doe / DaysPerCentury else 3;
    var r1 := doe - DaysPerCentury * c;
    assert 0 <= r1 <= DaysPerCentury && (r1 == DaysPerCentury ==> c == 3);
    var q := r1 / DaysPerCycle;
    var r2 := r1 % DaysPerCycle;
    assert r1 == DaysPerCycle * q + r2;
    var a := if r2 / 365 < 3 then r2 / 365 else 3;
    assert r2 - 365 * a == 365 ==> r2 == 1460 && (q == 24 ==> r1 == DaysPerCentury);
    (c, q, a, r2 - 365 * a)
  }

  /** The date at day `doy` of year `100c + 4q + a` of era `era` (years counted from March). */
  function DateOfSplit(era: int, c: int, q: int, a: int, doy: int): Date
    requires 0 <= doy < 366
  {
    var mp := MarchMonthOf(doy);
    var m := if mp < 10 then mp + 3 else mp - 9;
    var yp := 400 * era + 100 * c + 4 * q + a;
    Date(if m <= 2 then yp + 1 else yp, m, doy - MarchMonthStart(mp) + 1)
  }

  /** The date `z` days after 1970-01-01. */
  function CivilFromDays(z: int): Date {
    var n := z + EpochShift;
    var (c, q, a, doy) := SplitEraDay(n % DaysPerEra);
    DateOfSplit(n / DaysPerEra, c, q, a, doy)
  }

  lemma DivMod4(k: int, r: int)
    ensures 0 <= r < 4 ==> (4 * k + r) / 4 == k && (4 * k + r) % 4 == r
  {
  }

  lemma DivMod100(k: int, r: int)
    ensures 0 <= r < 100 ==> (100 * k + r) / 100 == k && (100 * k + r) % 100 == r
  {
  }

  lemma DivMod400(k: int, r: int)
    ensures 0 <= r < 400 ==> (400 * k + r) / 400 == k && (400 * k + r) % 400 == r
  {
  }

  lemma DivMod365(k: int, r: int)
    ensures 0 <= r < 365 ==> (365 * k + r) / 365 == k
  {
  }

  lemma Mod1000(k: int, r: int)
    ensures 0 <= r < 1000 ==> (1000 * k + r) % 1000 == r
  {
  }

  lemma DivModCycle(k: int, r: int)
    ensures 0 <= r < DaysPerCycle ==>
      (DaysPerCycle * k + r) / DaysPerCycle == k && (DaysPerCycle * k + r) % DaysPerCycle == r
  {
  }

  lemma DivCentury(k: int, r: int)
    ensures 0 <= r < DaysPerCentury ==> (DaysPerCentury * k + r) / DaysPerCentury == k
  {
  }

  lemma DivModEra(k: int, r: int)
    ensures 0 <= r < DaysPerEra ==>
      (DaysPerEra * k + r) / DaysPerEra == k && (DaysPerEra * k + r) % DaysPerEra == r
  {
  }

  /** Unit counts within their bounds are exactly what splitting their day gives back. */
  lemma SplitEraDayOf(c: int, q: int, a: int, doy: int)
    requires IsEraSplit(c, q, a, doy)
    ensures 0 <= EraDay(c, q, a, doy) < DaysPerEra
    ensures SplitEraDay(EraDay(c, q, a, doy)) == (c, q, a, doy)
  {
    var doe := EraDay(c, q, a, doy);
    var rest := DaysPerCycle * q + 365 * a + doy;
    assert 0 <= rest <= DaysPerCentury;
    assert rest == DaysPerCentury ==> c == 3;
    if rest < DaysPerCentury {
      DivCentury(c, rest);
    } else {
      assert doe == 146096;
    }
    DivModCycle(q, 365 * a + doy);
    if doy < 365 {
      DivMod365(a, doy);
    }
  }

  /** The start of year `100c + 4q + a` of an era. */
  lemma YearStartSplit(c: int, q: int, a: int)
    requires 0 <= c <= 3 && 0 <= q <= 24 && 0 <= a <= 3
    ensures 0 <= 100 * c + 4 * q + a < 400
    ensures YearStartInEra(100 * c + 4 * q + a) == DaysPerCentury * c + DaysPerCycle * q + 365 * a
  {
    DivMod100(c, 4 * q + a);
    DivMod4(q, a);
  }

  /** A year `400 era + 100c + 4q + 4` is a leap year when it does not end a century, or when
      the century is the last of its era. */
  lemma CycleEndLeap(era: int, c: int, q: int)
    requires 0 <= c <= 3 && 0 <= q <= 24
    requires q < 24 || c == 3
    ensures IsLeapYear(400 * era + 100 * c + 4 * q + 4)
  {
    DivMod4(100 * era + 25 * c + q + 1, 0);
    if q < 24 {
      DivMod100(4 * era + c, 4 * q + 4);
    } else {
      DivMod400(era + 1, 0);
    }
  }

  /** In year `400 era + 100c + 4q + a + 1` of the calendar, a leap year forces `a == 3`, and
      also `c == 3` when `q == 24`. */
  lemma LeapYearSplit(era: int, c: int, q: int, a: int)
    requires 0 <= c <= 3 && 0 <= q <= 24 && 0 <= a <= 3
    requires IsLeapYear(400 * era + 100 * c + 4 * q + a + 1)
    ensures a == 3 && (q < 24 || c == 3)
  {
    var y := 400 * era + 100 * c + 4 * q + a + 1;
    if a < 3 {
      DivMod4(100 * era + 25 * c + q, a + 1);
    } else if q == 24 {
      DivMod100(4 * era + c + 1, 0);
      assert y == 100 * (4 * era + c + 1);
      assert y % 400 == 0;
      DivMod400(era, 100 * c + 100);
    }
  }

  /** The date of a split day is valid and its day number is the split day's. */
  lemma {:induction false} DateOfSplitInverse(era: int, c: int, q: int, a: int, doy: int)
    requires IsEraSplit(c, q, a, doy)
    ensures ValidDate(DateOfSplit(era, c, q, a, doy))
    ensures DaysFromCivil(DateOfSplit(era, c, q, a, doy))
      == DaysPerEra * era + EraDay(c, q, a, doy) - EpochShift
  {
    var mp := MarchMonthOf(doy);
    var m := if mp < 10 then mp + 3 else mp - 9;
    var yoe := 100 * c + 4 * q + a;
    assert MarchIndex(m) == mp;
    YearStartSplit(c, q, a);
    DivMod400(era, yoe);
    if doy == 365 {
      CycleEndLeap(era, c, q);
    }
  }

  /** Every day number names a valid date, and converting that date back gives the same
      day number. */
  lemma {:induction false} CivilFromDaysInverse(z: int)
    ensures ValidDate(CivilFromDays(z))
    ensures DaysFromCivil(CivilFromDays(z)) == z
  {
    var n := z + EpochShift;
    var (c, q, a, doy) := SplitEraDay(n % DaysPerEra);
    DateOfSplitInverse(n / DaysPerEra, c, q, a, doy);
  }

  /** A valid date is the date of the split of its own year and day of year. */
  lemma {:induction false} DateSplit(d: Date) returns (era: int, c: int, q: int, a: int, doy: int)
    requires ValidDate(d)
    ensures IsEraSplit(c, q, a, doy)
    ensures DaysFromCivil(d) + EpochShift == DaysPerEra * era + EraDay(c, q, a, doy)
    ensures DateOfSplit(era, c, q, a, doy) == d
  {
    var yp := if d.month <= 2 then d.year - 1 else d.year;
    era := yp / 400;
    var yoe := yp % 400;
    c := yoe / 100;
    q := yoe % 100 / 4;
    a := yoe % 100 % 4;
    assert yoe == 100 * c + 4 * q + a;
    var mp := MarchIndex(d.month);
    doy := MarchMonthStart(mp) + d.day - 1;
    if doy == 365 {
      // Only February 29 is the 366th day of a March-based year.
      assert d.month == 2 && d.day == 29 && IsLeapYear(yp + 1);
      LeapYearSplit(era, c, q, a);
    }
    YearStartSplit(c, q, a);
    assert MarchMonthOf(doy) == mp;
  }

  /** Converting a valid date to its day number and back gives the same date. */
  lemma {:induction false} DaysFromCivilInverse(d: Date)
    requires ValidDate(d)
    ensures CivilFromDays(DaysFromCivil(d)) == d
  {
    var era, c, q, a, doy := DateSplit(d);
    SplitEraDayOf(c, q, a, doy);
    var e := EraDay(c, q, a, doy);
    var n := DaysFromCivil(d) + EpochShift;
    assert n == DaysPerEra * era + e;
    DivModEra(era, e);
    assert n / DaysPerEra == era && n % DaysPerEra == e;
    assert CivilFromDays(DaysFromCivil(d)) == DateOfSplit(era, c, q, a, doy);
  }

  // ---------------------------------------------------------------------------------------
  // Instants

  const MsPerSecond := 1000
  const MsPerMinute := 60000
  const MsPerHour := 3600000
  const MsPerDay := 86400000

  /** The instant a wall-clock reading denotes when it is read as UTC. */
  function WallMs(w: DateTime): int
    requires Valid(w)
  {
    DaysFromCivil(DateOf(w)) * MsPerDay + w.hour * MsPerHour + w.minute * MsPerMinute
      + w.second * MsPerSecond
  }

  /** The UTC wall-clock reading of an instant, to the second (milliseconds are dropped). */
  function WallFromMs(t: int): DateTime {
    var d := CivilFromDays(t / MsPerDay);
    var ms := t % MsPerDay;
    var rh := ms % MsPerHour;
    DateTime(d.year, d.month, d.day, ms / MsPerHour, rh / MsPerMinute, rh % MsPerMinute / MsPerSecond)
  }

  /** Splitting the milliseconds of a day into hours, minutes and seconds loses only the
      milliseconds of the last second. */
  lemma TimeOfDaySplit(ms: int)
    requires 0 <= ms < MsPerDay
    ensures 0 <= ms / MsPerHour < 24
    ensures ms / MsPerHour * MsPerHour + ms % MsPerHour / MsPerMinute * MsPerMinute
      + ms % MsPerHour % MsPerMinute / MsPerSecond * MsPerSecond
      == ms - ms % MsPerSecond
  {
    var rh := ms % MsPerHour;
    assert ms == ms / MsPerHour * MsPerHour + rh;
    var rm := rh % MsPerMinute;
    assert rh == rh / MsPerMinute * MsPerMinute + rm;
    assert rm == rm / MsPerSecond * MsPerSecond + rm % MsPerSecond;
    assert ms % MsPerSecond == rm % MsPerSecond;
  }

  /** Reading an instant as a wall clock and back loses only its milliseconds. */
  lemma WallFromMsInverse(t: int)
    ensures Valid(WallFromMs(t))
    ensures WallMs(WallFromMs(t)) == t - t % MsPerSecond
  {
    var d, ms := t / MsPerDay, t % MsPerDay;
    var w := WallFromMs(t);
    CivilFromDaysInverse(d);
    TimeOfDaySplit(ms);
    assert DateOf(w) == CivilFromDays(d);
    assert WallMs(w) == d * MsPerDay + (ms - ms % MsPerSecond);
    assert t == 1000 * (86400 * d + ms / 1000) + ms % 1000;
    Mod1000(86400 * d + ms / 1000, ms % 1000);
  }

  /** A valid wall clock survives the trip to an instant and back unchanged. */
  lemma WallMsInverse(w: DateTime)
    requires Valid(w)
    ensures WallFromMs(WallMs(w)) == w
  {
    var t := WallMs(w);
    var z := DaysFromCivil(DateOf(w));
    var ms := w.hour * MsPerHour + w.minute * MsPerMinute + w.second * MsPerSecond;
    assert 0 <= ms < MsPerDay;
    assert t / MsPerDay == z && t % MsPerDay == ms;
    DaysFromCivilInverse(DateOf(w));
  }

  // ---------------------------------------------------------------------------------------
  // Time zones

  /** A time zone as a fixed offset from UTC in minutes (east positive), less than a day. */
  type Zone = minutes: int | -1440 < minutes < 1440

  const UTC: Zone := 0

  /** `zonedTimeToUtc`: the instant at which the clocks of `zone` show `w`. */
  function ToUtc(w: DateTime, zone: Zone): int
    requires Valid(w)
  {
    WallMs(w) - zone * MsPerMinute
  }

  /** `utcToZonedTime` followed by reading the local fields: what the clocks of `zone` show
      at instant `t`, to the second. */
  function InZone(t: int, zone: Zone): DateTime {
    WallFromMs(t + zone * MsPerMinute)
  }

  /** Normalising a wall clock to UTC and reading it back in the same zone gives it back. */
  lemma {:induction false} ZoneRoundTrip(w: DateTime, zone: Zone)
    requires Valid(w)
    ensures InZone(ToUtc(w, zone), zone) == w
  {
    var t := ToUtc(w, zone);
    assert t + zone * MsPerMinute == WallMs(w);
    WallMsInverse(w);
    assert InZone(t, zone) == WallFromMs(WallMs(w));
  }

  /** Reading an instant in a zone and normalising back gives the instant to the second. */
  lemma {:induction false} InZoneInverse(t: int, zone: Zone)
    ensures Valid(InZone(t, zone))
    ensures ToUtc(InZone(t, zone), zone) == t - t % MsPerSecond
  {
    InZoneWall(t, zone);
    ShiftKeepsMs(t, zone);
    BackToUtc(InZone(t, zone), t, zone);
  }

  /** The clocks of `zone` at `t` read as UTC are `t` moved by the offset, to the second. */
  lemma InZoneWall(t: int, zone: Zone)
    ensures Valid(InZone(t, zone))
    ensures WallMs(InZone(t, zone))
      == t + zone * MsPerMinute - (t + zone * MsPerMinute) % MsPerSecond
  {
    WallFromMsInverse(t + zone * MsPerMinute);
  }

  /** A wall clock whose instant is `t` moved into `zone`, to the second, normalises back to
      `t` to the second. */
  lemma BackToUtc(w: DateTime, t: int, zone: Zone)
    requires Valid(w)
    requires WallMs(w) == t + zone * MsPerMinute - (t + zone * MsPerMinute) % MsPerSecond
    requires (t + zone * MsPerMinute) % MsPerSecond == t % MsPerSecond
    ensures ToUtc(w, zone) == t - t % MsPerSecond
  {
  }

  /** Moving an instant by whole minutes keeps its milliseconds within the second. */
  lemma ShiftKeepsMs(t: int, zone: Zone)
    ensures (t + zone * MsPerMinute) % MsPerSecond == t % MsPerSecond
  {
    var k, r := t / MsPerSecond + 60 * zone, t % MsPerSecond;
    assert t + zone * MsPerMinute == 1000 * k + r;
    Mod1000(k, r);
  }

  // ---------------------------------------------------------------------------------------
  // JavaScript Date values

  /** The largest magnitude of a JavaScript time value (ECMAScript's 8.64e15 ms). */
  const MaxTimeValue := 8_640_000_000_000_000

  /** A JavaScript `Date`: an Invalid Date (a NaN time value) or a time value in ms. */
  datatype JsDate = InvalidDate | At(ms: int)

  /** date-fns `isValid`: the date holds a time value, which ECMAScript keeps within range. */
  predicate IsValidDate(d: JsDate) {
    d.At? && -MaxTimeValue <= d.ms <= MaxTimeValue
  }

  /** Wall clocks in years 0..9999, normalised with any zone offset, are well inside the
      range of JavaScript time values. */
  lemma {:induction false} FourDigitYearInRange(w: DateTime, zone: Zone)
    requires Valid(w) && 0 <= w.year <= 9999
    ensures IsValidDate(At(ToUtc(w, zone)))
  {
    var yp := if w.month <= 2 then w.year - 1 else w.year;
    assert -1 <= yp / 400 <= 24;
    assert 0 <= YearStartInEra(yp % 400) < DaysPerEra;
    assert -1000000 <= DaysFromCivil(DateOf(w)) <= 3000000;
  }
}
