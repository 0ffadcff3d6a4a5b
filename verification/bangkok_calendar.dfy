// Gregorian days, `Date.UTC` (section 21.4.1 of ECMA-262) and the fixed +7 h Bangkok
// conversions of src/modules/analytics/customer-summary.math.ts. Instants are integer
// milliseconds since 1970-01-01T00:00Z; days are counted from 1970-01-01.
module BangkokCalendar {

  const MS_PER_HOUR := 3_600_000
  const MS_PER_DAY := 86_400_000

  datatype Date = Date(year: int, month: int, day: int)

  // ---- Days, months and years -------------------------------------------------

  predicate IsLeap(y: int) {
    y % 4 == 0 && (y % 100 != 0 || y % 400 == 0)
  }

  /** DayFromYear: the day number of 1 January. */
  function DayFromYear(y: int): int {
    365 * (y - 1970) + (y - 1969) / 4 - (y - 1901) / 100 + (y - 1601) / 400
  }

  function DaysInYear(y: int): int {
    if IsLeap(y) then 366 else 365
  }

  function MonthLength(y: int, m: int): (n: int)
    ensures 28 <= n <= 31
  {
    if m == 2 then (if IsLeap(y) then 29 else 28)
    else if m == 4 || m == 6 || m == 9 || m == 11 then 30
    else 31
  }

  /** Days of the year before month `m`, 1 to 12. */
  function DaysBefore(y: int, m: int): int {
    var leap := if IsLeap(y) then 1 else 0;
    if m <= 1 then 0
    else if m == 2 then 31
    else if m == 3 then 59 + leap
    else if m == 4 then 90 + leap
    else if m == 5 then 120 + leap
    else if m == 6 then 151 + leap
    else if m == 7 then 181 + leap
    else if m == 8 then 212 + leap
    else if m == 9 then 243 + leap
    else if m == 10 then 273 + leap
    else if m == 11 then 304 + leap
    else 334 + leap
  }

  predicate ValidDate(d: Date) {
    1 <= d.month <= 12 && 1 <= d.day <= MonthLength(d.year, d.month)
  }

  function DayNumber(d: Date): int {
    DayFromYear(d.year) + DaysBefore(d.year, d.month) + d.day - 1
  }

  lemma {:induction false} YearLength(y: int)
    ensures DayFromYear(y + 1) == DayFromYear(y) + DaysInYear(y)
  {
    FloorStep(y, 4, 1969);
    FloorStep(y, 100, 1901);
    FloorStep(y, 400, 1601);
    CenturiesNest(y);
  }

  lemma CenturiesNest(y: int)
    ensures y % 400 == 0 ==> y % 100 == 0
    ensures y % 100 == 0 ==> y % 4 == 0
  {
  }

  /** One year later, a floored quotient grows exactly at the multiples of its divisor. */
  lemma FloorStep(y: int, n: int, base: int)
    requires (n == 4 && base == 1969) || (n == 100 && base == 1901) || (n == 400 && base == 1601)
    ensures (y + 1 - base) / n == (y - base) / n + if y % n == 0 then 1 else 0
  {
  }

  lemma {:induction false} YearsAreOrdered(a: int, b: int)
    requires a <= b
    ensures DayFromYear(a) + 365 * (b - a) <= DayFromYear(b) <= DayFromYear(a) + 366 * (b - a)
    decreases b - a
  {
    if a < b {
      hide DayFromYear;
      YearsAreOrdered(a, b - 1);
      YearLength(b - 1);
    }
  }

  /** YearFromTime: the last year that starts on or before the day. */
  function YearFromDay(day: int, from: int): (y: int)
    requires DayFromYear(from) <= day
    ensures DayFromYear(y) <= day < DayFromYear(y + 1)
    decreases day - DayFromYear(from)
  {
    YearLength(from);
    if day < DayFromYear(from + 1) then from else YearFromDay(day, from + 1)
  }

  /** A year that is early enough to start the search. */
  function EarlyYear(day: int): (y: int)
    ensures DayFromYear(y) <= day
  {
    if day >= 0 then assert DayFromYear(1970) == 0; 1970
    else
      YearsAreOrdered(1970 + day, 1970);
      assert DayFromYear(1970) == 0;
      1970 + day
  }

  function MonthFromDay(y: int, dayInYear: int): (m: int)
    ensures 1 <= m <= 12
    ensures 0 <= dayInYear < DaysInYear(y) ==> DaysBefore(y, m) <= dayInYear < DaysBefore(y, m) + MonthLength(y, m)
  {
    if dayInYear < DaysBefore(y, 2) then 1
    else if dayInYear < DaysBefore(y, 3) then 2
    else if dayInYear < DaysBefore(y, 4) then 3
    else if dayInYear < DaysBefore(y, 5) then 4
    else if dayInYear < DaysBefore(y, 6) then 5
    else if dayInYear < DaysBefore(y, 7) then 6
    else if dayInYear < DaysBefore(y, 8) then 7
    else if dayInYear < DaysBefore(y, 9) then 8
    else if dayInYear < DaysBefore(y, 10) then 9
    else if dayInYear < DaysBefore(y, 11) then 10
    else if dayInYear < DaysBefore(y, 12) then 11
    else 12
  }

  /** Year, month and date of a day: the calendar read back from a day number. */
  function DateOf(day: int): (d: Date)
    ensures ValidDate(d) && DayNumber(d) == day
  {
    var y := YearFromDay(day, EarlyYear(day));
    YearLength(y);
    var m := MonthFromDay(y, day - DayFromYear(y));
    Date(y, m, day - DayFromYear(y) - DaysBefore(y, m) + 1)
  }

  // ---- Month indices ----------------------------------------------------------

  /** Months counted from January of year 0. */
  function MonthIndex(y: int, m: int): int {
    12 * y + m - 1
  }

  function MonthStart(index: int): int {
    DayNumber(Date(index / 12, index % 12 + 1, 1))
  }

  function LengthOf(index: int): int {
    MonthLength(index / 12, index % 12 + 1)
  }

  lemma DayFromMonthStart(d: Date)
    requires 1 <= d.month <= 12
    ensures var index := MonthIndex(d.year, d.month);
            && index / 12 == d.year && index % 12 + 1 == d.month
            && DayNumber(d) == MonthStart(index) + d.day - 1 && LengthOf(index) == MonthLength(d.year, d.month)
  {
  }

  lemma {:induction false} NextMonth(index: int)
    ensures MonthStart(index + 1) == MonthStart(index) + LengthOf(index)
  {
    var y, m := index / 12, index % 12 + 1;
    if m == 12 {
      YearLength(y);
      assert (index + 1) / 12 == y + 1 && (index + 1) % 12 == 0;
    } else {
      assert (index + 1) / 12 == y && (index + 1) % 12 == m;
    }
  }

  lemma {:induction false} MonthsAreOrdered(i: int, j: int)
    requires i < j
    ensures MonthStart(i) + LengthOf(i) <= MonthStart(j)
    decreases j - i
  {
    hide MonthStart, LengthOf;
    if i + 1 == j {
      NextMonth(i);
    } else {
      MonthsAreOrdered(i, j - 1);
      NextMonth(j - 1);
      assert LengthOf(j - 1) >= 28 by { LengthPositive(j - 1); }
    }
  }

  lemma StartsIncrease(i: int, j: int)
    requires i < j
    ensures MonthStart(i) < MonthStart(j)
  {
    hide MonthStart, LengthOf;
    MonthsAreOrdered(i, j);
    LengthPositive(i);
  }

  lemma LengthPositive(index: int)
    ensures 28 <= LengthOf(index) <= 31
  {
  }

  /** Day numbers order dates as year, month, day do, so they identify them. */
  predicate Earlier(a: Date, b: Date) {
    MonthIndex(a.year, a.month) < MonthIndex(b.year, b.month)
    || (MonthIndex(a.year, a.month) == MonthIndex(b.year, b.month) && a.day < b.day)
  }

  lemma {:induction false} DaysOrderDates(a: Date, b: Date)
    requires ValidDate(a) && ValidDate(b)
    ensures DayNumber(a) < DayNumber(b) <==> Earlier(a, b)
    ensures DayNumber(a) == DayNumber(b) <==> a == b
  {
    hide MonthStart, LengthOf, DayNumber;
    var i, j := MonthIndex(a.year, a.month), MonthIndex(b.year, b.month);
    DayFromMonthStart(a);
    DayFromMonthStart(b);
    if i < j {
      MonthsAreOrdered(i, j);
    } else if j < i {
      MonthsAreOrdered(j, i);
    }
  }

  lemma {:induction false} DateOfDayNumber(d: Date)
    requires ValidDate(d)
    ensures DateOf(DayNumber(d)) == d
  {
    hide DayNumber;
    DaysOrderDates(DateOf(DayNumber(d)), d);
  }

  // ---- Date.UTC ---------------------------------------------------------------

  /** MakeFullYear: two-digit years mean the twentieth century. */
  function FullYear(y: int): int {
    if 0 <= y <= 99 then 1900 + y else y
  }

  /** MakeDay, the month counted from 0 and allowed to overflow. */
  function MakeDay(year: int, month: int, date: int): int {
    DayNumber(Date(year + month / 12, month % 12 + 1, date))
  }

  function DateUTC(year: int, month: int, date: int, hour: int, minute: int, second: int, ms: int): int {
    MakeDay(FullYear(year), month, date) * MS_PER_DAY + hour * MS_PER_HOUR + minute * 60_000 + second * 1000 + ms
  }

  /** `new Date(Date.UTC(year, month, 0)).getUTCDate()` for a month counted from 1. */
  function LastDay(year: int, month: int): int {
    DateOf(DateUTC(year, month, 0, 0, 0, 0, 0) / MS_PER_DAY).day
  }

  lemma {:induction false} LastDayIsMonthLength(year: int, month: int)
    requires 1 <= month <= 12
    ensures LastDay(year, month) == MonthLength(FullYear(year), month)
  {
    hide DateOf, DayNumber;
    var y := FullYear(year);
    var last := Date(y, month, MonthLength(y, month));
    var next := Date(y + month / 12, month % 12 + 1, 0);
    DayFromMonthStart(last);
    DayFromMonthStart(next);
    NextMonth(MonthIndex(y, month));
    assert DayNumber(next) == DayNumber(last);
    DateOfDayNumber(last);
  }

  // ---- Bangkok ----------------------------------------------------------------

  function BangkokLocalToUtc(year: int, month: int, day: int, hour: int, minute: int, second: int, ms: int): int {
    DateUTC(year, month - 1, day, hour - 7, minute, second, ms)
  }

  function BangkokDay(instant: int): int {
    (instant + 7 * MS_PER_HOUR) / MS_PER_DAY
  }

  function BangkokTimeOfDay(instant: int): int {
    (instant + 7 * MS_PER_HOUR) % MS_PER_DAY
  }

  /** The calendar date in Bangkok, the year before the year 1 being the year 0. */
  function BangkokDate(instant: int): (d: Date)
    ensures ValidDate(d) && DayNumber(d) == BangkokDay(instant)
  {
    DateOf(BangkokDay(instant))
  }

  /** A numeric year written without its era: before the year 1, counted backwards. */
  function WrittenYear(year: int): (y: int)
    ensures y >= 1
  {
    if year >= 1 then year else 1 - year
  }

  function BangkokYearMonthParts(instant: int): Date {
    var d := BangkokDate(instant);
    Date(WrittenYear(d.year), d.month, d.day)
  }

  predicate ValidTime(hour: int, minute: int, second: int, ms: int) {
    0 <= hour < 24 && 0 <= minute < 60 && 0 <= second < 60 && 0 <= ms < 1000
  }

  function TimeOfDay(hour: int, minute: int, second: int, ms: int): int {
    hour * MS_PER_HOUR + minute * 60_000 + second * 1000 + ms
  }

  lemma TimeOfDayRange(hour: int, minute: int, second: int, ms: int)
    requires ValidTime(hour, minute, second, ms)
    ensures 0 <= TimeOfDay(hour, minute, second, ms) < MS_PER_DAY
  {
  }

  lemma {:induction false} LocalToUtcIs(year: int, month: int, day: int, hour: int, minute: int, second: int, ms: int)
    requires 1 <= month <= 12
    ensures BangkokLocalToUtc(year, month, day, hour, minute, second, ms)
         == DayNumber(Date(FullYear(year), month, day)) * MS_PER_DAY
             + TimeOfDay(hour, minute, second, ms) - 7 * MS_PER_HOUR
  {
    assert (month - 1) / 12 == 0 && (month - 1) % 12 == month - 1;
  }

  /** A wall-clock time is read back as its own date exactly from the year 100 on. */
  lemma {:induction false} LocalThenParts(d: Date, hour: int, minute: int, second: int, ms: int)
    requires ValidDate(d) && ValidTime(hour, minute, second, ms)
    ensures BangkokYearMonthParts(BangkokLocalToUtc(d.year, d.month, d.day, hour, minute, second, ms)) == d
       <==> d.year >= 100
  {
    hide DateOf, DayNumber;
    var t := BangkokLocalToUtc(d.year, d.month, d.day, hour, minute, second, ms);
    LocalToUtcIs(d.year, d.month, d.day, hour, minute, second, ms);
    TimeOfDayRange(hour, minute, second, ms);
    assert BangkokDay(t) == DayNumber(Date(FullYear(d.year), d.month, d.day));
    if d.year >= 100 {
      DateOfDayNumber(d);
    } else if d.year >= 1 {
      StartOfYear(Date(1900 + d.year, d.month, d.day));
      YearAtLeast(BangkokDate(t), 1900 + d.year);
    }
  }

  lemma StartOfYear(d: Date)
    requires d.day >= 1
    ensures DayFromYear(d.year) <= DayNumber(d)
  {
  }

  lemma YearAtLeast(d: Date, y: int)
    requires ValidDate(d) && DayFromYear(y) <= DayNumber(d)
    ensures y <= d.year
  {
    hide DayFromYear;
    YearLength(d.year);
    if d.year + 1 <= y {
      YearsAreOrdered(d.year + 1, y);
    }
  }

  /** 1 March 50 is converted to an instant of 1950. */
  lemma {:induction false} YearFiftyIs1950()
    ensures BangkokYearMonthParts(BangkokLocalToUtc(50, 3, 1, 0, 0, 0, 0)) == Date(1950, 3, 1)
  {
    hide DateOf, DayNumber;
    LocalThenParts(Date(1950, 3, 1), 0, 0, 0, 0);
    LocalToUtcIs(50, 3, 1, 0, 0, 0, 0);
    LocalToUtcIs(1950, 3, 1, 0, 0, 0, 0);
  }

  lemma TwoDigitYearMoves(d: Date)
    requires ValidDate(d) && 0 <= d.year <= 99
    ensures DayNumber(Date(1900 + d.year, d.month, d.day)) != DayNumber(d)
  {
    YearsAreOrdered(d.year, 1900 + d.year);
  }

  /** An instant is the Bangkok midnight of its parts plus its time of day exactly from the year 100 on. */
  lemma {:induction false} PartsThenLocal(instant: int)
    ensures var p := BangkokYearMonthParts(instant);
            (BangkokLocalToUtc(p.year, p.month, p.day, 0, 0, 0, 0) + BangkokTimeOfDay(instant) == instant
             <==> BangkokDate(instant).year >= 100)
  {
    hide DateOf, DayNumber;
    var d, p := BangkokDate(instant), BangkokYearMonthParts(instant);
    LocalToUtcIs(p.year, p.month, p.day, 0, 0, 0, 0);
    if 1 <= d.year <= 99 {
      TwoDigitYearMoves(d);
    } else if d.year <= 0 {
      var moved := Date(FullYear(p.year), p.month, p.day);
      StartOfYear(moved);
      if DayNumber(moved) == DayNumber(d) {
        YearAtLeast(d, moved.year);
      }
    }
  }

  /** An instant of 15 March of the year -2025 reads as 2026, and is not in March 2026. */
  lemma {:induction false} EraIsNotRead()
    ensures var t := BangkokLocalToUtc(-2025, 3, 15, 0, 0, 0, 0);
            BangkokYearMonthParts(t) == Date(2026, 3, 15) && t < BangkokMonthBounds(2026, 3).from
  {
    hide DateOf, DayNumber, BangkokMonthBounds;
    var d := Date(-2025, 3, 15);
    var t := BangkokLocalToUtc(-2025, 3, 15, 0, 0, 0, 0);
    LocalToUtcIs(-2025, 3, 15, 0, 0, 0, 0);
    assert BangkokDay(t) == DayNumber(d);
    DateOfDayNumber(d);
    MonthBoundsCut(t, 2026, 3);
  }

  lemma KnownDays()
    ensures DayNumber(Date(1970, 1, 1)) == 0 && DayNumber(Date(1970, 1, 2)) == 1
    ensures DayNumber(Date(2024, 2, 29)) == 19782 && IsLeap(2024)
  {
  }

  /** The epoch is 7 in the morning in Bangkok, where the day turns at 17:00 of Greenwich. */
  lemma {:induction false} EpochInBangkok()
    ensures BangkokLocalToUtc(1970, 1, 1, 7, 0, 0, 0) == 0
    ensures BangkokLocalToUtc(2024, 2, 29, 23, 59, 59, 999) == 1_709_225_999_999
    ensures BangkokDate(61_199_999) == Date(1970, 1, 1) && BangkokDate(61_200_000) == Date(1970, 1, 2)
  {
    hide DateOf, DayNumber, BangkokLocalToUtc;
    KnownDays();
    LocalToUtcIs(1970, 1, 1, 7, 0, 0, 0);
    LocalToUtcIs(2024, 2, 29, 23, 59, 59, 999);
    DateOfDayNumber(Date(1970, 1, 1));
    DateOfDayNumber(Date(1970, 1, 2));
  }

  datatype Bounds = Bounds(from: int, to: int)

  function BangkokMonthBounds(year: int, month: int): Bounds {
    Bounds(BangkokLocalToUtc(year, month, 1, 0, 0, 0, 0),
           BangkokLocalToUtc(year, month, LastDay(year, month), 23, 59, 59, 999))
  }

  function BangkokYearBounds(year: int): Bounds {
    Bounds(BangkokLocalToUtc(year, 1, 1, 0, 0, 0, 0), BangkokLocalToUtc(year, 12, 31, 23, 59, 59, 999))
  }

  /** `bangkokYearBounds(year, endCap)` */
  function CappedYearBounds(year: int, endCap: int): Bounds {
    var b := BangkokYearBounds(year);
    if endCap < b.to then b.(to := endCap) else b
  }

  lemma {:induction false} MonthBoundsAre(year: int, month: int)
    requires 1 <= month <= 12
    ensures var index := MonthIndex(FullYear(year), month);
            && BangkokMonthBounds(year, month).from == MonthStart(index) * MS_PER_DAY - 7 * MS_PER_HOUR
            && BangkokMonthBounds(year, month).to == MonthStart(index + 1) * MS_PER_DAY - 7 * MS_PER_HOUR - 1
  {
    hide DateOf, DayNumber, MonthStart, LengthOf;
    var y, last := FullYear(year), LastDay(year, month);
    LastDayIsMonthLength(year, month);
    LocalToUtcIs(year, month, 1, 0, 0, 0, 0);
    LocalToUtcIs(year, month, last, 23, 59, 59, 999);
    DayFromMonthStart(Date(y, month, 1));
    DayFromMonthStart(Date(y, month, last));
    NextMonth(MonthIndex(y, month));
  }

  /**
   * Consecutive months tile the timeline: no millisecond between them, none in both.
   * Only the turns of the year into and out of the two-digit years are out of place.
   */
  lemma {:induction false} MonthBoundsTileIff(year: int, month: int)
    requires 1 <= month <= 12
    ensures var next := if month == 12 then BangkokMonthBounds(year + 1, 1) else BangkokMonthBounds(year, month + 1);
            BangkokMonthBounds(year, month).to + 1 == next.from <==> !(month == 12 && (year == -1 || year == 99))
  {
    hide DateOf, DayNumber, MonthStart, BangkokMonthBounds;
    MonthBoundsAre(year, month);
    if month == 12 {
      MonthBoundsAre(year + 1, 1);
      var a, b := MonthIndex(FullYear(year), 12) + 1, MonthIndex(FullYear(year + 1), 1);
      if a < b {
        StartsIncrease(a, b);
      } else if b < a {
        StartsIncrease(b, a);
      }
    } else {
      MonthBoundsAre(year, month + 1);
    }
  }

  /** The twelve months of a year make the year. */
  lemma {:induction false} YearIsItsMonths(year: int)
    ensures BangkokYearBounds(year).from == BangkokMonthBounds(year, 1).from
    ensures BangkokYearBounds(year).to == BangkokMonthBounds(year, 12).to
  {
    hide DateOf, DayNumber;
    LastDayIsMonthLength(year, 12);
  }

  /** A month's bounds cut the timeline where its calendar month begins and ends. */
  lemma {:induction false} MonthBoundsCut(instant: int, year: int, month: int)
    requires 1 <= month <= 12
    ensures var b, d := BangkokMonthBounds(year, month), BangkokDate(instant);
            && (b.from <= instant <==> MonthIndex(FullYear(year), month) <= MonthIndex(d.year, d.month))
            && (instant <= b.to <==> MonthIndex(d.year, d.month) <= MonthIndex(FullYear(year), month))
  {
    hide DateOf, DayNumber, MonthStart, LengthOf, BangkokMonthBounds;
    var index, d := MonthIndex(FullYear(year), month), BangkokDate(instant);
    var at := MonthIndex(d.year, d.month);
    MonthBoundsAre(year, month);
    DayFromMonthStart(d);
    NextMonth(at);
    if at < index {
      MonthsAreOrdered(at, index);
      MonthsAreOrdered(at, index + 1);
    } else if index < at {
      MonthsAreOrdered(index, at);
      NextMonth(index);
      LengthPositive(index);
    }
  }

  /**
   * From the year 1 on, an instant lies in a month's bounds exactly when its Bangkok
   * parts name that month (of 1900 + year below 100); before, never both.
   */
  lemma {:induction false} InMonthBoundsIff(instant: int, year: int, month: int)
    requires 1 <= month <= 12
    ensures var b, p := BangkokMonthBounds(year, month), BangkokYearMonthParts(instant);
            var inside, named := b.from <= instant <= b.to, p.year == FullYear(year) && p.month == month;
            if BangkokDate(instant).year >= 1 then inside == named else !(inside && named)
  {
    hide DateOf, DayNumber, BangkokMonthBounds;
    MonthBoundsCut(instant, year, month);
  }
}
