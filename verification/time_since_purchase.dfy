// `computeTimeSinceLastPurchase` of src/modules/analytics/customer-summary.math.ts:
// whole months with end-of-month clamping, then leftover days.
module TimeSincePurchase {
  import opened Wrappers
  import opened BangkokCalendar

  datatype Since = Since(months: int, days: int, totalDays: int)

  /** The month count before the clamp at zero. */
  function RawMonths(last: Date, asOf: Date): int {
    var months := (asOf.year - last.year) * 12 + (asOf.month - last.month);
    if asOf.day < last.day then months - 1 else months
  }

  function AtLeastZero(n: int): int {
    if n < 0 then 0 else n
  }

  /** Where the leftover days are counted from. */
  function Anchor(last: Date, months: int): Date {
    var anchorYear := last.year + (last.month - 1 + months) / 12;
    var anchorMonth := (last.month - 1 + months) % 12 + 1;
    var lastDay := LastDay(anchorYear, anchorMonth);
    Date(anchorYear, anchorMonth, if lastDay < last.day then lastDay else last.day)
  }

  function Midnight(d: Date): int {
    BangkokLocalToUtc(d.year, d.month, d.day, 0, 0, 0, 0)
  }

  /** The day count before the clamp at zero. */
  function RawDays(last: Date, asOf: Date, months: int): int {
    (Midnight(asOf) - Midnight(Anchor(last, months))) / MS_PER_DAY
  }

  function ComputeTimeSinceLastPurchase(lastPurchaseAt: int, asOf: int): Option<Since> {
    if lastPurchaseAt > asOf then None
    else
      var totalDays := (asOf - lastPurchaseAt) / MS_PER_DAY;
      var lastParts := BangkokYearMonthParts(lastPurchaseAt);
      var asOfParts := BangkokYearMonthParts(asOf);
      var months := AtLeastZero(RawMonths(lastParts, asOfParts));
      Some(Since(months, AtLeastZero(RawDays(lastParts, asOfParts, months)), totalDays))
  }

  // ---- Reference: moving a date forward by months -----------------------------

  function Index(d: Date): int {
    MonthIndex(d.year, d.month)
  }

  /** `d` moved by whole months, its day clamped to the month it lands in. */
  function AddMonths(d: Date, months: int): Date {
    var index := Index(d) + months;
    Date(index / 12, index % 12 + 1, if LengthOf(index) < d.day then LengthOf(index) else d.day)
  }

  lemma AddMonthsIs(d: Date, months: int)
    requires ValidDate(d)
    ensures var r := AddMonths(d, months);
            ValidDate(r) && Index(r) == Index(d) + months && DayNumber(r) == MonthStart(Index(d) + months) + r.day - 1
  {
    hide MonthStart, DayNumber;
    LengthPositive(Index(d) + months);
    DayFromMonthStart(AddMonths(d, months));
  }

  /** Moving by more months lands later. */
  lemma {:induction false} AddMonthsIncreases(d: Date, a: int, b: int)
    requires ValidDate(d) && a < b
    ensures DayNumber(AddMonths(d, a)) < DayNumber(AddMonths(d, b))
  {
    hide MonthStart, DayNumber, AddMonths;
    AddMonthsIs(d, a);
    AddMonthsIs(d, b);
    DaysOrderDates(AddMonths(d, a), AddMonths(d, b));
  }

  /** In the years 1 to 99 `Date.UTC` answers for 1901 to 1999: the same calendar, so many days later. */
  const TWO_DIGIT_SHIFT := 693960

  lemma ShiftedYear(y: int)
    requires 1 <= y <= 99
    ensures DayFromYear(1900 + y) == DayFromYear(y) + TWO_DIGIT_SHIFT && (IsLeap(1900 + y) <==> IsLeap(y))
  {
    assert (1900 + y - 1969) / 4 == (y - 1969) / 4 + 475;
    assert (1900 + y) % 4 == y % 4;
  }

  function Shift(d: Date): int {
    if d.year <= 99 then TWO_DIGIT_SHIFT else 0
  }

  lemma {:induction false} MidnightIs(d: Date)
    requires ValidDate(d) && d.year >= 1
    ensures Midnight(d) == (DayNumber(d) + Shift(d)) * MS_PER_DAY - 7 * MS_PER_HOUR
  {
    hide DayFromYear, IsLeap;
    LocalToUtcIs(d.year, d.month, d.day, 0, 0, 0, 0);
    if d.year <= 99 {
      ShiftedYear(d.year);
    }
  }

  lemma MonthOverflow(y: int, k: int)
    ensures (12 * y + k) / 12 == y + k / 12 && (12 * y + k) % 12 == k % 12
  {
  }

  lemma LaterIndex(y: int, k: int)
    requires y >= 1 && k >= 0
    ensures (12 * y + k) / 12 >= 1 && 0 <= (12 * y + k) % 12 < 12
  {
  }

  /** `Date.UTC` knows the length of every month from the year 1 on. */
  lemma LastDayIs(y: int, m: int)
    requires y >= 1 && 1 <= m <= 12
    ensures LastDay(y, m) == MonthLength(y, m)
  {
    hide DateUTC, DateOf, IsLeap, LastDay;
    LastDayIsMonthLength(y, m);
    if y <= 99 {
      ShiftedYear(y);
    }
  }

  /** The anchor is the moved date. */
  lemma {:induction false} AnchorIs(last: Date, months: int)
    requires ValidDate(last) && last.year >= 1 && months >= 0
    ensures Anchor(last, months) == AddMonths(last, months)
    ensures AddMonths(last, months).year >= 1
  {
    hide MonthStart, DayNumber, DateOf, IsLeap, LastDay, MonthLength;
    var k := last.month - 1 + months;
    MonthOverflow(last.year, k);
    LaterIndex(last.year, k);
    assert Index(last) + months == 12 * last.year + k;
    LastDayIs(last.year + k / 12, k % 12 + 1);
  }

  // ---- Exactness --------------------------------------------------------------

  /** The months counted reach the month of `asOf` or the one before it. */
  lemma RawMonthsAre(last: Date, asOf: Date)
    ensures RawMonths(last, asOf) == Index(asOf) - Index(last) - if asOf.day < last.day then 1 else 0
  {
  }

  lemma {:induction false} RawMonthsNotNegative(last: Date, asOf: Date)
    requires ValidDate(last) && ValidDate(asOf) && DayNumber(last) <= DayNumber(asOf)
    ensures RawMonths(last, asOf) >= 0
  {
    hide DayNumber;
    DaysOrderDates(last, asOf);
    DaysOrderDates(asOf, last);
  }

  /** From the moved date to `asOf`: never backwards, never a whole month. */
  lemma {:induction false} LeftoverDays(last: Date, asOf: Date)
    requires ValidDate(last) && ValidDate(asOf)
    ensures 0 <= DayNumber(asOf) - DayNumber(AddMonths(last, RawMonths(last, asOf))) <= 30
  {
    hide MonthStart, DayNumber, AddMonths;
    var months := RawMonths(last, asOf);
    AddMonthsIs(last, months);
    RawMonthsAre(last, asOf);
    DayFromMonthStart(asOf);
    NextMonth(Index(asOf) - 1);
    ClampedDay(last, months);
  }

  lemma ClampedDay(last: Date, months: int)
    ensures var n := LengthOf(Index(last) + months);
            AddMonths(last, months).day == if n < last.day then n else last.day
  {
  }

  lemma MidnightsApart(a: Date, b: Date)
    requires ValidDate(a) && ValidDate(b) && a.year >= 1 && b.year >= 1
    ensures (Midnight(b) - Midnight(a)) / MS_PER_DAY == DayNumber(b) - DayNumber(a) + Shift(b) - Shift(a)
  {
    hide DayNumber, Midnight, Shift;
    MidnightIs(a);
    MidnightIs(b);
  }

  lemma DaysPassInOrder(a: int, b: int)
    requires a <= b
    ensures BangkokDay(a) <= BangkokDay(b)
  {
  }

  /** Counting from December 99 into January 100, where `Date.UTC` stops moving years. */
  predicate CrossesYear100(last: Date, end: Date) {
    end.year == 100 && end.month == 1 && end.day < last.day
  }

  lemma {:induction false} CrossesIff(last: Date, end: Date)
    requires ValidDate(last) && ValidDate(end) && DayNumber(last) <= DayNumber(end)
    ensures AddMonths(last, RawMonths(last, end)).year <= 99 < end.year <==> CrossesYear100(last, end)
    ensures AddMonths(last, RawMonths(last, end)).year <= end.year
  {
    hide DayNumber, MonthStart, LengthOf;
    RawMonthsAre(last, end);
  }

  /**
   * From the year 1 on the month clamp at zero never fires, at most 30 days are left
   * over, and moving the last date by `months` and then `days` gives the as-of date.
   * The only exceptions are in January of the year 100, and there, and only there, the
   * day clamp fires.
   */
  lemma {:induction false} SinceTheYearOne(lastPurchaseAt: int, asOf: int)
    requires lastPurchaseAt <= asOf && BangkokDate(lastPurchaseAt).year >= 1
    ensures var r := ComputeTimeSinceLastPurchase(lastPurchaseAt, asOf);
            var last, end := BangkokDate(lastPurchaseAt), BangkokDate(asOf);
            && r.Some?
            && r.value.months == RawMonths(last, end) >= 0
            && 0 <= r.value.days <= 30
            && (DayNumber(AddMonths(last, r.value.months)) + r.value.days == DayNumber(end)
                <==> !CrossesYear100(last, end))
            && (r.value.days == RawDays(last, end, r.value.months) <==> !CrossesYear100(last, end))
  {
    hide DayNumber, DateOf, AddMonths, Anchor, Midnight, RawMonths, CrossesYear100;
    var last, end := BangkokDate(lastPurchaseAt), BangkokDate(asOf);
    var months := RawMonths(last, end);
    DaysPassInOrder(lastPurchaseAt, asOf);
    RawMonthsNotNegative(last, end);
    LeftoverDays(last, end);
    AnchorIs(last, months);
    AddMonthsIs(last, months);
    LaterYear(last, end);
    MidnightsApart(AddMonths(last, months), end);
    CrossesIff(last, end);
    DaysOrderDates(AddMonths(last, months), end);
  }

  lemma {:induction false} LaterYear(last: Date, end: Date)
    requires ValidDate(last) && ValidDate(end) && DayNumber(last) <= DayNumber(end)
    ensures last.year <= end.year
  {
    hide DayNumber;
    DaysOrderDates(end, last);
  }

  /** `totalDays` is the calendar-day difference, or one less when the time of day has not been reached. */
  lemma TotalDaysIs(lastPurchaseAt: int, asOf: int)
    requires lastPurchaseAt <= asOf
    ensures ComputeTimeSinceLastPurchase(lastPurchaseAt, asOf).value.totalDays == (asOf - lastPurchaseAt) / 86_400_000
         == BangkokDay(asOf) - BangkokDay(lastPurchaseAt)
            - if BangkokTimeOfDay(asOf) < BangkokTimeOfDay(lastPurchaseAt) then 1 else 0
  {
    var a, b := lastPurchaseAt + 7 * MS_PER_HOUR, asOf + 7 * MS_PER_HOUR;
    assert a == MS_PER_DAY * (a / MS_PER_DAY) + a % MS_PER_DAY;
    assert b == MS_PER_DAY * (b / MS_PER_DAY) + b % MS_PER_DAY;
  }

  /**
   * The months are the most that fit before the as-of date, except when a clamped
   * day would land exactly on it: 31 January to 28 February counts 0 months 28 days.
   */
  lemma {:induction false} MonthsAreMaximalIff(last: Date, asOf: Date)
    requires ValidDate(last) && ValidDate(asOf)
    ensures DayNumber(AddMonths(last, RawMonths(last, asOf) + 1)) > DayNumber(asOf)
       <==> !(asOf.day < last.day && asOf.day == MonthLength(asOf.year, asOf.month))
    ensures forall k :: k <= RawMonths(last, asOf) ==> DayNumber(AddMonths(last, k)) <= DayNumber(asOf)
  {
    hide MonthStart, DayNumber, AddMonths, LengthOf;
    var months := RawMonths(last, asOf);
    RawMonthsAre(last, asOf);
    AddMonthsIs(last, months + 1);
    ClampedDay(last, months + 1);
    DayFromMonthStart(asOf);
    DaysOrderDates(asOf, AddMonths(last, months + 1));
    LeftoverDays(last, asOf);
    forall k | k <= months ensures DayNumber(AddMonths(last, k)) <= DayNumber(asOf) {
      if k < months {
        AddMonthsIncreases(last, k, months);
      }
    }
  }

  /** From the year 1 on the parts that are read are the calendar date. */
  lemma PartsAreDates(lastPurchaseAt: int, asOf: int)
    requires lastPurchaseAt <= asOf && BangkokDate(lastPurchaseAt).year >= 1
    ensures BangkokYearMonthParts(lastPurchaseAt) == BangkokDate(lastPurchaseAt)
    ensures BangkokYearMonthParts(asOf) == BangkokDate(asOf)
  {
    hide DateOf, DayNumber;
    DaysPassInOrder(lastPurchaseAt, asOf);
    LaterYear(BangkokDate(lastPurchaseAt), BangkokDate(asOf));
  }

  /** Where the day clamp fires, no days are left over. */
  lemma {:induction false} CrossingHasNoDays(lastPurchaseAt: int, asOf: int)
    requires lastPurchaseAt <= asOf && BangkokDate(lastPurchaseAt).year >= 1
    requires CrossesYear100(BangkokDate(lastPurchaseAt), BangkokDate(asOf))
    ensures ComputeTimeSinceLastPurchase(lastPurchaseAt, asOf).value.days == 0
  {
    hide DayNumber, DateOf, AddMonths, Anchor, Midnight, RawMonths, CrossesYear100, BangkokDate, BangkokYearMonthParts;
    PartsAreDates(lastPurchaseAt, asOf);
    SinceTheYearOne(lastPurchaseAt, asOf);
  }

  predicate StrictlyMore(a: Since, b: Since) {
    a.months < b.months || (a.months == b.months && a.days < b.days)
  }

  /**
   * Each later Bangkok day of `asOf` gives a strictly greater (months, days), except
   * exactly when the later one crosses into January of the year 100 in the same month
   * count.
   */
  lemma {:induction false} TimeSinceIncreasesIff(lastPurchaseAt: int, asOf: int, later: int)
    requires lastPurchaseAt <= asOf && BangkokDate(lastPurchaseAt).year >= 1
            && BangkokDay(asOf) < BangkokDay(later)
    ensures var a := ComputeTimeSinceLastPurchase(lastPurchaseAt, asOf);
            var b := ComputeTimeSinceLastPurchase(lastPurchaseAt, later);
            var last, x, y := BangkokDate(lastPurchaseAt), BangkokDate(asOf),
                BangkokDate(later);
            && a.Some? && b.Some?
            && (StrictlyMore(a.value, b.value)
                <==> !(CrossesYear100(last, y) && RawMonths(last, x) == RawMonths(last, y)))
  {
    hide DayNumber, DateOf, AddMonths, Anchor, Midnight, RawMonths, ComputeTimeSinceLastPurchase, CrossesYear100;
    var last := BangkokDate(lastPurchaseAt);
    var x, y := BangkokDate(asOf), BangkokDate(later);
    assert asOf < later by { if later <= asOf { DaysPassInOrder(later, asOf); } }
    SinceTheYearOne(lastPurchaseAt, asOf);
    SinceTheYearOne(lastPurchaseAt, later);
    RawMonthsAre(last, x);
    RawMonthsAre(last, y);
    DaysOrderDates(x, y);
    if CrossesYear100(last, x) {
      CrossingHasNoDays(lastPurchaseAt, asOf);
      if RawMonths(last, x) == RawMonths(last, y) {
        CrossingStays(last, x, y);
      }
    }
    if CrossesYear100(last, y) {
      CrossingHasNoDays(lastPurchaseAt, later);
    }
  }

  /** After a crossing count, the same month count crosses as well. */
  lemma CrossingStays(last: Date, x: Date, y: Date)
    requires ValidDate(x) && ValidDate(y) && Earlier(x, y) && CrossesYear100(last, x)
            && RawMonths(last, x) == RawMonths(last, y)
    ensures CrossesYear100(last, y)
  {
  }

  // ---- All dates --------------------------------------------------------------

  /** What is read of a date. */
  function Written(d: Date): Date {
    Date(WrittenYear(d.year), d.month, d.day)
  }

  /** Whole months by the day of the month, then at most 30 days, lead from `last` to `end`. */
  predicate Decomposes(last: Date, end: Date, months: int, days: int) {
    && months == RawMonths(last, end) >= 0 && 0 <= days <= 30
    && DayNumber(AddMonths(last, months)) + days == DayNumber(end)
  }

  /** The days left over take in the end of February, and just one of the year and the written year is leap. */
  predicate SkewedByLeapDay(last: Date, end: Date) {
    && IsLeap(end.year) != IsLeap(WrittenYear(end.year))
    && ((end.month == 3 && end.day < last.day <= 28) || (end.month == 2 && end.day == 29 == last.day))
  }

  predicate CountsRight(last: Date, end: Date) {
    if last.year >= 1 then !CrossesYear100(last, end)
    else last.year == end.year && !SkewedByLeapDay(last, end)
  }

  function Smaller(a: int, b: int): int {
    if a < b then a else b
  }

  /** The days left over within one year. */
  function DaysWithin(y: int, last: Date, end: Date): int {
    var m := last.month + RawMonths(last, end);
    DaysBefore(y, end.month) + end.day - DaysBefore(y, m) - Smaller(MonthLength(y, m), last.day)
  }

  lemma {:induction false} MidnightInYear(y: int, m: int, day: int)
    requires y >= 1 && 1 <= m <= 12
    ensures BangkokLocalToUtc(y, m, day, 0, 0, 0, 0)
         == (DayFromYear(FullYear(y)) + DaysBefore(y, m) + day - 1) * MS_PER_DAY - 7 * MS_PER_HOUR
  {
    hide DayFromYear, IsLeap;
    LocalToUtcIs(y, m, day, 0, 0, 0, 0);
    if y <= 99 {
      ShiftedYear(y);
    }
  }

  /** The months counted stay within the year of both dates. */
  lemma MonthsWithinYear(last: Date, end: Date)
    requires ValidDate(last) && ValidDate(end) && last.year == end.year && !Earlier(end, last)
    ensures 0 <= RawMonths(last, end) && 1 <= last.month + RawMonths(last, end) <= 12
  {
  }

  lemma {:induction false} RawDaysWithin(last: Date, end: Date)
    requires 1 <= last.month && 1 <= end.month <= 12 && last.year == end.year >= 1
    requires 0 <= RawMonths(last, end) && last.month + RawMonths(last, end) <= 12
    ensures RawDays(last, end, RawMonths(last, end)) == DaysWithin(last.year, last, end)
  {
    hide MonthLength, DaysBefore, RawMonths, LastDay, BangkokLocalToUtc, DayFromYear;
    var k := last.month - 1 + RawMonths(last, end);
    assert k / 12 == 0 && k % 12 == k;
    LastDayIs(last.year, k + 1);
    MidnightInYear(end.year, end.month, end.day);
    MidnightInYear(last.year, k + 1, Smaller(MonthLength(last.year, k + 1), last.day));
  }

  lemma {:induction false} TrueDaysWithin(last: Date, end: Date)
    requires ValidDate(last) && ValidDate(end) && last.year == end.year && !Earlier(end, last)
    ensures DayNumber(end) - DayNumber(AddMonths(last, RawMonths(last, end))) == DaysWithin(last.year, last, end)
  {
    MonthsWithinYear(last, end);
    hide MonthLength, DaysBefore, RawMonths, DayFromYear, AddMonths;
    AddWithinYear(last, RawMonths(last, end));
  }

  lemma AddWithinYear(d: Date, months: int)
    requires 0 <= d.month - 1 + months < 12
    ensures var m := d.month + months;
            AddMonths(d, months) == Date(d.year, m, Smaller(MonthLength(d.year, m), d.day))
  {
    hide MonthLength;
    assert Index(d) + months == 12 * d.year + (d.month - 1 + months);
  }

  /** The written year counts the same days but for its own leap day. */
  lemma WrittenDaysWithin(last: Date, end: Date)
    requires ValidDate(last) && ValidDate(end) && last.year == end.year <= 0 && !Earlier(end, last)
    ensures AtLeastZero(DaysWithin(1 - last.year, last, end)) == DaysWithin(last.year, last, end)
       <==> !SkewedByLeapDay(last, end)
  {
    hide IsLeap;
  }

  lemma WrittenInOneYear(last: Date, end: Date)
    requires last.year == end.year <= 0
    ensures RawMonths(Written(last), Written(end)) == RawMonths(last, end)
    ensures DaysWithin(1 - last.year, Written(last), Written(end)) == DaysWithin(1 - last.year, last, end)
  {
    hide DaysBefore, MonthLength;
  }

  lemma {:induction false} SameYearIff(last: Date, end: Date)
    requires ValidDate(last) && ValidDate(end) && last.year == end.year <= 0 && !Earlier(end, last)
    ensures var from, to := Written(last), Written(end);
            var months := AtLeastZero(RawMonths(from, to));
            Decomposes(last, end, months, AtLeastZero(RawDays(from, to, months))) <==> !SkewedByLeapDay(last, end)
  {
    hide DayNumber, AddMonths, RawMonths, RawDays, DaysWithin, SkewedByLeapDay;
    MonthsWithinYear(last, end);
    WrittenInOneYear(last, end);
    RawDaysWithin(Written(last), Written(end));
    TrueDaysWithin(last, end);
    WrittenDaysWithin(last, end);
    LeftoverDays(last, end);
  }

  /** Months are counted right over different years only from December to January. */
  lemma MonthsOverYears(last: Date, end: Date)
    requires ValidDate(last) && ValidDate(end) && last.year <= 0 && last.year < end.year
    requires AtLeastZero(RawMonths(Written(last), Written(end))) == RawMonths(last, end)
    ensures end.year == last.year + 1 && last.month == 12 && end.month == 1 && RawMonths(last, end) == 0
  {
  }

  /** Over different years the count is never right from a date before the year 1. */
  lemma {:induction false} OverYearsNever(last: Date, end: Date)
    requires ValidDate(last) && ValidDate(end) && last.year <= 0 && last.year < end.year
    ensures var from, to := Written(last), Written(end);
            var months := AtLeastZero(RawMonths(from, to));
            !Decomposes(last, end, months, AtLeastZero(RawDays(from, to, months)))
  {
    var from, to := Written(last), Written(end);
    var months := AtLeastZero(RawMonths(from, to));
    if months == RawMonths(last, end) {
      MonthsOverYears(last, end);
      hide DayNumber, RawMonths, AddMonths, Anchor, RawDays;
      NoMonthsMoved(last);
      DaysOrderDates(last, end);
      JanuaryAfterDecember(from, to);
    }
  }

  lemma {:induction false} JanuaryAfterDecember(from: Date, to: Date)
    requires ValidDate(from) && ValidDate(to) && from.month == 12 && to.month == 1
    requires to.year >= 1 && (from.year == to.year == 1 || from.year == to.year + 1)
    ensures !(0 < RawDays(from, to, 0) <= 30)
  {
    hide DayNumber, AddMonths, Anchor, Midnight, MonthLength;
    AnchorIs(from, 0);
    NoMonthsMoved(from);
    MidnightsApart(from, to);
    DaysOrderDates(to, from);
    if from.year == 100 {
      CenturyIsFar(from, to);
    }
  }

  lemma CenturyIsFar(from: Date, to: Date)
    requires ValidDate(from) && ValidDate(to) && from.year == 100 && to.year == 99
    ensures DayNumber(to) - DayNumber(from) + TWO_DIGIT_SHIFT > 30
  {
  }

  /**
   * For any two instants, months and days lead from one date to the other exactly when
   * the count, from the year 1 on, does not cross into January of the year 100, and
   * before the year 1 stays within one year and is not skewed by a leap day. From the
   * year 1 on the month clamp never fires, and the day clamp only in that January.
   */
  lemma {:induction false} TimeSinceIsExactIff(lastPurchaseAt: int, asOf: int)
    ensures ComputeTimeSinceLastPurchase(lastPurchaseAt, asOf).Some? <==> lastPurchaseAt <= asOf
    ensures var r := ComputeTimeSinceLastPurchase(lastPurchaseAt, asOf);
            var last, end := BangkokDate(lastPurchaseAt), BangkokDate(asOf);
            r.Some? ==>
            && (Decomposes(last, end, r.value.months, r.value.days) <==> CountsRight(last, end))
            && (last.year >= 1 ==>
                  && r.value.months == RawMonths(last, end) >= 0 && r.value.days <= 30
                  && (r.value.days == RawDays(last, end, r.value.months) <==> !CrossesYear100(last, end)))
  {
    hide DayNumber, DateOf, AddMonths, RawMonths, RawDays, CrossesYear100, SkewedByLeapDay;
    if asOf < lastPurchaseAt {
      return;
    }
    var last, end := BangkokDate(lastPurchaseAt), BangkokDate(asOf);
    DaysPassInOrder(lastPurchaseAt, asOf);
    DaysOrderDates(end, last);
    LaterYear(last, end);
    if last.year >= 1 {
      SinceTheYearOne(lastPurchaseAt, asOf);
    } else if last.year == end.year {
      SameYearIff(last, end);
    } else {
      OverYearsNever(last, end);
    }
  }

  // ---- Concrete dates ---------------------------------------------------------

  lemma {:induction false} PartsOfMidnight(d: Date)
    requires ValidDate(d)
    ensures BangkokDate(DayNumber(d) * MS_PER_DAY - 7 * MS_PER_HOUR) == d
  {
    hide DateOf, DayNumber;
    DateOfDayNumber(d);
    assert BangkokDay(DayNumber(d) * MS_PER_DAY - 7 * MS_PER_HOUR) == DayNumber(d);
  }

  function MidnightOf(d: Date): int {
    DayNumber(d) * MS_PER_DAY - 7 * MS_PER_HOUR
  }

  lemma {:induction false} SinceMidnight(last: Date, end: Date)
    requires ValidDate(last) && ValidDate(end) && DayNumber(last) <= DayNumber(end)
    ensures var from, to := Written(last), Written(end);
            var months := AtLeastZero(RawMonths(from, to));
            ComputeTimeSinceLastPurchase(MidnightOf(last), MidnightOf(end))
            == Some(Since(months, AtLeastZero(RawDays(from, to, months)), DayNumber(end) - DayNumber(last)))
  {
    hide DateOf, BangkokDate, DayNumber, RawMonths, RawDays, WrittenYear;
    PartsOfMidnight(last);
    PartsOfMidnight(end);
  }

  lemma SameMonthCount(last: Date, end: Date)
    requires ValidDate(last) && ValidDate(end) && 1 <= last.year
    ensures 1 <= end.year ==> RawDays(last, end, 0) == DayNumber(end) - DayNumber(last) + Shift(end) - Shift(last)
  {
    hide DateOf, DayNumber, Anchor, Midnight, Shift, MonthLength;
    AnchorIs(last, 0);
    NoMonthsMoved(last);
    if 1 <= end.year {
      MidnightsApart(last, end);
    }
  }

  lemma NoMonthsMoved(d: Date)
    requires ValidDate(d)
    ensures AddMonths(d, 0) == d
  {
    DayFromMonthStart(d);
  }

  lemma JanuaryToFebruary()
    ensures DayNumber(Date(2026, 2, 28)) == DayNumber(Date(2026, 1, 31)) + 28
  {
  }

  lemma MonthAfterJanuary()
    ensures AddMonths(Date(2026, 1, 31), 1) == Date(2026, 2, 28)
  {
    assert Index(Date(2026, 1, 31)) + 1 == 12 * 2026 + 1;
  }

  /** From 31 January to 28 February: 0 months 28 days, though a month later is 28 February. */
  lemma {:induction false} EndOfJanuary()
    ensures ComputeTimeSinceLastPurchase(MidnightOf(Date(2026, 1, 31)), MidnightOf(Date(2026, 2, 28)))
            == Some(Since(0, 28, 28))
    ensures AddMonths(Date(2026, 1, 31), 1) == Date(2026, 2, 28)
  {
    hide DayNumber, DateOf, ComputeTimeSinceLastPurchase, RawDays, MidnightOf, AddMonths;
    var last, end := Date(2026, 1, 31), Date(2026, 2, 28);
    JanuaryToFebruary();
    MonthAfterJanuary();
    SinceMidnight(last, end);
    SameMonthCount(last, end);
  }

  /** From 15 December 99 to 10 January 100, 26 days: none are counted. */
  lemma {:induction false} CrossingLosesDays()
    ensures ComputeTimeSinceLastPurchase(MidnightOf(Date(99, 12, 15)), MidnightOf(Date(100, 1, 10)))
            == Some(Since(0, 0, 26))
  {
    var last, end := Date(99, 12, 15), Date(100, 1, 10);
    assert DayNumber(end) == DayNumber(last) + 26;
    hide DayNumber, DateOf, ComputeTimeSinceLastPurchase, RawDays, MidnightOf;
    SinceMidnight(last, end);
    SameMonthCount(last, end);
  }

  lemma TurnOfEra()
    ensures DayNumber(Date(1, 1, 10)) == DayNumber(Date(0, 12, 15)) + 26
    ensures DayNumber(Date(1, 1, 10)) < DayNumber(Date(1, 12, 15))
  {
  }

  lemma SameShift()
    ensures Shift(Date(1, 12, 15)) == Shift(Date(1, 1, 10))
  {
  }

  /** From 15 December of the year 0 to 10 January of the year 1: the era is not read, and no day is counted. */
  lemma {:induction false} EraLosesDays()
    ensures ComputeTimeSinceLastPurchase(MidnightOf(Date(0, 12, 15)), MidnightOf(Date(1, 1, 10)))
            == Some(Since(0, 0, 26))
  {
    hide DayNumber, DateOf, ComputeTimeSinceLastPurchase, RawDays, MidnightOf, Shift;
    var last, end, read := Date(0, 12, 15), Date(1, 1, 10), Date(1, 12, 15);
    TurnOfEra();
    assert Written(last) == read && Written(end) == end && Shift(read) == Shift(end) by { SameShift(); }
    SinceMidnight(last, end);
    SameMonthCount(read, end);
  }
}
