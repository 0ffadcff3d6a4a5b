// The customer counts of `getStoreCustomerSummary` (src/modules/analytics/analytics.service.ts)
// and the rates of src/modules/analytics/customer-summary.math.ts, over an order table
// with millisecond timestamps.
module CustomerCohorts {
  import opened Wrappers
  import opened BangkokCalendar
  import opened FiniteSets

  datatype OrderStatus = PENDING_PAYMENT | PAID | PROCESSING | ON_HOLD | SHIPPED | DELIVERED | CANCELLED | REFUNDED

  /** An order with the stores its items were bought from. */
  datatype Order = Order(customerId: Option<nat>, status: OrderStatus, createdAt: int, storeIds: seq<nat>)

  type OrderTable = map<nat, Order>

  predicate Excluded(s: OrderStatus) {
    s == CANCELLED || s == REFUNDED || s == PENDING_PAYMENT
  }

  /** The rows every query of the summary joins and keeps. */
  predicate Qualifies(t: OrderTable, store: nat, id: nat) {
    id in t && store in t[id].storeIds && t[id].customerId.Some? && !Excluded(t[id].status)
  }

  predicate BoughtAt(t: OrderTable, store: nat, id: nat, customer: nat) {
    Qualifies(t, store, id) && t[id].customerId.value == customer
  }

  // ---- The queries ------------------------------------------------------------

  function OrdersBetween(t: OrderTable, store: nat, from: int, to: int): set<nat> {
    set id | id in t && Qualifies(t, store, id) && from <= t[id].createdAt <= to
  }

  /** COUNT(DISTINCT o.customerId) between two instants. */
  function Buyers(t: OrderTable, store: nat, from: int, to: int): set<nat> {
    set id | id in OrdersBetween(t, store, from, to) :: t[id].customerId.value
  }

  /** COUNT(DISTINCT o.customerId) up to an instant. */
  function CustomersUpTo(t: OrderTable, store: nat, to: int): set<nat> {
    set id | id in t && Qualifies(t, store, id) && t[id].createdAt <= to :: t[id].customerId.value
  }

  function PurchaseTimes(t: OrderTable, store: nat, customer: nat, to: int): set<int> {
    set id | id in t && BoughtAt(t, store, id, customer) && t[id].createdAt <= to :: t[id].createdAt
  }

  ghost predicate IsMin(s: set<int>, m: int) {
    m in s && forall x :: x in s ==> m <= x
  }

  /** MIN(o.createdAt) */
  ghost function Min(s: set<int>): (m: int)
    requires s != {}
    ensures IsMin(s, m)
  {
    MinExists(s);
    var m :| IsMin(s, m);
    m
  }

  lemma MinExists(s: set<int>)
    requires s != {}
    ensures exists m :: IsMin(s, m)
  {
    var a := SomeElement(s);
    var rest := s - {a};
    if rest == {} {
      assert s == {a};
      assert IsMin(s, a);
    } else {
      MinExists(rest);
      var b :| IsMin(rest, b);
      assert s == rest + {a};
      assert IsMin(s, if a < b then a else b);
    }
  }

  /** GROUP BY customer HAVING MIN(createdAt) >= from, over rows up to `to`. */
  ghost function NewCustomers(t: OrderTable, store: nat, from: int, to: int): set<nat> {
    set c | c in CustomersUpTo(t, store, to)
            && PurchaseTimes(t, store, c, to) != {} && Min(PurchaseTimes(t, store, c, to)) >= from
  }

  /** Buyers of the period for whom an earlier order EXISTS. */
  ghost function OldCustomers(t: OrderTable, store: nat, from: int, to: int): set<nat> {
    set c | c in Buyers(t, store, from, to)
            && exists id :: id in t && BoughtAt(t, store, id, c) && t[id].createdAt < from
  }

  /** Buyers of one period for whom an order in an earlier period EXISTS. */
  ghost function ReturningBuyers(t: OrderTable, store: nat, selected: Bounds, prior: Bounds): set<nat> {
    set c | c in Buyers(t, store, selected.from, selected.to)
            && exists id :: id in t && BoughtAt(t, store, id, c) && prior.from <= t[id].createdAt <= prior.to
  }

  // ---- What membership means --------------------------------------------------

  lemma BuyersAre(t: OrderTable, store: nat, c: nat, from: int, to: int)
    ensures c in Buyers(t, store, from, to)
       <==> exists id :: id in t && BoughtAt(t, store, id, c) && from <= t[id].createdAt <= to
  {
    if c in Buyers(t, store, from, to) {
      var id :| id in OrdersBetween(t, store, from, to) && t[id].customerId.value == c;
      assert BoughtAt(t, store, id, c);
    }
    if id :| id in t && BoughtAt(t, store, id, c) && from <= t[id].createdAt <= to {
      assert id in OrdersBetween(t, store, from, to);
    }
  }

  lemma CustomersUpToAre(t: OrderTable, store: nat, c: nat, to: int)
    ensures c in CustomersUpTo(t, store, to)
            <==> exists id :: id in t && BoughtAt(t, store, id, c) && t[id].createdAt <= to
  {
    if c in CustomersUpTo(t, store, to) {
      var id :| id in t && Qualifies(t, store, id) && t[id].createdAt <= to && t[id].customerId.value == c;
      assert BoughtAt(t, store, id, c);
    }
    if id :| id in t && BoughtAt(t, store, id, c) && t[id].createdAt <= to {
      assert Qualifies(t, store, id);
    }
  }

  lemma PurchaseTimesAre(t: OrderTable, store: nat, c: nat, to: int, x: int)
    ensures x in PurchaseTimes(t, store, c, to)
       <==> exists id :: id in t && BoughtAt(t, store, id, c) && t[id].createdAt == x && x <= to
  {
  }

  /** New customers are those whose first purchase falls in the period: customers by its end, not before its start. */
  lemma NewCustomersAre(t: OrderTable, store: nat, from: int, to: int)
    requires from <= to + 1
    ensures NewCustomers(t, store, from, to) == CustomersUpTo(t, store, to) - CustomersUpTo(t, store, from - 1)
  {
    forall c | c in CustomersUpTo(t, store, to)
      ensures c in NewCustomers(t, store, from, to) <==> c !in CustomersUpTo(t, store, from - 1)
    {
      FirstPurchase(t, store, c, from, to);
    }
  }

  lemma FirstPurchase(t: OrderTable, store: nat, c: nat, from: int, to: int)
    requires from <= to + 1 && c in CustomersUpTo(t, store, to)
    ensures PurchaseTimes(t, store, c, to) != {}
    ensures Min(PurchaseTimes(t, store, c, to)) >= from <==> c !in CustomersUpTo(t, store, from - 1)
  {
    var times := PurchaseTimes(t, store, c, to);
    CustomersUpToAre(t, store, c, to);
    CustomersUpToAre(t, store, c, from - 1);
    var id :| id in t && BoughtAt(t, store, id, c) && t[id].createdAt <= to;
    PurchaseTimesAre(t, store, c, to, t[id].createdAt);
    PurchaseTimesAre(t, store, c, to, Min(times));
    if j :| j in t && BoughtAt(t, store, j, c) && t[j].createdAt <= from - 1 {
      PurchaseTimesAre(t, store, c, to, t[j].createdAt);
    }
  }

  // ---- Partition and growth ---------------------------------------------------

  /** Every buyer of the period is new or old, and none is both. */
  lemma {:induction false} NewAndOldPartition(t: OrderTable, store: nat, from: int, to: int)
    requires from <= to + 1
    ensures NewCustomers(t, store, from, to) !! OldCustomers(t, store, from, to)
    ensures NewCustomers(t, store, from, to) + OldCustomers(t, store, from, to) == Buyers(t, store, from, to)
    ensures |NewCustomers(t, store, from, to)| + |OldCustomers(t, store, from, to)| == |Buyers(t, store, from, to)|
  {
    hide Buyers, CustomersUpTo, NewCustomers;
    NewCustomersAre(t, store, from, to);
    var newOnes, oldOnes, all := NewCustomers(t, store, from, to), OldCustomers(t, store, from, to),
        Buyers(t, store, from, to);
    forall c ensures c in newOnes <==> c in all && c !in oldOnes {
      BuyersAre(t, store, c, from, to);
      CustomersUpToAre(t, store, c, to);
      CustomersUpToAre(t, store, c, from - 1);
      BuyerOrEarlier(t, store, c, from, to);
    }
    assert newOnes + oldOnes == all;
    DisjointSizes(newOnes, oldOnes);
  }

  lemma BuyerOrEarlier(t: OrderTable, store: nat, c: nat, from: int, to: int)
    ensures (exists id :: id in t && BoughtAt(t, store, id, c) && t[id].createdAt < from)
       <==> (exists id :: id in t && BoughtAt(t, store, id, c) && t[id].createdAt <= from - 1)
    ensures (exists id :: id in t && BoughtAt(t, store, id, c) && t[id].createdAt <= to)
        ==> (exists id :: id in t && BoughtAt(t, store, id, c) && from <= t[id].createdAt <= to)
            || (exists id :: id in t && BoughtAt(t, store, id, c) && t[id].createdAt <= from - 1)
    ensures (exists id :: id in t && BoughtAt(t, store, id, c) && from <= t[id].createdAt <= to)
        ==> (exists id :: id in t && BoughtAt(t, store, id, c) && t[id].createdAt <= to)
  {
  }

  lemma CustomersUpToGrows(t: OrderTable, store: nat, a: int, b: int)
    requires a <= b
    ensures CustomersUpTo(t, store, a) <= CustomersUpTo(t, store, b)
  {
  }

  /** All customers by the end of a period are those before it and its new ones. */
  lemma CustomersGrowByTheNew(t: OrderTable, store: nat, from: int, to: int)
    requires from <= to + 1
    ensures |CustomersUpTo(t, store, to)| == |CustomersUpTo(t, store, from - 1)| + |NewCustomers(t, store, from, to)|
  {
    hide CustomersUpTo, NewCustomers;
    NewCustomersAre(t, store, from, to);
    CustomersUpToGrows(t, store, from - 1, to);
    DisjointSizes(CustomersUpTo(t, store, from - 1), NewCustomers(t, store, from, to));
    assert CustomersUpTo(t, store, from - 1) + NewCustomers(t, store, from, to) == CustomersUpTo(t, store, to);
  }

  /** Returning buyers bought in the prior period. */
  lemma ReturningBoughtBefore(t: OrderTable, store: nat, selected: Bounds, prior: Bounds)
    ensures ReturningBuyers(t, store, selected, prior) <= Buyers(t, store, prior.from, prior.to)
    ensures |ReturningBuyers(t, store, selected, prior)| <= |Buyers(t, store, prior.from, prior.to)|
  {
    forall c | c in ReturningBuyers(t, store, selected, prior) ensures c in Buyers(t, store, prior.from, prior.to) {
      BuyersAre(t, store, c, prior.from, prior.to);
    }
    SubsetSize(ReturningBuyers(t, store, selected, prior), Buyers(t, store, prior.from, prior.to));
  }

  // ---- Rates ------------------------------------------------------------------

  datatype Retention = Retention(repeatRate: Option<real>, lifetimeMonths: Option<real>)

  function ComputeRepeatRateLifetimeMonths(priorYearBuyers: int, returningBuyers: int): Retention {
    if priorYearBuyers <= 0 then Retention(None, None)
    else
      var repeatRate := returningBuyers as real / priorYearBuyers as real;
      if repeatRate >= 1.0 then Retention(Some(repeatRate), None)
      else Retention(Some(repeatRate), Some(12.0 / (1.0 - repeatRate)))
  }

  function ComputeOldCustomerPercent(oldBuyersInMonth: int, buyersInMonth: int): Option<real> {
    if buyersInMonth <= 0 then None else Some(oldBuyersInMonth as real / buyersInMonth as real)
  }

  lemma FractionOf(part: int, whole: int)
    requires 0 <= part <= whole && whole > 0
    ensures 0.0 <= part as real / whole as real <= 1.0
    ensures part as real / whole as real == 1.0 <==> part == whole
    ensures part as real / whole as real * whole as real == part as real
  {
    var x, y := part as real, whole as real;
    assert x / y * y == x;
  }

  /** A fraction of returning buyers between 0 and 1, and a lifetime of at least a year wherever it is defined. */
  lemma RetentionRange(prior: int, returning: int)
    requires 0 <= returning <= prior
    ensures var r := ComputeRepeatRateLifetimeMonths(prior, returning);
            && (r.repeatRate.None? <==> prior == 0)
            && (r.repeatRate.Some? ==> 0.0 <= r.repeatRate.value <= 1.0)
            && (r.lifetimeMonths.Some? <==> returning < prior)
            && (r.lifetimeMonths.Some? ==> r.lifetimeMonths.value >= 12.0)
            && (r.repeatRate.Some? ==> r.repeatRate.value * prior as real == returning as real)
            && (r.lifetimeMonths.Some? ==> r.lifetimeMonths.value * (prior - returning) as real == 12.0 * prior as real)
  {
    if prior > 0 {
      FractionOf(returning, prior);
      if returning < prior {
        LifetimeAtLeastAYear(1.0 - returning as real / prior as real);
        LifetimeIs(prior as real, returning as real);
      }
    }
  }

  lemma LifetimeAtLeastAYear(x: real)
    requires 0.0 < x <= 1.0
    ensures 12.0 / x >= 12.0
  {
    assert 12.0 / x * x == 12.0;
  }

  /** The lifetime is a year divided by the share of buyers lost. */
  lemma LifetimeIs(prior: real, returning: real)
    requires 0.0 <= returning < prior
    ensures returning / prior < 1.0 && 12.0 / (1.0 - returning / prior) * (prior - returning) == 12.0 * prior
  {
    var rate := returning / prior;
    assert rate * prior == returning;
    assert rate < 1.0 by { if rate >= 1.0 { RealMonotone(1.0, rate, prior); } }
    assert (1.0 - rate) * prior == prior - returning;
    var lifetime := 12.0 / (1.0 - rate);
    assert lifetime * (1.0 - rate) == 12.0;
    assert lifetime * ((1.0 - rate) * prior) == lifetime * (1.0 - rate) * prior;
  }

  lemma RealMonotone(a: real, b: real, c: real)
    requires a <= b && c >= 0.0
    ensures a * c <= b * c
  {
  }

  // ---- The summary ------------------------------------------------------------

  datatype SummaryError =
    | INVALID_SUMMARY_YEAR
    | INVALID_SUMMARY_MONTH
    | SUMMARY_MONTH_IN_FUTURE
    | STORE_NOT_FOUND
    | SUMMARY_MONTH_BEFORE_CREATED

  datatype Summary = Summary(retention: Retention, purchasesPerMonth: Option<real>, newCustomerCount: nat,
                             oldCustomerCount: nat,
                             oldCustomerPercent: Option<real>, orderCount: nat, buyersInMonth: nat, totalCustomers: nat)

  datatype SummaryResult = Ok(summary: Summary) | Failed(error: SummaryError)

  /** `assertValidSummaryMonth` */
  function SummaryMonthError(year: int, month: int, now: int): Option<SummaryError> {
    var today := BangkokYearMonthParts(now);
    if year < 2000 || year > 2100 then Some(INVALID_SUMMARY_YEAR)
    else if month < 1 || month > 12 then Some(INVALID_SUMMARY_MONTH)
    else if year > today.year || (year == today.year && month > today.month) then Some(SUMMARY_MONTH_IN_FUTURE)
    else None
  }

  function PerCustomer(ordersInMonth: int, totalCustomers: int): Option<real> {
    if totalCustomers <= 0 then None else Some(ordersInMonth as real / totalCustomers as real)
  }

  /** The year that retention is measured against. */
  function PriorYear(year: int): Bounds {
    BangkokYearBounds(year - 1)
  }

  /** The year asked for, up to now when it is the current one. */
  function SelectedYear(year: int, now: int): Bounds {
    if year == BangkokYearMonthParts(now).year then CappedYearBounds(year, now) else BangkokYearBounds(year)
  }

  ghost function SummaryOf(t: OrderTable, store: nat, year: int, month: int, now: int): Summary {
    var b, prior, selected := BangkokMonthBounds(year, month), PriorYear(year), SelectedYear(year, now);
    var orderCount := |OrdersBetween(t, store, b.from, b.to)|;
    var buyersInMonth := |Buyers(t, store, b.from, b.to)|;
    var totalCustomers := |CustomersUpTo(t, store, b.to)|;
    var oldCustomerCount := |OldCustomers(t, store, b.from, b.to)|;
    Summary(ComputeRepeatRateLifetimeMonths(|Buyers(t, store, prior.from, prior.to)|,
                                            |ReturningBuyers(t, store, selected, prior)|),
            PerCustomer(orderCount, totalCustomers), |NewCustomers(t, store, b.from, b.to)|, oldCustomerCount,
            ComputeOldCustomerPercent(oldCustomerCount, buyersInMonth), orderCount, buyersInMonth, totalCustomers)
  }

  /** `createdAt` is the creation instant of each store. */
  ghost function GetStoreCustomerSummary(t: OrderTable, createdAt: map<nat, int>, store: nat, year: int, month: int,
                                         now: int): SummaryResult {
    var invalid := SummaryMonthError(year, month, now);
    if invalid.Some? then Failed(invalid.value)
    else if store !in createdAt then Failed(STORE_NOT_FOUND)
    else
      var created := BangkokYearMonthParts(createdAt[store]);
      if year < created.year || (year == created.year && month < created.month)
          then Failed(SUMMARY_MONTH_BEFORE_CREATED)
      else Ok(SummaryOf(t, store, year, month, now))
  }

  lemma {:induction false} MonthIsNotEmpty(year: int, month: int)
    requires 1 <= month <= 12
    ensures BangkokMonthBounds(year, month).from <= BangkokMonthBounds(year, month).to
  {
    hide MonthStart, LengthOf, BangkokMonthBounds;
    MonthBoundsAre(year, month);
    var index := MonthIndex(FullYear(year), month);
    NextMonth(index);
    LengthPositive(index);
  }

  /** The orders counted for a month are the qualifying ones whose Bangkok calendar month it is. */
  lemma {:induction false} MonthOrdersByBangkokCalendar(t: OrderTable, store: nat, year: int, month: int, id: nat)
    requires 1 <= month <= 12
    ensures id in OrdersBetween(t, store, BangkokMonthBounds(year, month).from, BangkokMonthBounds(year, month).to)
       <==> && id in t && store in t[id].storeIds && t[id].customerId.Some?
            && t[id].status in {PAID, PROCESSING, ON_HOLD, SHIPPED, DELIVERED}
            && BangkokDate(t[id].createdAt).year == FullYear(year) && BangkokDate(t[id].createdAt).month == month
  {
    hide BangkokMonthBounds, DateOf;
    if id in t {
      MonthBoundsCut(t[id].createdAt, year, month);
    }
  }

  /** `resolveCustomerCohortLabel` for a customer with first purchase `firstAt`. */
  datatype CohortLabel = NewLabel | OldLabel | NeverLabel

  function ResolveCustomerCohortLabel(firstAt: Option<int>, monthFrom: int, monthTo: int): CohortLabel {
    if firstAt.None? || firstAt.value > monthTo then NeverLabel
    else if firstAt.value >= monthFrom then NewLabel
    else OldLabel
  }

  ghost predicate IsFirstPurchase(t: OrderTable, store: nat, c: nat, firstAt: Option<int>) {
    if firstAt.None? then forall id :: id in t ==> !BoughtAt(t, store, id, c)
    else
      && (exists id :: id in t && BoughtAt(t, store, id, c) && t[id].createdAt == firstAt.value)
      && (forall id :: id in t && BoughtAt(t, store, id, c) ==> firstAt.value <= t[id].createdAt)
  }

  /** The cohort of one customer agrees with the counted sets. */
  lemma LabelMatchesSets(t: OrderTable, store: nat, c: nat, firstAt: Option<int>, from: int, to: int)
    requires from <= to + 1 && IsFirstPurchase(t, store, c, firstAt)
    ensures var cohort := ResolveCustomerCohortLabel(firstAt, from, to);
            && (cohort == NewLabel <==> c in NewCustomers(t, store, from, to))
            && (cohort == NeverLabel <==> c !in CustomersUpTo(t, store, to))
            && (c in OldCustomers(t, store, from, to) <==> cohort == OldLabel && c in Buyers(t, store, from, to))
  {
    hide Buyers, CustomersUpTo, NewCustomers;
    NewCustomersAre(t, store, from, to);
    CustomersUpToAre(t, store, c, to);
    CustomersUpToAre(t, store, c, from - 1);
    BuyersAre(t, store, c, from, to);
  }

  /** The month has begun by this instant, as the checks read it: before the year 1 they read another year. */
  predicate HasBegun(instant: int, year: int, month: int) {
    var d := BangkokDate(instant);
    if d.year >= 1 then BangkokMonthBounds(year, month).from <= instant
    else MonthIndex(year, month) <= MonthIndex(1 - d.year, d.month)
  }

  predicate HasNotEnded(instant: int, year: int, month: int) {
    var d := BangkokDate(instant);
    if d.year >= 1 then instant <= BangkokMonthBounds(year, month).to
    else MonthIndex(1 - d.year, d.month) <= MonthIndex(year, month)
  }

  /**
   * A summary is given exactly for the months of an existing store that had begun by
   * now and not ended before it was created.
   */
  lemma {:induction false} SummaryIsGivenIff(t: OrderTable, createdAt: map<nat, int>, store: nat, year: int, month: int,
                                             now: int)
    ensures var r := GetStoreCustomerSummary(t, createdAt, store, year, month, now);
            && (r.Ok? <==> && 2000 <= year <= 2100 && 1 <= month <= 12 && store in createdAt
                           && HasBegun(now, year, month) && HasNotEnded(createdAt[store], year, month))
            && (r.Ok? ==> r.summary == SummaryOf(t, store, year, month, now))
            && (!r.Ok? ==>
                  r.error == if !(2000 <= year <= 2100) then INVALID_SUMMARY_YEAR
                             else if !(1 <= month <= 12) then INVALID_SUMMARY_MONTH
                             else if !HasBegun(now, year, month) then SUMMARY_MONTH_IN_FUTURE
                             else if store !in createdAt then STORE_NOT_FOUND
                             else SUMMARY_MONTH_BEFORE_CREATED)
  {
    hide SummaryOf, BangkokMonthBounds, DateOf, DayNumber;
    if 2000 <= year <= 2100 && 1 <= month <= 12 {
      MonthBoundsCut(now, year, month);
      if store in createdAt {
        MonthBoundsCut(createdAt[store], year, month);
      }
    }
  }

  // ---- What the summary counts ------------------------------------------------

  /** A customer bought in a month, a year or earlier: by the Bangkok calendar, for the years the service accepts. */
  lemma {:induction false} PeriodsAre(instant: int, year: int, month: int)
    requires 1999 <= year <= 2100 && 1 <= month <= 12
    ensures var d, b, y := BangkokDate(instant), BangkokMonthBounds(year, month), BangkokYearBounds(year);
            && (b.from <= instant <==> 12 * year + month <= 12 * d.year + d.month)
            && (instant <= b.to <==> 12 * d.year + d.month <= 12 * year + month)
            && (y.from <= instant <= y.to <==> d.year == year)
  {
    hide BangkokMonthBounds, BangkokYearBounds, DateOf;
    MonthBoundsCut(instant, year, month);
    MonthBoundsCut(instant, year, 1);
    MonthBoundsCut(instant, year, 12);
    YearIsItsMonths(year);
  }

  /**
   * The repeat rate is the share of last year's buyers who bought again this year, up
   * to now when this is the current year (also when `now` is written like it: an
   * instant of the year 1 - year is).
   */
  lemma {:induction false} RetentionIs(t: OrderTable, store: nat, year: int, month: int, now: int, prior: set<nat>,
                                       returning: set<nat>)
    requires 2000 <= year <= 2100
    requires forall c :: c in prior
               <==> exists id :: id in t && BoughtAt(t, store, id, c) && BangkokDate(t[id].createdAt).year == year - 1
    requires forall c :: c in returning
               <==> && c in prior
                    && exists id :: && id in t && BoughtAt(t, store, id, c)
                                    && BangkokDate(t[id].createdAt).year == year
                                    && (BangkokDate(now).year in {year, 1 - year} ==> t[id].createdAt <= now)
    ensures var r := SummaryOf(t, store, year, month, now).retention;
            && returning <= prior
            && (r.repeatRate.Some? <==> |prior| > 0)
            && (r.repeatRate.Some? ==> r.repeatRate.value * |prior| as real == |returning| as real)
            && (r.lifetimeMonths.Some? <==> |returning| < |prior|)
            && (r.lifetimeMonths.Some? ==>
                  r.lifetimeMonths.value * (|prior| - |returning|) as real == 12.0 * |prior| as real)
  {
    hide Buyers, ReturningBuyers, BangkokYearBounds, ComputeRepeatRateLifetimeMonths, BangkokDate, BoughtAt, SummaryOf,
         SelectedYear, PriorYear;
    forall c ensures c in prior <==> c in Buyers(t, store, PriorYear(year).from, PriorYear(year).to) {
      PriorBuyersAre(t, store, year, c);
    }
    assert prior == Buyers(t, store, PriorYear(year).from, PriorYear(year).to);
    forall c ensures c in returning <==> c in ReturningBuyers(t, store, SelectedYear(year, now), PriorYear(year)) {
      ReturningAre(t, store, year, now, c);
    }
    assert returning == ReturningBuyers(t, store, SelectedYear(year, now), PriorYear(year));
    ReturningBoughtBefore(t, store, SelectedYear(year, now), PriorYear(year));
    SummaryRetention(t, store, year, month, now);
    RetentionRange(|prior|, |returning|);
  }

  lemma SummaryRetention(t: OrderTable, store: nat, year: int, month: int, now: int)
    ensures SummaryOf(t, store, year, month, now).retention
         == ComputeRepeatRateLifetimeMonths(|Buyers(t, store, PriorYear(year).from, PriorYear(year).to)|,
                                            |ReturningBuyers(t, store, SelectedYear(year, now), PriorYear(year))|)
  {
    hide Buyers, CustomersUpTo, NewCustomers, OldCustomers, ReturningBuyers, BangkokMonthBounds, BangkokYearBounds,
         OrdersBetween, ComputeRepeatRateLifetimeMonths, PerCustomer, ComputeOldCustomerPercent;
  }

  lemma {:induction false} PriorBuyersAre(t: OrderTable, store: nat, year: int, c: nat)
    requires 2000 <= year <= 2100
    ensures c in Buyers(t, store, PriorYear(year).from, PriorYear(year).to)
       <==> exists id :: id in t && BoughtAt(t, store, id, c) && BangkokDate(t[id].createdAt).year == year - 1
  {
    hide Buyers, BangkokDate, BangkokYearBounds, BangkokMonthBounds;
    var before := BangkokYearBounds(year - 1);
    BuyersAre(t, store, c, before.from, before.to);
    forall id | id in t
      ensures before.from <= t[id].createdAt <= before.to <==> BangkokDate(t[id].createdAt).year == year - 1
    {
      PeriodsAre(t[id].createdAt, year - 1, 1);
    }
  }

  lemma {:induction false} ReturningAre(t: OrderTable, store: nat, year: int, now: int, c: nat)
    requires 2000 <= year <= 2100
    ensures c in ReturningBuyers(t, store, SelectedYear(year, now), PriorYear(year))
            <==> && (exists id :: && id in t && BoughtAt(t, store, id, c)
                                  && BangkokDate(t[id].createdAt).year == year - 1)
                 && (exists id :: && id in t && BoughtAt(t, store, id, c)
                                  && BangkokDate(t[id].createdAt).year == year
                                  && (BangkokDate(now).year in {year, 1 - year} ==> t[id].createdAt <= now))
  {
    var selected, before := SelectedYear(year, now), PriorYear(year);
    hide Buyers, BangkokMonthBounds, DateOf;
    BuyersAre(t, store, c, selected.from, selected.to);
    forall id | id in t
      ensures before.from <= t[id].createdAt <= before.to <==> BangkokDate(t[id].createdAt).year == year - 1
      ensures selected.from <= t[id].createdAt <= selected.to
         <==> && BangkokDate(t[id].createdAt).year == year
              && (BangkokDate(now).year in {year, 1 - year} ==> t[id].createdAt <= now)
    {
      hide BangkokYearBounds;
      PeriodsAre(t[id].createdAt, year - 1, 1);
      PeriodsAre(t[id].createdAt, year, 1);
    }
  }

  /**
   * The counts are of the orders, buyers and customers that the Bangkok calendar puts
   * into the month and up to its end; new customers never bought before it, old ones did.
   */
  lemma {:induction false} CountsAre(t: OrderTable, store: nat, year: int, month: int, now: int, orders: set<nat>,
                                     buyers: set<nat>, customers: set<nat>, newOnes: set<nat>, oldOnes: set<nat>)
    requires 2000 <= year <= 2100 && 1 <= month <= 12
    requires forall id :: id in orders
               <==> && id in t && store in t[id].storeIds && t[id].customerId.Some?
                    && t[id].status in {PAID, PROCESSING, ON_HOLD, SHIPPED, DELIVERED}
                    && BangkokDate(t[id].createdAt).year == year && BangkokDate(t[id].createdAt).month == month
    requires forall c :: c in buyers <==> exists id :: id in orders && t[id].customerId == Some(c)
    requires forall c :: c in customers
               <==> exists id :: && id in t && BoughtAt(t, store, id, c)
                                 && MonthsOf(t[id].createdAt) <= 12 * year + month
    requires forall c :: c in oldOnes
               <==> && c in buyers
                    && exists id :: && id in t && BoughtAt(t, store, id, c)
                                    && MonthsOf(t[id].createdAt) < 12 * year + month
    requires newOnes == buyers - oldOnes
    ensures var r := SummaryOf(t, store, year, month, now);
            && r.orderCount == |orders| && r.buyersInMonth == |buyers| && r.totalCustomers == |customers|
            && r.newCustomerCount == |newOnes| && r.oldCustomerCount == |oldOnes|
  {
    hide BangkokMonthBounds, CustomersUpTo, NewCustomers, OldCustomers, OrdersBetween, MonthsOf, BoughtAt, BangkokDate,
         Buyers, SummaryOf;
    var b := BangkokMonthBounds(year, month);
    MonthIsNotEmpty(year, month);
    NewAndOldPartition(t, store, b.from, b.to);
    forall id ensures id in orders <==> id in OrdersBetween(t, store, b.from, b.to) {
      MonthOrdersByBangkokCalendar(t, store, year, month, id);
    }
    assert orders == OrdersBetween(t, store, b.from, b.to);
    forall c ensures c in buyers <==> c in Buyers(t, store, b.from, b.to) {
      BuyersAreOf(t, store, b.from, b.to, c);
    }
    assert buyers == Buyers(t, store, b.from, b.to);
    forall c ensures c in customers <==> c in CustomersUpTo(t, store, b.to) {
      CustomersByMonth(t, store, year, month, c);
    }
    assert customers == CustomersUpTo(t, store, b.to);
    forall c ensures c in oldOnes <==> c in OldCustomers(t, store, b.from, b.to) {
      OldByMonth(t, store, year, month, c);
    }
    assert oldOnes == OldCustomers(t, store, b.from, b.to);
    assert newOnes == NewCustomers(t, store, b.from, b.to);
    SummaryCounts(t, store, year, month, now);
  }

  lemma SummaryCounts(t: OrderTable, store: nat, year: int, month: int, now: int)
    ensures var r, b := SummaryOf(t, store, year, month, now), BangkokMonthBounds(year, month);
            && r.orderCount == |OrdersBetween(t, store, b.from, b.to)|
            && r.buyersInMonth == |Buyers(t, store, b.from, b.to)|
            && r.totalCustomers == |CustomersUpTo(t, store, b.to)|
            && r.newCustomerCount == |NewCustomers(t, store, b.from, b.to)|
            && r.oldCustomerCount == |OldCustomers(t, store, b.from, b.to)|
  {
    hide Buyers, CustomersUpTo, NewCustomers, OldCustomers, ReturningBuyers, BangkokMonthBounds, BangkokYearBounds,
         OrdersBetween, ComputeRepeatRateLifetimeMonths, PerCustomer, ComputeOldCustomerPercent, SelectedYear;
  }

  lemma CustomersByMonth(t: OrderTable, store: nat, year: int, month: int, c: nat)
    requires 2000 <= year <= 2100 && 1 <= month <= 12
    ensures c in CustomersUpTo(t, store, BangkokMonthBounds(year, month).to)
       <==> exists id :: id in t && BoughtAt(t, store, id, c) && MonthsOf(t[id].createdAt) <= 12 * year + month
  {
    hide CustomersUpTo, BangkokMonthBounds, BangkokDate;
    var b := BangkokMonthBounds(year, month);
    CustomersUpToAre(t, store, c, b.to);
    forall id | id in t ensures t[id].createdAt <= b.to <==> MonthsOf(t[id].createdAt) <= 12 * year + month {
      PeriodsAre(t[id].createdAt, year, month);
    }
  }

  lemma OldByMonth(t: OrderTable, store: nat, year: int, month: int, c: nat)
    requires 2000 <= year <= 2100 && 1 <= month <= 12
    ensures var b := BangkokMonthBounds(year, month);
            c in OldCustomers(t, store, b.from, b.to)
            <==> && c in Buyers(t, store, b.from, b.to)
                 && exists id :: && id in t && BoughtAt(t, store, id, c)
                                 && MonthsOf(t[id].createdAt) < 12 * year + month
  {
    hide Buyers, BangkokMonthBounds, BangkokDate;
    var b := BangkokMonthBounds(year, month);
    forall id | id in t ensures t[id].createdAt < b.from <==> MonthsOf(t[id].createdAt) < 12 * year + month {
      PeriodsAre(t[id].createdAt, year, month);
    }
  }

  /** Months by the Bangkok calendar, counted through. */
  function MonthsOf(instant: int): int {
    12 * BangkokDate(instant).year + BangkokDate(instant).month
  }

  lemma BuyersAreOf(t: OrderTable, store: nat, from: int, to: int, c: nat)
    ensures c in Buyers(t, store, from, to)
       <==> exists id :: id in OrdersBetween(t, store, from, to) && t[id].customerId == Some(c)
  {
    if c in Buyers(t, store, from, to) {
      var id :| id in OrdersBetween(t, store, from, to) && t[id].customerId.value == c;
      assert t[id].customerId == Some(c);
    }
  }

  /** For any order table, the counts of a summary agree with each other and its rates stay in range. */
  lemma {:induction false} SummaryIsConsistent(t: OrderTable, store: nat, year: int, month: int, now: int)
    requires 1 <= month <= 12
    ensures var r := SummaryOf(t, store, year, month, now);
            && r.newCustomerCount + r.oldCustomerCount == r.buyersInMonth <= r.totalCustomers
                && r.buyersInMonth <= r.orderCount
            && (r.purchasesPerMonth.Some? <==> r.totalCustomers > 0)
            && (r.purchasesPerMonth.Some?
                ==> r.purchasesPerMonth.value * r.totalCustomers as real == r.orderCount as real)
            && (r.oldCustomerPercent.Some?
                ==> r.oldCustomerPercent.value * r.buyersInMonth as real == r.oldCustomerCount as real)
            && (r.oldCustomerPercent.Some? <==> r.buyersInMonth > 0)
            && (r.oldCustomerPercent.Some? ==> 0.0 <= r.oldCustomerPercent.value <= 1.0)
            && (r.retention.repeatRate.Some? ==> 0.0 <= r.retention.repeatRate.value <= 1.0)
            && (r.retention.lifetimeMonths.Some? ==> r.retention.lifetimeMonths.value >= 12.0)
  {
    hide Buyers, CustomersUpTo, NewCustomers, OldCustomers, ReturningBuyers, BangkokMonthBounds, BangkokYearBounds,
         CappedYearBounds, OrdersBetween, ComputeRepeatRateLifetimeMonths, PerCustomer, BangkokYearMonthParts;
    var b := BangkokMonthBounds(year, month);
    MonthIsNotEmpty(year, month);
    NewAndOldPartition(t, store, b.from, b.to);
    BuyersAreCustomers(t, store, b.from, b.to);
    BuyersPlacedOrders(t, store, b.from, b.to);
    PerCustomerIs(|OrdersBetween(t, store, b.from, b.to)|, |CustomersUpTo(t, store, b.to)|);
    var prior, selected := PriorYear(year), SelectedYear(year, now);
    ReturningBoughtBefore(t, store, selected, prior);
    RetentionRange(|Buyers(t, store, prior.from, prior.to)|, |ReturningBuyers(t, store, selected, prior)|);
    if |Buyers(t, store, b.from, b.to)| > 0 {
      FractionOf(|OldCustomers(t, store, b.from, b.to)|, |Buyers(t, store, b.from, b.to)|);
    }
  }

  lemma PerCustomerIs(orders: int, customers: int)
    requires customers >= 0
    ensures var r := PerCustomer(orders, customers);
            && (r.Some? <==> customers > 0)
            && (r.Some? ==> r.value * customers as real == orders as real)
  {
  }

  lemma {:induction false} CustomersOfOrders(t: OrderTable, ids: set<nat>)
    requires forall id :: id in ids ==> id in t && t[id].customerId.Some?
    ensures |set id | id in ids :: t[id].customerId.value| <= |ids|
  {
    if ids != {} {
      var a := SomeElement(ids);
      var rest := ids - {a};
      CustomersOfOrders(t, rest);
      assert (set id | id in ids :: t[id].customerId.value)
          == (set id | id in rest :: t[id].customerId.value) + {t[a].customerId.value};
    }
  }

  lemma BuyersPlacedOrders(t: OrderTable, store: nat, from: int, to: int)
    ensures |Buyers(t, store, from, to)| <= |OrdersBetween(t, store, from, to)|
  {
    CustomersOfOrders(t, OrdersBetween(t, store, from, to));
  }

  lemma BuyersAreCustomers(t: OrderTable, store: nat, from: int, to: int)
    ensures |Buyers(t, store, from, to)| <= |CustomersUpTo(t, store, to)|
  {
    forall c | c in Buyers(t, store, from, to) ensures c in CustomersUpTo(t, store, to) {
      BuyersAre(t, store, c, from, to);
      CustomersUpToAre(t, store, c, to);
    }
    SubsetSize(Buyers(t, store, from, to), CustomersUpTo(t, store, to));
  }

  function NextYear(year: int, month: int): int {
    if month == 12 then year + 1 else year
  }

  function NextMonthOf(month: int): int {
    if month == 12 then 1 else month + 1
  }

  /** Next month's customers are this month's and next month's new ones: no purchase falls between two months. */
  lemma {:induction false} TotalsFollowNewCustomers(t: OrderTable, store: nat, year: int, month: int, now: int,
                                                    later: int)
    requires 1 <= month <= 12 && !(month == 12 && (year == -1 || year == 99))
    ensures var current := SummaryOf(t, store, year, month, now);
            var next := SummaryOf(t, store, NextYear(year, month), NextMonthOf(month), later);
            next.totalCustomers == current.totalCustomers + next.newCustomerCount
  {
    hide Buyers, CustomersUpTo, NewCustomers, OldCustomers, ReturningBuyers, BangkokMonthBounds, BangkokYearBounds,
         CappedYearBounds, OrdersBetween, ComputeRepeatRateLifetimeMonths, PerCustomer, BangkokYearMonthParts,
         ComputeOldCustomerPercent;
    var y, m := NextYear(year, month), NextMonthOf(month);
    MonthBoundsTileIff(year, month);
    MonthIsNotEmpty(y, m);
    var b := BangkokMonthBounds(y, m);
    CustomersGrowByTheNew(t, store, b.from, b.to);
  }
}
