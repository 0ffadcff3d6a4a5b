// Whole runs of order creation, adjustment and restore over one set of books.
module InventoryRuns {
  import opened Wrappers
  import opened Inventory

  datatype Event =
    | CreateOrder(order: nat, lines: seq<Line>)
    | Adjust(variantId: nat, change: int, kind: TransactionType, ref: Option<nat>, refType: Option<string>)
    | RestoreItems(order: nat, itemIds: set<nat>)
    | RestoreOrder(order: nat)

  datatype State = State(books: Books, orders: map<nat, seq<Line>>)

  function Lines(s: State, order: nat): seq<Line> {
    if order in s.orders then s.orders[order] else []
  }

  /** One committed call. A failed one is rolled back; order ids are fresh. */
  function Step(s: State, e: Event): State {
    match e
    case CreateOrder(order, lines) =>
      var sold := Sell(s.books, order, lines);
      if order in s.orders || sold.None? then s else State(sold.value, s.orders[order := lines])
    case Adjust(v, change, kind, ref, refType) =>
      if v !in s.books.stock || s.books.stock[v] + change < 0 then s
      else s.(books := Post(s.books, v, kind, change, ref, refType))
    case RestoreItems(order, itemIds) => s.(books := Restore(s.books, order, Select(Lines(s, order), itemIds)))
    case RestoreOrder(order) => s.(books := Restore(s.books, order, Lines(s, order)))
  }

  function Run(initial: Stock, events: seq<Event>): State {
    if events == [] then State(Books(initial, []), map[])
    else Step(Run(initial, events[..|events| - 1]), events[|events| - 1])
  }

  /** The books balance after every run. */
  lemma {:induction false} RunBalances(initial: Stock, events: seq<Event>)
    requires forall v :: v in initial ==> initial[v] >= 0
    ensures Balanced(initial, Run(initial, events).books)
  {
    if events != [] {
      hide Balanced;
      var s, e := Run(initial, events[..|events| - 1]), events[|events| - 1];
      RunBalances(initial, events[..|events| - 1]);
      match e
      case CreateOrder(order, lines) =>
        if Sell(s.books, order, lines).Some? {
          SellBalances(initial, s.books, order, lines);
        }
      case Adjust(v, change, kind, ref, refType) =>
        if v in s.books.stock && s.books.stock[v] + change >= 0 {
          PostBalances(initial, s.books, v, kind, change, ref, refType);
        }
      case RestoreItems(order, itemIds) => RestoreBalances(initial, s.books, order, Select(Lines(s, order), itemIds));
      case RestoreOrder(order) => RestoreBalances(initial, s.books, order, Lines(s, order));
    }
  }

  // ---- Where the stock comes from ---------------------------------------------

  /** The accepted adjustments of a variant along a run. */
  function Adjustments(initial: Stock, events: seq<Event>, v: nat): int
    requires v in initial
  {
    if events == [] then 0
    else
      var before, e := events[..|events| - 1], events[|events| - 1];
      RunKeepsVariants(initial, before);
      Adjustments(initial, before, v)
      + if e.Adjust? && e.variantId == v && Run(initial, before).books.stock[v] + e.change >= 0 then e.change else 0
  }

  /** What the orders created along a run asked of a variant. */
  function Ordered(initial: Stock, events: seq<Event>, v: nat): nat {
    if events == [] then 0
    else
      var before, e := events[..|events| - 1], events[|events| - 1];
      var s := Run(initial, before);
      Ordered(initial, before, v)
      + if e.CreateOrder? && e.order !in s.orders && Servable(s.books.stock, e.lines) then Demand(e.lines, v) else 0
  }

  /** What one restore gives back: the quantity of the variant's first line, unless it was restored before. */
  function GivenBack(s: State, order: nat, lines: seq<Line>, v: nat): nat {
    if AlreadyRestored(s.books.ledger, order, v) then 0 else FirstQuantity(lines, v)
  }

  function Restored(initial: Stock, events: seq<Event>, v: nat): nat {
    if events == [] then 0
    else
      var before, e := events[..|events| - 1], events[|events| - 1];
      var s := Run(initial, before);
      Restored(initial, before, v)
      + match e
        case RestoreItems(order, itemIds) => GivenBack(s, order, Select(Lines(s, order), itemIds), v)
        case RestoreOrder(order) => GivenBack(s, order, Lines(s, order), v)
        case _ => 0
  }

  lemma {:induction false} RunKeepsVariants(initial: Stock, events: seq<Event>)
    ensures Run(initial, events).books.stock.Keys == initial.Keys
  {
    if events != [] {
      RunKeepsVariants(initial, events[..|events| - 1]);
      StepKeepsVariants(Run(initial, events[..|events| - 1]), events[|events| - 1]);
    }
  }

  lemma StepKeepsVariants(s: State, e: Event)
    ensures Step(s, e).books.stock.Keys == s.books.stock.Keys
  {
    hide Sell, Restore;
    match e
    case CreateOrder(order, lines) =>
      if Sell(s.books, order, lines).Some? {
        SellTakesDemand(s.books, order, lines);
      }
    case Adjust(_, _, _, _, _) =>
    case RestoreItems(order, itemIds) => RestoreGivesBack(s.books, order, Select(Lines(s, order), itemIds), 0);
    case RestoreOrder(order) => RestoreGivesBack(s.books, order, Lines(s, order), 0);
  }

  /**
   * After every run each stock is the initial stock, plus its accepted adjustments, less
   * what the created orders asked for, plus what restores gave back.
   */
  lemma {:induction false} StockIsConserved(initial: Stock, events: seq<Event>, v: nat)
    requires v in initial
    ensures var s := Run(initial, events);
            && s.books.stock.Keys == initial.Keys
            && s.books.stock[v]
               == initial[v] + Adjustments(initial, events, v) - Ordered(initial, events, v)
                  + Restored(initial, events, v)
  {
    RunKeepsVariants(initial, events);
    if events != [] {
      hide Sell, Restore, Run, AlreadyRestored, Servable, Demand, FirstQuantity, Select;
      var before, e := events[..|events| - 1], events[|events| - 1];
      var s := Run(initial, before);
      RunStep(initial, events);
      StockIsConserved(initial, before, v);
      match e
      case CreateOrder(order, lines) =>
        SellSucceedsIff(s.books, order, lines);
        if Sell(s.books, order, lines).Some? {
          SellTakesDemand(s.books, order, lines);
        }
      case Adjust(_, _, _, _, _) =>
      case RestoreItems(order, itemIds) => RestoreGivesBack(s.books, order, Select(Lines(s, order), itemIds), v);
      case RestoreOrder(order) => RestoreGivesBack(s.books, order, Lines(s, order), v);
    }
  }

  lemma RunStep(initial: Stock, events: seq<Event>)
    requires events != []
    ensures Run(initial, events) == Step(Run(initial, events[..|events| - 1]), events[|events| - 1])
  {
  }

  // ---- What is filed against an order -----------------------------------------

  /** Sold in full; returned once, by one of its lines, or not at all. */
  predicate Settled(ledger: Ledger, order: nat, lines: seq<Line>, v: nat) {
    && FiledSum(ledger, order, v, false) == 0 - Demand(lines, v)
    && (AlreadyRestored(ledger, order, v) ==>
          exists i :: 0 <= i < |lines| && lines[i].variantId == v
              && FiledSum(ledger, order, v, true) == lines[i].quantity)
    && (!AlreadyRestored(ledger, order, v) ==> FiledSum(ledger, order, v, true) == 0)
  }

  /** Nothing that was posted touches what is filed against `order` for `v`. */
  predicate SameFiling(a: Ledger, b: Ledger, order: nat, v: nat) {
    && FiledSum(a, order, v, false) == FiledSum(b, order, v, false)
    && FiledSum(a, order, v, true) == FiledSum(b, order, v, true)
    && (AlreadyRestored(a, order, v) <==> AlreadyRestored(b, order, v))
  }

  lemma PostFiles(b: Books, v: nat, kind: TransactionType, change: int, ref: Option<nat>, refType: Option<string>,
                  order: nat, w: nat)
    requires v in b.stock
    ensures var after := Post(b, v, kind, change, ref, refType).ledger;
            var filed := ref == Some(order) && refType == ORDER && v == w;
            && FiledSum(after, order, w, false)
                == FiledSum(b.ledger, order, w, false) + (if filed && kind != RETURN then change else 0)
            && FiledSum(after, order, w, true)
                == FiledSum(b.ledger, order, w, true) + (if filed && kind == RETURN then change else 0)
            && (AlreadyRestored(after, order, w) <==> AlreadyRestored(b.ledger, order, w) || (filed && kind == RETURN))
  {
    hide FiledSum, AlreadyRestored;
    var t := Transaction(v, kind, change, b.stock[v] + change, ref, refType);
    FiledSumPush(b.ledger, t, order, w, false);
    FiledSumPush(b.ledger, t, order, w, true);
    RestoredPush(b.ledger, t, order, w);
  }

  lemma {:induction false} SellFiles(b: Books, order: nat, lines: seq<Line>, other: nat, v: nat)
    requires Sell(b, order, lines).Some?
    ensures var after := Sell(b, order, lines).value.ledger;
            && FiledSum(after, other, v, false)
                == FiledSum(b.ledger, other, v, false) - (if other == order then Demand(lines, v) else 0)
            && FiledSum(after, other, v, true) == FiledSum(b.ledger, other, v, true)
            && (AlreadyRestored(after, other, v) <==> AlreadyRestored(b.ledger, other, v))
    decreases |lines|
  {
    hide FiledSum, AlreadyRestored;
    if lines != [] {
      PostFiles(b, lines[0].variantId, SALE, 0 - lines[0].quantity, Some(order), ORDER, other, v);
      SellFiles(SellLine(b, order, lines[0]).value, order, lines[1..], other, v);
    }
  }

  /** Restoring any of an order's own lines keeps it settled. */
  lemma {:induction false} RestoreKeepsSettled(b: Books, order: nat, lines: seq<Line>, chosen: seq<Line>, v: nat)
    requires Settled(b.ledger, order, lines, v) && (forall l :: l in chosen ==> l in lines)
    ensures Settled(Restore(b, order, chosen).ledger, order, lines, v)
    decreases |chosen|
  {
    hide FiledSum, AlreadyRestored;
    if chosen != [] {
      var line := chosen[0];
      if line.variantId in b.stock {
        PostFiles(b, line.variantId, RETURN, line.quantity, Some(order), ORDER, order, v);
      }
      assert line in lines;
      var i :| 0 <= i < |lines| && lines[i] == line;
      RestoreKeepsSettled(RestoreLine(b, order, line), order, lines, chosen[1..], v);
    }
  }

  /** Restoring one order files nothing against another. */
  lemma {:induction false} RestoreLeavesOthers(b: Books, order: nat, chosen: seq<Line>, other: nat, v: nat)
    requires other != order
    ensures SameFiling(b.ledger, Restore(b, order, chosen).ledger, other, v)
    decreases |chosen|
  {
    hide FiledSum, AlreadyRestored;
    if chosen != [] {
      var line := chosen[0];
      if line.variantId in b.stock {
        PostFiles(b, line.variantId, RETURN, line.quantity, Some(order), ORDER, other, v);
      }
      RestoreLeavesOthers(RestoreLine(b, order, line), order, chosen[1..], other, v);
    }
  }

  /** No adjustment of a run is filed against this order. */
  predicate WellFiled(events: seq<Event>, order: nat) {
    forall i :: 0 <= i < |events| ==> !FiledAgainst(events[i], order)
  }

  predicate FiledAgainst(e: Event, order: nat) {
    e.Adjust? && e.ref == Some(order) && e.refType == ORDER
  }

  ghost predicate AllSettled(s: State, order: nat) {
    forall v: nat :: Settled(s.books.ledger, order, Lines(s, order), v)
  }

  lemma CreateKeepsSettled(s: State, order: nat, created: nat, lines: seq<Line>)
    requires AllSettled(s, order)
    ensures AllSettled(Step(s, CreateOrder(created, lines)), order)
  {
    hide FiledSum, AlreadyRestored;
    var after := Step(s, CreateOrder(created, lines));
    if after != s {
      forall v: nat ensures Settled(after.books.ledger, order, Lines(after, order), v) {
        SellFiles(s.books, created, lines, order, v);
        assert Settled(s.books.ledger, order, Lines(s, order), v);
      }
    }
  }

  lemma AdjustKeepsSettled(s: State, order: nat, e: Event)
    requires AllSettled(s, order) && e.Adjust? && !FiledAgainst(e, order)
    ensures AllSettled(Step(s, e), order)
  {
    hide FiledSum, AlreadyRestored;
    var after := Step(s, e);
    if after != s {
      forall v: nat ensures Settled(after.books.ledger, order, Lines(after, order), v) {
        PostFiles(s.books, e.variantId, e.kind, e.change, e.ref, e.refType, order, v);
        assert Settled(s.books.ledger, order, Lines(s, order), v);
      }
    }
  }

  lemma RestoreKeepsAllSettled(s: State, order: nat, restored: nat, chosen: seq<Line>)
    requires AllSettled(s, order) && (forall l :: l in chosen ==> l in Lines(s, restored))
    ensures AllSettled(s.(books := Restore(s.books, restored, chosen)), order)
  {
    hide FiledSum, AlreadyRestored, Restore;
    var after := s.(books := Restore(s.books, restored, chosen));
    forall v: nat ensures Settled(after.books.ledger, order, Lines(after, order), v) {
      assert Settled(s.books.ledger, order, Lines(s, order), v);
      if order == restored {
        RestoreKeepsSettled(s.books, order, Lines(s, order), chosen, v);
      } else {
        RestoreLeavesOthers(s.books, restored, chosen, order, v);
      }
    }
  }

  lemma {:induction false} RunSettles(initial: Stock, events: seq<Event>, order: nat)
    requires WellFiled(events, order)
    ensures AllSettled(Run(initial, events), order)
  {
    hide AllSettled, Step;
    if events == [] {
      EmptySettled(initial, order);
    } else {
      var s, e := Run(initial, events[..|events| - 1]), events[|events| - 1];
      RunSettles(initial, events[..|events| - 1], order);
      StepSettles(s, e, order);
    }
  }

  lemma EmptySettled(initial: Stock, order: nat)
    ensures AllSettled(State(Books(initial, []), map[]), order)
  {
  }

  lemma StepSettles(s: State, e: Event, order: nat)
    requires AllSettled(s, order) && !FiledAgainst(e, order)
    ensures AllSettled(Step(s, e), order)
  {
    hide AllSettled;
    match e
    case CreateOrder(created, lines) => CreateKeepsSettled(s, order, created, lines);
    case Adjust(_, _, _, _, _) => AdjustKeepsSettled(s, order, e);
    case RestoreItems(restored, itemIds) =>
      RestoreKeepsAllSettled(s, order, restored, Select(Lines(s, restored), itemIds));
    case RestoreOrder(restored) => RestoreKeepsAllSettled(s, order, restored, Lines(s, restored));
  }

  // ---- Restoring gives everything back ----------------------------------------

  lemma {:induction false} RestoredStays(b: Books, order: nat, chosen: seq<Line>, v: nat)
    requires AlreadyRestored(b.ledger, order, v)
    ensures AlreadyRestored(Restore(b, order, chosen).ledger, order, v)
    decreases |chosen|
  {
    hide AlreadyRestored;
    if chosen != [] {
      var line := chosen[0];
      if line.variantId in b.stock {
        PostFiles(b, line.variantId, RETURN, line.quantity, Some(order), ORDER, order, v);
      }
      RestoredStays(RestoreLine(b, order, line), order, chosen[1..], v);
    }
  }

  lemma {:induction false} RestoreReaches(b: Books, order: nat, chosen: seq<Line>, i: nat)
    requires i < |chosen| && chosen[i].variantId in b.stock
    ensures AlreadyRestored(Restore(b, order, chosen).ledger, order, chosen[i].variantId)
    decreases |chosen|
  {
    hide AlreadyRestored;
    var line := chosen[0];
    if i == 0 {
      PostFiles(b, line.variantId, RETURN, line.quantity, Some(order), ORDER, order, line.variantId);
      RestoredStays(RestoreLine(b, order, line), order, chosen[1..], line.variantId);
    } else {
      RestoreReaches(RestoreLine(b, order, line), order, chosen[1..], i - 1);
    }
  }

  /** Restoring lines that are all restored does nothing. */
  lemma {:induction false} RestoreIsIdempotent(b: Books, order: nat, chosen: seq<Line>)
    requires forall l :: l in chosen ==> AlreadyRestored(b.ledger, order, l.variantId)
    ensures Restore(b, order, chosen) == b
    decreases |chosen|
  {
    hide AlreadyRestored;
    if chosen != [] {
      assert chosen[0] in chosen;
      RestoreIsIdempotent(b, order, chosen[1..]);
    }
  }

  predicate DistinctVariants(lines: seq<Line>) {
    forall i, j :: 0 <= i < j < |lines| ==> lines[i].variantId != lines[j].variantId
  }

  lemma {:induction false} DemandOfOne(lines: seq<Line>, i: nat)
    requires i < |lines|
    ensures Demand(lines, lines[i].variantId) >= lines[i].quantity
    ensures DistinctVariants(lines) ==> Demand(lines, lines[i].variantId) == lines[i].quantity
  {
    var rest, v := lines[1..], lines[i].variantId;
    if i == 0 {
      if DistinctVariants(lines) {
        assert !Names(rest, v);
        DemandOfUnnamed(rest, v);
      }
    } else {
      DemandOfOne(rest, i - 1);
      assert DistinctVariants(lines) ==> lines[0].variantId != v;
    }
  }

  lemma {:induction false} DemandOfTwo(lines: seq<Line>, i: nat, j: nat)
    requires i < j < |lines| && lines[i].variantId == lines[j].variantId
    ensures Demand(lines, lines[i].variantId) >= lines[i].quantity + lines[j].quantity
  {
    var rest := lines[1..];
    if i == 0 {
      DemandOfOne(rest, j - 1);
    } else {
      DemandOfTwo(rest, i - 1, j - 1);
    }
  }

  /** A restored order of distinct variants: what went out came back. */
  lemma NetOfDistinct(ledger: Ledger, order: nat, lines: seq<Line>, v: nat)
    requires Settled(ledger, order, lines, v) && (Names(lines, v) ==> AlreadyRestored(ledger, order, v))
    requires DistinctVariants(lines)
    ensures NetEffect(ledger, order, v) == 0 && FiledSum(ledger, order, v, true) == Demand(lines, v)
  {
    hide FiledSum, AlreadyRestored;
    if Names(lines, v) {
      var r :| 0 <= r < |lines| && lines[r].variantId == v && FiledSum(ledger, order, v, true) == lines[r].quantity;
      DemandOfOne(lines, r);
    } else {
      DemandOfUnnamed(lines, v);
    }
  }

  /** A restored order that names a variant twice: only one of its lines came back. */
  lemma NetOfRepeated(ledger: Ledger, order: nat, lines: seq<Line>, i: nat, j: nat)
    requires i < j < |lines| && lines[i].variantId == lines[j].variantId && lines[i].quantity >= 1
            && lines[j].quantity >= 1
    requires Settled(ledger, order, lines, lines[i].variantId) && AlreadyRestored(ledger, order, lines[i].variantId)
    ensures NetEffect(ledger, order, lines[i].variantId) < 0
  {
    hide FiledSum, AlreadyRestored;
    var v := lines[i].variantId;
    var r :| 0 <= r < |lines| && lines[r].variantId == v && FiledSum(ledger, order, v, true) == lines[r].quantity;
    if r < j {
      DemandOfTwo(lines, r, j);
    } else {
      DemandOfTwo(lines, i, r);
    }
  }

  /**
   * After any run of creations, adjustments and overlapping item restores, restoring
   * the whole order makes its net effect zero on every variant exactly when its lines
   * name distinct variants; then each line came back once and in full.
   */
  lemma RestoredOrderNetsToZeroIff(initial: Stock, events: seq<Event>, order: nat)
    requires WellFiled(events, order) && order in Run(initial, events).orders
    requires var lines := Run(initial, events).orders[order]; forall k :: 0 <= k < |lines| ==> lines[k].quantity >= 1
    ensures var lines, ledger := Run(initial, events).orders[order],
            Step(Run(initial, events), RestoreOrder(order)).books.ledger;
            && ((forall v: nat :: NetEffect(ledger, order, v) == 0) <==> DistinctVariants(lines))
            && (DistinctVariants(lines) ==> forall v: nat :: FiledSum(ledger, order, v, true) == Demand(lines, v))
  {
    hide FiledSum, AlreadyRestored, Run, Restore, Demand;
    var s := Run(initial, events);
    RunSettles(initial, events, order);
    RunInStock(initial, events);
    var lines, after := s.orders[order], Step(s, RestoreOrder(order));
    RestoreKeepsAllSettled(s, order, order, lines);
    forall i | 0 <= i < |lines| ensures AlreadyRestored(after.books.ledger, order, lines[i].variantId) {
      RestoreReaches(s.books, order, lines, i);
    }
    if DistinctVariants(lines) {
      forall v: nat ensures NetEffect(after.books.ledger, order, v) == 0
          && FiledSum(after.books.ledger, order, v, true) == Demand(lines, v) {
        assert Settled(after.books.ledger, order, Lines(after, order), v);
        NetOfDistinct(after.books.ledger, order, lines, v);
      }
    } else {
      var i, j :| 0 <= i < j < |lines| && lines[i].variantId == lines[j].variantId;
      assert Settled(after.books.ledger, order, Lines(after, order), lines[i].variantId);
      NetOfRepeated(after.books.ledger, order, lines, i, j);
    }
  }

  /** The variants of every order are in stock. */
  predicate OrdersInStock(s: State) {
    forall order :: order in s.orders ==>
      forall i :: 0 <= i < |s.orders[order]| ==> s.orders[order][i].variantId in s.books.stock
  }

  lemma StepKeepsInStock(s: State, e: Event)
    requires OrdersInStock(s)
    ensures OrdersInStock(Step(s, e))
  {
    hide Sell, Restore, Post;
    StepKeepsVariants(s, e);
    if e.CreateOrder? {
      SellSucceedsIff(s.books, e.order, e.lines);
    }
  }

  lemma {:induction false} RunInStock(initial: Stock, events: seq<Event>)
    ensures OrdersInStock(Run(initial, events))
  {
    hide Step, OrdersInStock;
    if events == [] {
      assert OrdersInStock(State(Books(initial, []), map[])) by { NoOrders(initial); }
    } else {
      RunInStock(initial, events[..|events| - 1]);
      StepKeepsInStock(Run(initial, events[..|events| - 1]), events[|events| - 1]);
    }
  }

  lemma NoOrders(initial: Stock)
    ensures OrdersInStock(State(Books(initial, []), map[]))
  {
  }

  /** After any run, once the whole order is restored, no further restore of it changes anything. */
  lemma FurtherRestoresDoNothing(initial: Stock, events: seq<Event>, order: nat, itemIds: set<nat>)
    ensures var done := Step(Run(initial, events), RestoreOrder(order));
            Step(done, RestoreOrder(order)) == done && Step(done, RestoreItems(order, itemIds)) == done
  {
    hide AlreadyRestored, Run, Restore;
    var s := Run(initial, events);
    RunInStock(initial, events);
    var done, lines := Step(s, RestoreOrder(order)), Lines(s, order);
    forall l | l in lines ensures AlreadyRestored(done.books.ledger, order, l.variantId) {
      var i :| 0 <= i < |lines| && lines[i] == l;
      RestoreReaches(s.books, order, lines, i);
    }
    RestoreIsIdempotent(done.books, order, lines);
    RestoreIsIdempotent(done.books, order, Select(lines, itemIds));
  }

  /**
   * Why adjustments must not be filed against orders as returns: the restore takes one
   * for its own, and nothing of the order comes back.
   */
  lemma FiledReturnBlocksRestore(initial: Stock, order: nat, line: Line)
    requires line.variantId in initial && initial[line.variantId] >= line.quantity >= 1
    ensures var filed := Adjust(line.variantId, 0, RETURN, Some(order), ORDER);
            var s := Run(initial, [CreateOrder(order, [line]), filed]);
            && Step(s, RestoreOrder(order)) == s && order in s.orders
            && NetEffect(s.books.ledger, order, line.variantId) == 0 - line.quantity
  {
    hide FiledSum, AlreadyRestored;
    var filed := Adjust(line.variantId, 0, RETURN, Some(order), ORDER);
    var events := [CreateOrder(order, [line]), filed];
    assert events[..1] == [CreateOrder(order, [line])] && events[..1][..0] == [];
    var s0 := Run(initial, []);
    var s1, s2 := Run(initial, events[..1]), Run(initial, events);
    assert s1 == Step(s0, events[0]) && s2 == Step(s1, filed);
    SoldLine(s0.books, order, line);
    PostFiles(s1.books, line.variantId, RETURN, 0, Some(order), ORDER, order, line.variantId);
    RestoreIsIdempotent(s2.books, order, [line]);
  }

  lemma SoldLine(b: Books, order: nat, line: Line)
    requires line.variantId in b.stock && b.stock[line.variantId] >= line.quantity && b.ledger == []
    ensures var sold := Sell(b, order, [line]);
            && sold.Some? && line.variantId in sold.value.stock && sold.value.stock[line.variantId] >= 0
            && FiledSum(sold.value.ledger, order, line.variantId, false) == 0 - line.quantity
            && FiledSum(sold.value.ledger, order, line.variantId, true) == 0
  {
    assert [line][1..] == [];
    PostFiles(b, line.variantId, SALE, 0 - line.quantity, Some(order), ORDER, order, line.variantId);
  }
}
