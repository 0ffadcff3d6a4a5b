// Stock and its append-only ledger: order creation (src/database/repositories/order.repository.ts),
// adjustment (src/database/repositories/product.repository.ts) and restore
// (src/modules/inventory/inventory.service.ts).
module Inventory {
  import opened Wrappers

  datatype TransactionType = PURCHASE | SALE | ADJUSTMENT | RETURN | DAMAGED

  const ORDER := Some("order")

  datatype Transaction = Transaction(variantId: nat, kind: TransactionType, quantityChange: int, quantityAfter: int,
                                     referenceId: Option<nat>, referenceType: Option<string>)

  datatype Line = Line(id: nat, variantId: nat, quantity: nat)

  type Stock = map<nat, int>
  type Ledger = seq<Transaction>

  // ---- Selling ----------------------------------------------------------------

  datatype Books = Books(stock: Stock, ledger: Ledger)

  /** Writing a new stock level together with its ledger row. */
  function Post(b: Books, variantId: nat, kind: TransactionType, change: int, ref: Option<nat>,
                refType: Option<string>): Books
    requires variantId in b.stock
  {
    var after := b.stock[variantId] + change;
    Books(b.stock[variantId := after], b.ledger + [Transaction(variantId, kind, change, after, ref, refType)])
  }

  /** One line of a new order: the variant must exist and have enough left. */
  function SellLine(b: Books, order: nat, line: Line): Option<Books> {
    if line.variantId !in b.stock || b.stock[line.variantId] - line.quantity < 0 then None
    else Some(Post(b, line.variantId, SALE, 0 - line.quantity, Some(order), ORDER))
  }

  /** The lines in turn, each against the stock the earlier ones left. */
  function Sell(b: Books, order: nat, lines: seq<Line>): Option<Books>
    decreases |lines|
  {
    if lines == [] then Some(b)
    else
      var first := SellLine(b, order, lines[0]);
      if first.None? then None else Sell(first.value, order, lines[1..])
  }

  /** What an order asks of a variant over all its lines, repeats included. */
  function Demand(lines: seq<Line>, variantId: nat): nat {
    if lines == [] then 0
    else (if lines[0].variantId == variantId then lines[0].quantity else 0) + Demand(lines[1..], variantId)
  }

  predicate Names(lines: seq<Line>, variantId: nat) {
    exists i :: 0 <= i < |lines| && lines[i].variantId == variantId
  }

  /** Every named variant exists and can serve its summed demand. */
  predicate Servable(stock: Stock, lines: seq<Line>) {
    forall i :: 0 <= i < |lines| ==>
      lines[i].variantId in stock && Demand(lines, lines[i].variantId) <= stock[lines[i].variantId]
  }

  lemma DemandOfUnnamed(lines: seq<Line>, v: nat)
    requires !Names(lines, v)
    ensures Demand(lines, v) == 0
  {
    if lines != [] {
      assert lines[0].variantId != v;
      forall i | 0 <= i < |lines[1..]| ensures lines[1..][i].variantId != v {
        assert lines[1..][i] == lines[i + 1];
      }
      DemandOfUnnamed(lines[1..], v);
    }
  }

  lemma ServableStep(stock: Stock, lines: seq<Line>)
    requires lines != []
    ensures Servable(stock, lines)
       <==> && lines[0].variantId in stock && stock[lines[0].variantId] - lines[0].quantity >= 0
            && Servable(stock[lines[0].variantId := stock[lines[0].variantId] - lines[0].quantity], lines[1..])
  {
    var v, q, rest := lines[0].variantId, lines[0].quantity, lines[1..];
    if v in stock {
      var after := stock[v := stock[v] - q];
      if Servable(stock, lines) {
        forall i | 0 <= i < |rest| ensures rest[i].variantId in after
            && Demand(rest, rest[i].variantId) <= after[rest[i].variantId] {
          assert rest[i] == lines[i + 1];
        }
      }
      if stock[v] - q >= 0 && Servable(after, rest) {
        if !Names(rest, v) {
          DemandOfUnnamed(rest, v);
        }
        forall i | 0 <= i < |lines| ensures lines[i].variantId in stock
            && Demand(lines, lines[i].variantId) <= stock[lines[i].variantId] {
          if i > 0 {
            assert rest[i - 1] == lines[i];
          }
        }
      }
    }
  }

  /** The line-by-line loop succeeds exactly when the summed demand can be served. */
  lemma {:induction false} SellSucceedsIff(b: Books, order: nat, lines: seq<Line>)
    ensures Sell(b, order, lines).Some? <==> Servable(b.stock, lines)
    decreases |lines|
  {
    if lines != [] {
      ServableStep(b.stock, lines);
      var first := SellLine(b, order, lines[0]);
      if first.Some? {
        SellSucceedsIff(first.value, order, lines[1..]);
      }
    }
  }

  /** On success each stock drops by exactly its summed demand. */
  lemma {:induction false} SellTakesDemand(b: Books, order: nat, lines: seq<Line>)
    requires Sell(b, order, lines).Some?
    ensures var after := Sell(b, order, lines).value.stock;
            after.Keys == b.stock.Keys && forall v :: v in b.stock ==> after[v] == b.stock[v] - Demand(lines, v)
    decreases |lines|
  {
    if lines != [] {
      SellTakesDemand(SellLine(b, order, lines[0]).value, order, lines[1..]);
    }
  }

  lemma {:induction false} DemandOfPrefix(lines: seq<Line>, k: nat, v: nat)
    requires k < |lines|
    ensures Demand(lines[..k + 1], v)
         == (if lines[0].variantId == v then lines[0].quantity else 0) + Demand(lines[1..][..k], v)
  {
    assert lines[..k + 1][1..] == lines[1..][..k];
  }

  /** On success each line has its ledger row, in order, with the level it left. */
  lemma {:induction false} SellWritesRows(b: Books, order: nat, lines: seq<Line>)
    requires Sell(b, order, lines).Some?
    ensures var after := Sell(b, order, lines).value.ledger;
            && |after| == |b.ledger| + |lines| && after[..|b.ledger|] == b.ledger
            && forall k :: 0 <= k < |lines| ==>
                 var v := lines[k].variantId;
                 && v in b.stock
                 && after[|b.ledger| + k]
                    == Transaction(v, SALE, 0 - lines[k].quantity, b.stock[v] - Demand(lines[..k + 1], v), Some(order),
                                   Some("order"))
    decreases |lines|
  {
    if lines != [] {
      var next, rest := SellLine(b, order, lines[0]).value, lines[1..];
      SellWritesRows(next, order, rest);
      var after := Sell(b, order, lines).value.ledger;
      assert after[..|b.ledger|] == after[..|b.ledger| + 1][..|b.ledger|];
      forall k | 0 <= k < |lines|
        ensures var v := lines[k].variantId;
                && v in b.stock
                && after[|b.ledger| + k]
                   == Transaction(v, SALE, 0 - lines[k].quantity, b.stock[v] - Demand(lines[..k + 1], v), Some(order),
                                  Some("order"))
      {
        DemandOfPrefix(lines, k, lines[k].variantId);
        if k == 0 {
          assert after[|b.ledger|] == after[..|b.ledger| + 1][|b.ledger|];
          assert lines[1..][..0] == [];
        } else {
          assert lines[k] == rest[k - 1] && rest[..k - 1 + 1] == rest[..k];
        }
      }
    }
  }

  // ---- Restoring --------------------------------------------------------------

  predicate IsReturn(t: Transaction, order: nat, variantId: nat) {
    t.referenceId == Some(order) && t.referenceType == ORDER && t.variantId == variantId && t.kind == RETURN
  }

  predicate AlreadyRestored(ledger: Ledger, order: nat, variantId: nat) {
    exists k :: 0 <= k < |ledger| && IsReturn(ledger[k], order, variantId)
  }

  function RestoreLine(b: Books, order: nat, line: Line): Books {
    if AlreadyRestored(b.ledger, order, line.variantId) || line.variantId !in b.stock then b
    else Post(b, line.variantId, RETURN, line.quantity, Some(order), ORDER)
  }

  function Restore(b: Books, order: nat, lines: seq<Line>): Books
    decreases |lines|
  {
    if lines == [] then b else Restore(RestoreLine(b, order, lines[0]), order, lines[1..])
  }

  /** `find(OrderItem, { orderId, id: In(itemIds) })` */
  function Select(lines: seq<Line>, itemIds: set<nat>): (r: seq<Line>)
    ensures forall l :: l in r <==> l in lines && l.id in itemIds
  {
    if lines == [] then []
    else (if lines[0].id in itemIds then [lines[0]] else []) + Select(lines[1..], itemIds)
  }

  // ---- Sums over the ledger ---------------------------------------------------

  function LedgerSum(ledger: Ledger, v: nat): int {
    if ledger == [] then 0
    else
      var last := ledger[|ledger| - 1];
      LedgerSum(ledger[..|ledger| - 1], v) + if last.variantId == v then last.quantityChange else 0
  }

  /** The changes filed against an order for a variant: its returns, or everything else. */
  function FiledSum(ledger: Ledger, order: nat, v: nat, back: bool): int {
    if ledger == [] then 0
    else
      var last := ledger[|ledger| - 1];
      FiledSum(ledger[..|ledger| - 1], order, v, back)
      + if last.referenceId == Some(order) && last.referenceType == ORDER && last.variantId == v
          && (last.kind == RETURN) == back
        then last.quantityChange else 0
  }

  /** The net effect of an order on a variant's stock so far. */
  function NetEffect(ledger: Ledger, order: nat, v: nat): int {
    FiledSum(ledger, order, v, false) + FiledSum(ledger, order, v, true)
  }

  lemma LedgerSumPush(ledger: Ledger, t: Transaction, v: nat)
    ensures LedgerSum(ledger + [t], v) == LedgerSum(ledger, v) + if t.variantId == v then t.quantityChange else 0
  {
    assert (ledger + [t])[..|ledger|] == ledger;
  }

  lemma FiledSumPush(ledger: Ledger, t: Transaction, order: nat, v: nat, back: bool)
    ensures FiledSum(ledger + [t], order, v, back)
         == FiledSum(ledger, order, v, back)
            + if t.referenceId == Some(order) && t.referenceType == ORDER && t.variantId == v
                && (t.kind == RETURN) == back
              then t.quantityChange else 0
  {
    assert (ledger + [t])[..|ledger|] == ledger;
  }

  lemma RestoredPush(ledger: Ledger, t: Transaction, order: nat, v: nat)
    ensures AlreadyRestored(ledger + [t], order, v) <==> AlreadyRestored(ledger, order, v) || IsReturn(t, order, v)
  {
    var after := ledger + [t];
    if k :| 0 <= k < |ledger| && IsReturn(ledger[k], order, v) {
      assert IsReturn(after[k], order, v);
    }
    if IsReturn(t, order, v) {
      assert IsReturn(after[|ledger|], order, v);
    }
  }

  /** The quantity of the first line that names the variant. */
  function FirstQuantity(lines: seq<Line>, v: nat): nat {
    if lines == [] then 0
    else if lines[0].variantId == v then lines[0].quantity
    else FirstQuantity(lines[1..], v)
  }

  /** A restore gives each variant not yet restored the quantity of its first line. */
  lemma {:induction false} RestoreGivesBack(b: Books, order: nat, lines: seq<Line>, v: nat)
    ensures var after := Restore(b, order, lines);
            && after.stock.Keys == b.stock.Keys
            && (v in b.stock ==>
                  after.stock[v]
                  == b.stock[v] + if AlreadyRestored(b.ledger, order, v) then 0 else FirstQuantity(lines, v))
    decreases |lines|
  {
    hide AlreadyRestored;
    if lines != [] {
      var line, next := lines[0], RestoreLine(b, order, lines[0]);
      RestoreGivesBack(next, order, lines[1..], v);
      if next != b {
        RestoredPush(b.ledger, next.ledger[|b.ledger|], order, v);
        assert next.ledger == b.ledger + [next.ledger[|b.ledger|]];
      }
    }
  }

  // ---- The books balance ------------------------------------------------------

  /** Stock is the initial stock plus the ledger, never negative, and each row shows the running level. */
  predicate Balanced(initial: Stock, b: Books) {
    && b.stock.Keys == initial.Keys
    && (forall v :: v in b.stock ==> b.stock[v] == initial[v] + LedgerSum(b.ledger, v) && b.stock[v] >= 0)
    && (forall k :: 0 <= k < |b.ledger| ==>
          b.ledger[k].variantId in initial
          && b.ledger[k].quantityAfter
              == initial[b.ledger[k].variantId] + LedgerSum(b.ledger[..k + 1], b.ledger[k].variantId))
  }

  lemma {:induction false} PostBalances(initial: Stock, b: Books, v: nat, kind: TransactionType, change: int,
                                        ref: Option<nat>, refType: Option<string>)
    requires Balanced(initial, b) && v in b.stock && b.stock[v] + change >= 0
    ensures Balanced(initial, Post(b, v, kind, change, ref, refType))
  {
    hide LedgerSum;
    var after := Post(b, v, kind, change, ref, refType);
    var t := after.ledger[|b.ledger|];
    forall w | w in b.stock ensures after.stock[w] == initial[w] + LedgerSum(after.ledger, w) {
      LedgerSumPush(b.ledger, t, w);
    }
    forall k | 0 <= k < |after.ledger|
      ensures after.ledger[k].variantId in initial
      ensures after.ledger[k].quantityAfter
           == initial[after.ledger[k].variantId] + LedgerSum(after.ledger[..k + 1], after.ledger[k].variantId)
    {
      if k < |b.ledger| {
        assert after.ledger[..k + 1] == b.ledger[..k + 1];
      } else {
        assert after.ledger[..k + 1] == after.ledger;
      }
    }
  }

  lemma {:induction false} SellBalances(initial: Stock, b: Books, order: nat, lines: seq<Line>)
    requires Balanced(initial, b) && Sell(b, order, lines).Some?
    ensures Balanced(initial, Sell(b, order, lines).value)
    decreases |lines|
  {
    hide Balanced;
    if lines != [] {
      PostBalances(initial, b, lines[0].variantId, SALE, 0 - lines[0].quantity, Some(order), ORDER);
      SellBalances(initial, SellLine(b, order, lines[0]).value, order, lines[1..]);
    }
  }

  lemma BalancedNotNegative(initial: Stock, b: Books, v: nat)
    requires Balanced(initial, b) && v in b.stock
    ensures b.stock[v] >= 0
  {
  }

  lemma {:induction false} RestoreBalances(initial: Stock, b: Books, order: nat, lines: seq<Line>)
    requires Balanced(initial, b)
    ensures Balanced(initial, Restore(b, order, lines))
    decreases |lines|
  {
    hide Balanced;
    if lines != [] {
      var line := lines[0];
      if line.variantId in b.stock {
        BalancedNotNegative(initial, b, line.variantId);
        PostBalances(initial, b, line.variantId, RETURN, line.quantity, Some(order), ORDER);
      }
      RestoreBalances(initial, RestoreLine(b, order, line), order, lines[1..]);
    }
  }
}
