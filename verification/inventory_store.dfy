// The loops that write stock and ledger in place, each proved to be one step of a run.
module InventoryStore {
  import opened Wrappers
  import opened Inventory
  import opened InventoryRuns

  datatype AdjustResult = Adjusted | VariantNotFound | InsufficientStock

  class Store {
    var stock: Stock
    var ledger: Ledger
    var orders: map<nat, seq<Line>>

    ghost function Current(): State
      reads this
    {
      State(Books(stock, ledger), orders)
    }

    constructor (initial: Stock)
      ensures Current() == State(Books(initial, []), map[])
    {
      stock, ledger, orders := initial, [], map[];
    }

    /** `OrderRepository.create`: a missing variant or too little stock rolls everything back. */
    method CreateOrder(order: nat, items: seq<Line>) returns (created: bool)
      requires order !in orders
      modifies this
      ensures Current() == Step(old(Current()), Event.CreateOrder(order, items))
      ensures created <==> forall i :: 0 <= i < |items| ==>
                && items[i].variantId in old(stock)
                && Demand(items, items[i].variantId) <= old(stock)[items[i].variantId]
      ensures !created ==> Current() == old(Current())
      ensures created ==>
                && orders == old(orders)[order := items] && stock.Keys == old(stock).Keys
                && (forall v :: v in stock ==> stock[v] == old(stock)[v] - Demand(items, v))
      ensures created ==>
                && |ledger| == |old(ledger)| + |items| && ledger[..|old(ledger)|] == old(ledger)
                && forall k :: 0 <= k < |items| ==>
                     var v := items[k].variantId;
                     v in old(stock) && ledger[|old(ledger)| + k]
                     == Transaction(v, SALE, 0 - items[k].quantity, old(stock)[v] - Demand(items[..k + 1], v),
                                    Some(order), Some("order"))
    {
      hide Demand;
      var begin := (stock, ledger, orders);
      SellSucceedsIff(Books(stock, ledger), order, items);
      if Sell(Books(stock, ledger), order, items).Some? {
        SellTakesDemand(Books(stock, ledger), order, items);
        SellWritesRows(Books(stock, ledger), order, items);
      }
      orders := orders[order := items];
      for i := 0 to |items|
        invariant orders == begin.2[order := items]
        invariant Sell(Books(begin.0, begin.1), order, items) == Sell(Books(stock, ledger), order, items[i..])
      {
        var item := items[i];
        assert items[i..][0] == item && items[i..][1..] == items[i + 1..];
        if item.variantId !in stock {
          stock, ledger, orders := begin.0, begin.1, begin.2;
          return false;
        }
        var newQuantity := stock[item.variantId] - item.quantity;
        if newQuantity < 0 {
          stock, ledger, orders := begin.0, begin.1, begin.2;
          return false;
        }
        stock := stock[item.variantId := newQuantity];
        ledger := ledger + [Transaction(item.variantId, SALE, 0 - item.quantity, newQuantity, Some(order), ORDER)];
      }
      return true;
    }

    /** `ProductRepository.updateInventory` */
    method UpdateInventory(variantId: nat, quantityChange: int, kind: TransactionType, ref: Option<nat>,
                           refType: Option<string>)
      returns (r: AdjustResult)
      modifies this
      ensures Current() == Step(old(Current()), Adjust(variantId, quantityChange, kind, ref, refType))
      ensures r.Adjusted? <==> variantId in old(stock) && old(stock)[variantId] + quantityChange >= 0
      ensures r.VariantNotFound? <==> variantId !in old(stock)
      ensures r.Adjusted? ==>
                var after := old(stock)[variantId] + quantityChange;
                && stock == old(stock)[variantId := after] && orders == old(orders)
                && ledger == old(ledger) + [Transaction(variantId, kind, quantityChange, after, ref, refType)]
      ensures !r.Adjusted? ==> stock == old(stock) && ledger == old(ledger) && orders == old(orders)
    {
      if variantId !in stock {
        return VariantNotFound;
      }
      var newQuantity := stock[variantId] + quantityChange;
      if newQuantity < 0 {
        return InsufficientStock;
      }
      stock := stock[variantId := newQuantity];
      ledger := ledger + [Transaction(variantId, kind, quantityChange, newQuantity, ref, refType)];
      return Adjusted;
    }

    method RestoreStockForItems(order: nat, items: seq<Line>) returns (restoredAny: bool)
      modifies this`stock, this`ledger
      ensures Books(stock, ledger) == Restore(Books(old(stock), old(ledger)), order, items)
      ensures restoredAny <==> |ledger| > |old(ledger)|
      ensures stock.Keys == old(stock).Keys
      ensures forall v :: v in stock ==>
                stock[v]
                == old(stock)[v] + if AlreadyRestored(old(ledger), order, v) then 0 else FirstQuantity(items, v)
    {
      hide AlreadyRestored, FirstQuantity;
      RestoreGives(Books(stock, ledger), order, items);
      restoredAny := false;
      if |items| == 0 {
        return;
      }
      for i := 0 to |items|
        invariant Restore(Books(old(stock), old(ledger)), order, items)
            == Restore(Books(stock, ledger), order, items[i..])
        invariant |old(ledger)| <= |ledger| && (restoredAny <==> |ledger| > |old(ledger)|)
      {
        var item := items[i];
        assert items[i..][0] == item && items[i..][1..] == items[i + 1..];
        if AlreadyRestored(ledger, order, item.variantId) {
          continue;
        }
        if item.variantId !in stock {
          continue;
        }
        var newStock := stock[item.variantId] + item.quantity;
        stock := stock[item.variantId := newStock];
        ledger := ledger + [Transaction(item.variantId, RETURN, item.quantity, newStock, Some(order), ORDER)];
        restoredAny := true;
      }
    }

    method RestoreOrderStock(order: nat) returns (restored: bool)
      modifies this`stock, this`ledger
      ensures Current() == Step(old(Current()), RestoreOrder(order))
      ensures forall v :: v in old(stock) ==>
                && v in stock
                && stock[v] == old(stock)[v] + if order !in orders || AlreadyRestored(old(ledger), order, v) then 0
                                               else FirstQuantity(orders[order], v)
      ensures restored <==> |ledger| > |old(ledger)|
    {
      hide AlreadyRestored;
      var items := if order in orders then orders[order] else [];
      restored := RestoreStockForItems(order, items);
    }

    method RestoreItemStock(order: nat, itemIds: seq<nat>) returns (restored: bool)
      modifies this`stock, this`ledger
      ensures Current() == Step(old(Current()), RestoreItems(order, IdSet(itemIds)))
      ensures restored <==> |ledger| > |old(ledger)|
    {
      if |itemIds| == 0 {
        assert IdSet(itemIds) == {};
        SelectNothing(if order in orders then orders[order] else []);
        return false;
      }
      var items := Select(if order in orders then orders[order] else [], IdSet(itemIds));
      restored := RestoreStockForItems(order, items);
    }
  }

  lemma RestoreGives(b: Books, order: nat, lines: seq<Line>)
    ensures var after := Restore(b, order, lines).stock;
            && after.Keys == b.stock.Keys
            && forall v :: v in after ==>
                 after[v] == b.stock[v] + if AlreadyRestored(b.ledger, order, v) then 0 else FirstQuantity(lines, v)
  {
    hide AlreadyRestored, FirstQuantity, Restore;
    RestoreGivesBack(b, order, lines, 0);
    forall v | v in b.stock {
      RestoreGivesBack(b, order, lines, v);
    }
  }

  function IdSet(ids: seq<nat>): set<nat> {
    set id | id in ids
  }

  lemma SelectNothing(lines: seq<Line>)
    ensures Select(lines, {}) == []
  {
  }
}
