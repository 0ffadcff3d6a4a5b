// Carts of src/modules/cart/cart.service.ts: purge, cap, add, update and guest merge.
// A line is addressed by its variant, which is unique within a cart.
module Cart {
  import opened Wrappers

  /** What a cart line sees of its variant; a variant not in the catalog is a null relation. */
  datatype Variant = Variant(stock: int, retired: bool, storeSuspended: bool)

  type VariantId = int

  type Catalog = map<VariantId, Variant>

  datatype CartItem = CartItem(variantId: VariantId, quantity: int)

  datatype Warning =
    | SUSPENDED_STORE_ITEM_REMOVED(v: VariantId)
    | RETIRED_VARIANT_REMOVED(v: VariantId)
    | QUANTITY_CAPPED(v: VariantId)

  predicate IsSuspended(cat: Catalog, v: VariantId) {
    v in cat && cat[v].storeSuspended
  }

  predicate IsRetired(cat: Catalog, v: VariantId) {
    v in cat && cat[v].retired
  }

  predicate Available(cat: Catalog, v: VariantId) {
    !IsSuspended(cat, v) && !IsRetired(cat, v)
  }

  /** Quantities are capped to stock that is left; no stock is left for the client to flag. */
  function Capped(cat: Catalog, v: VariantId, quantity: int): int {
    if v in cat && cat[v].stock > 0 && quantity > cat[v].stock then cat[v].stock else quantity
  }

  function CappedItem(cat: Catalog, item: CartItem): CartItem {
    CartItem(item.variantId, Capped(cat, item.variantId, item.quantity))
  }

  // ---- Purge and cap ----------------------------------------------------------

  function Purge(cat: Catalog, items: seq<CartItem>): seq<CartItem> {
    if items == [] then []
    else (if Available(cat, items[0].variantId) then [items[0]] else []) + Purge(cat, items[1..])
  }

  function Cap(cat: Catalog, items: seq<CartItem>): (r: seq<CartItem>)
    ensures |r| == |items|
    ensures forall i :: 0 <= i < |items| ==> r[i] == CappedItem(cat, items[i])
  {
    if items == [] then [] else [CappedItem(cat, items[0])] + Cap(cat, items[1..])
  }

  /** What `getCart` leaves of a cart's lines. */
  function Settle(cat: Catalog, items: seq<CartItem>): seq<CartItem> {
    Cap(cat, Purge(cat, items))
  }

  function SuspendedWarnings(cat: Catalog, items: seq<CartItem>): seq<Warning> {
    if items == [] then []
    else (if IsSuspended(cat, items[0].variantId) then [SUSPENDED_STORE_ITEM_REMOVED(items[0].variantId)] else [])
         + SuspendedWarnings(cat, items[1..])
  }

  function RetiredWarnings(cat: Catalog, items: seq<CartItem>): seq<Warning> {
    if items == [] then []
    else
      var v := items[0].variantId;
      (if !IsSuspended(cat, v) && IsRetired(cat, v) then [RETIRED_VARIANT_REMOVED(v)] else [])
          + RetiredWarnings(cat, items[1..])
  }

  function CapWarnings(cat: Catalog, items: seq<CartItem>): seq<Warning> {
    if items == [] then []
    else (if CappedItem(cat, items[0]) != items[0] then [QUANTITY_CAPPED(items[0].variantId)] else [])
         + CapWarnings(cat, items[1..])
  }

  function Warnings(cat: Catalog, items: seq<CartItem>): seq<Warning> {
    SuspendedWarnings(cat, items) + RetiredWarnings(cat, items) + CapWarnings(cat, Purge(cat, items))
  }

  // ---- Lines of a cart --------------------------------------------------------

  predicate Named(items: seq<CartItem>, v: VariantId) {
    exists i :: 0 <= i < |items| && items[i].variantId == v
  }

  /** The unique index on (cart, variant). */
  predicate Distinct(items: seq<CartItem>) {
    forall i, j :: 0 <= i < j < |items| ==> items[i].variantId != items[j].variantId
  }

  function Quantity(items: seq<CartItem>, v: VariantId): int {
    if items == [] then 0
    else (if items[0].variantId == v then items[0].quantity else 0) + Quantity(items[1..], v)
  }

  function Find(items: seq<CartItem>, v: VariantId): (r: Option<nat>)
    ensures r.Some? ==> r.value < |items| && items[r.value].variantId == v
    ensures r.None? <==> !Named(items, v)
  {
    if items == [] then None
    else if items[0].variantId == v then assert Named(items, v); Some(0)
    else
      var r := Find(items[1..], v);
      if r.None? then
        assert forall i :: 0 < i < |items| ==> items[i] == items[1..][i - 1];
        None
      else Some(r.value + 1)
  }

  function AddQuantity(items: seq<CartItem>, v: VariantId, quantity: int): seq<CartItem> {
    var found := Find(items, v);
    if found.Some? then items[found.value := CartItem(v, items[found.value].quantity + quantity)]
    else items + [CartItem(v, quantity)]
  }

  /** Guest lines in turn added to the customer's. */
  function MergeLines(items: seq<CartItem>, guest: seq<CartItem>): seq<CartItem>
    decreases |guest|
  {
    if guest == [] then items
    else MergeLines(AddQuantity(items, guest[0].variantId, guest[0].quantity), guest[1..])
  }

  lemma {:induction false} QuantityAt(items: seq<CartItem>, i: nat)
    requires i < |items| && Distinct(items)
    ensures Quantity(items, items[i].variantId) == items[i].quantity
  {
    if i == 0 {
      QuantityOfUnnamed(items[1..], items[0].variantId);
    } else {
      assert items[0].variantId != items[i].variantId;
      QuantityAt(items[1..], i - 1);
    }
  }

  lemma {:induction false} QuantityOfUnnamed(items: seq<CartItem>, v: VariantId)
    requires !Named(items, v)
    ensures Quantity(items, v) == 0
  {
    if items != [] {
      assert items[0].variantId != v;
      assert forall i :: 0 <= i < |items| - 1 ==> items[1..][i] == items[i + 1];
      QuantityOfUnnamed(items[1..], v);
    }
  }

  lemma AddKeepsDistinct(items: seq<CartItem>, v: VariantId, quantity: int)
    requires Distinct(items)
    ensures Distinct(AddQuantity(items, v, quantity))
    ensures forall w :: Named(AddQuantity(items, v, quantity), w) <==> Named(items, w) || w == v
  {
    var found, after := Find(items, v), AddQuantity(items, v, quantity);
    if found.Some? {
      assert forall i :: 0 <= i < |items| ==> after[i].variantId == items[i].variantId;
    } else {
      assert forall i :: 0 <= i < |items| ==> after[i] == items[i];
      assert after[|items|].variantId == v;
    }
  }

  lemma QuantityAfterAdd(items: seq<CartItem>, v: VariantId, quantity: int, w: VariantId)
    requires Distinct(items)
    ensures Quantity(AddQuantity(items, v, quantity), w) == Quantity(items, w) + if w == v then quantity else 0
  {
    hide Quantity;
    var after := AddQuantity(items, v, quantity);
    AddKeepsDistinct(items, v, quantity);
    if Named(after, w) {
      var i :| 0 <= i < |after| && after[i].variantId == w;
      QuantityAt(after, i);
      if Named(items, w) {
        QuantityAt(items, i);
      } else {
        QuantityOfUnnamed(items, w);
      }
    } else {
      QuantityOfUnnamed(after, w);
      QuantityOfUnnamed(items, w);
    }
  }

  /** Merged lines name what either side named, once, with the sum of both quantities. */
  lemma {:induction false} MergeAddsUp(items: seq<CartItem>, guest: seq<CartItem>, v: VariantId)
    requires Distinct(items)
    ensures Distinct(MergeLines(items, guest))
    ensures Named(MergeLines(items, guest), v) <==> Named(items, v) || Named(guest, v)
    ensures Quantity(MergeLines(items, guest), v) == Quantity(items, v) + Quantity(guest, v)
    decreases |guest|
  {
    hide AddQuantity;
    if guest != [] {
      var next := AddQuantity(items, guest[0].variantId, guest[0].quantity);
      AddKeepsDistinct(items, guest[0].variantId, guest[0].quantity);
      QuantityAfterAdd(items, guest[0].variantId, guest[0].quantity, v);
      MergeAddsUp(next, guest[1..], v);
      NamedSplits(guest, v);
    }
  }

  lemma NamedSplits(items: seq<CartItem>, v: VariantId)
    requires items != []
    ensures Named(items, v) <==> items[0].variantId == v || Named(items[1..], v)
  {
    assert forall i :: 0 < i < |items| ==> items[i] == items[1..][i - 1];
  }

  // ---- Settling ---------------------------------------------------------------

  lemma {:induction false} PurgeNames(cat: Catalog, items: seq<CartItem>, v: VariantId)
    ensures Named(Purge(cat, items), v) <==> Named(items, v) && Available(cat, v)
    ensures Quantity(Purge(cat, items), v) == if Available(cat, v) then Quantity(items, v) else 0
  {
    hide Available;
    if items != [] {
      var rest := Purge(cat, items[1..]);
      PurgeNames(cat, items[1..], v);
      NamedSplits(items, v);
      NamedSplits([items[0]] + rest, v);
      assert ([items[0]] + rest)[1..] == rest;
      assert Purge(cat, items) == if Available(cat, items[0].variantId) then [items[0]] + rest else rest;
    }
  }

  lemma {:induction false} PurgeDistinct(cat: Catalog, items: seq<CartItem>)
    requires Distinct(items)
    ensures Distinct(Purge(cat, items))
  {
    hide Available;
    if items != [] {
      var rest := Purge(cat, items[1..]);
      PurgeDistinct(cat, items[1..]);
      PurgeNames(cat, items[1..], items[0].variantId);
      assert !Named(items[1..], items[0].variantId);
      assert forall j :: 0 <= j < |rest| ==> rest[j].variantId != items[0].variantId;
    }
  }

  lemma {:induction false} PurgeAvailable(cat: Catalog, items: seq<CartItem>)
    ensures forall i :: 0 <= i < |Purge(cat, items)| ==> Available(cat, Purge(cat, items)[i].variantId)
  {
    hide Available;
    if items != [] {
      PurgeAvailable(cat, items[1..]);
    }
  }

  /** A cart of available lines is not purged and gives no purge warning. */
  lemma {:induction false} PurgeNothing(cat: Catalog, items: seq<CartItem>)
    requires forall i :: 0 <= i < |items| ==> Available(cat, items[i].variantId)
    ensures Purge(cat, items) == items && SuspendedWarnings(cat, items) == [] && RetiredWarnings(cat, items) == []
  {
    if items != [] {
      PurgeNothing(cat, items[1..]);
      assert items == [items[0]] + items[1..];
    }
  }

  lemma {:induction false} CapTwice(cat: Catalog, items: seq<CartItem>)
    ensures Cap(cat, Cap(cat, items)) == Cap(cat, items) && CapWarnings(cat, Cap(cat, items)) == []
  {
    if items != [] {
      CapTwice(cat, items[1..]);
      assert Cap(cat, items)[1..] == Cap(cat, items[1..]);
    }
  }

  lemma CappedIs(cat: Catalog, v: VariantId, quantity: int)
    ensures Capped(cat, v, quantity) == if v in cat && 0 < cat[v].stock < quantity then cat[v].stock else quantity
  {
  }

  /** A settled cart has only available lines, distinct; more than the stock that is left becomes that stock. */
  lemma SettledLines(cat: Catalog, items: seq<CartItem>, v: VariantId)
    requires Distinct(items)
    ensures Distinct(Settle(cat, items))
    ensures Named(Settle(cat, items), v)
       <==> Named(items, v) && !(v in cat && (cat[v].storeSuspended || cat[v].retired))
    ensures Named(Settle(cat, items), v) ==>
              Quantity(Settle(cat, items), v) == if v in cat && 0 < cat[v].stock < Quantity(items, v) then cat[v].stock
                                                 else Quantity(items, v)
  {
    assert Available(cat, v) <==> !(v in cat && (cat[v].storeSuspended || cat[v].retired));
    CappedIs(cat, v, Quantity(items, v));
    hide Quantity, Purge, Cap, Capped, Available;
    var purged, settled := Purge(cat, items), Settle(cat, items);
    PurgeDistinct(cat, items);
    PurgeNames(cat, items, v);
    assert forall i :: 0 <= i < |purged| ==> settled[i].variantId == purged[i].variantId;
    if Named(settled, v) {
      var i :| 0 <= i < |settled| && settled[i].variantId == v;
      QuantityAt(settled, i);
      QuantityAt(purged, i);
    }
  }

  lemma {:induction false} SuspendedAre(cat: Catalog, items: seq<CartItem>, w: Warning)
    ensures w in SuspendedWarnings(cat, items)
       <==> w.SUSPENDED_STORE_ITEM_REMOVED? && Named(items, w.v) && w.v in cat && cat[w.v].storeSuspended
  {
    if items != [] {
      NamedSplits(items, w.v);
      SuspendedAre(cat, items[1..], w);
    }
  }

  lemma {:induction false} RetiredAre(cat: Catalog, items: seq<CartItem>, w: Warning)
    ensures w in RetiredWarnings(cat, items)
       <==> && w.RETIRED_VARIANT_REMOVED? && Named(items, w.v) && w.v in cat
            && cat[w.v].retired && !cat[w.v].storeSuspended
  {
    if items != [] {
      NamedSplits(items, w.v);
      RetiredAre(cat, items[1..], w);
    }
  }

  lemma {:induction false} CapsAre(cat: Catalog, items: seq<CartItem>, w: Warning)
    requires Distinct(items)
    ensures w in CapWarnings(cat, items)
       <==> w.QUANTITY_CAPPED? && Named(items, w.v) && w.v in cat && 0 < cat[w.v].stock < Quantity(items, w.v)
  {
    if items != [] {
      NamedSplits(items, w.v);
      CapsAre(cat, items[1..], w);
      if items[0].variantId == w.v {
        QuantityOfUnnamed(items[1..], w.v);
      }
    }
  }

  /** A read warns of just the lines that it removes or caps, each with its own reason. */
  lemma WarningsAre(cat: Catalog, items: seq<CartItem>, w: Warning)
    requires Distinct(items)
    ensures w in Warnings(cat, items)
       <==> && Named(items, w.v) && w.v in cat
            && (w.SUSPENDED_STORE_ITEM_REMOVED? ==> cat[w.v].storeSuspended)
            && (w.RETIRED_VARIANT_REMOVED? ==> cat[w.v].retired && !cat[w.v].storeSuspended)
            && (w.QUANTITY_CAPPED? ==>
                  !cat[w.v].storeSuspended && !cat[w.v].retired && 0 < cat[w.v].stock < Quantity(items, w.v))
  {
    hide SuspendedWarnings, RetiredWarnings, CapWarnings, Quantity, Purge, Distinct, Named;
    SuspendedAre(cat, items, w);
    RetiredAre(cat, items, w);
    PurgeDistinct(cat, items);
    PurgeNames(cat, items, w.v);
    CapsAre(cat, Purge(cat, items), w);
  }

  /** Reading a cart a second time changes nothing and warns of nothing. */
  lemma SettleIsIdempotent(cat: Catalog, items: seq<CartItem>)
    ensures Settle(cat, Settle(cat, items)) == Settle(cat, items)
    ensures Warnings(cat, Settle(cat, items)) == []
  {
    hide Purge, Cap, CapWarnings, SuspendedWarnings, RetiredWarnings, Available, Capped;
    var purged, settled := Purge(cat, items), Settle(cat, items);
    PurgeAvailable(cat, items);
    assert forall i :: 0 <= i < |purged| ==> settled[i].variantId == purged[i].variantId;
    PurgeNothing(cat, settled);
    CapTwice(cat, purged);
  }
}
