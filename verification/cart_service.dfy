// The cart operations that rewrite stored lines, and what a guest merge leaves.
module CartService {
  import opened Cart

  datatype Owner = Customer(customerId: int) | Session(sessionId: string)

  type Carts = map<Owner, seq<CartItem>>

  datatype AddResult = Added | VARIANT_NOT_FOUND | STORE_SUSPENDED | INSUFFICIENT_STOCK

  function Lines(carts: Carts, owner: Owner): seq<CartItem> {
    if owner in carts then carts[owner] else []
  }

  predicate AllDistinct(carts: Carts) {
    forall o :: o in carts ==> Distinct(carts[o])
  }

  /** Reading a cart stores its settled lines. */
  function AfterGet(carts: Carts, owner: Owner, cat: Catalog): Carts {
    carts[owner := Settle(cat, Lines(carts, owner))]
  }

  /** Logging in moves the guest's lines to the customer and deletes the guest cart. */
  function AfterMerge(carts: Carts, customer: Owner, guest: Owner, cat: Catalog): Carts {
    if Lines(carts, guest) == [] then AfterGet(carts, customer, cat)
    else (carts - {guest})[customer := Settle(cat, MergeLines(Lines(carts, customer), Lines(carts, guest)))]
  }

  class Service {
    var carts: Carts

    ghost predicate Valid()
      reads this
    {
      AllDistinct(carts)
    }

    constructor ()
      ensures Valid() && carts == map[]
    {
      carts := map[];
    }

    method ResolveCart(owner: Owner) returns (items: seq<CartItem>)
      modifies this
      ensures items == Lines(old(carts), owner)
      ensures carts == old(carts)[owner := items]
    {
      if owner !in carts {
        carts := carts[owner := []];
      }
      items := carts[owner];
      assert carts == old(carts)[owner := items];
    }

    /** Line by line: more than the stock that is left becomes that stock. */
    method CapQuantitiesToStock(owner: Owner, cat: Catalog, purgeWarnings: seq<Warning>)
      returns (warnings: seq<Warning>)
      requires owner in carts
      modifies this
      ensures carts == old(carts)[owner := Cap(cat, old(carts)[owner])] && |carts[owner]| == |old(carts)[owner]|
      ensures forall k :: 0 <= k < |carts[owner]| ==>
                var item := old(carts)[owner][k];
                && carts[owner][k].variantId == item.variantId
                && carts[owner][k].quantity == if item.variantId in cat && 0 < cat[item.variantId].stock < item.quantity
                                               then cat[item.variantId].stock else item.quantity
      ensures warnings == purgeWarnings + CapWarnings(cat, old(carts)[owner])
    {
      hide CapWarnings;
      warnings := purgeWarnings;
      ghost var items := carts[owner];
      CapWarningsEnd(cat, items);
      for i := 0 to |carts[owner]|
        invariant owner in carts && |carts[owner]| == |items|
        invariant carts == old(carts)[owner := carts[owner]]
        invariant forall k :: 0 <= k < |items| ==>
                    carts[owner][k] == if k < i then CappedItem(cat, items[k]) else items[k]
        invariant purgeWarnings + CapWarnings(cat, items) == warnings + CapWarnings(cat, items[i..])
      {
        var item := carts[owner][i];
        CapWarningsStep(cat, items, i);
        if item.variantId in cat && cat[item.variantId].stock > 0 && item.quantity > cat[item.variantId].stock {
          carts := carts[owner := carts[owner][i := item.(quantity := cat[item.variantId].stock)]];
          warnings := warnings + [QUANTITY_CAPPED(item.variantId)];
        }
      }
      assert carts[owner] == Cap(cat, items);
    }

    method GetCart(owner: Owner, cat: Catalog) returns (items: seq<CartItem>, warnings: seq<Warning>)
      requires Valid()
      modifies this
      ensures Valid()
      ensures carts == AfterGet(old(carts), owner, cat)
      ensures carts.Keys == old(carts).Keys + {owner}
      ensures forall o :: o in carts && o != owner ==> carts[o] == old(carts)[o]
      ensures items == carts[owner] && warnings == Warnings(cat, Lines(old(carts), owner))
    {
      hide Settle, Cap, Purge, CapWarnings, SuspendedWarnings, RetiredWarnings;
      ghost var before := carts;
      items := ResolveCart(owner);
      ghost var lines := items;
      assert Distinct(lines);
      warnings := SuspendedWarnings(cat, items) + RetiredWarnings(cat, items);
      carts := carts[owner := Purge(cat, items)];
      warnings := CapQuantitiesToStock(owner, cat, warnings);
      items := carts[owner];
      GetIs(before, owner, cat, carts);
    }

    /** A variant that is gone, retired, suspended or too scarce is refused; the cart's lines stay. */
    method AddItem(v: VariantId, quantity: int, owner: Owner, cat: Catalog) returns (r: AddResult)
      requires Valid()
      modifies this
      ensures Valid()
      ensures r.VARIANT_NOT_FOUND? <==> v !in cat || cat[v].retired
      ensures r.STORE_SUSPENDED? <==> v in cat && !cat[v].retired && cat[v].storeSuspended
      ensures r.Added?
              <==> v in cat && Available(cat, v) && Quantity(Lines(old(carts), owner), v) + quantity <= cat[v].stock
      ensures !r.Added? ==> carts == old(carts)[owner := Lines(old(carts), owner)]
      ensures r.Added?
              ==> carts == AfterGet(old(carts)[owner := AddQuantity(Lines(old(carts), owner), v, quantity)], owner, cat)
      ensures r.Added? ==>
                && Named(carts[owner], v)
                && Quantity(carts[owner], v) == Quantity(Lines(old(carts), owner), v) + quantity
    {
      hide Settle, Quantity;
      ghost var before := carts;
      var items := ResolveCart(owner);
      var existing := Find(items, v);
      var totalQuantity := if existing.Some? then items[existing.value].quantity + quantity else quantity;
      assert totalQuantity == Quantity(items, v) + quantity by {
        assert Distinct(items);
        if existing.Some? {
          QuantityAt(items, existing.value);
        } else {
          QuantityOfUnnamed(items, v);
        }
      }
      if v !in cat || cat[v].retired {
        return VARIANT_NOT_FOUND;
      }
      if cat[v].storeSuspended {
        return STORE_SUSPENDED;
      }
      if cat[v].stock < totalQuantity {
        return INSUFFICIENT_STOCK;
      }
      AddKeepsDistinct(items, v, quantity);
      if existing.Some? {
        carts := carts[owner := items[existing.value := CartItem(v, items[existing.value].quantity + quantity)]];
      } else {
        carts := carts[owner := items + [CartItem(v, quantity)]];
      }
      assert carts == before[owner := AddQuantity(items, v, quantity)];
      AddedIsShown(items, v, quantity, cat);
      var shown, warnings := GetCart(owner, cat);
      return Added;
    }

    /** Setting a quantity: nothing or less deletes the line, more than the stock that is left is capped. */
    method UpdateItem(v: VariantId, quantity: int, owner: Owner, cat: Catalog) returns (found: bool)
      requires Valid()
      modifies this
      ensures Valid()
      ensures found <==> Named(Lines(old(carts), owner), v)
      ensures !found ==> carts == old(carts)[owner := Lines(old(carts), owner)]
      ensures found
              ==> carts == AfterGet(old(carts)[owner := WithQuantity(cat, Lines(old(carts), owner), v, quantity)],
                                    owner, cat)
      ensures found ==> forall w ::
                Named(carts[owner], w)
                <==> && Named(Lines(old(carts), owner), w) && (w == v ==> quantity > 0)
                     && !(w in cat && (cat[w].storeSuspended || cat[w].retired))
      ensures found ==> forall w :: Named(carts[owner], w) ==>
                var wanted := if w == v then quantity else Quantity(Lines(old(carts), owner), w);
                Quantity(carts[owner], w) == if w in cat && 0 < cat[w].stock < wanted then cat[w].stock else wanted
    {
      hide Settle, Named, Quantity;
      ghost var before := carts;
      var items := ResolveCart(owner);
      var existing := Find(items, v);
      if existing.None? {
        return false;
      }
      assert Distinct(items);
      var i := existing.value;
      if quantity <= 0 {
        carts := carts[owner := items[..i] + items[i + 1..]];
      } else {
        carts := carts[owner := items[i := CartItem(v, Capped(cat, v, quantity))]];
      }
      assert carts == before[owner := WithQuantity(cat, items, v, quantity)];
      UpdatedCart(cat, items, v, quantity);
      var shown, warnings := GetCart(owner, cat);
      return true;
    }

    /** One guest line: compared with the loaded lines only, which saved new lines do not join. */
    method MergeLine(customer: Owner, loaded: seq<CartItem>, guestItem: CartItem)
      requires customer in carts && Distinct(carts[customer]) && |loaded| <= |carts[customer]|
      requires forall k :: 0 <= k < |loaded| ==> loaded[k].variantId == carts[customer][k].variantId
      requires forall k :: |loaded| <= k < |carts[customer]| ==> carts[customer][k].variantId != guestItem.variantId
      modifies this
      ensures carts
              == old(carts)[customer := AddQuantity(old(carts)[customer], guestItem.variantId, guestItem.quantity)]
      ensures |carts[customer]| >= |old(carts)[customer]|
      ensures forall k :: 0 <= k < |old(carts)[customer]| ==>
                carts[customer][k].variantId == old(carts)[customer][k].variantId
      ensures forall k :: |old(carts)[customer]| <= k < |carts[customer]| ==>
                carts[customer][k].variantId == guestItem.variantId
      ensures Distinct(carts[customer])
    {
      hide AddQuantity;
      var current := carts[customer];
      var existing := Find(loaded, guestItem.variantId);
      LoadedLinesSuffice(loaded, current, guestItem.variantId, guestItem.quantity);
      AddKeepsDistinct(current, guestItem.variantId, guestItem.quantity);
      if existing.Some? {
        var raised := CartItem(guestItem.variantId, current[existing.value].quantity + guestItem.quantity);
        carts := carts[customer := current[existing.value := raised]];
      } else {
        carts := carts[customer := current + [CartItem(guestItem.variantId, guestItem.quantity)]];
      }
    }

    method MergeGuestCart(customer: Owner, guest: Owner, cat: Catalog)
      returns (items: seq<CartItem>, warnings: seq<Warning>)
      requires Valid() && customer.Customer? && guest.Session?
      modifies this
      ensures Valid()
      ensures carts == AfterMerge(old(carts), customer, guest, cat)
      ensures items == carts[customer]
              && warnings == Warnings(cat, MergeLines(Lines(old(carts), customer), Lines(old(carts), guest)))
    {
      hide Settle, AddQuantity, Distinct;
      ghost var before := carts;
      if guest !in carts || carts[guest] == [] {
        items, warnings := GetCart(customer, cat);
        return;
      }
      var guestItems := carts[guest];
      var loaded := ResolveCart(customer);
      assert Distinct(loaded) by { NoLinesDistinct(); }
      for i := 0 to |guestItems|
        invariant customer in carts && carts == before[customer := carts[customer]]
        invariant |loaded| <= |carts[customer]| && Distinct(carts[customer])
        invariant forall k :: |loaded| <= k < |carts[customer]| ==> Named(guestItems[..i], carts[customer][k].variantId)
        invariant forall k :: 0 <= k < |loaded| ==> loaded[k].variantId == carts[customer][k].variantId
        invariant MergeLines(loaded, guestItems) == MergeLines(carts[customer], guestItems[i..])
      {
        assert guestItems[i..][0] == guestItems[i] && guestItems[i..][1..] == guestItems[i + 1..];
        NotYetMerged(guestItems, i);
        NamedGrows(guestItems, i);
        MergeLine(customer, loaded, guestItems[i]);
      }
      assert guestItems[|guestItems|..] == [];
      carts := carts - {guest};
      items, warnings := GetCart(customer, cat);
    }
  }

  lemma NoLinesDistinct()
    ensures Distinct([])
  {
  }

  lemma CapWarningsStep(cat: Catalog, items: seq<CartItem>, i: nat)
    requires i < |items|
    ensures CapWarnings(cat, items[i..])
         == (if CappedItem(cat, items[i]) != items[i] then [QUANTITY_CAPPED(items[i].variantId)] else [])
             + CapWarnings(cat, items[i + 1..])
  {
    assert items[i..][1..] == items[i + 1..];
  }

  lemma CapWarningsEnd(cat: Catalog, items: seq<CartItem>)
    ensures CapWarnings(cat, items[|items|..]) == [] && items[0..] == items
  {
  }

  lemma GetIs(before: Carts, owner: Owner, cat: Catalog, after: Carts)
    requires after == before[owner := Cap(cat, Purge(cat, Lines(before, owner)))] && AllDistinct(before)
    ensures after == AfterGet(before, owner, cat) && AllDistinct(after)
  {
    hide Cap, Purge;
    SettledLines(cat, Lines(before, owner), 0);
  }

  function WithQuantity(cat: Catalog, items: seq<CartItem>, v: VariantId, quantity: int): seq<CartItem> {
    var found := Find(items, v);
    if found.None? then items
    else if quantity <= 0 then items[..found.value] + items[found.value + 1..]
    else items[found.value := CartItem(v, Capped(cat, v, quantity))]
  }

  lemma WithoutLine(items: seq<CartItem>, i: nat, w: VariantId)
    requires i < |items| && Distinct(items)
    ensures var rest := items[..i] + items[i + 1..];
            && Distinct(rest) && (Named(rest, w) <==> Named(items, w) && w != items[i].variantId)
            && (Named(rest, w) ==> Quantity(rest, w) == Quantity(items, w))
  {
    hide Quantity;
    var rest := items[..i] + items[i + 1..];
    assert forall k :: 0 <= k < |rest| ==> rest[k] == items[if k < i then k else k + 1];
    if k :| 0 <= k < |items| && items[k].variantId == w && w != items[i].variantId {
      assert rest[if k < i then k else k - 1] == items[k];
    }
    if Named(rest, w) {
      var k :| 0 <= k < |rest| && rest[k].variantId == w;
      QuantityAt(rest, k);
      QuantityAt(items, if k < i then k else k + 1);
    }
  }

  lemma WithLine(items: seq<CartItem>, i: nat, quantity: int, w: VariantId)
    requires i < |items| && Distinct(items)
    ensures var v := items[i].variantId; var after := items[i := CartItem(v, quantity)];
            && Distinct(after) && (Named(after, w) <==> Named(items, w))
            && (Named(after, w) ==> Quantity(after, w) == if w == v then quantity else Quantity(items, w))
  {
    hide Quantity;
    var after := items[i := CartItem(items[i].variantId, quantity)];
    assert forall k :: 0 <= k < |items| ==> after[k].variantId == items[k].variantId;
    if Named(after, w) {
      var k :| 0 <= k < |after| && after[k].variantId == w;
      assert items[k].variantId == w;
      QuantityAt(after, k);
      QuantityAt(items, k);
    }
  }

  /** The line has the quantity asked for, or what stock is left; every other line is as a read leaves it. */
  lemma UpdatedCart(cat: Catalog, items: seq<CartItem>, v: VariantId, quantity: int)
    requires Distinct(items) && Named(items, v)
    ensures var after := Settle(cat, WithQuantity(cat, items, v, quantity));
            && Distinct(WithQuantity(cat, items, v, quantity))
            && (forall w :: Named(after, w)
                  <==> && Named(items, w) && (w == v ==> quantity > 0)
                       && !(w in cat && (cat[w].storeSuspended || cat[w].retired)))
            && (forall w :: Named(after, w) ==>
                  var wanted := if w == v then quantity else Quantity(items, w);
                  Quantity(after, w) == if w in cat && 0 < cat[w].stock < wanted then cat[w].stock else wanted)
  {
    hide Settle, Quantity, Named, Distinct;
    var next, i := WithQuantity(cat, items, v, quantity), Find(items, v).value;
    forall w ensures Distinct(next) && (Named(next, w) <==> Named(items, w) && (w == v ==> quantity > 0))
        && (Named(next, w) ==> Quantity(next, w) == if w == v then Capped(cat, v, quantity) else Quantity(items, w)) {
      if quantity <= 0 {
        WithoutLine(items, i, w);
      } else {
        WithLine(items, i, Capped(cat, v, quantity), w);
      }
    }
    forall w {
      SettledLines(cat, next, w);
    }
  }

  function Raised(items: seq<CartItem>, i: nat, quantity: int): seq<CartItem>
    requires i < |items|
  {
    items[i := CartItem(items[i].variantId, items[i].quantity + quantity)]
  }

  lemma NotYetMerged(guest: seq<CartItem>, i: nat)
    requires i < |guest| && Distinct(guest)
    ensures !Named(guest[..i], guest[i].variantId)
  {
  }

  lemma NamedGrows(guest: seq<CartItem>, i: nat)
    requires i < |guest|
    ensures forall v :: Named(guest[..i], v) ==> Named(guest[..i + 1], v)
    ensures Named(guest[..i + 1], guest[i].variantId)
  {
    assert guest[..i + 1][i] == guest[i];
    forall v | Named(guest[..i], v) ensures Named(guest[..i + 1], v) {
      var k :| 0 <= k < |guest[..i]| && guest[..i][k].variantId == v;
      assert guest[..i + 1][k] == guest[..i][k];
    }
  }

  /** Looking only among the loaded lines finds what is there, while no added line has the variant. */
  lemma LoadedLinesSuffice(loaded: seq<CartItem>, current: seq<CartItem>, v: VariantId, quantity: int)
    requires |loaded| <= |current| && Distinct(current)
    requires forall k :: 0 <= k < |loaded| ==> loaded[k].variantId == current[k].variantId
    requires forall k :: |loaded| <= k < |current| ==> current[k].variantId != v
    ensures Find(loaded, v).Some?
            ==> AddQuantity(current, v, quantity) == Raised(current, Find(loaded, v).value, quantity)
    ensures Find(loaded, v).None? ==> AddQuantity(current, v, quantity) == current + [CartItem(v, quantity)]
  {
    var existing, found := Find(loaded, v), Find(current, v);
    assert found.Some? ==> found.value < |loaded| && loaded[found.value].variantId == v;
    if existing.Some? {
      assert Named(current, v);
      assert found.value == existing.value;
    }
  }

  /**
   * After logging in, with stock and availability fixed: an available variant of either
   * cart has the summed quantity, capped where stock is left; others are gone; no
   * variant is listed twice; the guest cart is empty or gone; other carts are as before.
   */
  lemma MergedCart(carts: Carts, customer: Owner, guest: Owner, cat: Catalog, v: VariantId)
    requires AllDistinct(carts) && customer.Customer? && guest.Session?
    ensures var mine, theirs := Lines(carts, customer), Lines(carts, guest);
            var merged := Lines(AfterMerge(carts, customer, guest, cat), customer);
            && Distinct(merged)
            && (Named(merged, v)
                <==> (Named(mine, v) || Named(theirs, v)) && !(v in cat && (cat[v].storeSuspended || cat[v].retired)))
            && (Named(merged, v) ==>
                  var sum := Quantity(mine, v) + Quantity(theirs, v);
                  Quantity(merged, v) == if v in cat && 0 < cat[v].stock < sum then cat[v].stock else sum)
            && Lines(AfterMerge(carts, customer, guest, cat), guest) == []
    ensures forall o :: o != customer && o != guest ==>
              Lines(AfterMerge(carts, customer, guest, cat), o) == Lines(carts, o)
  {
    hide Settle, AddQuantity;
    var mine, theirs := Lines(carts, customer), Lines(carts, guest);
    MergeAddsUp(mine, theirs, v);
    SettledLines(cat, MergeLines(mine, theirs), v);
  }

  /** A second login changes nothing. */
  lemma SecondMergeChangesNothing(carts: Carts, customer: Owner, guest: Owner, cat: Catalog)
    requires customer.Customer? && guest.Session?
    ensures var once := AfterMerge(carts, customer, guest, cat);
            AfterMerge(once, customer, guest, cat) == once && Warnings(cat, Lines(once, customer)) == []
  {
    hide Settle, MergeLines, Warnings;
    SettleIsIdempotent(cat, Lines(carts, customer));
    SettleIsIdempotent(cat, MergeLines(Lines(carts, customer), Lines(carts, guest)));
  }

  /** What was just added is shown with its whole quantity, uncapped. */
  lemma AddedIsShown(items: seq<CartItem>, v: VariantId, quantity: int, cat: Catalog)
    requires Distinct(items) && v in cat && Available(cat, v) && Quantity(items, v) + quantity <= cat[v].stock
    ensures var shown := Settle(cat, AddQuantity(items, v, quantity));
            Named(shown, v) && Quantity(shown, v) == Quantity(items, v) + quantity
  {
    hide Settle, AddQuantity, Quantity;
    AddKeepsDistinct(items, v, quantity);
    QuantityAfterAdd(items, v, quantity, v);
    SettledLines(cat, AddQuantity(items, v, quantity), v);
  }
}
