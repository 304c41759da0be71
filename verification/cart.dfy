/** The list operations of `CartProvider` in CartContext.js, as pure
    functions over the cart's item sequence. Each React `setItems` updater
    is a function from the current items to the new items; the totals are
    the two `reduce` expressions.

    Prices are exact reals: the JavaScript code adds and multiplies
    floating-point numbers. With exact arithmetic the order in which
    `reduce` adds the terms does not matter, so the sums are written as
    right folds. */
module Cart {
  import Seqs

  /** The fields of a product the cart uses. */
  datatype Product = Product(id: int, name: string, price: real)

  /** `{ ...product, quantity }`. */
  datatype CartItem = CartItem(id: int, name: string, price: real, quantity: int)

  function ItemFor(product: Product, quantity: int): CartItem {
    CartItem(product.id, product.name, product.price, quantity)
  }

  /** `currentItems.find(item => item.id === id)` finds something. */
  predicate HasId(items: seq<CartItem>, id: int) {
    exists i :: 0 <= i < |items| && items[i].id == id
  }

  predicate UniqueIds(items: seq<CartItem>) {
    forall i, j :: 0 <= i < j < |items| ==> items[i].id != items[j].id
  }

  /** `addItem(product, quantity)`: an item with the same id has its
      quantity raised, otherwise the product is appended. `quantity`
      defaults to 1. */
  function AddItem(items: seq<CartItem>, product: Product, quantity: int := 1): (r: seq<CartItem>)
    ensures HasId(items, product.id) ==> |r| == |items|
    ensures HasId(items, product.id) ==> forall i :: 0 <= i < |items| && items[i].id != product.id ==> r[i] == items[i]
    ensures HasId(items, product.id) ==> forall i :: 0 <= i < |items| && items[i].id == product.id ==>
              r[i] == items[i].(quantity := items[i].quantity + quantity)
    ensures !HasId(items, product.id) ==> r == items + [ItemFor(product, quantity)]
  {
    if HasId(items, product.id) then
      seq(|items|, i requires 0 <= i < |items| =>
        if items[i].id == product.id then items[i].(quantity := items[i].quantity + quantity) else items[i])
    else
      items + [ItemFor(product, quantity)]
  }

  /** `removeItem(productId)`. */
  function RemoveItem(items: seq<CartItem>, productId: int): (r: seq<CartItem>)
    ensures forall i :: 0 <= i < |r| ==> r[i].id != productId
    ensures |r| <= |items|
  {
    Seqs.Filter((x: CartItem) => x.id != productId, items)
  }

  /** `updateQuantity(productId, quantity)`: a quantity of zero or less
      removes the product. */
  function UpdateQuantity(items: seq<CartItem>, productId: int, quantity: int): (r: seq<CartItem>)
    ensures quantity <= 0 ==> r == RemoveItem(items, productId)
    ensures quantity > 0 ==> |r| == |items|
    ensures quantity > 0 ==> forall i :: 0 <= i < |items| ==>
              r[i] == if items[i].id == productId then items[i].(quantity := quantity) else items[i]
  {
    if quantity <= 0 then RemoveItem(items, productId)
    else
      seq(|items|, i requires 0 <= i < |items| =>
        if items[i].id == productId then items[i].(quantity := quantity) else items[i])
  }

  /** `clearCart()`. */
  function ClearCart(): (r: seq<CartItem>)
    ensures |r| == 0
  {
    []
  }

  /** `items.reduce((total, item) => total + item.quantity, 0)`. */
  function TotalItems(items: seq<CartItem>): (n: int)
    ensures |items| == 0 ==> n == 0
    ensures |items| == 1 ==> n == items[0].quantity
  {
    if |items| == 0 then 0 else items[0].quantity + TotalItems(items[1..])
  }

  /** `item.price * item.quantity`. */
  function Cost(item: CartItem): real {
    item.price * item.quantity as real
  }

  /** `items.reduce((total, item) => total + item.price * item.quantity, 0)`. */
  function TotalPrice(items: seq<CartItem>): (t: real)
    ensures |items| == 0 ==> t == 0.0
    ensures |items| == 1 ==> t == items[0].price * items[0].quantity as real
  {
    if |items| == 0 then 0.0 else Cost(items[0]) + TotalPrice(items[1..])
  }

  /** With non-negative quantities the item count is non-negative; with
      positive ones every line counts at least once. */
  lemma {:induction false} TotalItemsBounds(items: seq<CartItem>)
    ensures (forall i :: 0 <= i < |items| ==> items[i].quantity >= 0) ==> TotalItems(items) >= 0
    ensures (forall i :: 0 <= i < |items| ==> items[i].quantity > 0) ==> TotalItems(items) >= |items|
  {
    if |items| > 0 {
      TotalItemsBounds(items[1..]);
      assert forall i :: 0 <= i < |items| - 1 ==> items[1..][i] == items[i + 1];
    }
  }

  /** A cart whose prices and quantities are all non-negative has a
      non-negative price total, and a zero total when every quantity is
      zero. */
  lemma {:induction false} TotalPriceBounds(items: seq<CartItem>)
    requires forall i :: 0 <= i < |items| ==> items[i].price >= 0.0 && items[i].quantity >= 0
    ensures TotalPrice(items) >= 0.0
    ensures (forall i :: 0 <= i < |items| ==> items[i].quantity == 0) ==> TotalPrice(items) == 0.0
  {
    if |items| > 0 {
      TotalPriceBounds(items[1..]);
      NonNegativeProduct(items[0].price, items[0].quantity as real);
    }
  }

  lemma NonNegativeProduct(x: real, y: real)
    requires x >= 0.0 && y >= 0.0
    ensures x * y >= 0.0
  {
  }

  /** The totals of a cart add up over any split of it. */
  lemma {:induction false} TotalsAppend(a: seq<CartItem>, b: seq<CartItem>)
    ensures TotalItems(a + b) == TotalItems(a) + TotalItems(b)
    ensures TotalPrice(a + b) == TotalPrice(a) + TotalPrice(b)
  {
    if |a| == 0 {
      assert a + b == b;
    } else {
      assert (a + b)[1..] == a[1..] + b;
      TotalsAppend(a[1..], b);
    }
  }

  /** Two carts whose items differ only in one quantity, at index `k`,
      differ in their totals by that change. */
  lemma {:induction false} TotalsShift(a: seq<CartItem>, b: seq<CartItem>, k: nat, d: int)
    requires |a| == |b| && k < |a|
    requires forall i :: 0 <= i < |a| ==> b[i].price == a[i].price
    requires forall i :: 0 <= i < |a| && i != k ==> b[i].quantity == a[i].quantity
    requires b[k].quantity == a[k].quantity + d
    ensures TotalItems(b) == TotalItems(a) + d
    ensures TotalPrice(b) == TotalPrice(a) - Cost(a[k]) + Cost(b[k])
  {
    if k == 0 {
      SameTotals(a[1..], b[1..]);
    } else {
      TotalsShift(a[1..], b[1..], k - 1, d);
    }
  }

  lemma {:induction false} SameTotals(a: seq<CartItem>, b: seq<CartItem>)
    requires |a| == |b|
    requires forall i :: 0 <= i < |a| ==> b[i].price == a[i].price && b[i].quantity == a[i].quantity
    ensures TotalItems(b) == TotalItems(a) && TotalPrice(b) == TotalPrice(a)
  {
    if |a| > 0 {
      SameTotals(a[1..], b[1..]);
    }
  }

  /** The index of the item with a given id. */
  lemma IndexOfId(items: seq<CartItem>, id: int) returns (k: nat)
    requires HasId(items, id)
    ensures k < |items| && items[k].id == id
  {
    k :| k < |items| && items[k].id == id;
  }

  /** In a cart without duplicate ids, `addItem` raises the item count by
      `quantity` and the price by `quantity` units of the item's price:
      the price already in the cart when the product is there, the
      product's price otherwise. */
  lemma {:induction false} AddItemTotals(items: seq<CartItem>, product: Product, quantity: int)
    requires UniqueIds(items)
    ensures var r := AddItem(items, product, quantity);
            && TotalItems(r) == TotalItems(items) + quantity
            && TotalPrice(r) == TotalPrice(items) + UnitPrice(items, product) * quantity as real
  {
    if HasId(items, product.id) {
      AddExistingTotals(items, product, quantity);
    } else {
      AddNewTotals(items, product, quantity);
    }
  }

  lemma {:induction false} AddExistingTotals(items: seq<CartItem>, product: Product, quantity: int)
    requires UniqueIds(items) && HasId(items, product.id)
    ensures var r := AddItem(items, product, quantity);
            && TotalItems(r) == TotalItems(items) + quantity
            && TotalPrice(r) == TotalPrice(items) + UnitPrice(items, product) * quantity as real
  {
    var r := AddItem(items, product, quantity);
    var k := IndexOfId(items, product.id);
    forall i | 0 <= i < |items| && i != k
      ensures r[i] == items[i]
    {
      assert items[i].id != product.id;
    }
    RaiseOneTotals(items, r, k, quantity);
    UnitPriceAt(items, product, k);
  }

  /** Raising the quantity of one line by `q` adds `q` items and `q` times
      that line's price to the totals. */
  lemma {:induction false} RaiseOneTotals(a: seq<CartItem>, b: seq<CartItem>, k: nat, q: int)
    requires |a| == |b| && k < |a|
    requires forall i :: 0 <= i < |a| ==> b[i].price == a[i].price
    requires forall i :: 0 <= i < |a| && i != k ==> b[i].quantity == a[i].quantity
    requires b[k].quantity == a[k].quantity + q
    ensures TotalItems(b) == TotalItems(a) + q
    ensures TotalPrice(b) == TotalPrice(a) + a[k].price * q as real
  {
    TotalsShift(a, b, k, q);
    CostRaise(a[k], b[k], q);
    ShiftByRaise(TotalPrice(a), TotalPrice(b), Cost(a[k]), Cost(b[k]), a[k].price * q as real);
  }

  /** Replacing one cost by that cost plus `d` raises the total by `d`. */
  lemma ShiftByRaise(before: real, after: real, was: real, now: real, d: real)
    requires after == before - was + now && now == was + d
    ensures after == before + d
  {
  }

  lemma {:induction false} AddNewTotals(items: seq<CartItem>, product: Product, quantity: int)
    requires !HasId(items, product.id)
    ensures var r := AddItem(items, product, quantity);
            && TotalItems(r) == TotalItems(items) + quantity
            && TotalPrice(r) == TotalPrice(items) + UnitPrice(items, product) * quantity as real
  {
    var added := [ItemFor(product, quantity)];
    TotalsAppend(items, added);
    assert TotalItems(added) == quantity && TotalPrice(added) == Cost(added[0]);
    UnitPriceAbsent(items, product);
  }

  /** Raising a quantity by `q` raises the cost by `q` units. */
  lemma CostRaise(x: CartItem, y: CartItem, q: int)
    requires y.price == x.price && y.quantity == x.quantity + q
    ensures Cost(y) == Cost(x) + x.price * q as real
  {
    assert (x.quantity + q) as real == x.quantity as real + q as real;
  }

  /** The price `addItem` charges per unit: that of the item already in the
      cart, or the product's own. */
  function UnitPrice(items: seq<CartItem>, product: Product): real {
    if |items| == 0 then product.price
    else if items[0].id == product.id then items[0].price
    else UnitPrice(items[1..], product)
  }

  lemma {:induction false} UnitPriceAt(items: seq<CartItem>, product: Product, k: nat)
    requires UniqueIds(items) && k < |items| && items[k].id == product.id
    ensures UnitPrice(items, product) == items[k].price
  {
    if k > 0 {
      UnitPriceAt(items[1..], product, k - 1);
    }
  }

  lemma {:induction false} UnitPriceAbsent(items: seq<CartItem>, product: Product)
    requires !HasId(items, product.id)
    ensures UnitPrice(items, product) == product.price
  {
    if |items| > 0 {
      assert !HasId(items[1..], product.id) by {
        assert forall i :: 0 <= i < |items| - 1 ==> items[1..][i] == items[i + 1];
      }
      UnitPriceAbsent(items[1..], product);
    }
  }

  /** `addItem` never creates a second item with an id already present. */
  lemma {:induction false} AddItemKeepsUniqueIds(items: seq<CartItem>, product: Product, quantity: int)
    requires UniqueIds(items)
    ensures UniqueIds(AddItem(items, product, quantity))
  {
    var r := AddItem(items, product, quantity);
    assert forall i :: 0 <= i < |items| ==> r[i].id == items[i].id;
  }

  /** `removeItem` never creates a duplicate id: it only drops items. */
  lemma {:induction false} RemoveItemKeepsUniqueIds(items: seq<CartItem>, productId: int)
    requires UniqueIds(items)
    ensures UniqueIds(RemoveItem(items, productId))
  {
    var r := RemoveItem(items, productId);
    RemoveItemKeepsOthers(items, productId);
    forall i, j | 0 <= i < j < |r|
      ensures r[i].id != r[j].id
    {
      SubseqIndices(r, items, i, j);
    }
  }

  /** Two positions of a subsequence come from two increasing positions of
      the whole. */
  lemma {:induction false} SubseqIndices(sub: seq<CartItem>, items: seq<CartItem>, i: nat, j: nat)
    requires Seqs.IsSubseq(sub, items) && i < j < |sub|
    ensures exists a, b :: 0 <= a < b < |items| && items[a] == sub[i] && items[b] == sub[j]
    decreases |items|
  {
    if sub[0] == items[0] && Seqs.IsSubseq(sub[1..], items[1..]) {
      if i == 0 {
        assert sub[j] == sub[1..][j - 1];
        var b := IndexInSubseq(sub[1..], items[1..], j - 1);
        assert items[0] == sub[i] && items[b + 1] == sub[j];
      } else {
        SubseqIndices(sub[1..], items[1..], i - 1, j - 1);
        var a, b :| 0 <= a < b < |items| - 1 && items[1..][a] == sub[1..][i - 1] && items[1..][b] == sub[1..][j - 1];
        assert items[a + 1] == sub[i] && items[b + 1] == sub[j];
      }
    } else {
      SubseqIndices(sub, items[1..], i, j);
      var a, b :| 0 <= a < b < |items| - 1 && items[1..][a] == sub[i] && items[1..][b] == sub[j];
      assert items[a + 1] == sub[i] && items[b + 1] == sub[j];
    }
  }

  lemma {:induction false} IndexInSubseq(sub: seq<CartItem>, items: seq<CartItem>, j: nat) returns (b: nat)
    requires Seqs.IsSubseq(sub, items) && j < |sub|
    ensures b < |items| && items[b] == sub[j]
    decreases |items|
  {
    if sub[0] == items[0] && Seqs.IsSubseq(sub[1..], items[1..]) {
      if j == 0 {
        b := 0;
      } else {
        var c := IndexInSubseq(sub[1..], items[1..], j - 1);
        b := c + 1;
      }
    } else {
      var c := IndexInSubseq(sub, items[1..], j);
      b := c + 1;
    }
  }

  /** `updateQuantity` never creates a duplicate id. */
  lemma {:induction false} UpdateQuantityKeepsUniqueIds(items: seq<CartItem>, productId: int, quantity: int)
    requires UniqueIds(items)
    ensures UniqueIds(UpdateQuantity(items, productId, quantity))
  {
    if quantity <= 0 {
      RemoveItemKeepsUniqueIds(items, productId);
    } else {
      var r := UpdateQuantity(items, productId, quantity);
      assert forall i :: 0 <= i < |items| ==> r[i].id == items[i].id;
    }
  }

  /** One call a component can make on the cart. */
  datatype CartOp =
    | Add(product: Product, quantity: int)
    | Remove(productId: int)
    | Update(productId: int, quantity: int)
    | Clear

  /** The items after one call. */
  function Apply(items: seq<CartItem>, op: CartOp): seq<CartItem> {
    match op
    case Add(product, quantity) => AddItem(items, product, quantity)
    case Remove(productId) => RemoveItem(items, productId)
    case Update(productId, quantity) => UpdateQuantity(items, productId, quantity)
    case Clear => ClearCart()
  }

  /** The items after a sequence of calls, in order. */
  function ApplyAll(items: seq<CartItem>, ops: seq<CartOp>): seq<CartItem>
    decreases |ops|
  {
    if |ops| == 0 then items
    else ApplyAll(Apply(items, ops[0]), ops[1..])
  }

  /** No call creates a duplicate id. */
  lemma {:induction false} ApplyKeepsUniqueIds(items: seq<CartItem>, op: CartOp)
    requires UniqueIds(items)
    ensures UniqueIds(Apply(items, op))
  {
    match op
    case Add(product, quantity) => AddItemKeepsUniqueIds(items, product, quantity);
    case Remove(productId) => RemoveItemKeepsUniqueIds(items, productId);
    case Update(productId, quantity) => UpdateQuantityKeepsUniqueIds(items, productId, quantity);
    case Clear =>
  }

  lemma {:induction false} ApplyAllKeepsUniqueIds(items: seq<CartItem>, ops: seq<CartOp>)
    requires UniqueIds(items)
    ensures UniqueIds(ApplyAll(items, ops))
    decreases |ops|
  {
    if |ops| > 0 {
      ApplyKeepsUniqueIds(items, ops[0]);
      ApplyAllKeepsUniqueIds(Apply(items, ops[0]), ops[1..]);
    }
  }

  /** The cart starts empty (`useState([])`), so every cart a component can
      reach by any sequence of calls holds each id at most once. */
  lemma {:induction false} ReachableCartsHaveUniqueIds(ops: seq<CartOp>)
    ensures UniqueIds(ApplyAll([], ops))
  {
    ApplyAllKeepsUniqueIds([], ops);
  }

  /** `removeItem` keeps exactly the items with another id, in their
      order, and its totals drop by those of the removed items. */
  lemma {:induction false} RemoveItemKeepsOthers(items: seq<CartItem>, productId: int)
    ensures var r := RemoveItem(items, productId);
            && Seqs.IsSubseq(r, items)
            && (forall x :: x in r <==> x in items && x.id != productId)
            && (forall x :: multiset(r)[x] == if x.id != productId then multiset(items)[x] else 0)
  {
    var p := (x: CartItem) => x.id != productId;
    Seqs.FilterIsSubseq(p, items);
    forall x ensures x in RemoveItem(items, productId) <==> x in items && x.id != productId {
      Seqs.FilterMembership(p, items, x);
    }
    forall x ensures multiset(RemoveItem(items, productId))[x] == if x.id != productId then multiset(items)[x] else 0 {
      Seqs.FilterCount(p, items, x);
    }
  }

  /** The items with a given id, in order. */
  function ItemsWithId(items: seq<CartItem>, productId: int): seq<CartItem> {
    Seqs.Filter((x: CartItem) => x.id == productId, items)
  }

  /** Removing an id lowers the totals by those of its items. */
  lemma {:induction false} RemoveItemTotals(items: seq<CartItem>, productId: int)
    ensures TotalItems(RemoveItem(items, productId)) == TotalItems(items) - TotalItems(ItemsWithId(items, productId))
    ensures TotalPrice(RemoveItem(items, productId)) == TotalPrice(items) - TotalPrice(ItemsWithId(items, productId))
  {
    if |items| > 0 {
      var rest := RemoveItem(items[1..], productId);
      var same := ItemsWithId(items[1..], productId);
      RemoveItemTotals(items[1..], productId);
      if items[0].id == productId {
        assert RemoveItem(items, productId) == rest;
        assert ItemsWithId(items, productId) == [items[0]] + same;
        assert ([items[0]] + same)[1..] == same;
      } else {
        assert RemoveItem(items, productId) == [items[0]] + rest;
        assert ([items[0]] + rest)[1..] == rest;
        assert ItemsWithId(items, productId) == same;
      }
    }
  }

  /** In a cart without duplicate ids, a positive quantity replaces the
      item's share of both totals: its old quantity and cost are taken
      out and the new ones put in. */
  lemma {:induction false} UpdateQuantityTotals(items: seq<CartItem>, productId: int, quantity: int, k: nat)
    requires UniqueIds(items) && k < |items| && items[k].id == productId && quantity > 0
    ensures var r := UpdateQuantity(items, productId, quantity);
            && TotalItems(r) == TotalItems(items) - items[k].quantity + quantity
            && TotalPrice(r) == TotalPrice(items) - Cost(items[k]) + Cost(items[k].(quantity := quantity))
  {
    var r := UpdateQuantity(items, productId, quantity);
    var d := quantity - items[k].quantity;
    forall i | 0 <= i < |items| && i != k
      ensures r[i] == items[i]
    {
      assert items[i].id != productId;
    }
    TotalsShift(items, r, k, d);
  }

  /** An empty cart, in particular a cleared one, has no items and costs
      nothing. */
  lemma ClearedCartTotals()
    ensures TotalItems(ClearCart()) == 0 && TotalPrice(ClearCart()) == 0.0
  {
  }
}
