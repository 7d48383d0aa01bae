/**
 * The shopping cart: a list of items, each a product with a size and colour choice and a
 * quantity. Items are identified by (product id, size, colour).
 */
module CartSlice {
  import opened Wrappers
  import opened Seqs
  import opened Catalog

  /** A size or colour as the payload carries it: absent, `null`, or a string. */
  datatype Selection = Undefined | Null | Chosen(value: string)

  datatype CartItem = CartItem(
    productId: nat,
    quantity: int,
    selectedSize: Selection,
    selectedColor: Selection,
    addedAt: string,
    product: Product)

  /** The three fields that identify a line of the cart. */
  predicate SameLine(item: CartItem, productId: nat, size: Selection, color: Selection) {
    item.productId == productId && item.selectedSize == size && item.selectedColor == color
  }

  /** No two items share (product id, size, colour). */
  predicate UniqueLines(items: seq<CartItem>) {
    forall i, j :: 0 <= i < j < |items| ==>
      !SameLine(items[j], items[i].productId, items[i].selectedSize, items[i].selectedColor)
  }

  /** Total number of units in the cart. */
  function TotalQuantity(items: seq<CartItem>): int {
    if |items| == 0 then 0 else items[0].quantity + TotalQuantity(items[1..])
  }

  /** `findIndex` of the line, `None` for `-1`. */
  function LineIndex(items: seq<CartItem>, productId: nat, size: Selection, color: Selection): (r: Option<nat>)
    ensures r.Some? ==> r.value < |items| && SameLine(items[r.value], productId, size, color)
    ensures r.None? <==> forall k :: 0 <= k < |items| ==> !SameLine(items[k], productId, size, color)
  {
    if |items| == 0 then None
    else if SameLine(items[0], productId, size, color) then Some(0)
    else
      match LineIndex(items[1..], productId, size, color)
      case None =>
        assert forall k :: 1 <= k < |items| ==> items[k] == items[1..][k - 1];
        None
      case Some(k) => Some(k + 1)
  }

  /**
   * `addToCart`: an existing line gains `quantity` units (default 1); otherwise a new line
   * is appended, stamped with `now`.
   */
  function AddToCart(items: seq<CartItem>, product: Product, quantity: Option<int>,
                     size: Selection, color: Selection, now: string): (r: seq<CartItem>)
    ensures LineIndex(items, product.id, size, color).Some? ==>
      var i := LineIndex(items, product.id, size, color).value;
      && |r| == |items|
      && r[i].quantity == items[i].quantity + quantity.GetOr(1)
      && r[i] == items[i].(quantity := r[i].quantity)
      && forall k :: 0 <= k < |items| && k != i ==> r[k] == items[k]
    ensures LineIndex(items, product.id, size, color).None? ==>
      && |r| == |items| + 1
      && r[..|items|] == items
      && r[|items|] == CartItem(product.id, quantity.GetOr(1), size, color, now, product)
  {
    var q := quantity.GetOr(1);
    match LineIndex(items, product.id, size, color)
    case Some(i) => items[i := items[i].(quantity := items[i].quantity + q)]
    case None => items + [CartItem(product.id, q, size, color, now, product)]
  }

  /** Adding to the cart adds exactly `quantity` units to the total. */
  lemma AddToCartTotal(items: seq<CartItem>, product: Product, quantity: Option<int>,
                       size: Selection, color: Selection, now: string)
    ensures TotalQuantity(AddToCart(items, product, quantity, size, color, now))
      == TotalQuantity(items) + quantity.GetOr(1)
  {
    var r := AddToCart(items, product, quantity, size, color, now);
    match LineIndex(items, product.id, size, color)
    case Some(i) => TotalOfUpdate(items, i, r[i]);
    case None =>
      TotalOfAppend(items, r[|items|]);
      assert r == items + [r[|items|]];
  }

  /** Adding to the cart never creates a second line for the same key. */
  lemma AddToCartKeepsLinesUnique(items: seq<CartItem>, product: Product, quantity: Option<int>,
                                  size: Selection, color: Selection, now: string)
    requires UniqueLines(items)
    ensures UniqueLines(AddToCart(items, product, quantity, size, color, now))
  {
    var r := AddToCart(items, product, quantity, size, color, now);
    forall i, j | 0 <= i < j < |r|
      ensures !SameLine(r[j], r[i].productId, r[i].selectedSize, r[i].selectedColor)
    {
      if j == |items| {
        assert r[i] == items[i];
      }
    }
  }

  lemma {:induction false} TotalOfUpdate(items: seq<CartItem>, i: nat, item: CartItem)
    requires i < |items|
    ensures TotalQuantity(items[i := item]) == TotalQuantity(items) - items[i].quantity + item.quantity
  {
    if i > 0 {
      TotalOfUpdate(items[1..], i - 1, item);
      assert items[i := item][1..] == items[1..][i - 1 := item];
    } else {
      assert items[i := item][1..] == items[1..];
    }
  }

  lemma {:induction false} TotalOfAppend(items: seq<CartItem>, item: CartItem)
    ensures TotalQuantity(items + [item]) == TotalQuantity(items) + item.quantity
  {
    if |items| > 0 {
      TotalOfAppend(items[1..], item);
      assert (items + [item])[1..] == items[1..] + [item];
    } else {
      assert ([item])[1..] == [];
    }
  }

  /** `removeFromCart`: every line of that product goes, the others stay in order. */
  function RemoveFromCart(items: seq<CartItem>, productId: nat): (r: seq<CartItem>)
    ensures Subseq(r, items)
    ensures forall item :: item in r <==> item in items && item.productId != productId
  {
    Filter(items, (item: CartItem) => item.productId != productId)
  }

  /** The lines that `updateQuantity` matches: the first with that product id. */
  function FirstOfProduct(items: seq<CartItem>, productId: nat): (r: Option<nat>)
    ensures r.Some? ==> r.value < |items| && items[r.value].productId == productId
    ensures r.Some? ==> forall k :: 0 <= k < r.value ==> items[k].productId != productId
    ensures r.None? <==> forall k :: 0 <= k < |items| ==> items[k].productId != productId
  {
    if |items| == 0 then None
    else if items[0].productId == productId then Some(0)
    else
      match FirstOfProduct(items[1..], productId)
      case None =>
        assert forall k :: 1 <= k < |items| ==> items[k] == items[1..][k - 1];
        None
      case Some(k) =>
        assert forall j :: 1 <= j <= k ==> items[j] == items[1..][j - 1];
        Some(k + 1)
  }

  /**
   * `updateQuantity`: sets the quantity of the first line of that product, but only to a
   * positive number; otherwise the cart is unchanged.
   */
  function UpdateQuantity(items: seq<CartItem>, productId: nat, quantity: int): (r: seq<CartItem>)
    ensures |r| == |items|
    ensures quantity <= 0 || FirstOfProduct(items, productId).None? ==> r == items
    ensures quantity > 0 && FirstOfProduct(items, productId).Some? ==>
      var i := FirstOfProduct(items, productId).value;
      && r[i] == items[i].(quantity := quantity)
      && forall k :: 0 <= k < |items| && k != i ==> r[k] == items[k]
  {
    match FirstOfProduct(items, productId)
    case Some(i) => if quantity > 0 then items[i := items[i].(quantity := quantity)] else items
    case None => items
  }

  /** `clearCart`. */
  function ClearCart(items: seq<CartItem>): (r: seq<CartItem>)
    ensures |r| == 0
  {
    []
  }

  /** `removeCartItem`: exactly the lines matching all three fields go. */
  function RemoveCartItem(items: seq<CartItem>, productId: nat, size: Selection, color: Selection)
    : (r: seq<CartItem>)
    ensures Subseq(r, items)
    ensures forall item :: item in r <==> item in items && !SameLine(item, productId, size, color)
  {
    Filter(items, (item: CartItem) => !SameLine(item, productId, size, color))
  }

  /** Removing lines keeps the keys of the remaining lines unique. */
  lemma RemovalsKeepLinesUnique(items: seq<CartItem>, productId: nat, size: Selection, color: Selection, quantity: int)
    requires UniqueLines(items)
    ensures UniqueLines(RemoveFromCart(items, productId))
    ensures UniqueLines(RemoveCartItem(items, productId, size, color))
    ensures UniqueLines(UpdateQuantity(items, productId, quantity))
  {
    var le := (a: CartItem, b: CartItem) => !SameLine(b, a.productId, a.selectedSize, a.selectedColor);
    SubseqOrdered(RemoveFromCart(items, productId), items, le);
    SubseqOrdered(RemoveCartItem(items, productId, size, color), items, le);
    var r := UpdateQuantity(items, productId, quantity);
    forall i, j | 0 <= i < j < |r|
      ensures !SameLine(r[j], r[i].productId, r[i].selectedSize, r[i].selectedColor)
    {
      assert le(items[i], items[j]);
    }
  }

  /** Units of one product across all its lines. */
  function ProductQuantity(items: seq<CartItem>, productId: nat): int {
    if |items| == 0 then 0
    else (if items[0].productId == productId then items[0].quantity else 0) + ProductQuantity(items[1..], productId)
  }

  /** `removeFromCart` takes away exactly the units of that product. */
  lemma {:induction false} RemoveFromCartTotal(items: seq<CartItem>, productId: nat)
    ensures TotalQuantity(RemoveFromCart(items, productId))
      == TotalQuantity(items) - ProductQuantity(items, productId)
  {
    if |items| > 0 {
      RemoveFromCartTotal(items[1..], productId);
      var keep := (item: CartItem) => item.productId != productId;
      assert RemoveFromCart(items, productId) == Filter(items, keep);
      assert RemoveFromCart(items[1..], productId) == Filter(items[1..], keep);
      if keep(items[0]) {
        assert Filter(items, keep)[1..] == Filter(items[1..], keep);
      }
    }
  }
}
