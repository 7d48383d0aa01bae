/** Orders and the mock order repository (`orderService`). */
module Orders {
  import opened Wrappers
  import opened Text
  import Repository

  datatype OrderItem = OrderItem(productId: nat, quantity: nat, price: real)

  /** `trackingNumber` is `None` for the source's `null`. */
  datatype Order = Order(
    id: nat,
    orderId: string,
    orderDate: string,
    status: string,
    trackingNumber: Option<string>,
    items: seq<OrderItem>)

  /**
   * The fields an `orderData` object may carry; `None` means the field is absent and the
   * spread leaves the existing value. A present `trackingNumber` may itself be `null`.
   */
  datatype OrderPatch = OrderPatch(
    id: Option<nat>,
    orderId: Option<string>,
    orderDate: Option<string>,
    status: Option<string>,
    trackingNumber: Option<Option<string>>,
    items: Option<seq<OrderItem>>)

  const NotFound: string := "Order not found"
  const Processing: string := "processing"
  const Shipped: string := "shipped"
  const TrackingPrefix: string := "1Z999"

  function IdOf(o: Order): nat { o.id }

  /** `{ ...o, ...patch }`: every field the patch carries wins. */
  function Merge(o: Order, patch: OrderPatch): (r: Order)
    ensures patch == OrderPatch(None, None, None, None, None, None) ==> r == o
    ensures patch.status.Some? ==> r.status == patch.status.value
    ensures patch.status.None? ==> r.status == o.status
    ensures patch.trackingNumber.None? ==> r.trackingNumber == o.trackingNumber
    ensures patch.id.None? ==> r.id == o.id
    ensures patch.orderId.None? ==> r.orderId == o.orderId
  {
    Order(
      patch.id.GetOr(o.id),
      patch.orderId.GetOr(o.orderId),
      patch.orderDate.GetOr(o.orderDate),
      patch.status.GetOr(o.status),
      patch.trackingNumber.GetOr(o.trackingNumber),
      patch.items.GetOr(o.items))
  }

  /** The order number `MH-<year>-<id>`, the id left-padded with zeros to three digits. */
  function OrderNumber(year: nat, n: nat): (r: string)
    ensures var prefix := "MH-" + DecimalString(year) + "-";
      && |r| == |prefix| + (if |DecimalString(n)| >= 3 then |DecimalString(n)| else 3)
      && r[..|prefix|] == prefix
      && (forall i :: |prefix| <= i < |r| ==> IsDigit(r[i]))
      && ParseDecimal(r[|prefix|..]) == n
  {
    var prefix := "MH-" + DecimalString(year) + "-";
    var id := DecimalString(n);
    var digits := PadStart(id, 3, '0');
    ParsePadded(id, 3);
    ParseDecimalString(n);
    var r := prefix + digits;
    assert r[..|prefix|] == prefix && r[|prefix|..] == digits;
    r
  }

  function GetById(orders: seq<Order>, id: nat): (r: Result<Order>)
    ensures r.Failure? <==> forall k :: 0 <= k < |orders| ==> orders[k].id != id
    ensures r.Failure? ==> r.error == NotFound
    ensures r.Success? ==> r.value in orders && r.value.id == id
  {
    Repository.GetById(orders, IdOf, id, NotFound)
  }

  /** Lookup by the human-readable order number. */
  function GetByOrderId(orders: seq<Order>, orderId: string): (r: Result<Order>)
    ensures r.Failure? <==> forall k :: 0 <= k < |orders| ==> orders[k].orderId != orderId
    ensures r.Failure? ==> r.error == NotFound
    ensures r.Success? ==> r.value in orders && r.value.orderId == orderId
  {
    if |orders| == 0 then Failure(NotFound)
    else if orders[0].orderId == orderId then Success(orders[0])
    else
      assert forall k :: 1 <= k < |orders| ==> orders[k] == orders[1..][k - 1];
      GetByOrderId(orders[1..], orderId)
  }

  /**
   * `create`: the new order gets the next free id, an order number built from it, the status
   * "processing" and no tracking number, and then `orderData` is spread over these defaults.
   * `year` and `now` stand for the clock.
   */
  function Create(orders: seq<Order>, data: OrderPatch, year: nat, now: string)
    : (r: Repository.Change<Order>)
    requires |orders| > 0
    ensures r.table == orders + [r.item]
    ensures data.id.None? ==> forall k :: 0 <= k < |orders| ==> orders[k].id < r.item.id
    // one more than the largest id in use
    ensures data.id.None? ==> r.item.id == Repository.NextId(orders, IdOf)
    ensures data.id.None? ==> exists k :: 0 <= k < |orders| && orders[k].id + 1 == r.item.id
    ensures data.orderId.None? ==>
      r.item.orderId == OrderNumber(year, Repository.NextId(orders, IdOf))
    ensures data.status.None? ==> r.item.status == Processing
    ensures data.status.Some? ==> r.item.status == data.status.value
    ensures data.trackingNumber.None? ==> r.item.trackingNumber == None
    ensures data.items.Some? ==> r.item.items == data.items.value
  {
    var n := Repository.NextId(orders, IdOf);
    var defaults := Order(n, OrderNumber(year, n), now, Processing, None, []);
    var order := Merge(defaults, data);
    Repository.Change(orders + [order], order)
  }

  function Update(orders: seq<Order>, id: nat, data: OrderPatch): (r: Result<Repository.Change<Order>>)
    ensures r.Failure? <==> forall k :: 0 <= k < |orders| ==> orders[k].id != id
    ensures r.Failure? ==> r.error == NotFound
    ensures r.Success? ==> |r.value.table| == |orders|
    ensures r.Success? ==>
      exists i :: 0 <= i < |orders| && orders[i].id == id
        && r.value.table[i] == Merge(orders[i], data) && r.value.item == Merge(orders[i], data)
        && (forall k :: 0 <= k < |orders| && k != i ==> r.value.table[k] == orders[k])
  {
    var r := Repository.UpdateById(orders, IdOf, id, o => Merge(o, data), NotFound);
    if r.Success? then
      var i := Repository.IndexOf(orders, IdOf, id).value;
      assert orders[i].id == id && r.value.table[i] == Merge(orders[i], data);
      r
    else r
  }

  /** A missing tracking number: `null`, or the empty string (both falsy). */
  predicate LacksTracking(o: Order) {
    o.trackingNumber.None? || o.trackingNumber.value == ""
  }

  /** The status transition of `updateStatus`; `suffix` stands for the random characters. */
  function WithStatus(o: Order, status: string, suffix: string): (r: Order)
    ensures r.status == status
    ensures !LacksTracking(o) ==> r.trackingNumber == o.trackingNumber
    ensures status != Shipped ==> r.trackingNumber == o.trackingNumber
    ensures status == Shipped ==> !LacksTracking(r)
    ensures r.id == o.id && r.orderId == o.orderId && r.items == o.items && r.orderDate == o.orderDate
  {
    var o1 := o.(status := status);
    if status == Shipped && LacksTracking(o1) then o1.(trackingNumber := Some(TrackingPrefix + suffix))
    else o1
  }

  function UpdateStatus(orders: seq<Order>, id: nat, status: string, suffix: string)
    : (r: Result<Repository.Change<Order>>)
    ensures r.Failure? <==> forall k :: 0 <= k < |orders| ==> orders[k].id != id
    ensures r.Failure? ==> r.error == NotFound
    ensures r.Success? ==> |r.value.table| == |orders|
    ensures r.Success? ==>
      exists i :: 0 <= i < |orders| && orders[i].id == id
        && r.value.table[i] == WithStatus(orders[i], status, suffix)
        && r.value.item == r.value.table[i]
        && (forall k :: 0 <= k < |orders| && k != i ==> r.value.table[k] == orders[k])
  {
    var r := Repository.UpdateById(orders, IdOf, id, o => WithStatus(o, status, suffix), NotFound);
    if r.Success? then
      var i := Repository.IndexOf(orders, IdOf, id).value;
      assert orders[i].id == id && r.value.table[i] == WithStatus(orders[i], status, suffix);
      r
    else r
  }

  function Delete(orders: seq<Order>, id: nat): (r: Result<Repository.Change<Order>>)
    ensures r.Failure? <==> forall k :: 0 <= k < |orders| ==> orders[k].id != id
    ensures r.Failure? ==> r.error == NotFound
    ensures r.Success? ==> |r.value.table| == |orders| - 1
    ensures r.Success? ==>
      exists i :: 0 <= i < |orders| && orders[i].id == id
        && r.value.item == orders[i] && r.value.table == orders[..i] + orders[i + 1..]
  {
    var r := Repository.DeleteById(orders, IdOf, id, NotFound);
    if r.Success? then
      var i := Repository.IndexOf(orders, IdOf, id).value;
      assert orders[i].id == id;
      r
    else r
  }
}
