/**
 * The order co-occurrence index of the recommendation engine (`getFrequentlyBoughtTogether`)
 * and the aggregate purchase history (`getUserPurchaseHistory`).
 */
module CoOccurrence {
  import opened Seqs
  import opened StableSort
  import opened Orders

  /** The product ids of an order's line items, in line order. */
  function ItemIds(o: Order): (r: seq<nat>)
    ensures |r| == |o.items|
    ensures forall i :: 0 <= i < |o.items| ==> r[i] == o.items[i].productId
  {
    seq(|o.items|, i requires 0 <= i < |o.items| => o.items[i].productId)
  }

  /**
   * Reference count: over the orders that contain `id`, the number of line items for
   * `other`, where `other` is a different product.
   */
  function CoCount(orders: seq<Order>, id: nat, other: nat): nat {
    if |orders| == 0 then 0
    else
      (if id in ItemIds(orders[0]) && other != id then multiset(ItemIds(orders[0]))[other] else 0)
      + CoCount(orders[1..], id, other)
  }

  /**
   * The line items the source's counting loop visits: for every order containing `id`, its
   * items other than `id`, in order.
   */
  function Partners(orders: seq<Order>, id: nat): (r: seq<nat>)
    ensures id !in r
  {
    if |orders| == 0 then []
    else
      (if id in ItemIds(orders[0]) then Without(ItemIds(orders[0]), id) else [])
      + Partners(orders[1..], id)
  }

  /** The counter the loop builds for `other` is the reference count. */
  lemma {:induction false} PartnersCount(orders: seq<Order>, id: nat, other: nat)
    ensures multiset(Partners(orders, id))[other] == CoCount(orders, id, other)
  {
    if |orders| > 0 {
      PartnersCount(orders[1..], id, other);
      var items := ItemIds(orders[0]);
      var head: seq<nat> := if id in items then Without(items, id) else [];
      assert Partners(orders, id) == head + Partners(orders[1..], id);
      assert multiset(Partners(orders, id)) == multiset(head) + multiset(Partners(orders[1..], id));
    }
  }

  /**
   * `Object.entries` lists the integer-like keys of the counter object in ascending numeric
   * order, whatever order they were first seen in.
   */
  function AscendingKeys(xs: seq<nat>): (r: seq<nat>)
    ensures NoDup(r)
    ensures forall k :: k in r <==> k in xs
    ensures forall i, j :: 0 <= i < j < |r| ==> r[i] < r[j]
  {
    var d := Dedup(xs);
    var r := SortDesc(d, k => -(k as real));
    NoDupOfPermutation(r, d);
    r
  }

  /**
   * Products bought together with `id`, most frequent first; equal counts come out by
   * ascending id (the key order of the counter object, kept by the stable sort).
   */
  function FrequentlyBoughtTogether(orders: seq<Order>, id: nat): (r: seq<nat>)
    ensures id !in r
    ensures NoDup(r)
    ensures forall k :: k in r <==> CoCount(orders, id, k) > 0
    ensures forall i, j :: 0 <= i < j < |r| ==> CoCount(orders, id, r[i]) >= CoCount(orders, id, r[j])
  {
    var keys := AscendingKeys(Partners(orders, id));
    var r := SortDesc(keys, k => CoCount(orders, id, k) as real);
    NoDupOfPermutation(r, keys);
    forall k ensures k in r <==> CoCount(orders, id, k) > 0 {
      PartnersCount(orders, id, k);
    }
    r
  }

  /** Equal co-occurrence counts are listed by ascending product id. */
  lemma FrequentlyBoughtTogetherTies(orders: seq<Order>, id: nat)
    ensures var r := FrequentlyBoughtTogether(orders, id);
      forall i, j :: 0 <= i < j < |r| ==>
        CoCount(orders, id, r[i]) > CoCount(orders, id, r[j])
        || (CoCount(orders, id, r[i]) == CoCount(orders, id, r[j]) && r[i] < r[j])
  {
    var keys := AscendingKeys(Partners(orders, id));
    SortDescIsStable(keys, k => CoCount(orders, id, k) as real, k => k as int);
  }

  /** No order contains `id`: nothing is bought together with it. */
  lemma NeverOrderedHasNoPartners(orders: seq<Order>, id: nat)
    requires forall k :: 0 <= k < |orders| ==> id !in ItemIds(orders[k])
    ensures FrequentlyBoughtTogether(orders, id) == []
  {
    var r := FrequentlyBoughtTogether(orders, id);
    if |r| > 0 {
      NoPartnersCount(orders, id, r[0]);
    }
  }

  lemma {:induction false} NoPartnersCount(orders: seq<Order>, id: nat, other: nat)
    requires forall k :: 0 <= k < |orders| ==> id !in ItemIds(orders[k])
    ensures CoCount(orders, id, other) == 0
  {
    if |orders| > 0 {
      assert forall k :: 0 <= k < |orders[1..]| ==> orders[1..][k] == orders[k + 1];
      NoPartnersCount(orders[1..], id, other);
    }
  }

  /** Every product id of every line item, in scan order. */
  function AllItemIds(orders: seq<Order>): (r: seq<nat>)
    ensures forall k :: k in r <==> exists o :: o in orders && k in ItemIds(o)
  {
    if |orders| == 0 then []
    else
      var rest := AllItemIds(orders[1..]);
      assert forall o :: o in orders <==> o == orders[0] || o in orders[1..];
      ItemIds(orders[0]) + rest
  }

  /**
   * `getUserPurchaseHistory`: every product id ever ordered, once each, in order of first
   * appearance (all users' orders, as in the source).
   */
  function PurchasedIds(orders: seq<Order>): (r: seq<nat>)
    ensures NoDup(r)
    ensures forall k :: k in r <==> exists o :: o in orders && k in ItemIds(o)
  {
    Dedup(AllItemIds(orders))
  }
}
