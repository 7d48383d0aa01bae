/**
 * The wishlist: the wished product ids in the order they were added, and the date each
 * was added (a JavaScript object keyed by product id).
 */
module WishlistSlice {
  import opened Seqs

  datatype Wishlist = Wishlist(productIds: seq<nat>, addedDates: map<nat, string>)

  /** Every id once, and exactly the listed ids carry a date. */
  predicate Valid(w: Wishlist) {
    NoDup(w.productIds) && w.addedDates.Keys == set id | id in w.productIds
  }

  /** The state after the storage read fails or finds nothing. */
  const Empty: Wishlist := Wishlist([], map[])

  /** `addToWishlist`: an absent id is appended and dated `now`; a present id changes nothing. */
  function AddToWishlist(w: Wishlist, id: nat, now: string): (r: Wishlist)
    ensures id in w.productIds ==> r == w
    ensures id !in w.productIds ==>
      r.productIds == w.productIds + [id] && r.addedDates == w.addedDates[id := now]
    ensures Valid(w) ==> Valid(r)
  {
    if id in w.productIds then w
    else
      var ids := w.productIds + [id];
      assert NoDup(w.productIds) ==> NoDup(ids) by {
        if NoDup(w.productIds) {
          forall i, j | 0 <= i < j < |ids| ensures ids[i] != ids[j] {
            if j == |w.productIds| {
              assert ids[i] == w.productIds[i];
            }
          }
        }
      }
      assert (set x | x in ids) == (set x | x in w.productIds) + {id};
      Wishlist(ids, w.addedDates[id := now])
  }

  /** `removeFromWishlist`: the id and its date go; the other ids keep their order. */
  function RemoveFromWishlist(w: Wishlist, id: nat): (r: Wishlist)
    ensures id !in r.productIds && id !in r.addedDates
    ensures Subseq(r.productIds, w.productIds)
    ensures forall x :: x != id ==> (x in r.productIds <==> x in w.productIds)
    ensures forall x :: x in r.addedDates ==> x in w.addedDates && r.addedDates[x] == w.addedDates[x]
    ensures Valid(w) ==> Valid(r)
  {
    RemovalKeepsValid(w, id);
    Wishlist(Without(w.productIds, id), w.addedDates - {id})
  }

  /** Dropping an id from both the list and the dates keeps a wishlist valid. */
  lemma RemovalKeepsValid(w: Wishlist, id: nat)
    ensures Valid(w) ==> Valid(Wishlist(Without(w.productIds, id), w.addedDates - {id}))
  {
    if Valid(w) {
      var ids := Without(w.productIds, id);
      SubseqNoDup(ids, w.productIds);
      assert (set x | x in ids) == (set x | x in w.productIds) - {id};
    }
  }

  /** `clearWishlist`. */
  function ClearWishlist(w: Wishlist): (r: Wishlist)
    ensures r.productIds == [] && r.addedDates == map[]
    ensures Valid(r)
  {
    Empty
  }

  /** Adding an absent id and removing it again restores the wishlist. */
  lemma AddThenRemove(w: Wishlist, id: nat, now: string)
    requires id !in w.productIds
    requires Valid(w)
    ensures RemoveFromWishlist(AddToWishlist(w, id, now), id) == w
  {
    WithoutOfAppended(w.productIds, id);
    assert id !in w.addedDates;
    assert w.addedDates[id := now] - {id} == w.addedDates;
  }

  /** Removing an id that is not wished changes nothing (for a valid wishlist). */
  lemma RemoveAbsent(w: Wishlist, id: nat)
    requires id !in w.productIds
    requires Valid(w)
    ensures RemoveFromWishlist(w, id) == w
  {
    WithoutAbsent(w.productIds, id);
    assert w.addedDates - {id} == w.addedDates;
  }
}
