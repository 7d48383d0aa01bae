/**
 * The mock review repository (`reviewService`). A review names its product by the
 * product id written as a string.
 */
module ReviewService {
  import opened Wrappers
  import opened Seqs
  import Text
  import StableSort
  import Repository

  datatype Review = Review(
    id: nat,
    productId: string,
    reviewerName: string,
    rating: real,
    title: string,
    comment: string,
    date: string,
    verified: bool,
    helpfulVotes: nat)

  /** The fields a `reviewData` object may carry; `None` means the field is absent. */
  datatype ReviewPatch = ReviewPatch(
    id: Option<nat>,
    productId: Option<string>,
    reviewerName: Option<string>,
    rating: Option<real>,
    title: Option<string>,
    comment: Option<string>,
    date: Option<string>,
    verified: Option<bool>,
    helpfulVotes: Option<nat>)

  const NotFound: string := "Review not found"

  function IdOf(r: Review): nat { r.id }

  /** `{ ...r, ...patch }`: every field the patch carries wins. */
  function Merge(r: Review, patch: ReviewPatch): (m: Review)
    ensures patch.id.None? ==> m.id == r.id
    ensures patch.productId.None? ==> m.productId == r.productId
    ensures patch.verified.None? ==> m.verified == r.verified
    ensures patch.helpfulVotes.None? ==> m.helpfulVotes == r.helpfulVotes
    ensures patch.helpfulVotes.Some? ==> m.helpfulVotes == patch.helpfulVotes.value
    ensures patch == ReviewPatch(None, None, None, None, None, None, None, None, None) ==> m == r
  {
    Review(
      patch.id.GetOr(r.id),
      patch.productId.GetOr(r.productId),
      patch.reviewerName.GetOr(r.reviewerName),
      patch.rating.GetOr(r.rating),
      patch.title.GetOr(r.title),
      patch.comment.GetOr(r.comment),
      patch.date.GetOr(r.date),
      patch.verified.GetOr(r.verified),
      patch.helpfulVotes.GetOr(r.helpfulVotes))
  }

  function GetById(reviews: seq<Review>, id: nat): (r: Result<Review>)
    ensures r.Failure? <==> forall k :: 0 <= k < |reviews| ==> reviews[k].id != id
    ensures r.Failure? ==> r.error == NotFound
    ensures r.Success? ==> r.value in reviews && r.value.id == id
  {
    Repository.GetById(reviews, IdOf, id, NotFound)
  }

  /** The reviews of one product: their `productId` is the decimal string of its id. */
  function OfProduct(productId: nat): Review -> bool {
    (r: Review) => r.productId == Text.DecimalString(productId)
  }

  /**
   * `getByProductId`: the product's reviews, newest first. `time` stands for `new Date(date)`;
   * reviews with the same time keep their table order.
   */
  function GetByProductId(reviews: seq<Review>, productId: nat, time: Review -> real): (r: seq<Review>)
    ensures multiset(r) == multiset(Filter(reviews, OfProduct(productId)))
    ensures forall v :: v in r <==> v in reviews && v.productId == Text.DecimalString(productId)
    ensures StableSort.SortedDesc(r, time)
  {
    StableSort.SortDesc(Filter(reviews, OfProduct(productId)), time)
  }

  /**
   * Reviews of a product with the same time keep their table order: if `position` grows along
   * the table, it grows among equally timed reviews of the result.
   */
  lemma GetByProductIdIsStable(reviews: seq<Review>, productId: nat, time: Review -> real, position: Review -> int)
    requires forall i, j :: 0 <= i < j < |reviews| ==> position(reviews[i]) < position(reviews[j])
    ensures var r := GetByProductId(reviews, productId, time);
      forall i, j :: 0 <= i < j < |r| && time(r[i]) == time(r[j]) ==> position(r[i]) < position(r[j])
  {
    var mine := Filter(reviews, OfProduct(productId));
    SubseqOrdered(mine, reviews, (a: Review, b: Review) => position(a) < position(b));
    StableSort.SortDescIsStable(mine, time, position);
  }

  /**
   * `create`: the new review gets the next free id, the date `now`, `verified` false and no
   * helpful votes, and then `reviewData` is spread over these defaults.
   */
  function Create(reviews: seq<Review>, data: ReviewPatch, now: string): (r: Repository.Change<Review>)
    requires |reviews| > 0
    ensures r.table == reviews + [r.item]
    ensures data.id.None? ==> forall k :: 0 <= k < |reviews| ==> reviews[k].id < r.item.id
    // one more than the largest id in use
    ensures data.id.None? ==> r.item.id == Repository.NextId(reviews, IdOf)
    ensures data.id.None? ==> exists k :: 0 <= k < |reviews| && reviews[k].id + 1 == r.item.id
    ensures data.date.None? ==> r.item.date == now
    ensures data.verified.None? ==> !r.item.verified
    ensures data.verified.Some? ==> r.item.verified == data.verified.value
    ensures data.helpfulVotes.None? ==> r.item.helpfulVotes == 0
    ensures data.productId.Some? ==> r.item.productId == data.productId.value
  {
    var n := Repository.NextId(reviews, IdOf);
    var item := Merge(Review(n, "", "", 0.0, "", "", now, false, 0), data);
    Repository.Change(reviews + [item], item)
  }

  function Update(reviews: seq<Review>, id: nat, data: ReviewPatch): (r: Result<Repository.Change<Review>>)
    ensures r.Failure? <==> forall k :: 0 <= k < |reviews| ==> reviews[k].id != id
    ensures r.Failure? ==> r.error == NotFound
    ensures r.Success? ==> |r.value.table| == |reviews|
    ensures r.Success? ==>
      exists i :: 0 <= i < |reviews| && reviews[i].id == id
        && r.value.table[i] == Merge(reviews[i], data) && r.value.item == Merge(reviews[i], data)
        && (forall k :: 0 <= k < |reviews| && k != i ==> r.value.table[k] == reviews[k])
  {
    var r := Repository.UpdateById(reviews, IdOf, id, v => Merge(v, data), NotFound);
    if r.Success? then
      var i := Repository.IndexOf(reviews, IdOf, id).value;
      assert reviews[i].id == id && r.value.table[i] == Merge(reviews[i], data);
      r
    else r
  }

  /** One more helpful vote on a review, and nothing else about it changes. */
  function AddVote(r: Review): (v: Review)
    ensures v.helpfulVotes == r.helpfulVotes + 1
    ensures v.(helpfulVotes := r.helpfulVotes) == r
  {
    r.(helpfulVotes := r.helpfulVotes + 1)
  }

  /** `voteHelpful`: the first review with that id gains one helpful vote. */
  function VoteHelpful(reviews: seq<Review>, id: nat): (r: Result<Repository.Change<Review>>)
    ensures r.Failure? <==> forall k :: 0 <= k < |reviews| ==> reviews[k].id != id
    ensures r.Failure? ==> r.error == NotFound
    ensures r.Success? ==> |r.value.table| == |reviews|
    ensures r.Success? ==>
      exists i :: 0 <= i < |reviews| && reviews[i].id == id
        && r.value.table[i] == AddVote(reviews[i]) && r.value.item == r.value.table[i]
        && (forall k :: 0 <= k < |reviews| && k != i ==> r.value.table[k] == reviews[k])
  {
    var r := Repository.UpdateById(reviews, IdOf, id, AddVote, NotFound);
    if r.Success? then
      var i := Repository.IndexOf(reviews, IdOf, id).value;
      assert reviews[i].id == id && r.value.table[i] == AddVote(reviews[i]);
      r
    else r
  }

  function Delete(reviews: seq<Review>, id: nat): (r: Result<Repository.Change<Review>>)
    ensures r.Failure? <==> forall k :: 0 <= k < |reviews| ==> reviews[k].id != id
    ensures r.Failure? ==> r.error == NotFound
    ensures r.Success? ==> |r.value.table| == |reviews| - 1
    ensures r.Success? ==>
      exists i :: 0 <= i < |reviews| && reviews[i].id == id
        && r.value.item == reviews[i] && r.value.table == reviews[..i] + reviews[i + 1..]
  {
    var r := Repository.DeleteById(reviews, IdOf, id, NotFound);
    if r.Success? then
      var i := Repository.IndexOf(reviews, IdOf, id).value;
      assert reviews[i].id == id;
      r
    else r
  }

  /** Total helpful votes over a table. */
  function TotalVotes(reviews: seq<Review>): nat {
    if |reviews| == 0 then 0 else reviews[0].helpfulVotes + TotalVotes(reviews[1..])
  }

  /** A successful vote adds exactly one vote to the table. */
  lemma VoteAddsOne(reviews: seq<Review>, id: nat)
    requires VoteHelpful(reviews, id).Success?
    ensures TotalVotes(VoteHelpful(reviews, id).value.table) == TotalVotes(reviews) + 1
  {
    var i := Repository.IndexOf(reviews, IdOf, id).value;
    TotalVotesOfUpdate(reviews, i, AddVote(reviews[i]));
  }

  lemma {:induction false} TotalVotesOfUpdate(reviews: seq<Review>, i: nat, v: Review)
    requires i < |reviews|
    ensures TotalVotes(reviews[i := v]) == TotalVotes(reviews) - reviews[i].helpfulVotes + v.helpfulVotes
  {
    if i > 0 {
      TotalVotesOfUpdate(reviews[1..], i - 1, v);
      assert reviews[i := v][1..] == reviews[1..][i - 1 := v];
    } else {
      assert reviews[i := v][1..] == reviews[1..];
    }
  }

  /** A review created for a product is listed among that product's reviews. */
  lemma CreatedReviewIsListed(reviews: seq<Review>, data: ReviewPatch, now: string,
                              productId: nat, time: Review -> real)
    requires |reviews| > 0
    requires data.productId == Some(Text.DecimalString(productId))
    ensures Create(reviews, data, now).item
      in GetByProductId(Create(reviews, data, now).table, productId, time)
  {
    var c := Create(reviews, data, now);
    assert c.item == c.table[|reviews|];
  }

  /** With unique ids, a deleted review can no longer be looked up. */
  lemma DeleteThenGet(reviews: seq<Review>, id: nat)
    requires Repository.UniqueIds(reviews, IdOf)
    requires Delete(reviews, id).Success?
    ensures GetById(Delete(reviews, id).value.table, id) == Failure(NotFound)
  {
    Repository.DeleteKeepsUnique(reviews, IdOf, id, NotFound);
  }
}
