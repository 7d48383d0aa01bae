/**
 * The candidate strategies of the recommendation engine and the trending fallback. The
 * catalog, the orders, the cart, the wishlist and the browsing history are parameters
 * rather than module state or browser storage.
 */
module Strategies {
  import opened Wrappers
  import opened Seqs
  import opened StableSort
  import opened Catalog
  import opened SimilarityScorer
  import opened Orders
  import opened CoOccurrence
  import opened CandidateMap

  /** Neighbours per cart or wishlist entry. */
  const CartNeighbours: nat := 5
  /** Neighbours per purchased or recently viewed product. */
  const HistoryNeighbours: nat := 3
  /** How many of the most recent views feed the browsing strategy. */
  const RecentViews: nat := 5

  /** A cart line as the engine reads it: only the embedded product matters here. */
  datatype CartEntry = CartEntry(productId: nat, quantity: int, product: Product)

  // ---------------------------------------------------------------- content-based

  /** The products content-based filtering may offer for `src`: others, in stock. */
  function NeighbourPool(catalog: seq<Product>, src: Product): (r: seq<Product>)
    ensures forall p :: p in r <==> p in catalog && p.id != src.id && InStock(p)
    ensures multiset(r) <= multiset(catalog)
  {
    Filter(catalog, Eligible(src))
  }

  /** Another product than `src`, in stock. */
  function Eligible(src: Product): Product -> bool {
    (p: Product) => p.id != src.id && InStock(p)
  }

  function SimilarityKey(src: Product): Product -> real {
    p => Similarity(src, p) as real
  }

  /**
   * `contentBasedRecommendations`: the `limit` products most similar to the product with
   * that id (stable on ties), or nothing when the id is unknown.
   */
  function ContentBased(catalog: seq<Product>, id: nat, limit: nat): (r: seq<Product>)
    ensures |r| <= limit
    ensures forall p :: p in r ==> p in catalog && p.id != id && InStock(p)
    ensures Find(catalog, id).None? ==> r == []
    ensures Find(catalog, id).Some? ==> var src := Find(catalog, id).value;
      forall i, j :: 0 <= i < j < |r| ==> Similarity(src, r[i]) >= Similarity(src, r[j])
    ensures UniqueIds(catalog) ==> UniqueIds(r)
  {
    match Find(catalog, id)
    case None => []
    case Some(src) =>
      ContentTop(catalog, src, limit);
      Take(SortDesc(NeighbourPool(catalog, src), SimilarityKey(src)), limit)
  }

  /** The cut of the similarity-ordered pool: most similar first, from the pool only. */
  lemma ContentTop(catalog: seq<Product>, src: Product, limit: nat)
    ensures var r := Take(SortDesc(NeighbourPool(catalog, src), SimilarityKey(src)), limit);
      && (forall p :: p in r ==> p in catalog && p.id != src.id && InStock(p))
      && (forall i, j :: 0 <= i < j < |r| ==> Similarity(src, r[i]) >= Similarity(src, r[j]))
      && (UniqueIds(catalog) ==> UniqueIds(r))
  {
    var sorted := SortDesc(NeighbourPool(catalog, src), SimilarityKey(src));
    var r := Take(sorted, limit);
    TakeSorted(sorted, limit, SimilarityKey(src));
    TakeMembers(sorted, limit);
    forall i, j | 0 <= i < j < |r| ensures Similarity(src, r[i]) >= Similarity(src, r[j]) {
      assert SimilarityKey(src)(r[i]) >= SimilarityKey(src)(r[j]);
    }
    if UniqueIds(catalog) {
      UniqueIdsOfSubmultiset(r, catalog);
    }
  }

  /**
   * Content-based filtering returns the top of the pool: a qualifying product is left out
   * only when the list is full and it scores no higher than anything listed.
   */
  lemma ContentBasedTopK(catalog: seq<Product>, id: nat, limit: nat, p: Product)
    requires Find(catalog, id).Some?
    requires p in catalog && p.id != id && InStock(p)
    requires p !in ContentBased(catalog, id, limit)
    ensures |ContentBased(catalog, id, limit)| == limit
    ensures forall q :: q in ContentBased(catalog, id, limit) ==>
      Similarity(Find(catalog, id).value, q) >= Similarity(Find(catalog, id).value, p)
  {
    var src := Find(catalog, id).value;
    var sorted := SortDesc(NeighbourPool(catalog, src), SimilarityKey(src));
    assert ContentBased(catalog, id, limit) == Take(sorted, limit);
    TakeOfSortedIsTop(sorted, limit, SimilarityKey(src), p);
  }

  // ---------------------------------------------------------------- collaborative

  /** `ids.map(id => find(id)).filter(Boolean).filter(p => p.stock > 0)`. */
  function ResolveInStock(catalog: seq<Product>, ids: seq<nat>): (r: seq<Product>)
    ensures |r| <= |ids|
    ensures forall p :: p in r ==> p in catalog && InStock(p) && p.id in ids
    ensures forall p :: p in r ==> Find(catalog, p.id) == Some(p)
    ensures forall k :: k in ids && Find(catalog, k).Some? && InStock(Find(catalog, k).value) ==>
      Find(catalog, k).value in r
    ensures Subseq(Ids(r), ids)
  {
    if |ids| == 0 then []
    else
      var rest := ResolveInStock(catalog, ids[1..]);
      SubseqSkip(Ids(rest), ids);
      var found := Find(catalog, ids[0]);
      if found.Some? && InStock(found.value) then
        var r := [found.value] + rest;
        assert Ids(r) == [ids[0]] + Ids(rest);
        SubseqKeep(Ids(r), ids);
        ResolveStep(catalog, ids, rest, r);
        r
      else
        ResolveStep(catalog, ids, rest, rest);
        rest
  }

  /**
   * One step of `ResolveInStock`: `rest` resolves the tail, and `r` adds the head's product
   * in front when it exists and is in stock.
   */
  lemma ResolveStep(catalog: seq<Product>, ids: seq<nat>, rest: seq<Product>, r: seq<Product>)
    requires |ids| > 0
    requires forall p :: p in rest ==> p in catalog && InStock(p) && p.id in ids[1..] && Find(catalog, p.id) == Some(p)
    requires forall k :: k in ids[1..] && Find(catalog, k).Some? && InStock(Find(catalog, k).value) ==>
      Find(catalog, k).value in rest
    requires var found := Find(catalog, ids[0]);
      if found.Some? && InStock(found.value) then r == [found.value] + rest else r == rest
    ensures forall p :: p in r ==> p in catalog && InStock(p) && p.id in ids && Find(catalog, p.id) == Some(p)
    ensures forall k :: k in ids && Find(catalog, k).Some? && InStock(Find(catalog, k).value) ==>
      Find(catalog, k).value in r
  {
    forall p | p in rest ensures p.id in ids {
      var i :| 0 <= i < |ids[1..]| && ids[1..][i] == p.id;
      assert ids[i + 1] == p.id;
    }
    forall k | k in ids && Find(catalog, k).Some? && InStock(Find(catalog, k).value)
      ensures Find(catalog, k).value in r
    {
      if k != ids[0] {
        var i :| 0 <= i < |ids| && ids[i] == k;
        assert ids[1..][i - 1] == k;
      }
    }
  }

  /**
   * `collaborativeFiltering`: in-stock catalog products among the first `limit` ids bought
   * together with `id`, in co-occurrence order.
   */
  function Collaborative(catalog: seq<Product>, orders: seq<Order>, id: nat, limit: nat)
    : (r: seq<Product>)
    ensures |r| <= limit
    ensures forall p :: p in r ==> p in catalog && InStock(p) && p.id != id
    ensures forall p :: p in r ==> CoCount(orders, id, p.id) > 0
    ensures UniqueIds(r)
    ensures forall i, j :: 0 <= i < j < |r| ==>
      CoCount(orders, id, r[i].id) >= CoCount(orders, id, r[j].id)
    ensures forall k :: k in Take(FrequentlyBoughtTogether(orders, id), limit) ==>
      Find(catalog, k).Some? && InStock(Find(catalog, k).value) ==> Find(catalog, k).value in r
  {
    var ids := Take(FrequentlyBoughtTogether(orders, id), limit);
    PartnerIds(orders, id, limit);
    ResolvedInOrder(catalog, ids, CoRank(orders, id));
    ResolveInStock(catalog, ids)
  }

  /** The co-occurrence count as a sort key. */
  function CoKey(orders: seq<Order>, id: nat): nat -> real {
    (k: nat) => CoCount(orders, id, k) as real
  }

  /**
   * An in-stock partner of `id` that collaborative filtering leaves out was cut with the id
   * list: the first `limit` partners were taken, and each product offered was bought with
   * `id` at least as often.
   */
  lemma CollaborativeTopK(catalog: seq<Product>, orders: seq<Order>, id: nat, limit: nat, k: nat)
    requires CoCount(orders, id, k) > 0
    requires Find(catalog, k).Some? && InStock(Find(catalog, k).value)
    requires Find(catalog, k).value !in Collaborative(catalog, orders, id, limit)
    ensures |Take(FrequentlyBoughtTogether(orders, id), limit)| == limit
    ensures forall q :: q in Collaborative(catalog, orders, id, limit) ==>
      CoCount(orders, id, q.id) >= CoCount(orders, id, k)
  {
    var all := FrequentlyBoughtTogether(orders, id);
    var ids := Take(all, limit);
    assert SortedDesc(all, CoKey(orders, id)) by {
      forall i, j | 0 <= i < j < |all| ensures CoKey(orders, id)(all[i]) >= CoKey(orders, id)(all[j]) {
      }
    }
    TakeOfSortedIsTop(all, limit, CoKey(orders, id), k);
    forall q | q in Collaborative(catalog, orders, id, limit)
      ensures CoCount(orders, id, q.id) >= CoCount(orders, id, k)
    {
      assert q.id in ids;
      assert CoKey(orders, id)(q.id) >= CoKey(orders, id)(k);
    }
  }

  /** How often a product was bought together with `id`. */
  function CoRank(orders: seq<Order>, id: nat): nat -> nat {
    k => CoCount(orders, id, k)
  }

  /** The first `limit` partners: distinct, not `id`, bought with it, most frequent first. */
  lemma PartnerIds(orders: seq<Order>, id: nat, limit: nat)
    ensures var ids := Take(FrequentlyBoughtTogether(orders, id), limit);
      && NoDup(ids)
      && (forall k :: k in ids ==> k != id && CoCount(orders, id, k) > 0)
      && (forall i, j :: 0 <= i < j < |ids| ==> CoRank(orders, id)(ids[i]) >= CoRank(orders, id)(ids[j]))
  {
    var all := FrequentlyBoughtTogether(orders, id);
    var ids := Take(all, limit);
    TakeMembers(all, limit);
    forall i, j | 0 <= i < j < |ids|
      ensures ids[i] != ids[j] && CoRank(orders, id)(ids[i]) >= CoRank(orders, id)(ids[j])
    {
      assert ids[i] == all[i] && ids[j] == all[j];
    }
  }

  /** Resolving a duplicate-free id list ordered by `rank` keeps both properties. */
  lemma ResolvedInOrder(catalog: seq<Product>, ids: seq<nat>, rank: nat -> nat)
    requires NoDup(ids)
    requires forall i, j :: 0 <= i < j < |ids| ==> rank(ids[i]) >= rank(ids[j])
    ensures var r := ResolveInStock(catalog, ids);
      UniqueIds(r) && forall i, j :: 0 <= i < j < |r| ==> rank(r[i].id) >= rank(r[j].id)
  {
    var r := ResolveInStock(catalog, ids);
    var rids := Ids(r);
    SubseqNoDup(rids, ids);
    var le := (a: nat, b: nat) => rank(a) >= rank(b);
    SubseqOrdered(rids, ids, le);
    forall i, j | 0 <= i < j < |r| ensures r[i].id != r[j].id && rank(r[i].id) >= rank(r[j].id) {
      assert rids[i] == r[i].id && rids[j] == r[j].id;
      assert le(rids[i], rids[j]);
    }
  }

  // ---------------------------------------------------------------- trending

  /** The products trending may offer: in stock and not excluded. */
  function TrendingPool(catalog: seq<Product>, exclude: seq<nat>): (r: seq<Product>)
    ensures forall p :: p in r <==> p in catalog && InStock(p) && p.id !in exclude
    ensures multiset(r) <= multiset(catalog)
  {
    Filter(catalog, (p: Product) => InStock(p) && p.id !in exclude)
  }

  /**
   * `getTrendingProducts`: the eligible products by non-increasing trend score, at most
   * `limit` of them. `trend` stands for `rating * Math.log(reviewCount + 1)`.
   */
  function Trending(catalog: seq<Product>, trend: Product -> real, limit: nat, exclude: seq<nat>)
    : (r: seq<Product>)
    ensures |r| == if limit < |TrendingPool(catalog, exclude)| then limit else |TrendingPool(catalog, exclude)|
    ensures forall p :: p in r ==> p in catalog && InStock(p) && p.id !in exclude
    ensures SortedDesc(r, trend)
    ensures UniqueIds(catalog) ==> UniqueIds(r)
  {
    var sorted := SortDesc(TrendingPool(catalog, exclude), trend);
    var r := Take(sorted, limit);
    TakeSorted(sorted, limit, trend);
    TakeMembers(sorted, limit);
    if UniqueIds(catalog) then
      UniqueIdsOfSubmultiset(r, catalog);
      r
    else r
  }

  /** An eligible product missing from the trending list ranks no higher than every listed one. */
  lemma TrendingTopK(catalog: seq<Product>, trend: Product -> real, limit: nat, exclude: seq<nat>, p: Product)
    requires p in catalog && InStock(p) && p.id !in exclude
    requires p !in Trending(catalog, trend, limit, exclude)
    ensures |Trending(catalog, trend, limit, exclude)| == limit
    ensures forall q :: q in Trending(catalog, trend, limit, exclude) ==> trend(q) >= trend(p)
  {
    var sorted := SortDesc(TrendingPool(catalog, exclude), trend);
    TakeOfSortedIsTop(sorted, limit, trend, p);
  }

  /** A trending list shorter than asked for holds every eligible product. */
  lemma TrendingExhausts(catalog: seq<Product>, trend: Product -> real, limit: nat, exclude: seq<nat>)
    ensures |Trending(catalog, trend, limit, exclude)| < limit ==>
      forall p :: p in catalog && InStock(p) && p.id !in exclude ==> p in Trending(catalog, trend, limit, exclude)
  {
    var sorted := SortDesc(TrendingPool(catalog, exclude), trend);
    assert Trending(catalog, trend, limit, exclude) == Take(sorted, limit);
  }

  // ---------------------------------------------------------------- cart, wishlist, browsing

  /**
   * For each source id in turn, its `k` content-based neighbours whose ids are not
   * excluded are put into the id-keyed map `acc`.
   */
  function Neighbours(catalog: seq<Product>, acc: seq<Product>, sources: seq<nat>, k: nat, exclude: seq<nat>)
    : (r: seq<Product>)
    ensures forall p :: p in r ==> p in acc || (p in catalog && InStock(p) && p.id !in exclude)
    ensures UniqueIds(acc) ==> UniqueIds(r)
    ensures forall id :: id in Ids(acc) ==> id in Ids(r)
    ensures forall s, p :: s in sources && p in ContentBased(catalog, s, k) && p.id !in exclude ==> p.id in Ids(r)
    ensures forall p :: p in r ==> p in acc || NeighbourOf(catalog, sources, k, exclude, p)
    decreases |sources|
  {
    if |sources| == 0 then acc
    else
      var kept := Filter(ContentBased(catalog, sources[0], k), (p: Product) => p.id !in exclude);
      var next := PutAll(acc, kept);
      var r := Neighbours(catalog, next, sources[1..], k, exclude);
      forall p | p in ContentBased(catalog, sources[0], k) && p.id !in exclude ensures p.id in Ids(r) {
        IdsOfMember(kept, p);
      }
      NeighbourOfTail(catalog, sources, k, exclude);
      r
  }

  /** `p` is one of the `k` content-based neighbours of some source. */
  predicate Neighbour(catalog: seq<Product>, sources: seq<nat>, k: nat, p: Product) {
    exists s :: s in sources && p in ContentBased(catalog, s, k)
  }

  /** `p` is one of the `k` neighbours of some source and is not excluded. */
  predicate NeighbourOf(catalog: seq<Product>, sources: seq<nat>, k: nat, exclude: seq<nat>, p: Product) {
    p.id !in exclude && Neighbour(catalog, sources, k, p)
  }

  /** A neighbour of the first source, or of a later one, is a neighbour of the list. */
  lemma NeighbourOfTail(catalog: seq<Product>, sources: seq<nat>, k: nat, exclude: seq<nat>)
    requires |sources| > 0
    ensures forall p :: Neighbour(catalog, sources[1..], k, p) ==> Neighbour(catalog, sources, k, p)
    ensures forall p :: p in ContentBased(catalog, sources[0], k) ==> Neighbour(catalog, sources, k, p)
  {
    forall p | Neighbour(catalog, sources[1..], k, p) ensures Neighbour(catalog, sources, k, p) {
      var s :| s in sources[1..] && p in ContentBased(catalog, s, k);
      assert s in sources;
    }
    forall p | p in ContentBased(catalog, sources[0], k) ensures Neighbour(catalog, sources, k, p) {
      assert sources[0] in sources;
    }
  }

  /**
   * The first `limit` neighbours collected from an empty map: each is a neighbour of a source,
   * and when fewer than `limit` are listed, every neighbour of every source is among them.
   */
  lemma NeighbourCut(catalog: seq<Product>, sources: seq<nat>, k: nat, exclude: seq<nat>, limit: nat)
    ensures var r := Take(Neighbours(catalog, [], sources, k, exclude), limit);
      && |r| <= limit
      && UniqueIds(r)
      && (forall p :: p in r ==> p in catalog && InStock(p) && NeighbourOf(catalog, sources, k, exclude, p))
      && (|r| < limit ==> forall s, p :: s in sources && p in ContentBased(catalog, s, k) && p.id !in exclude ==> p.id in Ids(r))
  {
    var nb := Neighbours(catalog, [], sources, k, exclude);
    TakeKeepsUnique(nb, limit);
  }

  function CartIds(cart: seq<CartEntry>): (r: seq<nat>)
    ensures |r| == |cart|
    ensures forall i :: 0 <= i < |cart| ==> r[i] == cart[i].product.id
  {
    seq(|cart|, i requires 0 <= i < |cart| => cart[i].product.id)
  }

  /** `getCartBasedRecommendations`: neighbours of the cart's products not already in the cart. */
  function CartBased(catalog: seq<Product>, cart: seq<CartEntry>, limit: nat): (r: seq<Product>)
    ensures |r| <= limit
    ensures UniqueIds(r)
    ensures forall p :: p in r ==> p in catalog && InStock(p) && p.id !in CartIds(cart)
    ensures forall p :: p in r ==> exists s :: s in CartIds(cart) && p in ContentBased(catalog, s, CartNeighbours)
    ensures |r| < limit ==>
      forall s, p :: s in CartIds(cart) && p in ContentBased(catalog, s, CartNeighbours) && p.id !in CartIds(cart) ==> p.id in Ids(r)
    ensures |cart| == 0 ==> r == []
  {
    if |cart| == 0 then []
    else
      NeighbourCut(catalog, CartIds(cart), CartNeighbours, CartIds(cart), limit);
      Take(Neighbours(catalog, [], CartIds(cart), CartNeighbours, CartIds(cart)), limit)
  }

  /** `getWishlistBasedRecommendations`: neighbours of wished products not already wished. */
  function WishlistBased(catalog: seq<Product>, wishlist: seq<nat>, limit: nat): (r: seq<Product>)
    ensures |r| <= limit
    ensures UniqueIds(r)
    ensures forall p :: p in r ==> p in catalog && InStock(p) && p.id !in wishlist
    ensures forall p :: p in r ==> exists s :: s in wishlist && p in ContentBased(catalog, s, CartNeighbours)
    ensures |r| < limit ==>
      forall s, p :: s in wishlist && p in ContentBased(catalog, s, CartNeighbours) && p.id !in wishlist ==> p.id in Ids(r)
    ensures |wishlist| == 0 ==> r == []
  {
    if |wishlist| == 0 then []
    else
      NeighbourCut(catalog, wishlist, CartNeighbours, wishlist, limit);
      Take(Neighbours(catalog, [], wishlist, CartNeighbours, wishlist), limit)
  }

  /**
   * `getBrowsingHistoryRecommendations`: neighbours of the five most recent views, leaving
   * out everything in the history.
   */
  function BrowsingBased(catalog: seq<Product>, history: seq<nat>, limit: nat): (r: seq<Product>)
    ensures |r| <= limit
    ensures UniqueIds(r)
    ensures forall p :: p in r ==> p in catalog && InStock(p) && p.id !in history
    ensures forall p :: p in r ==> exists s :: s in Take(history, RecentViews) && p in ContentBased(catalog, s, HistoryNeighbours)
    ensures |r| < limit ==>
      forall s, p :: s in Take(history, RecentViews) && p in ContentBased(catalog, s, HistoryNeighbours) && p.id !in history ==> p.id in Ids(r)
    ensures |history| == 0 ==> r == []
  {
    if |history| == 0 then []
    else
      NeighbourCut(catalog, Take(history, RecentViews), HistoryNeighbours, history, limit);
      Take(Neighbours(catalog, [], Take(history, RecentViews), HistoryNeighbours, history), limit)
  }

  // ---------------------------------------------------------------- purchase history

  /**
   * For each source id in turn, each of its `k` content-based neighbours whose id is not
   * excluded gains one vote.
   */
  function Votes(catalog: seq<Product>, acc: seq<Candidate>, sources: seq<nat>, k: nat, excluded: nat -> bool)
    : (r: seq<Candidate>)
    ensures forall c :: c in r ==> c in acc || (c.product in catalog && InStock(c.product) && !excluded(c.product.id))
    ensures UniqueIds(Products(acc)) ==> UniqueIds(Products(r))
    ensures forall c :: c in r ==> c in acc || Neighbour(catalog, sources, k, c.product)
    decreases |sources|
  {
    if |sources| == 0 then acc
    else
      var kept := Filter(ContentBased(catalog, sources[0], k), (p: Product) => !excluded(p.id));
      NeighbourOfTail(catalog, sources, k, []);
      Votes(catalog, BumpAll(acc, kept, 1.0), sources[1..], k, excluded)
  }

  /** Reference count: how many sources list a product with this id among their `k` neighbours. */
  function VoteCount(catalog: seq<Product>, sources: seq<nat>, k: nat, id: nat): nat {
    if |sources| == 0 then 0
    else (if id in Ids(ContentBased(catalog, sources[0], k)) then 1 else 0) + VoteCount(catalog, sources[1..], k, id)
  }

  /** A neighbour of some source has at least one vote. */
  lemma {:induction false} NeighbourIsVoted(catalog: seq<Product>, sources: seq<nat>, k: nat, p: Product)
    requires Neighbour(catalog, sources, k, p)
    ensures VoteCount(catalog, sources, k, p.id) > 0
    decreases |sources|
  {
    var s :| s in sources && p in ContentBased(catalog, s, k);
    var head := ContentBased(catalog, sources[0], k);
    var rest := VoteCount(catalog, sources[1..], k, p.id);
    assert VoteCount(catalog, sources, k, p.id) == (if p.id in Ids(head) then 1 else 0) + rest;
    if s == sources[0] {
      IdsOfMember(head, p);
    } else {
      assert s in sources[1..];
      NeighbourIsVoted(catalog, sources[1..], k, p);
    }
  }

  /** The accumulated score of a candidate is its vote count (for ids that are not excluded). */
  lemma {:induction false} VotesScore(catalog: seq<Product>, acc: seq<Candidate>, sources: seq<nat>, k: nat, excluded: nat -> bool, id: nat)
    requires UniqueIds(catalog)
    ensures ScoreOf(Votes(catalog, acc, sources, k, excluded), id)
      == ScoreOf(acc, id) + (if excluded(id) then 0.0 else VoteCount(catalog, sources, k, id) as real)
    decreases |sources|
  {
    if |sources| > 0 {
      var nb := ContentBased(catalog, sources[0], k);
      var kept := Filter(nb, (p: Product) => !excluded(p.id));
      UniqueIdsOfSubmultiset(kept, catalog);
      BumpAllScore(acc, kept, 1.0, id);
      VotesScore(catalog, BumpAll(acc, kept, 1.0), sources[1..], k, excluded, id);
      InIds(kept, id);
      InIds(nb, id);
    }
  }

  /** The purchase-history pipeline, parameterised by the exclusion test it applies. */
  function PurchaseRanking(catalog: seq<Product>, purchased: seq<nat>, excluded: nat -> bool, limit: nat)
    : (r: seq<Product>)
    ensures |r| <= limit
    ensures forall p :: p in r ==> p in catalog && InStock(p) && !excluded(p.id)
    ensures forall p :: p in r ==> Neighbour(catalog, purchased, HistoryNeighbours, p)
    ensures forall p :: p in r ==> VoteCount(catalog, purchased, HistoryNeighbours, p.id) > 0
    ensures UniqueIds(r)
  {
    if |purchased| == 0 then []
    else
      var ranked := Ranked(Votes(catalog, [], purchased, HistoryNeighbours, excluded));
      VotedProducts(catalog, purchased, excluded);
      TakeKeepsUnique(ranked, limit);
      Take(ranked, limit)
  }

  /** The ranked voting result holds distinct, eligible catalog products. */
  lemma VotedProducts(catalog: seq<Product>, purchased: seq<nat>, excluded: nat -> bool)
    ensures var ranked := Ranked(Votes(catalog, [], purchased, HistoryNeighbours, excluded));
      && UniqueIds(ranked)
      && (forall p :: p in ranked ==>
            && p in catalog && InStock(p) && !excluded(p.id)
            && Neighbour(catalog, purchased, HistoryNeighbours, p)
            && VoteCount(catalog, purchased, HistoryNeighbours, p.id) > 0)
  {
    var cs := Votes(catalog, [], purchased, HistoryNeighbours, excluded);
    var ranked := Ranked(cs);
    forall p | p in ranked
      ensures p in catalog && InStock(p) && !excluded(p.id) && Neighbour(catalog, purchased, HistoryNeighbours, p)
    {
      var i :| 0 <= i < |cs| && Products(cs)[i] == p;
      assert cs[i] in cs;
    }
    forall p | p in ranked ensures VoteCount(catalog, purchased, HistoryNeighbours, p.id) > 0 {
      NeighbourIsVoted(catalog, purchased, HistoryNeighbours, p);
    }
  }

  /**
   * `getPurchaseHistoryRecommendations`: neighbours of every purchased product, ranked by how
   * many purchased products list them, never a product that was already purchased.
   */
  function PurchaseBased(catalog: seq<Product>, orders: seq<Order>, limit: nat): (r: seq<Product>)
    ensures |r| <= limit
    ensures UniqueIds(r)
    ensures forall p :: p in r ==> p in catalog && InStock(p) && p.id !in PurchasedIds(orders)
    ensures forall p :: p in r ==> exists s :: s in PurchasedIds(orders) && p in ContentBased(catalog, s, HistoryNeighbours)
    ensures forall p :: p in r ==> VoteCount(catalog, PurchasedIds(orders), HistoryNeighbours, p.id) > 0
    ensures PurchasedIds(orders) == [] ==> r == []
  {
    var purchased := PurchasedIds(orders);
    PurchaseRanking(catalog, purchased, AlreadyBought(purchased), limit)
  }

  /** The corrected exclusion test: the id is among the purchased ids. */
  function AlreadyBought(purchased: seq<nat>): nat -> bool {
    (id: nat) => id in purchased
  }

  /** Any prefix of the ranked voting result is ordered by non-increasing vote count. */
  lemma RankedByVotes(catalog: seq<Product>, purchased: seq<nat>, excluded: nat -> bool, limit: nat)
    requires UniqueIds(catalog)
    ensures var r := Take(Ranked(Votes(catalog, [], purchased, HistoryNeighbours, excluded)), limit);
      forall i, j :: 0 <= i < j < |r| ==>
        VoteCount(catalog, purchased, HistoryNeighbours, r[i].id)
        >= VoteCount(catalog, purchased, HistoryNeighbours, r[j].id)
  {
    var cs := Votes(catalog, [], purchased, HistoryNeighbours, excluded);
    var ranked := Ranked(cs);
    var r := Take(ranked, limit);
    VotedProducts(catalog, purchased, excluded);
    RankedByScore(cs);
    forall i | 0 <= i < |ranked|
      ensures ScoreOf(cs, ranked[i].id) == VoteCount(catalog, purchased, HistoryNeighbours, ranked[i].id) as real
    {
      assert ranked[i] in ranked;
      VotesScore(catalog, [], purchased, HistoryNeighbours, excluded, ranked[i].id);
    }
    forall i, j | 0 <= i < j < |r|
      ensures VoteCount(catalog, purchased, HistoryNeighbours, r[i].id)
        >= VoteCount(catalog, purchased, HistoryNeighbours, r[j].id)
    {
      assert r[i] == ranked[i] && r[j] == ranked[j];
    }
  }

  /**
   * A product bought with none of the orders but voted for by a purchase is left out of the
   * purchase-history list only when the list is full of products with at least its votes.
   */
  lemma PurchaseBasedTopK(catalog: seq<Product>, orders: seq<Order>, limit: nat, p: Product)
    requires UniqueIds(catalog) && p in catalog && p.id !in PurchasedIds(orders)
    requires VoteCount(catalog, PurchasedIds(orders), HistoryNeighbours, p.id) > 0
    requires p !in PurchaseBased(catalog, orders, limit)
    ensures |PurchaseBased(catalog, orders, limit)| == limit
    ensures forall q :: q in PurchaseBased(catalog, orders, limit) ==>
      VoteCount(catalog, PurchasedIds(orders), HistoryNeighbours, q.id)
      >= VoteCount(catalog, PurchasedIds(orders), HistoryNeighbours, p.id)
  {
    var purchased := PurchasedIds(orders);
    var excluded := AlreadyBought(purchased);
    var cs := Votes(catalog, [], purchased, HistoryNeighbours, excluded);
    var ranked := Ranked(cs);
    PurchaseRankingUnfold(catalog, purchased, excluded, limit);
    VotesScore(catalog, [], purchased, HistoryNeighbours, excluded, p.id);
    assert p in ranked by {
      if p.id !in Ids(Products(cs)) {
        ScoreOfAbsent(cs, p.id);
      }
      var i := IndexOfId(Products(cs), p.id);
      assert cs[i] in cs;
      SameIdSameProduct(catalog, cs[i].product, p);
      assert Products(cs)[i] == p;
    }
    RankedSorted(cs);
    TakeOfSortedIsTop(ranked, limit, ScoreIn(cs), p);
    VotedProducts(catalog, purchased, excluded);
    forall q | q in PurchaseBased(catalog, orders, limit)
      ensures VoteCount(catalog, purchased, HistoryNeighbours, q.id) >= VoteCount(catalog, purchased, HistoryNeighbours, p.id)
    {
      assert ScoreIn(cs)(q) >= ScoreIn(cs)(p);
      VotesScore(catalog, [], purchased, HistoryNeighbours, excluded, q.id);
    }
  }

  /** Purchase-history results are ordered by non-increasing vote count. */
  lemma PurchaseBasedRanking(catalog: seq<Product>, orders: seq<Order>, limit: nat)
    requires UniqueIds(catalog)
    ensures var purchased := PurchasedIds(orders);
      var r := PurchaseBased(catalog, orders, limit);
      forall i, j :: 0 <= i < j < |r| ==>
        VoteCount(catalog, purchased, HistoryNeighbours, r[i].id)
        >= VoteCount(catalog, purchased, HistoryNeighbours, r[j].id)
  {
    var purchased := PurchasedIds(orders);
    if |purchased| > 0 {
      PurchaseRankingUnfold(catalog, purchased, AlreadyBought(purchased), limit);
      RankedByVotes(catalog, purchased, AlreadyBought(purchased), limit);
    }
  }

  // ---------------------------------------------------------------- the source as written

  /** A JavaScript value as `Array.prototype.includes` compares it (SameValueZero). */
  datatype JsValue = JsNumber(n: nat) | JsString(s: string)

  /**
   * The purchase-history strategy exactly as written: the purchased ids are numbers (the
   * checkout stores `product.Id`), and the test `purchasedIds.includes(product.Id.toString())`
   * looks for a string among them.
   */
  function PurchaseBasedAsWritten(catalog: seq<Product>, orders: seq<Order>, limit: nat): (r: seq<Product>)
    ensures |r| <= limit
    ensures UniqueIds(r)
    ensures forall p :: p in r ==> p in catalog && InStock(p)
    ensures forall p :: p in r ==> exists s :: s in PurchasedIds(orders) && p in ContentBased(catalog, s, HistoryNeighbours)
    ensures forall p :: p in r ==> VoteCount(catalog, PurchasedIds(orders), HistoryNeighbours, p.id) > 0
  {
    var purchased := PurchasedIds(orders);
    PurchaseRanking(catalog, purchased, ExclusionAsWritten(purchased), limit)
  }

  /** `id => purchasedIds.includes(id.toString())` over an array of numbers. */
  function ExclusionAsWritten(purchased: seq<nat>): nat -> bool {
    var held := seq(|purchased|, i requires 0 <= i < |purchased| => JsNumber(purchased[i]));
    (id: nat) => JsString(Text.DecimalString(id)) in held
  }

  /** The test as written excludes nothing: a string is never among numbers. */
  lemma ExclusionAsWrittenIsVacuous(purchased: seq<nat>, id: nat)
    ensures !ExclusionAsWritten(purchased)(id)
  {
    var held := seq(|purchased|, i requires 0 <= i < |purchased| => JsNumber(purchased[i]));
    assert forall v :: v in held ==> v.JsNumber?;
  }

  /** The one order of the counterexample purchases `a` and then `b`. */
  lemma PairPurchased(a: Product, b: Product, order: Order)
    requires a.id != b.id
    requires order.items == [OrderItem(a.id, 1, a.price), OrderItem(b.id, 1, b.price)]
    ensures PurchasedIds([order]) == [a.id, b.id]
  {
    assert ItemIds(order) == [a.id, b.id];
    assert AllItemIds([order]) == [a.id, b.id];
    var noIds: seq<nat> := [];
    assert [a.id, b.id][1..] == [b.id] && noIds + [a.id] == [a.id];
    assert DedupOnto(noIds, [a.id, b.id]) == DedupOnto([a.id], [b.id]);
    assert [b.id][1..] == noIds && [a.id] + [b.id] == [a.id, b.id];
    assert DedupOnto([a.id], [b.id]) == DedupOnto([a.id, b.id], noIds);
  }

  /** With `a` out of stock, `b` is the only neighbour of `a` and `b` has none. */
  lemma PairNeighbours(a: Product, b: Product)
    requires a.id != b.id && a.stock == 0 && b.stock > 0
    ensures ContentBased([a, b], a.id, HistoryNeighbours) == [b]
    ensures ContentBased([a, b], b.id, HistoryNeighbours) == []
  {
    FilterPair(a, b, Eligible(a));
    FilterPair(a, b, Eligible(b));
    assert SortDesc([b], SimilarityKey(a)) == [b];
    var none: seq<Product> := [];
    assert SortDesc(none, SimilarityKey(b)) == [];
  }

  /** When `b` is not excluded, buying `a` and `b` gives `b` exactly one vote. */
  lemma PairVotes(a: Product, b: Product, excluded: nat -> bool)
    requires a.id != b.id && a.stock == 0 && b.stock > 0 && !excluded(b.id)
    ensures Votes([a, b], [], [a.id, b.id], HistoryNeighbours, excluded) == [Candidate(b, 1.0)]
  {
    var catalog := [a, b];
    PairNeighbours(a, b);
    var kept := Filter([b], (p: Product) => !excluded(p.id));
    assert kept == [b];
    assert [a.id, b.id][1..] == [b.id];
    var noCandidates: seq<Candidate> := [];
    var noProducts: seq<Product> := [];
    assert Bump(noCandidates, b, 1.0) == [Candidate(b, 1.0)];
    assert [b][1..] == noProducts;
    var acc := BumpAll(noCandidates, kept, 1.0);
    assert acc == BumpAll([Candidate(b, 1.0)], noProducts, 1.0);
    var noIds: seq<nat> := [];
    assert [b.id][1..] == noIds;
    assert Filter([], (p: Product) => !excluded(p.id)) == [];
    assert Votes(catalog, acc, [b.id], HistoryNeighbours, excluded)
      == Votes(catalog, BumpAll(acc, [], 1.0), noIds, HistoryNeighbours, excluded);
  }

  /** A lone candidate ranks first. */
  lemma RankedSingle(b: Product, limit: nat)
    requires limit > 0
    ensures Take(Ranked([Candidate(b, 1.0)]), limit) == [b]
  {
    var cs := [Candidate(b, 1.0)];
    assert SortDesc(cs, ScoreKey) == cs;
  }

  /** `PurchaseRanking` with at least one purchase: vote, rank, cut. */
  lemma PurchaseRankingUnfold(catalog: seq<Product>, purchased: seq<nat>, excluded: nat -> bool, limit: nat)
    requires |purchased| > 0
    ensures PurchaseRanking(catalog, purchased, excluded, limit)
      == Take(Ranked(Votes(catalog, [], purchased, HistoryNeighbours, excluded)), limit)
  {
  }

  /**
   * The counterexample: one order holds an out-of-stock product `a` and an in-stock product
   * `b`. As written, `b` is recommended back although it was bought.
   */
  lemma PurchasedProductRecommendedBack(a: Product, b: Product, order: Order, limit: nat)
    requires a.id != b.id && a.stock == 0 && b.stock > 0 && limit > 0
    requires order.items == [OrderItem(a.id, 1, a.price), OrderItem(b.id, 1, b.price)]
    ensures PurchaseBasedAsWritten([a, b], [order], limit) == [b]
  {
    PairPurchased(a, b, order);
    var purchased := [a.id, b.id];
    ExclusionAsWrittenIsVacuous(purchased, b.id);
    PairVotes(a, b, ExclusionAsWritten(purchased));
    RankedSingle(b, limit);
    PurchaseRankingUnfold([a, b], purchased, ExclusionAsWritten(purchased), limit);
  }

  /** When every product is out of stock or already bought, nothing is recommended. */
  lemma NothingLeftToRecommend(catalog: seq<Product>, orders: seq<Order>, limit: nat)
    requires forall p :: p in catalog ==> !InStock(p) || p.id in PurchasedIds(orders)
    ensures PurchaseBased(catalog, orders, limit) == []
  {
    NoneQualifies(PurchaseBased(catalog, orders, limit), catalog, PurchasedIds(orders));
  }

  /** A list of in-stock catalog products outside `bought`, when no such product exists, is empty. */
  lemma NoneQualifies(r: seq<Product>, catalog: seq<Product>, bought: seq<nat>)
    requires forall p :: p in r ==> p in catalog && InStock(p) && p.id !in bought
    requires forall p :: p in catalog ==> !InStock(p) || p.id in bought
    ensures r == []
  {
    HeadIsMember(r);
  }

  /** On the same input the corrected strategy offers nothing: `a` is out of stock, `b` was bought. */
  lemma PurchasedProductNotRecommended(a: Product, b: Product, order: Order, limit: nat)
    requires a.id != b.id && a.stock == 0 && b.stock > 0
    requires order.items == [OrderItem(a.id, 1, a.price), OrderItem(b.id, 1, b.price)]
    ensures PurchaseBased([a, b], [order], limit) == []
  {
    PairPurchased(a, b, order);
    NothingLeftToRecommend([a, b], [order], limit);
  }
}
