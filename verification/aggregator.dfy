/**
 * The two hybrid recommenders: the personalised feed (cart, wishlist, purchases and browsing
 * combined by weight) and the similar-products panel of the product page (co-purchases and
 * content similarity). Both rank their candidates by accumulated weight and top the list up
 * with trending products when it is short.
 */
module Recommendations {
  import opened Seqs
  import opened StableSort
  import opened Catalog
  import opened Orders
  import opened CoOccurrence
  import opened CandidateMap
  import opened Strategies
  import opened BrowsingHistory

  /** Everything the recommenders read besides the catalog's trend scores. */
  datatype Shopper = Shopper(
    catalog: seq<Product>,
    orders: seq<Order>,
    cart: seq<CartEntry>,
    wishlist: seq<nat>,
    history: seq<nat>)

  /** Each strategy of the personalised feed is asked for eight products. */
  const StrategyLimit: nat := 8
  const CartWeight: real := 3.0
  const WishlistWeight: real := 2.5
  const PurchaseWeight: real := 2.0
  const BrowsingWeight: real := 1.5

  const CollaborativeLimit: nat := 4
  const CollaborativeWeight: real := 3.0
  const ContentLimit: nat := 6
  const ContentWeight: real := 2.0

  /** The weight a strategy contributes to a product: `w` when it offered it, else nothing. */
  function Weight(offered: bool, w: real): real {
    if offered then w else 0.0
  }

  // ---------------------------------------------------------------- topping up

  /**
   * `sorted.length < limit ? [...sorted, ...getTrendingProducts(limit - sorted.length,
   * exclude)] : sorted.slice(0, limit)`.
   */
  function TopUp(catalog: seq<Product>, trend: Product -> real, ranked: seq<Product>, exclude: seq<nat>, limit: nat)
    : (r: seq<Product>)
    ensures |r| <= limit
    ensures |ranked| >= limit ==> |r| == limit
    ensures |ranked| < limit ==>
      |r| == |ranked| + (if limit - |ranked| < |TrendingPool(catalog, exclude)| then limit - |ranked|
                         else |TrendingPool(catalog, exclude)|)
    ensures forall i :: 0 <= i < |r| && i < |ranked| ==> r[i] == ranked[i]
    ensures forall i :: |ranked| <= i < |r| ==> r[i] in catalog && InStock(r[i]) && r[i].id !in exclude
    ensures UniqueIds(ranked) && UniqueIds(catalog) && (forall p :: p in ranked ==> p.id in exclude)
      ==> UniqueIds(r)
  {
    if |ranked| < limit then
      Padded(catalog, trend, ranked, exclude, limit);
      ranked + Trending(catalog, trend, limit - |ranked|, exclude)
    else
      Cut(ranked, limit);
      Take(ranked, limit)
  }

  /** The padded branch of `TopUp`: the ranked list, then trending products not excluded. */
  lemma Padded(catalog: seq<Product>, trend: Product -> real, ranked: seq<Product>, exclude: seq<nat>, limit: nat)
    requires |ranked| < limit
    ensures var r := ranked + Trending(catalog, trend, limit - |ranked|, exclude);
      && (forall i :: 0 <= i < |r| && i < |ranked| ==> r[i] == ranked[i])
      && (forall i :: |ranked| <= i < |r| ==> r[i] in catalog && InStock(r[i]) && r[i].id !in exclude)
      && (UniqueIds(ranked) && UniqueIds(catalog) && (forall p :: p in ranked ==> p.id in exclude)
          ==> UniqueIds(r))
  {
    var pad := Trending(catalog, trend, limit - |ranked|, exclude);
    var r := ranked + pad;
    forall i | |ranked| <= i < |r| ensures r[i] in catalog && InStock(r[i]) && r[i].id !in exclude {
      assert r[i] == pad[i - |ranked|] && pad[i - |ranked|] in pad;
    }
    if UniqueIds(ranked) && UniqueIds(catalog) && (forall p :: p in ranked ==> p.id in exclude) {
      JoinKeepsUnique(ranked, pad, exclude);
    }
  }

  /** The cut branch of `TopUp`: a prefix of the ranked list. */
  lemma Cut(ranked: seq<Product>, limit: nat)
    requires |ranked| >= limit
    ensures var r := Take(ranked, limit);
      && |r| == limit
      && (forall i :: 0 <= i < |r| ==> r[i] == ranked[i])
      && (UniqueIds(ranked) ==> UniqueIds(r))
  {
    if UniqueIds(ranked) {
      TakeKeepsUnique(ranked, limit);
    }
  }

  // ---------------------------------------------------------------- ranking a candidate map

  /**
   * The tail both recommenders share: rank the candidates by score and top the list up with
   * trending products whose ids are neither listed nor in `extra`.
   */
  function Feed(catalog: seq<Product>, trend: Product -> real, cs: seq<Candidate>, extra: seq<nat>, limit: nat)
    : (r: seq<Product>)
    requires UniqueIds(Products(cs))
    requires forall c :: c in cs ==> c.product in catalog && InStock(c.product) && c.product.id !in extra
    ensures |r| <= limit
    ensures forall p :: p in r ==> p in catalog && InStock(p) && p.id !in extra
    ensures UniqueIds(catalog) ==> UniqueIds(r)
    ensures forall i, j :: 0 <= i < j < |r| && r[j].id in Ids(Products(cs)) ==> r[i].id in Ids(Products(cs))
    ensures forall i, j :: 0 <= i < j < |r| && r[j].id in Ids(Products(cs))
              ==> ScoreOf(cs, r[i].id) >= ScoreOf(cs, r[j].id)
    ensures |cs| <= limit ==> forall c :: c in cs ==> c.product in r
    ensures |cs| >= limit ==> |r| == limit
    // a short list holds every product it may offer
    ensures |r| < limit ==> forall p :: p in catalog && InStock(p) && p.id !in extra ==> p.id in Ids(r)
    // a candidate is cut only from a full list of candidates scoring at least as much
    ensures forall c :: c in cs && c.product !in r ==>
      |r| == limit && forall q :: q in r ==> q.id in Ids(Products(cs)) && ScoreOf(cs, q.id) >= c.score
  {
    var ranked := Ranked(cs);
    var r := TopUp(catalog, trend, ranked, extra + Ids(ranked), limit);
    FeedMembers(catalog, trend, cs, extra, limit);
    FeedOrder(catalog, trend, cs, extra, limit);
    FeedShort(catalog, trend, cs, extra, limit);
    FeedCut(catalog, trend, cs, extra, limit);
    if |cs| <= limit then
      FeedComplete(catalog, trend, cs, extra, limit);
      r
    else r
  }

  /** When the fed list is short, trending ran out: every eligible product is listed. */
  lemma FeedShort(catalog: seq<Product>, trend: Product -> real, cs: seq<Candidate>, extra: seq<nat>, limit: nat)
    ensures var r := TopUp(catalog, trend, Ranked(cs), extra + Ids(Ranked(cs)), limit);
      |r| < limit ==> forall p :: p in catalog && InStock(p) && p.id !in extra ==> p.id in Ids(r)
  {
    var ranked := Ranked(cs);
    var ex := extra + Ids(ranked);
    var r := TopUp(catalog, trend, ranked, ex, limit);
    if |r| < limit {
      var pad := Trending(catalog, trend, limit - |ranked|, ex);
      assert r == ranked + pad;
      TrendingExhausts(catalog, trend, limit - |ranked|, ex);
      forall p | p in catalog && InStock(p) && p.id !in extra ensures p.id in Ids(r) {
        if p.id in Ids(ranked) {
          var i := IndexOfId(ranked, p.id);
          assert r[i] == ranked[i];
          IdsOfMember(r, r[i]);
        } else {
          assert p in pad;
          assert p in r;
          IdsOfMember(r, p);
        }
      }
    }
  }

  /** A candidate missing from the fed list lost its place to `limit` candidates scoring at least as much. */
  lemma FeedCut(catalog: seq<Product>, trend: Product -> real, cs: seq<Candidate>, extra: seq<nat>, limit: nat)
    requires UniqueIds(Products(cs))
    ensures var r := TopUp(catalog, trend, Ranked(cs), extra + Ids(Ranked(cs)), limit);
      forall c :: c in cs && c.product !in r ==>
        |r| == limit && forall q :: q in r ==> q.id in Ids(Products(cs)) && ScoreOf(cs, q.id) >= c.score
  {
    forall c | c in cs {
      CandidateCut(catalog, trend, cs, extra, limit, c);
    }
  }

  lemma CandidateCut(catalog: seq<Product>, trend: Product -> real, cs: seq<Candidate>, extra: seq<nat>, limit: nat,
                     c: Candidate)
    requires UniqueIds(Products(cs)) && c in cs
    ensures var r := TopUp(catalog, trend, Ranked(cs), extra + Ids(Ranked(cs)), limit);
      c.product !in r ==>
        |r| == limit && forall q :: q in r ==> q.id in Ids(Products(cs)) && ScoreOf(cs, q.id) >= c.score
  {
    var ranked := Ranked(cs);
    var r := TopUp(catalog, trend, ranked, extra + Ids(ranked), limit);
    var k :| 0 <= k < |cs| && cs[k] == c;
    assert Products(cs)[k] == c.product;
    assert c.product in ranked;
    if |ranked| < limit {
      PaddedKeepsRanked(catalog, trend, ranked, extra + Ids(ranked), limit, c.product);
    } else {
      assert r == Take(ranked, limit);
      if c.product !in r {
        CutScores(cs, limit, c);
      }
    }
  }

  /** When the ranking is short of the limit, topping it up drops none of it. */
  lemma PaddedKeepsRanked(catalog: seq<Product>, trend: Product -> real, ranked: seq<Product>, exclude: seq<nat>,
                          limit: nat, p: Product)
    requires |ranked| < limit && p in ranked
    ensures p in TopUp(catalog, trend, ranked, exclude, limit)
  {
    var i :| 0 <= i < |ranked| && ranked[i] == p;
    assert TopUp(catalog, trend, ranked, exclude, limit)[i] == ranked[i];
  }

  /** The cut of the ranking: whoever is left out scores no higher than anyone kept. */
  lemma CutScores(cs: seq<Candidate>, limit: nat, c: Candidate)
    requires UniqueIds(Products(cs)) && c in cs && c.product in Ranked(cs) && c.product !in Take(Ranked(cs), limit)
    ensures |Take(Ranked(cs), limit)| == limit
    ensures forall q :: q in Take(Ranked(cs), limit) ==> q.id in Ids(Products(cs)) && ScoreOf(cs, q.id) >= c.score
  {
    var ranked := Ranked(cs);
    var r := Take(ranked, limit);
    RankedSorted(cs);
    TakeOfSortedIsTop(ranked, limit, ScoreIn(cs), c.product);
    ScoreOfMember(cs, c);
    forall q | q in r ensures q.id in Ids(Products(cs)) && ScoreOf(cs, q.id) >= c.score {
      assert ScoreIn(cs)(q) >= ScoreIn(cs)(c.product);
      IdsOfMember(ranked, q);
      RankedIds(cs, q.id);
    }
  }

  /** Ranking keeps exactly the candidates' ids. */
  lemma RankedIds(cs: seq<Candidate>, id: nat)
    ensures id in Ids(Ranked(cs)) <==> id in Ids(Products(cs))
  {
    InIds(Ranked(cs), id);
    InIds(Products(cs), id);
  }

  lemma FeedMembers(catalog: seq<Product>, trend: Product -> real, cs: seq<Candidate>, extra: seq<nat>, limit: nat)
    requires UniqueIds(Products(cs))
    requires forall c :: c in cs ==> c.product in catalog && InStock(c.product) && c.product.id !in extra
    ensures var r := TopUp(catalog, trend, Ranked(cs), extra + Ids(Ranked(cs)), limit);
      && (forall p :: p in r ==> p in catalog && InStock(p) && p.id !in extra)
      && (UniqueIds(catalog) ==> UniqueIds(r))
  {
    var ranked := Ranked(cs);
    var ex := extra + Ids(ranked);
    var r := TopUp(catalog, trend, ranked, ex, limit);
    forall p | p in r ensures p in catalog && InStock(p) && p.id !in extra {
      var i :| 0 <= i < |r| && r[i] == p;
      if i < |ranked| {
        assert p in Products(cs);
        var k :| 0 <= k < |cs| && Products(cs)[k] == p;
        assert cs[k] in cs;
      }
    }
    forall p | p in ranked ensures p.id in ex {
      IdsOfMember(ranked, p);
    }
  }

  lemma FeedOrder(catalog: seq<Product>, trend: Product -> real, cs: seq<Candidate>, extra: seq<nat>, limit: nat)
    requires UniqueIds(Products(cs))
    ensures var r := TopUp(catalog, trend, Ranked(cs), extra + Ids(Ranked(cs)), limit);
      forall i, j :: 0 <= i < j < |r| && r[j].id in Ids(Products(cs))
        ==> r[i].id in Ids(Products(cs)) && ScoreOf(cs, r[i].id) >= ScoreOf(cs, r[j].id)
  {
    var ranked := Ranked(cs);
    var r := TopUp(catalog, trend, ranked, extra + Ids(ranked), limit);
    RankedByScore(cs);
    forall i, j | 0 <= i < j < |r| && r[j].id in Ids(Products(cs))
      ensures r[i].id in Ids(Products(cs)) && ScoreOf(cs, r[i].id) >= ScoreOf(cs, r[j].id)
    {
      RankedIds(cs, r[j].id);
      assert j < |ranked|;
      assert r[i] == ranked[i] && r[j] == ranked[j];
      assert Ids(ranked)[i] == r[i].id;
      RankedIds(cs, r[i].id);
    }
  }

  lemma FeedComplete(catalog: seq<Product>, trend: Product -> real, cs: seq<Candidate>, extra: seq<nat>, limit: nat)
    requires UniqueIds(Products(cs))
    requires |cs| <= limit
    ensures forall c :: c in cs ==> c.product in TopUp(catalog, trend, Ranked(cs), extra + Ids(Ranked(cs)), limit)
  {
    var ranked := Ranked(cs);
    var r := TopUp(catalog, trend, ranked, extra + Ids(ranked), limit);
    forall c | c in cs ensures c.product in r {
      var k :| 0 <= k < |cs| && cs[k] == c;
      assert Products(cs)[k] == c.product;
      var i :| 0 <= i < |ranked| && ranked[i] == c.product;
      assert r[i] == ranked[i];
    }
  }

  // ---------------------------------------------------------------- personalised feed

  /**
   * The candidate map after the four strategies have voted, in insertion order, given what the
   * purchase-history strategy offered.
   */
  function PersonalScoresFrom(s: Shopper, bought: seq<Product>): (r: seq<Candidate>)
    requires forall p :: p in bought ==> p in s.catalog && InStock(p)
    ensures UniqueIds(Products(r))
    ensures forall c :: c in r ==> c.product in s.catalog && InStock(c.product)
  {
    var a := BumpAll([], CartBased(s.catalog, s.cart, StrategyLimit), CartWeight);
    var b := BumpAll(a, WishlistBased(s.catalog, s.wishlist, StrategyLimit), WishlistWeight);
    var c := BumpAll(b, bought, PurchaseWeight);
    BumpAll(c, BrowsingBased(s.catalog, s.history, StrategyLimit), BrowsingWeight)
  }

  /** The candidate map with the corrected purchase-history strategy. */
  function PersonalScores(s: Shopper): (r: seq<Candidate>)
    ensures UniqueIds(Products(r))
    ensures forall c :: c in r ==> c.product in s.catalog && InStock(c.product)
  {
    PersonalScoresFrom(s, PurchaseBased(s.catalog, s.orders, StrategyLimit))
  }

  /** The candidate map with the purchase-history strategy as the source writes it. */
  function PersonalScoresAsWritten(s: Shopper): (r: seq<Candidate>)
    ensures UniqueIds(Products(r))
    ensures forall c :: c in r ==> c.product in s.catalog && InStock(c.product)
  {
    PersonalScoresFrom(s, PurchaseBasedAsWritten(s.catalog, s.orders, StrategyLimit))
  }

  /**
   * A product's accumulated score is the sum of the weights of the strategies that offered it,
   * whatever duplicate-free list the purchase-history strategy contributed.
   */
  lemma PersonalScoreFrom(s: Shopper, bought: seq<Product>, id: nat)
    requires forall p :: p in bought ==> p in s.catalog && InStock(p)
    requires UniqueIds(bought)
    ensures ScoreOf(PersonalScoresFrom(s, bought), id)
      == Weight(id in Ids(CartBased(s.catalog, s.cart, StrategyLimit)), CartWeight)
       + Weight(id in Ids(WishlistBased(s.catalog, s.wishlist, StrategyLimit)), WishlistWeight)
       + Weight(id in Ids(bought), PurchaseWeight)
       + Weight(id in Ids(BrowsingBased(s.catalog, s.history, StrategyLimit)), BrowsingWeight)
  {
    var cart := CartBased(s.catalog, s.cart, StrategyLimit);
    var wish := WishlistBased(s.catalog, s.wishlist, StrategyLimit);
    var seen := BrowsingBased(s.catalog, s.history, StrategyLimit);
    var a := BumpAll([], cart, CartWeight);
    var b := BumpAll(a, wish, WishlistWeight);
    var c := BumpAll(b, bought, PurchaseWeight);
    BumpAllScore([], cart, CartWeight, id);
    BumpAllScore(a, wish, WishlistWeight, id);
    BumpAllScore(b, bought, PurchaseWeight, id);
    BumpAllScore(c, seen, BrowsingWeight, id);
  }

  /** With the corrected purchase-history strategy. */
  lemma PersonalScore(s: Shopper, id: nat)
    ensures ScoreOf(PersonalScores(s), id)
      == Weight(id in Ids(CartBased(s.catalog, s.cart, StrategyLimit)), CartWeight)
       + Weight(id in Ids(WishlistBased(s.catalog, s.wishlist, StrategyLimit)), WishlistWeight)
       + Weight(id in Ids(PurchaseBased(s.catalog, s.orders, StrategyLimit)), PurchaseWeight)
       + Weight(id in Ids(BrowsingBased(s.catalog, s.history, StrategyLimit)), BrowsingWeight)
  {
    PersonalScoreFrom(s, PurchaseBased(s.catalog, s.orders, StrategyLimit), id);
  }

  /**
   * `getPersonalizedRecommendations` with the corrected purchase-history strategy: the
   * candidates by accumulated weight, then trending products that are not already listed,
   * `limit` in all.
   */
  function Personalized(s: Shopper, trend: Product -> real, limit: nat): (r: seq<Product>)
    ensures |r| <= limit
    ensures forall p :: p in r ==> p in s.catalog && InStock(p)
    ensures UniqueIds(s.catalog) ==> UniqueIds(r)
    // every scored product comes before every trending one
    ensures forall i, j :: 0 <= i < j < |r| && r[j].id in Ids(Products(PersonalScores(s)))
              ==> r[i].id in Ids(Products(PersonalScores(s)))
    // the scored products come by non-increasing score
    ensures forall i, j :: 0 <= i < j < |r| && r[j].id in Ids(Products(PersonalScores(s)))
              ==> ScoreOf(PersonalScores(s), r[i].id) >= ScoreOf(PersonalScores(s), r[j].id)
    // a short list of candidates is complete
    ensures |PersonalScores(s)| <= limit ==>
      forall c :: c in PersonalScores(s) ==> c.product in r
    // enough candidates fill the list
    ensures |PersonalScores(s)| >= limit ==> |r| == limit
    // a short list holds every in-stock product
    ensures |r| < limit ==> forall p :: p in s.catalog && InStock(p) ==> p.id in Ids(r)
    // a candidate is cut only from a full list of candidates scoring at least as much
    ensures forall c :: c in PersonalScores(s) && c.product !in r ==>
      |r| == limit && forall q :: q in r ==>
        q.id in Ids(Products(PersonalScores(s))) && ScoreOf(PersonalScores(s), q.id) >= c.score
  {
    Feed(s.catalog, trend, PersonalScores(s), [], limit)
  }

  /**
   * `getPersonalizedRecommendations` fed by the purchase-history strategy as written
   * (`Strategies.PurchaseBasedAsWritten`); the cart, wishlist and browsing strategies are the
   * same as in `Personalized`.
   */
  function PersonalizedAsWritten(s: Shopper, trend: Product -> real, limit: nat): (r: seq<Product>)
    ensures |r| <= limit
    ensures forall p :: p in r ==> p in s.catalog && InStock(p)
    ensures UniqueIds(s.catalog) ==> UniqueIds(r)
    ensures forall i, j :: 0 <= i < j < |r| && r[j].id in Ids(Products(PersonalScoresAsWritten(s)))
              ==> r[i].id in Ids(Products(PersonalScoresAsWritten(s)))
    ensures forall i, j :: 0 <= i < j < |r| && r[j].id in Ids(Products(PersonalScoresAsWritten(s)))
              ==> ScoreOf(PersonalScoresAsWritten(s), r[i].id) >= ScoreOf(PersonalScoresAsWritten(s), r[j].id)
    ensures |PersonalScoresAsWritten(s)| <= limit ==>
      forall c :: c in PersonalScoresAsWritten(s) ==> c.product in r
    ensures |PersonalScoresAsWritten(s)| >= limit ==> |r| == limit
    ensures |r| < limit ==> forall p :: p in s.catalog && InStock(p) ==> p.id in Ids(r)
    ensures forall c :: c in PersonalScoresAsWritten(s) && c.product !in r ==>
      |r| == limit && forall q :: q in r ==>
        q.id in Ids(Products(PersonalScoresAsWritten(s))) && ScoreOf(PersonalScoresAsWritten(s), q.id) >= c.score
  {
    Feed(s.catalog, trend, PersonalScoresAsWritten(s), [], limit)
  }

  /** With no candidates, the feed is the trending list without the `extra` ids. */
  lemma FeedOfNothing(catalog: seq<Product>, trend: Product -> real, extra: seq<nat>, limit: nat)
    ensures Feed(catalog, trend, [], extra, limit) == Trending(catalog, trend, limit, extra)
  {
    var noCandidates: seq<Candidate> := [];
    var noProducts: seq<Product> := [];
    assert Ranked(noCandidates) == noProducts;
    assert extra + Ids(noProducts) == extra;
    assert Feed(catalog, trend, noCandidates, extra, limit) == TopUp(catalog, trend, noProducts, extra, limit);
    TopUpOfNothing(catalog, trend, extra, limit);
  }

  lemma TopUpOfNothing(catalog: seq<Product>, trend: Product -> real, extra: seq<nat>, limit: nat)
    ensures TopUp(catalog, trend, [], extra, limit) == Trending(catalog, trend, limit, extra)
  {
    var noProducts: seq<Product> := [];
    var t := Trending(catalog, trend, limit, extra);
    if limit == 0 {
      // both sides are capped at no products
      assert |TopUp(catalog, trend, noProducts, extra, limit)| <= 0 && |t| <= 0;
    } else {
      assert TopUp(catalog, trend, noProducts, extra, limit) == noProducts + Trending(catalog, trend, limit - 0, extra);
      EmptyAppend(t);
    }
  }

  /** Someone with an empty cart, wishlist, order history and browsing history sees trending. */
  lemma FreshShopperSeesTrending(s: Shopper, trend: Product -> real, limit: nat)
    requires s.cart == [] && s.wishlist == [] && s.history == []
    requires forall k :: 0 <= k < |s.orders| ==> s.orders[k].items == []
    ensures Personalized(s, trend, limit) == Trending(s.catalog, trend, limit, [])
  {
    NoItemsNoPurchases(s.orders);
    var noCandidates: seq<Candidate> := [];
    assert PersonalScores(s) == noCandidates;
    FeedOfNothing(s.catalog, trend, [], limit);
  }

  /** Orders without items purchase nothing. */
  lemma {:induction false} NoItemsNoPurchases(orders: seq<Order>)
    requires forall k :: 0 <= k < |orders| ==> orders[k].items == []
    ensures PurchasedIds(orders) == []
  {
    var all := AllItemIds(orders);
    if all != [] {
      assert all[0] in all;
    }
  }

  // ---------------------------------------------------------------- similar products

  /** The product page's result: the updated browsing history and the products shown. */
  datatype Similar = Similar(history: seq<nat>, products: seq<Product>)

  /** The candidate map after co-purchases and content similarity have voted. */
  function SimilarScores(s: Shopper, id: nat): (r: seq<Candidate>)
    ensures UniqueIds(Products(r))
    ensures forall c :: c in r ==> c.product in s.catalog && InStock(c.product) && c.product.id != id
  {
    var a := BumpAll([], Collaborative(s.catalog, s.orders, id, CollaborativeLimit), CollaborativeWeight);
    BumpAll(a, ContentBased(s.catalog, id, ContentLimit), ContentWeight)
  }

  /** A product's score is the weight of co-purchase plus the weight of similarity. */
  lemma SimilarScore(s: Shopper, id: nat, other: nat)
    requires UniqueIds(s.catalog)
    ensures ScoreOf(SimilarScores(s, id), other)
      == Weight(other in Ids(Collaborative(s.catalog, s.orders, id, CollaborativeLimit)), CollaborativeWeight)
       + Weight(other in Ids(ContentBased(s.catalog, id, ContentLimit)), ContentWeight)
  {
    var co := Collaborative(s.catalog, s.orders, id, CollaborativeLimit);
    var a := BumpAll([], co, CollaborativeWeight);
    BumpAllScore([], co, CollaborativeWeight, other);
    BumpAllScore(a, ContentBased(s.catalog, id, ContentLimit), ContentWeight, other);
  }

  /**
   * `getSimilarProducts`: records the view, then ranks co-purchased and similar products by
   * accumulated weight and tops the list up with trending products, never the viewed one.
   */
  function SimilarProducts(s: Shopper, trend: Product -> real, id: nat, limit: nat): (r: Similar)
    ensures r.history == AddToBrowsingHistory(s.history, id)
    ensures |r.products| <= limit
    ensures forall p :: p in r.products ==> p in s.catalog && InStock(p) && p.id != id
    ensures UniqueIds(s.catalog) ==> UniqueIds(r.products)
    ensures forall i, j :: 0 <= i < j < |r.products| && r.products[j].id in Ids(Products(SimilarScores(s, id)))
              ==> r.products[i].id in Ids(Products(SimilarScores(s, id)))
    ensures forall i, j :: 0 <= i < j < |r.products| && r.products[j].id in Ids(Products(SimilarScores(s, id)))
              ==> ScoreOf(SimilarScores(s, id), r.products[i].id) >= ScoreOf(SimilarScores(s, id), r.products[j].id)
    ensures |SimilarScores(s, id)| <= limit ==>
      forall c :: c in SimilarScores(s, id) ==> c.product in r.products
    ensures |SimilarScores(s, id)| >= limit ==> |r.products| == limit
    ensures |r.products| < limit ==> forall p :: p in s.catalog && InStock(p) && p.id != id ==> p.id in Ids(r.products)
    ensures forall c :: c in SimilarScores(s, id) && c.product !in r.products ==>
      |r.products| == limit && forall q :: q in r.products ==>
        q.id in Ids(Products(SimilarScores(s, id))) && ScoreOf(SimilarScores(s, id), q.id) >= c.score
  {
    var cs := SimilarScores(s, id);
    FeedWithout(s.catalog, trend, cs, id, limit);
    Similar(AddToBrowsingHistory(s.history, id), Feed(s.catalog, trend, cs, [id], limit))
  }

  /** Excluding the one id `id` from the feed, stated per product. */
  lemma FeedWithout(catalog: seq<Product>, trend: Product -> real, cs: seq<Candidate>, id: nat, limit: nat)
    requires UniqueIds(Products(cs))
    requires forall c :: c in cs ==> c.product in catalog && InStock(c.product) && c.product.id != id
    ensures var r := Feed(catalog, trend, cs, [id], limit);
      && (forall p :: p in r ==> p.id != id)
      && (|r| < limit ==> forall p :: p in catalog && InStock(p) && p.id != id ==> p.id in Ids(r))
  {
    var r := Feed(catalog, trend, cs, [id], limit);
    forall p | p in r ensures p.id != id {
      assert p.id !in [id];
    }
  }

  /** An unknown product that was never ordered gets the trending list, without itself. */
  lemma UnknownProductSeesTrending(s: Shopper, trend: Product -> real, id: nat, limit: nat)
    requires Find(s.catalog, id).None?
    requires forall k :: 0 <= k < |s.orders| ==> id !in ItemIds(s.orders[k])
    ensures SimilarProducts(s, trend, id, limit).products == Trending(s.catalog, trend, limit, [id])
  {
    NeverOrderedHasNoPartners(s.orders, id);
    var noProducts: seq<Product> := [];
    var noCandidates: seq<Candidate> := [];
    assert Collaborative(s.catalog, s.orders, id, CollaborativeLimit) == noProducts;
    assert SimilarScores(s, id) == noCandidates;
    FeedOfNothing(s.catalog, trend, [id], limit);
  }
}
