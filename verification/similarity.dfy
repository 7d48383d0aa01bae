/**
 * The additive attribute-similarity score of the recommendation engine
 * (`calculateProductSimilarity`).
 */
module SimilarityScorer {
  import opened Catalog

  const CategoryPoints: int := 40
  const SubcategoryPoints: int := 20
  const BrandPoints: int := 15
  const MaxScore: int := 100

  function Abs(x: real): real {
    if x < 0.0 then -x else x
  }

  /**
   * Points for close prices: the difference relative to the mean price is below 10% (15) or
   * below 30% (10). A zero mean makes the relative difference NaN or Infinity in the source,
   * and both compare false, so no points are given.
   */
  function PricePoints(a: real, b: real): (r: int)
    ensures r == 0 || r == 10 || r == 15
    ensures a == b && a + b != 0.0 ==> r == 15
    ensures a + b == 0.0 ==> r == 0
  {
    var avg := (a + b) / 2.0;
    if avg == 0.0 then 0
    else
      var variation := Abs(a - b) / avg;
      if variation < 0.1 then 15 else if variation < 0.3 then 10 else 0
  }

  /** Points for close ratings: less than half a star apart (10) or less than a star (5). */
  function RatingPoints(a: real, b: real): (r: int)
    ensures r == 0 || r == 5 || r == 10
    ensures a == b ==> r == 10
  {
    var diff := Abs(a - b);
    if diff < 0.5 then 10 else if diff < 1.0 then 5 else 0
  }

  function Similarity(p: Product, q: Product): (r: int)
    ensures 0 <= r <= MaxScore
    ensures p.category != q.category ==> r <= MaxScore - CategoryPoints
    ensures r % 5 == 0
  {
    (if p.category == q.category then CategoryPoints else 0)
    + (if p.subcategory == q.subcategory then SubcategoryPoints else 0)
    + (if p.brand == q.brand then BrandPoints else 0)
    + PricePoints(p.price, q.price)
    + RatingPoints(p.rating, q.rating)
  }

  /** Every comparison is commutative, so the score does not depend on argument order. */
  lemma SimilaritySymmetric(p: Product, q: Product)
    ensures Similarity(p, q) == Similarity(q, p)
  {
    assert Abs(p.price - q.price) == Abs(q.price - p.price);
    assert Abs(p.rating - q.rating) == Abs(q.rating - p.rating);
  }

  /** Identical attributes (with a non-zero price) reach the full budget of 100 points. */
  lemma SimilarityOfTwinsIsMax(p: Product, q: Product)
    requires p.category == q.category && p.subcategory == q.subcategory && p.brand == q.brand
    requires p.price == q.price && p.price != 0.0 && p.rating == q.rating
    ensures Similarity(p, q) == MaxScore
  {
  }

  /**
   * Same category and brand, prices 100 and 105, ratings 4.5 and 4.6, different
   * subcategories: 40 + 15 + 15 + 10 = 80.
   */
  lemma SimilarityExample(p: Product, q: Product)
    requires p.category == q.category && p.brand == q.brand && p.subcategory != q.subcategory
    requires p.price == 100.0 && q.price == 105.0 && p.rating == 4.5 && q.rating == 4.6
    ensures Similarity(p, q) == 80
  {
    assert Abs(p.price - q.price) / ((p.price + q.price) / 2.0) < 0.1;
  }
}
