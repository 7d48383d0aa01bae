/**
 * The catalogue page's list utilities: filtering by the filter state, sorting by the chosen
 * key, and counting the active filters for the badge.
 */
module ProductFilters {
  import opened Seqs
  import opened StableSort
  import opened Catalog
  import opened FiltersSlice
  import Text

  // ---------------------------------------------------------------- filterProducts

  /** A non-empty query must occur, ignoring case, in the name, description, brand or a tag. */
  predicate MatchesSearch(p: Product, f: Filters) {
    f.searchQuery == "" || MatchesQuery(p, Text.Lower(f.searchQuery))
  }

  /** An empty category or subcategory matches everything (`""` is falsy). */
  predicate MatchesCategory(p: Product, f: Filters) {
    (f.category == "" || p.category == f.category)
    && (f.subcategory == "" || p.subcategory == f.subcategory)
  }

  predicate InPriceRange(p: Product, f: Filters) {
    !(p.price < f.priceRange.low || p.price > f.priceRange.high)
  }

  /** An empty brand list matches every brand. */
  predicate MatchesBrand(p: Product, f: Filters) {
    |f.brands| == 0 || p.brand in f.brands
  }

  predicate MatchesRatingAndStock(p: Product, f: Filters) {
    !(p.rating < f.minRating) && !(f.inStockOnly && p.stock == 0)
  }

  /** The product survives every test of the filter callback. */
  predicate Passes(p: Product, f: Filters) {
    MatchesSearch(p, f) && MatchesCategory(p, f) && InPriceRange(p, f) && MatchesBrand(p, f)
    && MatchesRatingAndStock(p, f)
  }

  /**
   * `filterProducts`: the products that pass, in their original order. Every guarantee of
   * the filter is listed separately; the last clause says nothing that passes is lost.
   */
  function FilterProducts(ps: seq<Product>, f: Filters): (r: seq<Product>)
    ensures Subseq(r, ps)
    ensures forall p :: p in r ==> f.priceRange.low <= p.price <= f.priceRange.high
    ensures forall p :: p in r ==> p.rating >= f.minRating
    ensures f.category != "" ==> forall p :: p in r ==> p.category == f.category
    ensures f.subcategory != "" ==> forall p :: p in r ==> p.subcategory == f.subcategory
    ensures |f.brands| > 0 ==> forall p :: p in r ==> p.brand in f.brands
    ensures f.inStockOnly ==> forall p :: p in r ==> InStock(p)
    ensures f.searchQuery != "" ==> forall p :: p in r ==> MatchesQuery(p, Text.Lower(f.searchQuery))
    ensures forall p :: p in ps && Passes(p, f) ==> p in r
  {
    Filter(ps, (p: Product) => Passes(p, f))
  }

  /** Filtering an already filtered list changes nothing. */
  lemma FilterProductsIdempotent(ps: seq<Product>, f: Filters)
    ensures FilterProducts(FilterProducts(ps, f), f) == FilterProducts(ps, f)
  {
    var pass := (p: Product) => Passes(p, f);
    FilterKeepsAll(Filter(ps, pass), pass);
  }

  /** The cleared filter state keeps every product priced within 0..1000. */
  lemma ClearedFiltersKeepAll(ps: seq<Product>, f: Filters)
    requires forall p :: p in ps ==> 0.0 <= p.price <= 1000.0 && p.rating >= 0.0
    ensures FilterProducts(ps, ClearFilters(f)) == ps
  {
    var pass := (p: Product) => Passes(p, ClearFilters(f));
    assert ClearFilters(f) == Initial;
    forall p | p in ps ensures pass(p) {
      assert MatchesSearch(p, Initial) && MatchesCategory(p, Initial) && MatchesBrand(p, Initial);
      assert InPriceRange(p, Initial) && MatchesRatingAndStock(p, Initial);
    }
    FilterKeepsAll(ps, pass);
  }

  // ---------------------------------------------------------------- sortProducts

  /** The sort keys `sortProducts` knows by name; anything else sorts as "featured". */
  predicate KnownSort(sortBy: string) {
    sortBy in ["price-low", "price-high", "rating", "reviews", "name", "newest", "featured"]
  }

  /**
   * The key a sort orders by, highest first. `nameRank` stands for the `localeCompare` order
   * of names and `age` for the creation timestamp (`createdAt || 0`).
   */
  function SortKey(sortBy: string, nameRank: Product -> real, age: Product -> real): Product -> real {
    if sortBy == "price-low" then (p: Product) => -p.price
    else if sortBy == "price-high" then (p: Product) => p.price
    else if sortBy == "rating" then (p: Product) => p.rating
    else if sortBy == "reviews" then (p: Product) => p.reviewCount as real
    else if sortBy == "name" then (p: Product) => -nameRank(p)
    else if sortBy == "newest" then age
    else (p: Product) => p.featured as real
  }

  /** `sortProducts`: a sorted copy; ties keep the input order. */
  function SortProducts(ps: seq<Product>, sortBy: string, nameRank: Product -> real, age: Product -> real)
    : (r: seq<Product>)
    ensures multiset(r) == multiset(ps)
    ensures sortBy == "price-low" ==> forall i, j :: 0 <= i < j < |r| ==> r[i].price <= r[j].price
    ensures sortBy == "price-high" ==> forall i, j :: 0 <= i < j < |r| ==> r[i].price >= r[j].price
    ensures sortBy == "rating" ==> forall i, j :: 0 <= i < j < |r| ==> r[i].rating >= r[j].rating
    ensures sortBy == "reviews" ==> forall i, j :: 0 <= i < j < |r| ==> r[i].reviewCount >= r[j].reviewCount
    ensures sortBy == "name" ==> forall i, j :: 0 <= i < j < |r| ==> nameRank(r[i]) <= nameRank(r[j])
    ensures sortBy == "newest" ==> forall i, j :: 0 <= i < j < |r| ==> age(r[i]) >= age(r[j])
    ensures !KnownSort(sortBy) || sortBy == "featured" ==>
      forall i, j :: 0 <= i < j < |r| ==> r[i].featured >= r[j].featured
  {
    var r := SortDesc(ps, SortKey(sortBy, nameRank, age));
    OrderOfSortKey(r, sortBy, nameRank, age);
    r
  }

  /** What ordering by `SortKey` means for each named sort. */
  lemma OrderOfSortKey(r: seq<Product>, sortBy: string, nameRank: Product -> real, age: Product -> real)
    requires SortedDesc(r, SortKey(sortBy, nameRank, age))
    ensures sortBy == "price-low" ==> forall i, j :: 0 <= i < j < |r| ==> r[i].price <= r[j].price
    ensures sortBy == "price-high" ==> forall i, j :: 0 <= i < j < |r| ==> r[i].price >= r[j].price
    ensures sortBy == "rating" ==> forall i, j :: 0 <= i < j < |r| ==> r[i].rating >= r[j].rating
    ensures sortBy == "reviews" ==> forall i, j :: 0 <= i < j < |r| ==> r[i].reviewCount >= r[j].reviewCount
    ensures sortBy == "name" ==> forall i, j :: 0 <= i < j < |r| ==> nameRank(r[i]) <= nameRank(r[j])
    ensures sortBy == "newest" ==> forall i, j :: 0 <= i < j < |r| ==> age(r[i]) >= age(r[j])
    ensures !KnownSort(sortBy) || sortBy == "featured" ==>
      forall i, j :: 0 <= i < j < |r| ==> r[i].featured >= r[j].featured
  {
    var key := SortKey(sortBy, nameRank, age);
    forall i, j | 0 <= i < j < |r|
      ensures sortBy == "price-low" ==> r[i].price <= r[j].price
      ensures sortBy == "price-high" ==> r[i].price >= r[j].price
      ensures sortBy == "rating" ==> r[i].rating >= r[j].rating
      ensures sortBy == "reviews" ==> r[i].reviewCount >= r[j].reviewCount
      ensures sortBy == "name" ==> nameRank(r[i]) <= nameRank(r[j])
      ensures sortBy == "newest" ==> age(r[i]) >= age(r[j])
      ensures !KnownSort(sortBy) || sortBy == "featured" ==> r[i].featured >= r[j].featured
    {
      assert key(r[i]) >= key(r[j]);
    }
  }

  /** An unrecognised sort key sorts exactly as "featured" does. */
  lemma UnknownSortIsFeatured(ps: seq<Product>, sortBy: string, nameRank: Product -> real, age: Product -> real)
    requires !KnownSort(sortBy)
    ensures SortProducts(ps, sortBy, nameRank, age) == SortProducts(ps, "featured", nameRank, age)
  {
    assert SortKey(sortBy, nameRank, age) == SortKey("featured", nameRank, age);
  }

  /** Products with equal keys keep their input order: the sort is stable. */
  lemma SortProductsIsStable(ps: seq<Product>, sortBy: string, nameRank: Product -> real, age: Product -> real,
                             position: Product -> int)
    requires forall i, j :: 0 <= i < j < |ps| ==> position(ps[i]) < position(ps[j])
    ensures var r := SortProducts(ps, sortBy, nameRank, age);
      var key := SortKey(sortBy, nameRank, age);
      forall i, j :: 0 <= i < j < |r| && key(r[i]) == key(r[j]) ==> position(r[i]) < position(r[j])
  {
    SortDescIsStable(ps, SortKey(sortBy, nameRank, age), position);
  }

  // ---------------------------------------------------------------- getActiveFiltersCount

  /** The badge count: one per active filter, except that every selected brand counts. */
  function ActiveFiltersCount(f: Filters): (r: nat)
    ensures r == 0 <==>
      && f.searchQuery == "" && f.category == "" && f.subcategory == ""
      && f.priceRange.low <= 0.0 && f.priceRange.high >= 1000.0
      && f.brands == [] && f.minRating <= 0.0 && !f.inStockOnly
    ensures |f.brands| <= r <= |f.brands| + 6
  {
    (if f.searchQuery != "" then 1 else 0)
    + (if f.category != "" then 1 else 0)
    + (if f.subcategory != "" then 1 else 0)
    + (if f.priceRange.low > 0.0 || f.priceRange.high < 1000.0 then 1 else 0)
    + (if |f.brands| > 0 then |f.brands| else 0)
    + (if f.minRating > 0.0 then 1 else 0)
    + (if f.inStockOnly then 1 else 0)
  }

  /** The cleared state shows no badge. */
  lemma ClearedHasNoActiveFilters(f: Filters)
    ensures ActiveFiltersCount(ClearFilters(f)) == 0
  {
  }

  /** Toggling a brand moves the badge by exactly one (brands are kept duplicate-free). */
  lemma ToggleBrandCount(f: Filters, brand: string)
    requires NoDup(f.brands)
    ensures ActiveFiltersCount(ToggleBrand(f, brand))
      == if brand in f.brands then ActiveFiltersCount(f) - 1 else ActiveFiltersCount(f) + 1
  {
    var g := ToggleBrand(f, brand);
    if brand in f.brands {
      WithoutLength(f.brands, brand);
      NoDupCountsOnce(f.brands);
      assert brand in multiset(f.brands);
      assert |g.brands| == |f.brands| - 1;
    } else {
      assert |g.brands| == |f.brands| + 1;
    }
    BrandsCount(f, g.brands);
  }

  /** An on/off filter's share of the badge. */
  function Flag(on: bool): nat {
    if on then 1 else 0
  }

  /** The price filter is active when the range is narrower than the default 0..1000. */
  predicate PriceNarrowed(range: PriceRange) {
    range.low > 0.0 || range.high < 1000.0
  }

  /**
   * Each setter other than `toggleBrand` moves the badge by exactly the change in its own
   * filter's flag: switching a filter on adds one, switching it off removes one. Choosing a
   * category also clears the subcategory, and the sort order is not a filter.
   */
  lemma SettersCount(f: Filters, query: string, category: string, subcategory: string, range: PriceRange,
                     rating: real, on: bool, sortBy: string)
    ensures ActiveFiltersCount(SetSearchQuery(f, query)) + Flag(f.searchQuery != "")
      == ActiveFiltersCount(f) + Flag(query != "")
    ensures ActiveFiltersCount(SetCategory(f, category)) + Flag(f.category != "") + Flag(f.subcategory != "")
      == ActiveFiltersCount(f) + Flag(category != "")
    ensures ActiveFiltersCount(SetSubcategory(f, subcategory)) + Flag(f.subcategory != "")
      == ActiveFiltersCount(f) + Flag(subcategory != "")
    ensures ActiveFiltersCount(SetPriceRange(f, range)) + Flag(PriceNarrowed(f.priceRange))
      == ActiveFiltersCount(f) + Flag(PriceNarrowed(range))
    ensures ActiveFiltersCount(SetMinRating(f, rating)) + Flag(f.minRating > 0.0)
      == ActiveFiltersCount(f) + Flag(rating > 0.0)
    ensures ActiveFiltersCount(SetInStockOnly(f, on)) + Flag(f.inStockOnly)
      == ActiveFiltersCount(f) + Flag(on)
    ensures ActiveFiltersCount(SetSortBy(f, sortBy)) == ActiveFiltersCount(f)
  {
    CountByFlags(f);
    CountByFlags(SetSearchQuery(f, query));
    CountByFlags(SetCategory(f, category));
    CountByFlags(SetSubcategory(f, subcategory));
    CountByFlags(SetPriceRange(f, range));
    CountByFlags(SetMinRating(f, rating));
    CountByFlags(SetInStockOnly(f, on));
    CountByFlags(SetSortBy(f, sortBy));
  }

  /** The badge as the sum of the filters' flags and the number of brands. */
  lemma CountByFlags(f: Filters)
    ensures ActiveFiltersCount(f) == Flag(f.searchQuery != "") + Flag(f.category != "")
      + Flag(f.subcategory != "") + Flag(PriceNarrowed(f.priceRange)) + |f.brands|
      + Flag(f.minRating > 0.0) + Flag(f.inStockOnly)
  {
  }

  /** Only the brand list changes: the badge moves by the change in its length. */
  lemma BrandsCount(f: Filters, brands: seq<string>)
    ensures ActiveFiltersCount(f.(brands := brands)) + |f.brands| == ActiveFiltersCount(f) + |brands|
  {
  }
}
