/**
 * The catalogue filter state and its reducers: a search query, category and subcategory,
 * a price range, a brand list, a minimum rating, an in-stock switch and a sort key.
 */
module FiltersSlice {
  import opened Seqs

  datatype PriceRange = PriceRange(low: real, high: real)

  datatype Filters = Filters(
    searchQuery: string,
    category: string,
    subcategory: string,
    priceRange: PriceRange,
    brands: seq<string>,
    minRating: real,
    inStockOnly: bool,
    sortBy: string)

  const DefaultSort: string := "featured"
  const DefaultPriceRange: PriceRange := PriceRange(0.0, 1000.0)

  /** The state the store starts in and `clearFilters` returns to. */
  const Initial: Filters := Filters("", "", "", DefaultPriceRange, [], 0.0, false, DefaultSort)

  function SetSearchQuery(f: Filters, query: string): (r: Filters)
    ensures r.searchQuery == query
    ensures r.(searchQuery := f.searchQuery) == f
  {
    f.(searchQuery := query)
  }

  /** Choosing a category forgets the subcategory. */
  function SetCategory(f: Filters, category: string): (r: Filters)
    ensures r.category == category && r.subcategory == ""
    ensures r.(category := f.category, subcategory := f.subcategory) == f
  {
    f.(category := category, subcategory := "")
  }

  function SetSubcategory(f: Filters, subcategory: string): (r: Filters)
    ensures r.subcategory == subcategory
    ensures r.(subcategory := f.subcategory) == f
  {
    f.(subcategory := subcategory)
  }

  function SetPriceRange(f: Filters, range: PriceRange): (r: Filters)
    ensures r.priceRange == range
    ensures r.(priceRange := f.priceRange) == f
  {
    f.(priceRange := range)
  }

  /** `toggleBrand`: a listed brand is removed, an unlisted one appended. */
  function ToggleBrand(f: Filters, brand: string): (r: Filters)
    ensures brand in r.brands <==> brand !in f.brands
    ensures forall b :: b != brand ==> (b in r.brands <==> b in f.brands)
    ensures NoDup(f.brands) ==> NoDup(r.brands)
    ensures brand !in f.brands ==> r.brands == f.brands + [brand]
    ensures brand in f.brands ==> Subseq(r.brands, f.brands) && |r.brands| < |f.brands|
    ensures r == f.(brands := r.brands)
  {
    if brand in f.brands then
      var kept := Without(f.brands, brand);
      WithoutShrinks(f.brands, brand);
      if NoDup(f.brands) then
        SubseqNoDup(kept, f.brands);
        f.(brands := kept)
      else f.(brands := kept)
    else
      var grown := f.brands + [brand];
      assert NoDup(f.brands) ==> NoDup(grown) by {
        if NoDup(f.brands) {
          forall i, j | 0 <= i < j < |grown| ensures grown[i] != grown[j] {
            if j == |f.brands| {
              assert grown[i] == f.brands[i];
            }
          }
        }
      }
      f.(brands := grown)
  }

  function SetMinRating(f: Filters, rating: real): (r: Filters)
    ensures r.minRating == rating
    ensures r.(minRating := f.minRating) == f
  {
    f.(minRating := rating)
  }

  function SetInStockOnly(f: Filters, on: bool): (r: Filters)
    ensures r.inStockOnly == on
    ensures r.(inStockOnly := f.inStockOnly) == f
  {
    f.(inStockOnly := on)
  }

  function SetSortBy(f: Filters, sortBy: string): (r: Filters)
    ensures r.sortBy == sortBy
    ensures r.(sortBy := f.sortBy) == f
  {
    f.(sortBy := sortBy)
  }

  /** `clearFilters` resets every field, whatever the state was. */
  function ClearFilters(f: Filters): (r: Filters)
    ensures r.searchQuery == "" && r.category == "" && r.subcategory == ""
    ensures r.brands == [] && r.minRating == 0.0 && !r.inStockOnly
    ensures r.priceRange == PriceRange(0.0, 1000.0) && r.sortBy == "featured"
  {
    Initial
  }

  /** Clearing twice is clearing once, and every state clears to the same one. */
  lemma ClearFiltersIdempotent(f: Filters, g: Filters)
    ensures ClearFilters(ClearFilters(f)) == ClearFilters(f)
    ensures ClearFilters(f) == ClearFilters(g)
  {
  }

  /** Toggling an unlisted brand twice restores the brand list exactly. */
  lemma ToggleBrandTwice(f: Filters, brand: string)
    requires brand !in f.brands
    ensures ToggleBrand(ToggleBrand(f, brand), brand) == f
  {
    var g := ToggleBrand(f, brand);
    var kept := Without(g.brands, brand);
    assert g.brands == f.brands + [brand];
    WithoutOfAppended(f.brands, brand);
  }

  /** A subcategory chosen before the category is forgotten when the category is set. */
  lemma CategoryOverridesSubcategory(f: Filters, sub: string, category: string)
    ensures SetCategory(SetSubcategory(f, sub), category) == SetCategory(f, category)
  {
  }

  /** Setters of different fields commute, and a second setting of a field wins. */
  lemma SettersCommute(f: Filters, query: string, range: PriceRange, rating: real, on: bool, sortBy: string)
    ensures SetSearchQuery(SetPriceRange(f, range), query) == SetPriceRange(SetSearchQuery(f, query), range)
    ensures SetMinRating(SetInStockOnly(f, on), rating) == SetInStockOnly(SetMinRating(f, rating), on)
    ensures SetSortBy(SetSortBy(f, DefaultSort), sortBy) == SetSortBy(f, sortBy)
  {
  }
}
