# Market Haven storefront core, in Dafny

A functional model of the logic inside the Market Haven storefront, a React/Redux shop with mock services. It covers:

- **The product recommendation engine** (`recommendationService.js`):
  - the additive similarity score;
  - the order co-occurrence index;
  - the browsing history;
  - content-based and collaborative filtering, and the trending fallback;
  - the cart, wishlist, purchase-history and browsing-history strategies;
  - the two hybrid recommenders, the personalised feed and the similar-products panel. Both rank an insertion-ordered map of weighted candidates and top it up with trending products.
- **The catalogue list utilities** (`productFilters.js`): filtering by the filter state, sorting by a named key, and the active-filter badge count.
- **The Redux reducers** of the cart, the wishlist and the filter state.
- **The mock repositories** for products, orders and reviews. Each is create/read/update/delete over a table, with id allocation (largest id plus one), a "not found" error for unknown ids, and `{...old, ...patch}` merges.

Modelling choices:

- Every operation is a pure function from state to state.
- The catalog, the orders, the cart, the wishlist and the browsing history are explicit parameters.
- Every value the source takes from the clock or from randomness is a parameter:
  - the ISO timestamp `now`;
  - the calendar `year`;
  - the random tracking-number `suffix`;
  - the sort keys for dates and `localeCompare` (`time`, `age`, `nameRank`).
- The trend score `rating * Math.log(reviewCount + 1)` is a parameter `trend`.
- Thrown errors become `Result.Failure` values carrying the source's message.
- A JavaScript `Map` becomes a sequence with unique keys:
  - `set` on a present key replaces the value in place;
  - `set` on a new key appends.
- All sorts are stable, as `Array.prototype.sort` is. The generic sort is an insertion sort (`StableSort.SortDesc`) with a proved stability lemma.
- Ascending sorts use a negated key.

Files:

| file | module | what it models |
|---|---|---|
| `wrappers.dfy` | `Wrappers` | `Option` and `Result` |
| `seqs.dfy` | `Seqs` | `filter`, `slice(0, n)`, dedup and subsequence facts |
| `stable_sort.dfy` | `StableSort` | the stable descending sort |
| `text.dfy` | `Text` | `toLowerCase`, `includes`, `String(n)`, `padStart` |
| `catalog.dfy` | `Catalog` | the product record and id lookups |
| `repository.dfy` | `Repository` | the shared find/findIndex/splice logic of the services |
| `similarity.dfy` | `SimilarityScorer` | `calculateProductSimilarity` |
| `orders.dfy` | `Orders` | the order record and `orderService` |
| `cooccurrence.dfy` | `CoOccurrence` | `getFrequentlyBoughtTogether`, `getUserPurchaseHistory` |
| `history.dfy` | `BrowsingHistory` | `addToBrowsingHistory` and what a sequence of views leaves |
| `candidates.dfy` | `CandidateMap` | the id-keyed candidate `Map` and its ranking |
| `strategies.dfy` | `Strategies` | content-based, collaborative, trending and the four personal strategies |
| `aggregator.dfy` | `Recommendations` | `getPersonalizedRecommendations`, `getSimilarProducts` |
| `product_filters.dfy` | `ProductFilters` | `filterProducts`, `sortProducts`, `getActiveFiltersCount` |
| `cart_slice.dfy` | `CartSlice` | the cart reducers |
| `wishlist_slice.dfy` | `WishlistSlice` | the wishlist reducers |
| `filters_slice.dfy` | `FiltersSlice` | the filter-state reducers |
| `product_service.dfy` | `ProductService` | `productService` |
| `review_service.dfy` | `ReviewService` | `reviewService` |

## Model

| member | source | states |
|---|---|---|
| SimilarityScorer.PricePoints | src/services/api/recommendationService.js:36-45 | The price bonus is 0, 10 or 15. Equal non-zero prices earn 15. A zero price sum (NaN in the source) earns nothing. |
| SimilarityScorer.RatingPoints | src/services/api/recommendationService.js:47-53 | The rating bonus is 0, 5 or 10, and equal ratings earn 10. |
| SimilarityScorer.Similarity | src/services/api/recommendationService.js:18-56 | The score lies in 0..100 and is a multiple of 5. Products of different categories score at most 60. |
| SimilarityScorer.SimilaritySymmetric | src/services/api/recommendationService.js:18-56 | Swapping the two products does not change the score. |
| SimilarityScorer.SimilarityOfTwinsIsMax | src/services/api/recommendationService.js:18-56 | Two products equal in category, subcategory, brand, rating and a non-zero price score the full 100 points. |
| SimilarityScorer.SimilarityExample | src/services/api/recommendationService.js:18-56 | Worked case: same category and brand, prices 100 and 105, ratings 4.5 and 4.6, different subcategories score 80. |
| CoOccurrence.PartnersCount | src/services/api/recommendationService.js:62-74 | The counter the loop builds for a product equals the reference count of its line items in the orders that contain the queried id. |
| CoOccurrence.AscendingKeys | src/services/api/recommendationService.js:76 | `Object.entries` on the counter lists each key once, by ascending numeric id. |
| CoOccurrence.FrequentlyBoughtTogether | src/services/api/recommendationService.js:61-79 | Never lists the queried id and has no duplicates. An id is listed exactly when its co-occurrence count is positive. The list is ordered by non-increasing count. |
| CoOccurrence.FrequentlyBoughtTogetherTies | src/services/api/recommendationService.js:76-78 | Equal counts come out by ascending id. |
| CoOccurrence.NeverOrderedHasNoPartners | src/services/api/recommendationService.js:61-79 | A product in no order has no partners. |
| CoOccurrence.PurchasedIds | src/services/api/recommendationService.js:84-96 | Every id of every order line, each once: a number is listed exactly when some order contains it. |
| BrowsingHistory.AddToBrowsingHistory | src/services/api/recommendationService.js:113-121 | The result starts with the viewed id, holds it once, and has 1..20 entries. The remaining entries are a subsequence of the old history. A history shorter than 20 loses nothing. A duplicate-free history stays duplicate-free. |
| BrowsingHistory.VisitKeepsOrder | src/services/api/recommendationService.js:113-121 | If the history lists ids from most to least recently viewed, it still does after one more view. |
| BrowsingHistory.VisitKeepsRecent | src/services/api/recommendationService.js:116 | A view pushes an id out only when the history is full (20 entries) and every kept entry was viewed more recently. |
| BrowsingHistory.ReplayKeepsMostRecent | src/services/api/recommendationService.js:113-121 | The history built by any sequence of views is faithful to them. It holds only viewed ids, each once, most recent first. A viewed id is missing only when twenty more recent ones fill the list. |
| BrowsingHistory.ShortReplayKeepsAll | src/services/api/recommendationService.js:116 | After fewer than twenty views, every viewed id is still in the history. |
| Strategies.ContentBased | src/services/api/recommendationService.js:156-171 | At most `limit` products: in stock, from the catalog, never the source product, by non-increasing similarity to it. An unknown id yields nothing. Ids stay unique when the catalog's are. |
| Strategies.ContentBasedTopK | src/services/api/recommendationService.js:160-168 | A qualifying product is left out only when the list is full and every listed product is at least as similar. |
| Strategies.ResolveInStock | src/services/api/recommendationService.js:181-183 | Each resolved product is the in-stock product that `find` returns for a requested id. Every requested id that finds an in-stock product is resolved. The result's ids keep the requested order. |
| Strategies.Collaborative | src/services/api/recommendationService.js:176-184 | At most `limit` distinct in-stock catalog products, never the queried one. Each was bought with it at least once. They come by non-increasing co-occurrence count. Every in-stock catalog product among the first `limit` partner ids is offered. |
| Strategies.CollaborativeTopK | src/services/api/recommendationService.js:177-183 | An in-stock partner is left out only when the partner list was cut at `limit` and every offered product was bought with the queried one at least as often. |
| Strategies.Trending | src/services/api/recommendationService.js:189-198 | Exactly min(limit, number of eligible products) products, by non-increasing trend score. Every one is in stock and not excluded. |
| Strategies.TrendingTopK | src/services/api/recommendationService.js:189-198 | An eligible product left out means the list is full and every listed product trends at least as high. |
| Strategies.TrendingExhausts | src/services/api/recommendationService.js:189-198 | A trending list shorter than asked for holds every in-stock product that is not excluded. |
| Strategies.Neighbours | src/services/api/recommendationService.js:210-217 | The map keeps its earlier keys, and keeps keys unique. It gains every non-excluded content-based neighbour of every source. Every entry it adds is an in-stock catalog product that is not excluded and is a neighbour of some source. |
| Strategies.CartBased | src/services/api/recommendationService.js:203-220 | At most `limit` distinct in-stock catalog products, none of them in the cart. Each is one of the five content-based neighbours of a cart product. When fewer than `limit` are listed, every such neighbour outside the cart is listed. An empty cart yields nothing. |
| Strategies.WishlistBased | src/services/api/recommendationService.js:225-242 | At most `limit` distinct in-stock catalog products, none of them wished for. Each is one of the five content-based neighbours of a wished product. When fewer than `limit` are listed, every such neighbour outside the wishlist is listed. An empty wishlist yields nothing. |
| Strategies.BrowsingBased | src/services/api/recommendationService.js:275-292 | At most `limit` distinct in-stock catalog products, none of them anywhere in the history. Each is one of the three content-based neighbours of one of the five most recent views. When fewer than `limit` are listed, every such neighbour outside the history is listed. An empty history yields nothing. |
| Strategies.Votes | src/services/api/recommendationService.js:253-264 | Every candidate the voting adds is an in-stock catalog product that is not excluded and is a neighbour of some purchased product. Candidate keys stay unique. |
| Strategies.VotesScore | src/services/api/recommendationService.js:253-264 | A candidate's accumulated score is the number of purchased products that list it among their three neighbours, for ids that are not excluded. |
| Strategies.PurchaseBased | src/services/api/recommendationService.js:247-270 | At most `limit` distinct in-stock catalog products, none of them ever purchased. Each is a neighbour of a purchased product and so has at least one vote. No purchases yields nothing. This is the corrected exclusion, see Findings. |
| Strategies.PurchaseBasedRanking | src/services/api/recommendationService.js:266-269 | The results come by non-increasing vote count. |
| Strategies.PurchaseBasedTopK | src/services/api/recommendationService.js:253-269 | A product never purchased but voted for is left out only when the list is full and every listed product has at least as many votes. |
| Strategies.PurchaseBasedAsWritten | src/services/api/recommendationService.js:247-270 | The strategy as written: at most `limit` distinct in-stock catalog products, each a neighbour of a purchased product with at least one vote. Purchased products are not excluded. |
| Strategies.PurchasedProductRecommendedBack | src/services/api/recommendationService.js:256 | As written, an order of an out-of-stock `a` and an in-stock `b` gets `b` recommended back. |
| Strategies.PurchasedProductNotRecommended | src/services/api/recommendationService.js:256 | Corrected, the same input yields nothing. |
| CandidateMap.Put | src/services/api/recommendationService.js:214 | `map.set` keeps the key order when the id is present and appends it otherwise. The product is then in the map, and keys stay unique. |
| CandidateMap.BumpKeys | src/services/api/recommendationService.js:257-261 | Adding weight to a product keeps the key order, or appends a new key. |
| CandidateMap.BumpScore | src/services/api/recommendationService.js:257-261 | Adding weight `w` to a product raises its score by `w` (from 0 when absent) and no other score. |
| CandidateMap.BumpAllScore | src/services/api/recommendationService.js:304-309 | After a strategy's products are added with weight `w`, a product's score has grown by `w` exactly when the strategy offered it. |
| CandidateMap.Ranked | src/services/api/recommendationService.js:339-341 | Ranking lists exactly the candidates' products, keeping unique ids unique. |
| CandidateMap.RankedByScore | src/services/api/recommendationService.js:339-341 | The ranked list is ordered by non-increasing accumulated score. |
| Recommendations.TopUp | src/services/api/recommendationService.js:343-350 | A short list is kept, then padded with exactly min(missing, eligible) trending products, all in stock and not excluded. A long list is cut to `limit`. Ids stay unique when the list's and the catalog's are and the list's ids are excluded from the padding. |
| Recommendations.Feed | src/services/api/recommendationService.js:338-350 | At most `limit` in-stock catalog products, none of them excluded. Ids are unique when the catalog's are. Every scored product comes before every trending one, by non-increasing score. A candidate set no larger than `limit` is shown whole, and one at least as large fills the list. A short list holds every in-stock product that is not excluded. A candidate is left out only when the list is full and every listed product is a candidate scoring at least as much. |
| Recommendations.PersonalScoreFrom | src/services/api/recommendationService.js:300-336 | Whatever duplicate-free list the purchase strategy contributes, a product's score is 3, 2.5, 2 and 1.5 summed over the strategies that offered it. |
| Recommendations.PersonalScore | src/services/api/recommendationService.js:300-336 | With the corrected purchase strategy, a product's score is 3, 2.5, 2 and 1.5 summed over the cart, wishlist, purchase and browsing strategies that offered it. |
| Recommendations.Personalized | src/services/api/recommendationService.js:297-351 | With the corrected purchase strategy: at most `limit` in-stock catalog products. Ids are unique when the catalog's are. The scored part comes first, by non-increasing score. A short candidate set is shown whole, and a large one fills the list. A short list holds every in-stock product. A candidate is left out only when the list is full of candidates scoring at least as much. |
| Recommendations.PersonalizedAsWritten | src/services/api/recommendationService.js:297-351 | The feed with the purchase strategy as written at line 256 (`Strategies.PurchaseBasedAsWritten`). The browsing strategy keeps the reading of line 285 taken for `Strategies.BrowsingBased`. It keeps the same guarantees over its own candidate map. |
| Recommendations.FreshShopperSeesTrending | src/services/api/recommendationService.js:297-351 | With an empty cart, wishlist, order history and browsing history, the feed is the trending list. |
| Recommendations.SimilarScore | src/services/api/recommendationService.js:361-379 | A product's score is 3 if co-purchased plus 2 if content-similar. |
| Recommendations.SimilarProducts | src/services/api/recommendationService.js:356-394 | Records the view in the browsing history. Shows at most `limit` in-stock catalog products, never the viewed one. Ids are unique when the catalog's are. Co-purchased and similar products come first, by non-increasing score. A short candidate set is shown whole, and a large one fills the list. A short list holds every in-stock product other than the viewed one. A candidate is left out only when the list is full of candidates scoring at least as much. |
| Recommendations.UnknownProductSeesTrending | src/services/api/recommendationService.js:356-394 | An unknown product that was never ordered gets the trending list, without itself. |
| ProductFilters.FilterProducts | src/utils/productFilters.js:1-47 | The result is a subsequence of the input. Every kept product meets the query, category, subcategory, price range, brand, rating and stock tests. Every product that passes all tests is kept. |
| ProductFilters.FilterProductsIdempotent | src/utils/productFilters.js:1-47 | Filtering a filtered list again changes nothing. |
| ProductFilters.ClearedFiltersKeepAll | src/utils/productFilters.js:1-47 | The cleared filter state keeps every product priced within 0..1000 with a non-negative rating. |
| ProductFilters.SortProducts | src/utils/productFilters.js:49-69 | The result is a permutation of the input, ordered by the named key: ascending price, descending price, rating or review count, ascending name rank, or newest first. Any other key orders by the featured flag. |
| ProductFilters.UnknownSortIsFeatured | src/utils/productFilters.js:65-67 | An unrecognised sort key gives exactly the "featured" order. |
| ProductFilters.SortProductsIsStable | src/utils/productFilters.js:49-69 | Products with equal keys keep their input order. |
| ProductFilters.ActiveFiltersCount | src/utils/productFilters.js:71-83 | The count is 0 exactly when no filter is active. Otherwise it lies between the number of brands and that number plus 6. |
| ProductFilters.ClearedHasNoActiveFilters | src/utils/productFilters.js:71-83 | The cleared filter state counts no active filter. |
| ProductFilters.SettersCount | src/utils/productFilters.js:74-80 | Each setter other than the brand toggle moves the count by exactly the change in its own filter: switching the search, category, subcategory, price range, minimum rating or in-stock filter on adds one, and switching it off removes one. Choosing a category also drops a set subcategory. Changing the sort order leaves the count alone. |
| ProductFilters.ToggleBrandCount | src/utils/productFilters.js:78 | Toggling a brand moves the count by exactly one, up or down. |
| CartSlice.LineIndex | src/store/cartSlice.js:24-29 | The `findIndex` of a line by product id, size and colour: a matching index, or none exactly when no line matches. |
| CartSlice.AddToCart | src/store/cartSlice.js:22-44 | An existing line gains `quantity` units (default 1) and nothing else changes. Otherwise exactly one line is appended, stamped with `now`. |
| CartSlice.AddToCartTotal | src/store/cartSlice.js:22-44 | The total quantity grows by exactly the added quantity. |
| CartSlice.AddToCartKeepsLinesUnique | src/store/cartSlice.js:22-44 | No two lines share product id, size and colour afterwards if none did before. |
| CartSlice.RemoveFromCart | src/store/cartSlice.js:45-48 | Exactly the lines of that product go; the others stay in order. |
| CartSlice.RemoveFromCartTotal | src/store/cartSlice.js:45-48 | The total drops by exactly that product's units. |
| CartSlice.FirstOfProduct | src/store/cartSlice.js:51 | The first line with that product id, or none when no line has it. |
| CartSlice.UpdateQuantity | src/store/cartSlice.js:49-56 | Only the first line of the product changes, and only to a positive quantity. Otherwise the cart is unchanged. |
| CartSlice.ClearCart | src/store/cartSlice.js:57-60 | The cart is empty. |
| CartSlice.RemoveCartItem | src/store/cartSlice.js:61-71 | Exactly the lines matching all three fields go; the others stay in order. |
| CartSlice.RemovalsKeepLinesUnique | src/store/cartSlice.js:45-71 | Removing lines, and updating a quantity to any value, keep line keys unique. |
| WishlistSlice.AddToWishlist | src/store/wishlistSlice.js:20-27 | An absent id is appended and dated; a present id changes nothing. Validity is kept: no duplicates, and the dated ids are exactly the listed ones. |
| WishlistSlice.RemoveFromWishlist | src/store/wishlistSlice.js:28-33 | The id and its date go. The other ids keep their order and their dates. Validity is kept. |
| WishlistSlice.ClearWishlist | src/store/wishlistSlice.js:34-38 | Both the list and the dates are empty, which is valid. |
| WishlistSlice.AddThenRemove | src/store/wishlistSlice.js:20-33 | Adding an absent id and removing it restores the wishlist. |
| WishlistSlice.RemoveAbsent | src/store/wishlistSlice.js:28-33 | Removing an id that is not wished changes nothing. |
| FiltersSlice.SetSearchQuery | src/store/filtersSlice.js:16-18 | Sets the query and no other field. |
| FiltersSlice.SetCategory | src/store/filtersSlice.js:19-22 | Sets the category and clears the subcategory, and no other field. |
| FiltersSlice.SetSubcategory | src/store/filtersSlice.js:23-25 | Sets the subcategory and no other field. |
| FiltersSlice.SetPriceRange | src/store/filtersSlice.js:26-28 | Sets the price range and no other field. |
| FiltersSlice.ToggleBrand | src/store/filtersSlice.js:29-36 | A brand is listed afterwards exactly when it was not before; other brands and fields are unchanged. A new brand is appended; a listed one is removed and the list shrinks. Duplicate-freedom is kept. |
| FiltersSlice.ToggleBrandTwice | src/store/filtersSlice.js:29-36 | Toggling an unlisted brand twice restores the state. |
| FiltersSlice.SetMinRating | src/store/filtersSlice.js:37-39 | Sets the minimum rating and no other field. |
| FiltersSlice.SetInStockOnly | src/store/filtersSlice.js:40-42 | Sets the in-stock switch and no other field. |
| FiltersSlice.SetSortBy | src/store/filtersSlice.js:43-45 | Sets the sort key and no other field. |
| FiltersSlice.ClearFilters | src/store/filtersSlice.js:46-55 | Every field is back at its initial value: empty texts and brands, range 0..1000, rating 0, switch off, "featured". |
| FiltersSlice.ClearFiltersIdempotent | src/store/filtersSlice.js:46-55 | Clearing twice is clearing once, and every state clears to the same state. |
| FiltersSlice.CategoryOverridesSubcategory | src/store/filtersSlice.js:19-25 | Setting the category after a subcategory gives the same state as setting the category alone. |
| FiltersSlice.SettersCommute | src/store/filtersSlice.js:16-45 | Setters of different fields commute, and a later sort key replaces an earlier one. |
| ProductService.GetById | src/services/api/productService.js:11-18 | Fails with "Product not found" exactly when no product has the id. Otherwise returns the first product with it. |
| ProductService.FindIsFirst | src/services/api/productService.js:13 | `find` returns the product at the first index carrying the id. |
| ProductService.GetByCategory | src/services/api/productService.js:20-25 | Keeps, in order, exactly the products whose category equals the argument ignoring case. |
| ProductService.CategoryIgnoresCase | src/services/api/productService.js:20-25 | Lower-casing the argument first changes nothing. |
| ProductService.Search | src/services/api/productService.js:32-41 | Keeps, in order, exactly the products whose name, description, brand or a tag contains the query, ignoring case. |
| ProductService.EmptySearchKeepsAll | src/services/api/productService.js:32-41 | The empty query returns the whole catalog. |
| ProductService.GetRecommended | src/services/api/productService.js:43-55 | An unknown id yields nothing. Otherwise at most `limit` other products of the same category, by non-increasing rating. A sibling is left out only when the list is full and every listed product rates at least as high. |
| ProductService.RecommendedTop | src/services/api/productService.js:49-52 | The cut of the rating-ordered siblings is ordered by rating. It holds only other products of the category. A sibling is left out only when the list is full and every listed product rates at least as high. |
| ProductService.GetRecommendedIsStable | src/services/api/productService.js:49-52 | Recommended products with equal ratings keep their catalog order. |
| ProductService.Create | src/services/api/productService.js:57-67 | Appends one product. Without an id in the data, its id is one more than the largest id in use, so it is fresh. An id, name or category in the data wins. |
| ProductService.CreateThenGet | src/services/api/productService.js:57-67 | The created product is what a lookup of its new id returns. |
| ProductService.Update | src/services/api/productService.js:69-77 | Fails with "Product not found" exactly when no product has the id. Otherwise only that index changes, to the merge of the old product and the data. |
| ProductService.UpdateThenGet | src/services/api/productService.js:69-77 | Without a new id in the data, a lookup afterwards returns the updated product. |
| ProductService.Delete | src/services/api/productService.js:79-87 | Fails exactly when no product has the id. Otherwise exactly that product leaves and the rest keep their order. |
| ProductService.DeleteThenGet | src/services/api/productService.js:79-87 | With unique ids, the deleted id can no longer be looked up. |
| Orders.OrderNumber | src/services/api/orderService.js:31-32 | The number reads `MH-<year>-`, then the id's digits left-padded with zeros to three (`padStart(3, '0')`): exactly three digits, or as many as `String(id)` has when that is more. The digits read back as the id. |
| Orders.GetById | src/services/api/orderService.js:11-18 | Fails with "Order not found" exactly when no order has the id. |
| Orders.GetByOrderId | src/services/api/orderService.js:20-27 | Fails with "Order not found" exactly when no order has that number. |
| Orders.Create | src/services/api/orderService.js:29-45 | Appends one order. Without an id in the data, its id is one more than the largest id in use. Without an order number, the number is built from the next id. Status defaults to "processing" and the tracking number to null. A status or item list in the data wins. |
| Orders.Update | src/services/api/orderService.js:47-55 | Fails exactly for an unknown id. Otherwise only that index changes, to the merge. |
| Orders.WithStatus | src/services/api/orderService.js:62-68 | The status is set. An existing tracking number is never replaced. Only "shipped" on an order without one assigns a new one. The id, number, items and order date are kept. |
| Orders.UpdateStatus | src/services/api/orderService.js:57-71 | Fails exactly for an unknown id. Otherwise only that order changes, as `WithStatus` says. |
| Orders.Delete | src/services/api/orderService.js:73-81 | Fails exactly for an unknown id. Otherwise exactly that order leaves and the rest keep their order. |
| ReviewService.GetById | src/services/api/reviewService.js:11-18 | Fails with "Review not found" exactly when no review has the id. |
| ReviewService.GetByProductId | src/services/api/reviewService.js:20-25 | Exactly the reviews whose product id is the product's id as a string, each as often as in the table, newest first. |
| ReviewService.GetByProductIdIsStable | src/services/api/reviewService.js:22-24 | Reviews of the product with equal times keep their table order. |
| ReviewService.Create | src/services/api/reviewService.js:27-39 | Appends one review. Without an id in the data, its id is one more than the largest id in use. Defaults: date `now`, not verified, no votes. A product id or verified flag in the data wins. |
| ReviewService.CreatedReviewIsListed | src/services/api/reviewService.js:20-39 | A review created for a product is listed among that product's reviews. |
| ReviewService.Update | src/services/api/reviewService.js:41-49 | Fails exactly for an unknown id. Otherwise only that index changes, to the merge. |
| ReviewService.AddVote | src/services/api/reviewService.js:57 | One more helpful vote; nothing else about the review changes. |
| ReviewService.VoteHelpful | src/services/api/reviewService.js:51-59 | Fails exactly for an unknown id. Otherwise only that review gains one vote. |
| ReviewService.VoteAddsOne | src/services/api/reviewService.js:51-59 | A successful vote adds exactly one vote to the table's total. |
| ReviewService.Delete | src/services/api/reviewService.js:61-69 | Fails exactly for an unknown id. Otherwise exactly that review leaves and the rest keep their order. |
| ReviewService.DeleteThenGet | src/services/api/reviewService.js:61-69 | With unique ids, the deleted review can no longer be looked up. |

## Left out

- The artificial `delay()` and all async/Promise plumbing: every operation is synchronous.
- Storage reads, writes and their `try`/`catch`:
  - the browsing history, cart and wishlist readers of the engine;
  - the loaders and savers of the cart and wishlist slices.

  Their values are parameters. A failed read leaves an empty wishlist (`WishlistSlice.Empty`) and an empty list for the others.
- The engine's storage readers as written do not see the slices' data, and this is not modelled:
  - the engine reads the keys `cart` and `wishlist` and takes `.items`;
  - the cart slice writes an array under `market-haven-cart`;
  - the wishlist slice writes `{productIds, addedDates}` under `market-haven-wishlist`.

  The model passes the cart and the wishlist in directly.
- Product ids are one type (`nat`). The source mixes numbers and strings and uses `parseInt`, at recommendationService.js lines 63, 70, 157, 181, 229, 256, 285 and 388. Line 256 is modelled as written under Findings, because order items hold numbers. The other places are modelled as the evidently intended id comparison.
- Strategies.BrowsingBased: the history is taken to hold ids that `history.includes(product.Id.toString())` (line 285) can find, that is strings. If the history holds numbers, line 285 excludes nothing and already-viewed products are offered. The history is written only by `addToBrowsingHistory` from `getSimilarProducts` (line 359), so it holds the same `productId` that lines 63 and 70 compare with numeric order items. This string-history reading therefore contradicts the numeric id taken for `Strategies.Collaborative` on the next line: under either typing the source misbehaves at line 285 or at lines 63 and 70. The model takes the evidently intended reading of both.
- Strategies.Collaborative / Recommendations.SimilarProducts: the product id is taken to be a number. If it is a string, as `parseInt(productId)` at line 388 suggests it may be, `item.productId === productId` (lines 63 and 70) matches no numeric order item and co-purchases contribute nothing.
- Recommendations.Personalized / Recommendations.PersonalScore: both use the corrected purchase strategy `Strategies.PurchaseBased`, while line 321 calls the as-written one. The feed with line 256 as written is `Recommendations.PersonalizedAsWritten` over `Recommendations.PersonalScoresAsWritten`, with the same contract. Its browsing strategy is the one of `Strategies.BrowsingBased`, so it is not the source as written at line 285. The two feeds differ whenever the as-written strategy recommends a purchased product.
- The trend score `rating * Math.log(reviewCount + 1)` is floating point, so it is the parameter `trend`. Prices and ratings are exact reals, not IEEE doubles. The NaN and Infinity of a zero price average are modelled by their effect: no price bonus.
- Clocks and randomness are parameters:
  - `new Date().toISOString()` → `now`;
  - `getFullYear()` → `year`;
  - `Math.random().toString(36)` → `suffix`;
  - `new Date(...)` in the review and "newest" sorts → `time` and `age`;
  - `localeCompare` in the "name" sort → `nameRank`.
- `toLowerCase` lower-cases the ASCII letters only; no other Unicode case mapping is modelled.
- `productService.getAll`, `getFeatured`, `orderService.getAll` (a date sort) and `reviewService.getAll` are not modelled. They are copies or single filters outside the named core.
- `createdAt` on created products is not stored.
- ProductService.Create: fields that `productData` leaves out read as the `Blank` product's values, where the source leaves them undefined.
- ReviewService.Create: fields that `reviewData` leaves out and that have no default in the source read as the empty string (product id, reviewer name, title, comment) or 0.0 (rating), where the source leaves them undefined.
- ProductService.Create (and likewise Orders.Create and ReviewService.Create): each requires a non-empty table. `Math.max()` of no ids is `-Infinity`, which gives the new record the id `-Infinity + 1`; this cannot be represented.
- CartSlice.AddToCart: an explicit `null` quantity in the payload is not modelled. The destructuring default applies only to `undefined`.
- ProductFilters.ToggleBrandCount requires a duplicate-free brand list. `toggleBrand` keeps the list duplicate-free (`FiltersSlice.ToggleBrand`). With duplicates, removing a brand drops every copy.
- CandidateMap.Bump: the function's own contract states only membership. Its key order and scores are stated by `CandidateMap.BumpKeys` and `CandidateMap.BumpScore`.
- Strategies.PurchaseBasedAsWritten: does not state which products it excludes. Its failure to exclude purchased products is shown by `Strategies.PurchasedProductRecommendedBack`.
- Strategies.CartBased, Strategies.WishlistBased, Strategies.BrowsingBased: which neighbours survive the cut at `limit` is not stated. The source keeps the first ones inserted into the map. The contracts state where each result comes from and that a short list is complete.
- Orders.Create: when the data has no item list, the items default to the empty list, where the source leaves them undefined.
- ProductService.Create: the contract names only the id, name and category among the fields taken from the data. The other fields are merged the same way.
- Orders.Create: the contract names only the status and items among the fields taken from the data. The other fields are merged the same way.
- ReviewService.Create: the contract names only the product id and verified flag among the fields taken from the data. The other fields are merged the same way.
- `limit` parameters are natural numbers throughout. Negative limits, which `slice` counts from the end, are not modelled.
- Default `limit` arguments are not modelled: every caller passes `limit` explicitly. The defaults are 4 for `getRecommended`, 12 for `getPersonalizedRecommendations`, 8 for `getSimilarProducts` and 10 for the strategies and `getTrendingProducts`. The limits the source fixes at its own call sites (8, 5, 3, 4, 6) are constants of the model.
- Co-occurrence ties come out by ascending product id, as `Object.entries` lists integer-like keys. They do not come out in the order the partners were first seen.
- Reviews are matched to products by the decimal string of the product id (`productId.toString()`). Other string forms of a product id are not modelled.

## Findings

| source | as written | input that shows it | evidently intended | confidence | as-written member | corrected member |
|---|---|---|---|---|---|---|
| src/services/api/recommendationService.js:256 | `purchasedIds.includes(product.Id.toString())` looks for a string among the numeric ids that orders hold, so nothing is ever excluded | One order of an out-of-stock product `a` and an in-stock product `b`: `b` is recommended back although it was bought | Leave out every product that was already purchased | not executed | Strategies.PurchaseBasedAsWritten (with Strategies.PurchasedProductRecommendedBack and Recommendations.PersonalizedAsWritten) | Strategies.PurchaseBased (with Strategies.PurchasedProductNotRecommended) |
