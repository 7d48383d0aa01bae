/** The mock product repository (`productService`): lookups, search, and the table edits. */
module ProductService {
  import opened Wrappers
  import opened Seqs
  import opened Catalog
  import Text
  import StableSort
  import Repository

  /**
   * The fields a `productData` object may carry; `None` means the field is absent and the
   * spread leaves the existing value.
   */
  datatype ProductPatch = ProductPatch(
    id: Option<nat>,
    name: Option<string>,
    description: Option<string>,
    brand: Option<string>,
    category: Option<string>,
    subcategory: Option<string>,
    price: Option<real>,
    rating: Option<real>,
    reviewCount: Option<nat>,
    stock: Option<nat>,
    tags: Option<seq<string>>,
    featured: Option<int>)

  const NotFound: string := "Product not found"

  /** What a field the creating caller leaves out reads as. */
  const Blank: Product := Product(0, "", "", "", "", "", 0.0, 0.0, 0, 0, [], 0)

  function IdOf(p: Product): nat { p.id }

  function Rating(p: Product): real { p.rating }

  /** `{ ...p, ...patch }`: every field the patch carries wins. */
  function Merge(p: Product, patch: ProductPatch): (r: Product)
    ensures patch.id.None? ==> r.id == p.id
    ensures patch.id.Some? ==> r.id == patch.id.value
    ensures patch.category.None? ==> r.category == p.category
    ensures patch.price.Some? ==> r.price == patch.price.value
    ensures patch.stock.Some? ==> r.stock == patch.stock.value
    ensures patch == ProductPatch(None, None, None, None, None, None, None, None, None, None, None, None)
      ==> r == p
  {
    Product(
      patch.id.GetOr(p.id),
      patch.name.GetOr(p.name),
      patch.description.GetOr(p.description),
      patch.brand.GetOr(p.brand),
      patch.category.GetOr(p.category),
      patch.subcategory.GetOr(p.subcategory),
      patch.price.GetOr(p.price),
      patch.rating.GetOr(p.rating),
      patch.reviewCount.GetOr(p.reviewCount),
      patch.stock.GetOr(p.stock),
      patch.tags.GetOr(p.tags),
      patch.featured.GetOr(p.featured))
  }

  /** `getById`: the first product with that id, or "Product not found". */
  function GetById(catalog: seq<Product>, id: nat): (r: Result<Product>)
    ensures r.Failure? <==> id !in Ids(catalog)
    ensures r.Failure? ==> r.error == NotFound
    ensures r.Success? ==> r.value in catalog && r.value.id == id
    ensures r.Success? ==> Find(catalog, id) == Some(r.value)
  {
    var r := Repository.GetById(catalog, IdOf, id, NotFound);
    InIds(catalog, id);
    if r.Success? then
      FindIsFirst(catalog, id);
      r
    else r
  }

  /** `find` and `findIndex` agree on the first product carrying the id. */
  lemma {:induction false} FindIsFirst(catalog: seq<Product>, id: nat)
    requires Repository.IndexOf(catalog, IdOf, id).Some?
    ensures Find(catalog, id) == Some(catalog[Repository.IndexOf(catalog, IdOf, id).value])
  {
    if catalog[0].id != id {
      assert Repository.IndexOf(catalog, IdOf, id).value
        == Repository.IndexOf(catalog[1..], IdOf, id).value + 1;
      FindIsFirst(catalog[1..], id);
    }
  }

  /** The category test, on an already lower-cased category. */
  function InCategory(lowered: string): Product -> bool {
    (p: Product) => Text.Lower(p.category) == lowered
  }

  /** `getByCategory`: the products whose category equals `category` ignoring case, in order. */
  function GetByCategory(catalog: seq<Product>, category: string): (r: seq<Product>)
    ensures Subseq(r, catalog)
    ensures forall p :: p in r <==> p in catalog && Text.Lower(p.category) == Text.Lower(category)
  {
    Filter(catalog, InCategory(Text.Lower(category)))
  }

  /** `search`: the products whose name, description, brand or a tag contains the query, ignoring case. */
  function Search(catalog: seq<Product>, query: string): (r: seq<Product>)
    ensures Subseq(r, catalog)
    ensures forall p :: p in r <==> p in catalog && MatchesQuery(p, Text.Lower(query))
  {
    Filter(catalog, p => MatchesQuery(p, Text.Lower(query)))
  }

  /** The candidates of `getRecommended`: other products of exactly the same category. */
  function Sibling(of: Product): Product -> bool {
    (p: Product) => p.id != of.id && p.category == of.category
  }

  /**
   * `getRecommended`: the `limit` best-rated other products of the same (case-sensitive)
   * category, ties in catalog order; an unknown id yields nothing.
   */
  function GetRecommended(catalog: seq<Product>, id: nat, limit: nat): (r: seq<Product>)
    ensures id !in Ids(catalog) ==> r == []
    ensures |r| <= limit
    ensures StableSort.SortedDesc(r, Rating)
    ensures id in Ids(catalog) ==>
      var p := Find(catalog, id).value;
      forall q :: q in r ==> q in catalog && q.id != id && q.category == p.category
    ensures id in Ids(catalog) ==>
      var p := Find(catalog, id).value;
      forall q :: q in catalog && q.id != id && q.category == p.category && q !in r ==>
        |r| == limit && forall x :: x in r ==> x.rating >= q.rating
  {
    match Find(catalog, id)
    case None => []
    case Some(p) =>
      RecommendedTop(catalog, p, limit);
      Take(StableSort.SortDesc(Filter(catalog, Sibling(p)), Rating), limit)
  }

  /** The cut of the rating-ordered siblings keeps the best-rated ones. */
  lemma RecommendedTop(catalog: seq<Product>, p: Product, limit: nat)
    ensures var r := Take(StableSort.SortDesc(Filter(catalog, Sibling(p)), Rating), limit);
      && StableSort.SortedDesc(r, Rating)
      && (forall q :: q in r ==> q in catalog && q.id != p.id && q.category == p.category)
      && (forall q :: q in catalog && q.id != p.id && q.category == p.category && q !in r ==>
            |r| == limit && forall x :: x in r ==> x.rating >= q.rating)
  {
    var pool := Filter(catalog, Sibling(p));
    var ranked := StableSort.SortDesc(pool, Rating);
    var r := Take(ranked, limit);
    StableSort.TakeSorted(ranked, limit, Rating);
    TakeMembers(ranked, limit);
    forall q | q in catalog && q.id != p.id && q.category == p.category && q !in r
      ensures |r| == limit && forall x :: x in r ==> x.rating >= q.rating
    {
      assert Sibling(p)(q);
      StableSort.TakeOfSortedIsTop(ranked, limit, Rating, q);
    }
  }

  /** Ties in rating keep their catalog order: the sort is stable and filtering keeps order. */
  lemma GetRecommendedIsStable(catalog: seq<Product>, id: nat, limit: nat, position: Product -> int)
    requires forall i, j :: 0 <= i < j < |catalog| ==> position(catalog[i]) < position(catalog[j])
    ensures var r := GetRecommended(catalog, id, limit);
      forall i, j :: 0 <= i < j < |r| && r[i].rating == r[j].rating ==> position(r[i]) < position(r[j])
  {
    match Find(catalog, id)
    case None =>
    case Some(p) =>
      var pool := Filter(catalog, Sibling(p));
      var ranked := StableSort.SortDesc(pool, Rating);
      SubseqOrdered(pool, catalog, (a: Product, b: Product) => position(a) < position(b));
      StableSort.SortDescIsStable(pool, Rating, position);
      var r := Take(ranked, limit);
      assert forall i :: 0 <= i < |r| ==> r[i] == ranked[i];
  }

  /**
   * `create`: the new product gets one more than the largest id in use, then `productData`
   * is spread over it; fields the data leaves out read as `Blank`'s.
   */
  function Create(catalog: seq<Product>, data: ProductPatch): (r: Repository.Change<Product>)
    requires |catalog| > 0
    ensures r.table == catalog + [r.item]
    ensures data.id.None? ==> r.item.id !in Ids(catalog)
    ensures data.id.None? ==> forall k :: 0 <= k < |catalog| ==> catalog[k].id < r.item.id
    // one more than the largest id in use
    ensures data.id.None? ==> r.item.id == Repository.NextId(catalog, IdOf)
    ensures data.id.None? ==> exists k :: 0 <= k < |catalog| && catalog[k].id + 1 == r.item.id
    ensures data.id.Some? ==> r.item.id == data.id.value
    ensures data.name.Some? ==> r.item.name == data.name.value
    ensures data.category.Some? ==> r.item.category == data.category.value
  {
    var n := Repository.NextId(catalog, IdOf);
    var item := Merge(Blank.(id := n), data);
    InIds(catalog, n);
    Repository.Change(catalog + [item], item)
  }

  /** `update`: the first product with that id is merged with the patch; others stay. */
  function Update(catalog: seq<Product>, id: nat, data: ProductPatch): (r: Result<Repository.Change<Product>>)
    ensures r.Failure? <==> id !in Ids(catalog)
    ensures r.Failure? ==> r.error == NotFound
    ensures r.Success? ==> |r.value.table| == |catalog|
    ensures r.Success? ==>
      exists i :: 0 <= i < |catalog| && catalog[i].id == id
        && r.value.table[i] == Merge(catalog[i], data) && r.value.item == Merge(catalog[i], data)
        && (forall k :: 0 <= k < |catalog| && k != i ==> r.value.table[k] == catalog[k])
  {
    var r := Repository.UpdateById(catalog, IdOf, id, p => Merge(p, data), NotFound);
    InIds(catalog, id);
    if r.Success? then
      var i := Repository.IndexOf(catalog, IdOf, id).value;
      assert catalog[i].id == id && r.value.table[i] == Merge(catalog[i], data);
      r
    else r
  }

  /** `delete`: the first product with that id leaves the table and is returned. */
  function Delete(catalog: seq<Product>, id: nat): (r: Result<Repository.Change<Product>>)
    ensures r.Failure? <==> id !in Ids(catalog)
    ensures r.Failure? ==> r.error == NotFound
    ensures r.Success? ==> |r.value.table| == |catalog| - 1
    ensures r.Success? ==>
      exists i :: 0 <= i < |catalog| && catalog[i].id == id
        && r.value.item == catalog[i] && r.value.table == catalog[..i] + catalog[i + 1..]
  {
    var r := Repository.DeleteById(catalog, IdOf, id, NotFound);
    InIds(catalog, id);
    if r.Success? then
      var i := Repository.IndexOf(catalog, IdOf, id).value;
      assert catalog[i].id == id;
      r
    else r
  }

  /** A created product (with an allocated id) is what a lookup of its id then returns. */
  lemma CreateThenGet(catalog: seq<Product>, data: ProductPatch)
    requires |catalog| > 0 && data.id.None?
    ensures var c := Create(catalog, data);
      GetById(c.table, c.item.id) == Success(c.item)
  {
    var c := Create(catalog, data);
    var t := c.table;
    assert t[|catalog|] == c.item;
    IdsOfMember(t, c.item);
    var g := GetById(t, c.item.id);
    assert g.Success?;
    if g.value != c.item {
      assert g.value in catalog;
      IdsOfMember(catalog, g.value);
      assert false;
    }
  }

  /** Without a new id, an update is what a lookup of the same id then returns. */
  lemma UpdateThenGet(catalog: seq<Product>, id: nat, data: ProductPatch)
    requires Update(catalog, id, data).Success? && data.id.None?
    ensures var c := Update(catalog, id, data).value;
      GetById(c.table, id) == Success(c.item)
  {
    var c := Update(catalog, id, data).value;
    var i := Repository.IndexOf(catalog, IdOf, id).value;
    assert c.table == catalog[i := Merge(catalog[i], data)];
    assert forall k :: 0 <= k < i ==> c.table[k].id != id;
    assert Repository.IndexOf(c.table, IdOf, id) == Some(i) by {
      IndexOfFirst(c.table, id, i);
    }
  }

  /** The first index carrying the id is what `findIndex` reports. */
  lemma {:induction false} IndexOfFirst(xs: seq<Product>, id: nat, i: nat)
    requires i < |xs| && xs[i].id == id
    requires forall k :: 0 <= k < i ==> xs[k].id != id
    ensures Repository.IndexOf(xs, IdOf, id) == Some(i)
  {
    if i > 0 {
      IndexOfFirst(xs[1..], id, i - 1);
    }
  }

  /** With unique ids, a deleted product can no longer be looked up. */
  lemma DeleteThenGet(catalog: seq<Product>, id: nat)
    requires UniqueIds(catalog)
    requires Delete(catalog, id).Success?
    ensures GetById(Delete(catalog, id).value.table, id) == Failure(NotFound)
  {
    Repository.DeleteKeepsUnique(catalog, IdOf, id, NotFound);
    var t := Delete(catalog, id).value.table;
    InIds(t, id);
  }

  /** The empty query matches every product, so an empty search returns the catalog. */
  lemma EmptySearchKeepsAll(catalog: seq<Product>)
    ensures Search(catalog, "") == catalog
  {
    var f := (p: Product) => MatchesQuery(p, Text.Lower(""));
    forall p | p in catalog ensures f(p) {
      Text.EmptyQueryMatches(Text.Lower(p.name));
    }
    FilterKeepsAll(catalog, f);
  }

  /** Lower-casing the category first changes nothing: the lookup already ignores case. */
  lemma CategoryIgnoresCase(catalog: seq<Product>, category: string)
    ensures GetByCategory(catalog, Text.Lower(category)) == GetByCategory(catalog, category)
  {
    Text.LowerIdempotent(category);
  }
}
