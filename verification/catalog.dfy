/** The product record and the catalog queries every other component shares. */
module Catalog {
  import opened Wrappers
  import opened Seqs
  import Text

  /**
   * A catalog product, with the attributes the engine, the filters and the repository read.
   * `featured` is the source's 0/1 flag (absent reads as 0).
   */
  datatype Product = Product(
    id: nat,
    name: string,
    description: string,
    brand: string,
    category: string,
    subcategory: string,
    price: real,
    rating: real,
    reviewCount: nat,
    stock: nat,
    tags: seq<string>,
    featured: int)

  function Ids(ps: seq<Product>): (r: seq<nat>)
    ensures |r| == |ps|
    ensures forall i :: 0 <= i < |ps| ==> r[i] == ps[i].id
  {
    seq(|ps|, i requires 0 <= i < |ps| => ps[i].id)
  }

  /** Product ids are unique within the sequence. */
  predicate UniqueIds(ps: seq<Product>) {
    forall i, j :: 0 <= i < j < |ps| ==> ps[i].id != ps[j].id
  }

  lemma IdsOfMember(ps: seq<Product>, p: Product)
    requires p in ps
    ensures p.id in Ids(ps)
  {
    var i :| 0 <= i < |ps| && ps[i] == p;
    assert Ids(ps)[i] == p.id;
  }

  lemma InIds(ps: seq<Product>, id: nat)
    ensures id in Ids(ps) <==> exists p :: p in ps && p.id == id
  {
    if id in Ids(ps) {
      var i :| 0 <= i < |ps| && Ids(ps)[i] == id;
      assert ps[i] in ps;
    }
    if exists p :: p in ps && p.id == id {
      var p :| p in ps && p.id == id;
      IdsOfMember(ps, p);
    }
  }

  lemma IdsSplit(ps: seq<Product>)
    requires |ps| > 0
    ensures Ids(ps) == [ps[0].id] + Ids(ps[1..])
    ensures forall q :: q in ps <==> q == ps[0] || q in ps[1..]
  {
    assert ps == [ps[0]] + ps[1..];
  }

  /** Unique ids stay unique without the first product, whose id no other one carries. */
  lemma UniqueTail(ps: seq<Product>)
    requires |ps| > 0 && UniqueIds(ps)
    ensures UniqueIds(ps[1..]) && ps[0].id !in Ids(ps[1..])
  {
    var tail := ps[1..];
    forall i, j | 0 <= i < j < |tail| ensures tail[i].id != tail[j].id {
      assert tail[i] == ps[i + 1] && tail[j] == ps[j + 1];
    }
    forall k | 0 <= k < |tail| ensures Ids(tail)[k] != ps[0].id {
      assert ps[k + 1] == tail[k];
    }
  }

  /** In a catalog with unique ids, an id names one product. */
  lemma SameIdSameProduct(ps: seq<Product>, a: Product, b: Product)
    requires UniqueIds(ps) && a in ps && b in ps && a.id == b.id
    ensures a == b
  {
    var i :| 0 <= i < |ps| && ps[i] == a;
    var j :| 0 <= j < |ps| && ps[j] == b;
    assert !(i < j) && !(j < i);
  }

  /** A cut of a list with unique ids keeps them unique and adds no product. */
  lemma TakeKeepsUnique(ps: seq<Product>, n: nat)
    requires UniqueIds(ps)
    ensures UniqueIds(Take(ps, n))
    ensures forall p :: p in Take(ps, n) ==> p in ps
  {
    var r := Take(ps, n);
    forall i, j | 0 <= i < j < |r| ensures r[i].id != r[j].id {
      assert r[i] == ps[i] && r[j] == ps[j];
    }
    TakeMembers(ps, n);
  }

  /** Two lists with unique ids, whose ids are kept apart by `exclude`, join with unique ids. */
  lemma JoinKeepsUnique(xs: seq<Product>, ys: seq<Product>, exclude: seq<nat>)
    requires UniqueIds(xs) && UniqueIds(ys)
    requires forall p :: p in xs ==> p.id in exclude
    requires forall p :: p in ys ==> p.id !in exclude
    ensures UniqueIds(xs + ys)
  {
    var r := xs + ys;
    forall i, j | 0 <= i < j < |r| ensures r[i].id != r[j].id {
      if j < |xs| {
        assert r[i] == xs[i] && r[j] == xs[j];
      } else if i >= |xs| {
        assert r[i] == ys[i - |xs|] && r[j] == ys[j - |xs|];
      } else {
        assert r[i] == xs[i] && xs[i] in xs;
        assert r[j] == ys[j - |xs|] && ys[j - |xs|] in ys;
      }
    }
  }

  /** `ps.find(p => p.Id === id)`: the first product carrying that id. */
  function Find(ps: seq<Product>, id: nat): (r: Option<Product>)
    ensures r.Some? ==> r.value in ps && r.value.id == id
    ensures r.None? <==> id !in Ids(ps)
  {
    if |ps| == 0 then None
    else if ps[0].id == id then Some(ps[0])
    else
      var r := Find(ps[1..], id);
      assert Ids(ps) == [ps[0].id] + Ids(ps[1..]);
      r
  }

  /** `p.stock > 0`. */
  predicate InStock(p: Product) {
    p.stock > 0
  }

  /**
   * The search test shared by the product filter and the product repository: the
   * (already lower-cased) query occurs in the lower-cased name, description, brand or a tag.
   */
  predicate MatchesQuery(p: Product, query: string) {
    || Text.Contains(Text.Lower(p.name), query)
    || Text.Contains(Text.Lower(p.description), query)
    || Text.Contains(Text.Lower(p.brand), query)
    || exists t :: t in p.tags && Text.Contains(Text.Lower(t), query)
  }

  lemma {:induction false} NoDupOfUnique(ps: seq<Product>)
    requires UniqueIds(ps)
    ensures forall p :: p in ps ==> multiset(ps)[p] == 1
  {
    if |ps| > 0 {
      assert UniqueIds(ps[1..]) by {
        forall i, j | 0 <= i < j < |ps[1..]| ensures ps[1..][i].id != ps[1..][j].id {
          assert ps[1..][i] == ps[i + 1] && ps[1..][j] == ps[j + 1];
        }
      }
      NoDupOfUnique(ps[1..]);
      assert ps == [ps[0]] + ps[1..];
      forall k | 0 <= k < |ps[1..]| ensures ps[1..][k] != ps[0] {
        assert ps[1..][k] == ps[k + 1];
      }
      forall p | p in ps ensures multiset(ps)[p] == 1 {
        assert multiset(ps) == multiset{ps[0]} + multiset(ps[1..]);
        if p != ps[0] {
          var k :| 0 <= k < |ps[1..]| && ps[1..][k] == p;
          assert ps[k + 1] == p;
        }
      }
    }
  }

  /**
   * Any selection of catalog entries (each taken at most as often as the catalog holds it)
   * inherits the uniqueness of ids.
   */
  lemma UniqueIdsOfSubmultiset(r: seq<Product>, c: seq<Product>)
    requires multiset(r) <= multiset(c)
    requires UniqueIds(c)
    ensures UniqueIds(r)
  {
    NoDupOfUnique(c);
    forall i, j | 0 <= i < j < |r| ensures r[i].id != r[j].id {
      assert r[i] in multiset(r) && r[j] in multiset(r);
      assert r[i] in c && r[j] in c;
      if r[i] == r[j] {
        TwiceCountsTwice(r, i, j);
      }
    }
  }
}
