/**
 * The insertion-ordered `Map` the engine accumulates candidates in, keyed by product id.
 * `Map.prototype.set` on a present key keeps the key's position and replaces its value; on
 * a new key it appends. `Array.from(map.values())` lists the values in key order.
 */
module CandidateMap {
  import opened Seqs
  import opened StableSort
  import opened Catalog

  /** A product with its accumulated score (`{ product, score }` in the source). */
  datatype Candidate = Candidate(product: Product, score: real)

  function Products(cs: seq<Candidate>): (r: seq<Product>)
    ensures |r| == |cs|
    ensures forall i :: 0 <= i < |cs| ==> r[i] == cs[i].product
  {
    seq(|cs|, i requires 0 <= i < |cs| => cs[i].product)
  }

  function ScoreKey(c: Candidate): real {
    c.score
  }

  /** Where the product carrying `id` sits. */
  function IndexOfId(ps: seq<Product>, id: nat): (i: nat)
    requires id in Ids(ps)
    ensures i < |ps| && ps[i].id == id
  {
    IdsSplit(ps);
    if ps[0].id == id then 0
    else
      var k := IndexOfId(ps[1..], id);
      assert ps[1..][k] == ps[k + 1];
      k + 1
  }

  /** `map.set(p.Id, p)` on a map from id to product. */
  function Put(ps: seq<Product>, p: Product): (r: seq<Product>)
    ensures Ids(r) == if p.id in Ids(ps) then Ids(ps) else Ids(ps) + [p.id]
    ensures p in r
    ensures forall q :: q in r ==> q in ps || q == p
    ensures UniqueIds(ps) ==> UniqueIds(r)
  {
    if p.id in Ids(ps) then
      var r := ps[IndexOfId(ps, p.id) := p];
      assert Ids(r) == Ids(ps);
      r
    else
      var r := ps + [p];
      assert Ids(r) == Ids(ps) + [p.id];
      assert forall k :: 0 <= k < |ps| ==> ps[k].id == Ids(ps)[k];
      r
  }

  /** `ps.forEach(p => map.set(p.Id, p))`. */
  function PutAll(acc: seq<Product>, ps: seq<Product>): (r: seq<Product>)
    ensures forall q :: q in r ==> q in acc || q in ps
    ensures forall id :: id in Ids(r) <==> id in Ids(acc) || id in Ids(ps)
    ensures UniqueIds(acc) ==> UniqueIds(r)
    ensures |r| <= |acc| + |ps|
    decreases |ps|
  {
    if |ps| == 0 then acc
    else
      var r := PutAll(Put(acc, ps[0]), ps[1..]);
      IdsSplit(ps);
      r
  }

  /** The score kept under `id`, or 0 when absent (`map.get(id)?.score || 0`). */
  function ScoreOf(cs: seq<Candidate>, id: nat): real {
    if |cs| == 0 then 0.0
    else if cs[0].product.id == id then cs[0].score
    else ScoreOf(cs[1..], id)
  }

  /** A key the map does not hold scores 0. */
  lemma {:induction false} ScoreOfAbsent(cs: seq<Candidate>, id: nat)
    requires id !in Ids(Products(cs))
    ensures ScoreOf(cs, id) == 0.0
  {
    if |cs| > 0 {
      assert Ids(Products(cs))[0] == cs[0].product.id;
      assert forall k :: 0 <= k < |cs| - 1 ==> Ids(Products(cs[1..]))[k] == Ids(Products(cs))[k + 1];
      ScoreOfAbsent(cs[1..], id);
    }
  }

  /** `map.set(p.Id, { product: p, score: (map.get(p.Id)?.score || 0) + w })`. */
  function Bump(cs: seq<Candidate>, p: Product, w: real): (r: seq<Candidate>)
    ensures forall c :: c in r ==> c in cs || c.product == p
  {
    if |cs| == 0 then [Candidate(p, w)]
    else if cs[0].product.id == p.id then [Candidate(p, cs[0].score + w)] + cs[1..]
    else [cs[0]] + Bump(cs[1..], p, w)
  }

  /** The keys of a map with one more entry in front. */
  lemma KeysCons(c: Candidate, cs: seq<Candidate>)
    ensures Ids(Products([c] + cs)) == [c.product.id] + Ids(Products(cs))
  {
    var l := Ids(Products([c] + cs));
    var m := [c.product.id] + Ids(Products(cs));
    forall i | 0 <= i < |l| ensures l[i] == m[i] {
      if i > 0 {
        assert ([c] + cs)[i] == cs[i - 1];
      }
    }
  }

  /** A bump keeps the keys and their order, appending the key when it is new. */
  lemma {:induction false} BumpKeys(cs: seq<Candidate>, p: Product, w: real)
    ensures Ids(Products(Bump(cs, p, w))) ==
      if p.id in Ids(Products(cs)) then Ids(Products(cs)) else Ids(Products(cs)) + [p.id]
  {
    if |cs| > 0 {
      assert cs == [cs[0]] + cs[1..];
      KeysCons(cs[0], cs[1..]);
      if cs[0].product.id != p.id {
        BumpKeys(cs[1..], p, w);
        KeysCons(cs[0], Bump(cs[1..], p, w));
      } else {
        KeysCons(Candidate(p, cs[0].score + w), cs[1..]);
      }
    }
  }

  /** A bump never gives two entries the same key. */
  lemma BumpKeepsUnique(cs: seq<Candidate>, p: Product, w: real)
    requires UniqueIds(Products(cs))
    ensures UniqueIds(Products(Bump(cs, p, w)))
  {
    BumpKeys(cs, p, w);
    var b := Products(Bump(cs, p, w));
    var k := Ids(b);
    assert forall i :: 0 <= i < |k| ==> k[i] == b[i].id;
    var k0 := Ids(Products(cs));
    assert forall i :: 0 <= i < |k0| ==> k0[i] == Products(cs)[i].id;
  }

  /** A bump adds `w` to the score under the product's id and leaves every other score. */
  lemma {:induction false} BumpScore(cs: seq<Candidate>, p: Product, w: real, id: nat)
    ensures ScoreOf(Bump(cs, p, w), id) == ScoreOf(cs, id) + (if id == p.id then w else 0.0)
  {
    if |cs| > 0 && cs[0].product.id != p.id {
      BumpScore(cs[1..], p, w, id);
      assert Bump(cs, p, w)[1..] == Bump(cs[1..], p, w);
    }
  }

  /** `ps.forEach(p => bump p by w)`. */
  function BumpAll(cs: seq<Candidate>, ps: seq<Product>, w: real): (r: seq<Candidate>)
    ensures forall c :: c in r ==> c in cs || c.product in ps
    ensures forall id :: id in Ids(Products(r)) <==> id in Ids(Products(cs)) || id in Ids(ps)
    ensures UniqueIds(Products(cs)) ==> UniqueIds(Products(r))
    decreases |ps|
  {
    if |ps| == 0 then cs
    else
      var b := Bump(cs, ps[0], w);
      BumpKeys(cs, ps[0], w);
      var r := BumpAll(b, ps[1..], w);
      assert UniqueIds(Products(cs)) ==> UniqueIds(Products(b)) by {
        if UniqueIds(Products(cs)) {
          BumpKeepsUnique(cs, ps[0], w);
        }
      }
      IdsSplit(ps);
      r
  }

  /**
   * Each product of a duplicate-free list adds its weight once: the accumulated score is the
   * old score plus `w` exactly when the id is listed.
   */
  lemma {:induction false} BumpAllScore(cs: seq<Candidate>, ps: seq<Product>, w: real, id: nat)
    requires UniqueIds(ps)
    ensures ScoreOf(BumpAll(cs, ps, w), id) == ScoreOf(cs, id) + (if id in Ids(ps) then w else 0.0)
    decreases |ps|
  {
    if |ps| > 0 {
      var tail := ps[1..];
      UniqueTail(ps);
      IdsSplit(ps);
      BumpAllScore(Bump(cs, ps[0], w), tail, w, id);
      BumpScore(cs, ps[0], w, id);
    }
  }

  /** With unique keys, the score stored in a candidate is what lookup by its id returns. */
  lemma {:induction false} ScoreOfMember(cs: seq<Candidate>, c: Candidate)
    requires UniqueIds(Products(cs)) && c in cs
    ensures ScoreOf(cs, c.product.id) == c.score
  {
    if cs[0] != c {
      var tail := cs[1..];
      assert c in tail;
      var k :| 0 <= k < |tail| && tail[k] == c;
      assert cs[k + 1] == c;
      assert Products(cs)[0].id != Products(cs)[k + 1].id;
      assert UniqueIds(Products(tail)) by {
        forall i, j | 0 <= i < j < |tail| ensures Products(tail)[i].id != Products(tail)[j].id {
          assert Products(tail)[i] == Products(cs)[i + 1] && Products(tail)[j] == Products(cs)[j + 1];
        }
      }
      ScoreOfMember(tail, c);
    }
  }

  /**
   * `Array.from(map.values()).sort((a, b) => b.score - a.score).map(c => c.product)`: the
   * candidates' products, highest accumulated score first, ties in insertion order.
   */
  function Ranked(cs: seq<Candidate>): (r: seq<Product>)
    ensures |r| == |cs|
    ensures forall p :: p in r <==> p in Products(cs)
    ensures UniqueIds(Products(cs)) ==> UniqueIds(r)
  {
    var sorted := SortDesc(cs, ScoreKey);
    var r := Products(sorted);
    assert forall p :: p in r <==> p in Products(cs) by {
      forall p ensures p in r <==> p in Products(cs) {
        if p in r {
          var i :| 0 <= i < |r| && r[i] == p;
          assert sorted[i] in cs;
          var k :| 0 <= k < |cs| && cs[k] == sorted[i];
          assert Products(cs)[k] == p;
        }
        if p in Products(cs) {
          var k :| 0 <= k < |cs| && Products(cs)[k] == p;
          assert cs[k] in sorted;
          var i :| 0 <= i < |sorted| && sorted[i] == cs[k];
          assert r[i] == p;
        }
      }
    }
    if UniqueIds(Products(cs)) then
      UniqueKeysRanked(cs, sorted);
      r
    else r
  }

  lemma UniqueKeysRanked(cs: seq<Candidate>, sorted: seq<Candidate>)
    requires UniqueIds(Products(cs)) && multiset(sorted) == multiset(cs)
    ensures UniqueIds(Products(sorted))
  {
    assert NoDup(cs) by {
      forall i, j | 0 <= i < j < |cs| ensures cs[i] != cs[j] {
        assert Products(cs)[i].id != Products(cs)[j].id;
      }
    }
    NoDupOfPermutation(sorted, cs);
    forall i, j | 0 <= i < j < |sorted| ensures Products(sorted)[i].id != Products(sorted)[j].id {
      assert sorted[i] in multiset(cs) && sorted[j] in multiset(cs);
      var k :| 0 <= k < |cs| && cs[k] == sorted[i];
      var l :| 0 <= l < |cs| && cs[l] == sorted[j];
      assert k != l;
      assert Products(cs)[k].id != Products(cs)[l].id;
    }
  }

  /** A product's accumulated score, looked up by id. */
  function ScoreIn(cs: seq<Candidate>): Product -> real {
    (p: Product) => ScoreOf(cs, p.id)
  }

  /** The ranked list is ordered by non-increasing accumulated score. */
  lemma RankedByScore(cs: seq<Candidate>)
    requires UniqueIds(Products(cs))
    ensures var r := Ranked(cs);
      forall i, j :: 0 <= i < j < |r| ==> ScoreOf(cs, r[i].id) >= ScoreOf(cs, r[j].id)
  {
    var sorted := SortDesc(cs, ScoreKey);
    var r := Ranked(cs);
    forall i | 0 <= i < |sorted| ensures ScoreOf(cs, r[i].id) == sorted[i].score {
      assert sorted[i] in multiset(cs);
      ScoreOfMember(cs, sorted[i]);
    }
  }

  /** The ranking, stated with the id lookup as sort key. */
  lemma RankedSorted(cs: seq<Candidate>)
    requires UniqueIds(Products(cs))
    ensures SortedDesc(Ranked(cs), ScoreIn(cs))
  {
    RankedByScore(cs);
  }
}
