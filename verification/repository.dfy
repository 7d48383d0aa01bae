/**
 * The in-memory table shared by the three mock repositories (products, orders, reviews):
 * lookup by numeric id, id allocation, in-place replacement and removal. The `idOf`
 * parameter reads a record's `Id`.
 */
module Repository {
  import opened Wrappers

  /** A table after a change, together with the record the call returns. */
  datatype Change<T> = Change(table: seq<T>, item: T)

  /** `findIndex(r => r.Id === id)`, with `None` for the source's `-1`. */
  function IndexOf<T>(xs: seq<T>, idOf: T -> nat, id: nat): (r: Option<nat>)
    ensures r.Some? ==> r.value < |xs| && idOf(xs[r.value]) == id
    ensures r.Some? ==> forall k :: 0 <= k < r.value ==> idOf(xs[k]) != id
    ensures r.None? <==> forall k :: 0 <= k < |xs| ==> idOf(xs[k]) != id
  {
    if |xs| == 0 then None
    else if idOf(xs[0]) == id then Some(0)
    else
      match IndexOf(xs[1..], idOf, id)
      case None =>
        assert forall k :: 1 <= k < |xs| ==> xs[k] == xs[1..][k - 1];
        None
      case Some(k) =>
        assert forall j :: 1 <= j <= k ==> xs[j] == xs[1..][j - 1];
        Some(k + 1)
  }

  /** `Math.max(...xs.map(r => r.Id))` on a non-empty table. */
  function MaxId<T>(xs: seq<T>, idOf: T -> nat): (m: nat)
    requires |xs| > 0
    ensures forall k :: 0 <= k < |xs| ==> idOf(xs[k]) <= m
    ensures exists k :: 0 <= k < |xs| && idOf(xs[k]) == m
  {
    if |xs| == 1 then idOf(xs[0])
    else
      var rest := MaxId(xs[1..], idOf);
      assert forall k :: 1 <= k < |xs| ==> xs[k] == xs[1..][k - 1];
      if idOf(xs[0]) >= rest then idOf(xs[0]) else rest
  }

  /** The id a new record receives: one more than the largest id in use, so it is fresh. */
  function NextId<T>(xs: seq<T>, idOf: T -> nat): (n: nat)
    requires |xs| > 0
    ensures forall k :: 0 <= k < |xs| ==> idOf(xs[k]) < n
    ensures exists k :: 0 <= k < |xs| && idOf(xs[k]) + 1 == n
    ensures n > 0
  {
    MaxId(xs, idOf) + 1
  }

  /** Lookup that throws `notFound` for an unknown id. */
  function GetById<T>(xs: seq<T>, idOf: T -> nat, id: nat, notFound: string): (r: Result<T>)
    ensures r.Failure? <==> forall k :: 0 <= k < |xs| ==> idOf(xs[k]) != id
    ensures r.Failure? ==> r.error == notFound
    ensures r.Success? ==> r.value in xs && idOf(r.value) == id
  {
    match IndexOf(xs, idOf, id)
    case None => Failure(notFound)
    case Some(i) => Success(xs[i])
  }

  /** Replaces the first record with that id by `f` of itself; throws for an unknown id. */
  function UpdateById<T>(xs: seq<T>, idOf: T -> nat, id: nat, f: T -> T, notFound: string)
    : (r: Result<Change<T>>)
    ensures r.Failure? <==> forall k :: 0 <= k < |xs| ==> idOf(xs[k]) != id
    ensures r.Failure? ==> r.error == notFound
    ensures r.Success? ==> IndexOf(xs, idOf, id).Some?
    ensures r.Success? ==>
      var i := IndexOf(xs, idOf, id).value;
      r.value.table == xs[i := f(xs[i])] && r.value.item == f(xs[i])
  {
    match IndexOf(xs, idOf, id)
    case None => Failure(notFound)
    case Some(i) => Success(Change(xs[i := f(xs[i])], f(xs[i])))
  }

  /** Removes the first record with that id and returns it; throws for an unknown id. */
  function DeleteById<T>(xs: seq<T>, idOf: T -> nat, id: nat, notFound: string)
    : (r: Result<Change<T>>)
    ensures r.Failure? <==> forall k :: 0 <= k < |xs| ==> idOf(xs[k]) != id
    ensures r.Failure? ==> r.error == notFound
    ensures r.Success? ==> |r.value.table| == |xs| - 1
    ensures r.Success? ==> IndexOf(xs, idOf, id).Some?
    ensures r.Success? ==>
      var i := IndexOf(xs, idOf, id).value;
      r.value.table == xs[..i] + xs[i + 1..] && r.value.item == xs[i]
  {
    match IndexOf(xs, idOf, id)
    case None => Failure(notFound)
    case Some(i) => Success(Change(xs[..i] + xs[i + 1..], xs[i]))
  }

  /** Ids are unique within the table. */
  predicate UniqueIds<T>(xs: seq<T>, idOf: T -> nat) {
    forall i, j :: 0 <= i < j < |xs| ==> idOf(xs[i]) != idOf(xs[j])
  }

  /** Appending a record that carries the allocated id keeps ids unique. */
  lemma AppendFreshKeepsUnique<T>(xs: seq<T>, idOf: T -> nat, item: T)
    requires |xs| > 0 && UniqueIds(xs, idOf)
    requires idOf(item) == NextId(xs, idOf)
    ensures UniqueIds(xs + [item], idOf)
  {
  }

  /** Deleting a record keeps ids unique, and the deleted id is gone from the table. */
  lemma {:induction false} DeleteKeepsUnique<T>(xs: seq<T>, idOf: T -> nat, id: nat, notFound: string)
    requires UniqueIds(xs, idOf)
    requires DeleteById(xs, idOf, id, notFound).Success?
    ensures UniqueIds(DeleteById(xs, idOf, id, notFound).value.table, idOf)
    ensures forall k :: 0 <= k < |DeleteById(xs, idOf, id, notFound).value.table| ==>
      idOf(DeleteById(xs, idOf, id, notFound).value.table[k]) != id
  {
    var i := IndexOf(xs, idOf, id).value;
    var t := xs[..i] + xs[i + 1..];
    assert forall k :: 0 <= k < |t| ==> t[k] == (if k < i then xs[k] else xs[k + 1]);
  }
}
