/**
 * The one sort the source uses everywhere: `Array.prototype.sort` with a comparator of the
 * form `(a, b) => key(b) - key(a)`. That sort is stable, so the result is ordered by
 * non-increasing key and elements with equal keys keep their input order. An ascending sort
 * (`a.price - b.price`) is the same sort on the negated key.
 */
module StableSort {
  import opened Seqs

  /** Non-increasing in `key`. */
  predicate SortedDesc<T>(xs: seq<T>, key: T -> real) {
    forall i, j :: 0 <= i < j < |xs| ==> key(xs[i]) >= key(xs[j])
  }

  /** Non-increasing in `key`, and among equal keys strictly increasing in `rank`. */
  predicate LexSorted<T>(xs: seq<T>, key: T -> real, rank: T -> int) {
    forall i, j :: 0 <= i < j < |xs| ==>
      key(xs[i]) > key(xs[j]) || (key(xs[i]) == key(xs[j]) && rank(xs[i]) < rank(xs[j]))
  }

  /** Places `x` in front of the first element whose key does not exceed its own. */
  function Insert<T(!new)>(x: T, s: seq<T>, key: T -> real): (r: seq<T>)
    ensures |r| == |s| + 1
    ensures multiset(r) == multiset(s) + multiset{x}
    ensures forall y :: y in r <==> y == x || y in s
  {
    if |s| == 0 || key(x) >= key(s[0]) then [x] + s
    else
      assert s == [s[0]] + s[1..];
      [s[0]] + Insert(x, s[1..], key)
  }

  lemma {:induction false} InsertSorted<T(!new)>(x: T, s: seq<T>, key: T -> real)
    requires SortedDesc(s, key)
    ensures SortedDesc(Insert(x, s, key), key)
  {
    if |s| > 0 && key(x) < key(s[0]) {
      var tail := Insert(x, s[1..], key);
      InsertSorted(x, s[1..], key);
      var r := [s[0]] + tail;
      forall i, j | 0 <= i < j < |r| ensures key(r[i]) >= key(r[j]) {
        if i == 0 {
          assert r[j] == tail[j - 1] && r[j] in tail;
          if r[j] != x {
            assert r[j] in s[1..];
            var k :| 0 <= k < |s[1..]| && s[1..][k] == r[j];
            assert s[k + 1] == r[j];
          }
        } else {
          assert r[i] == tail[i - 1] && r[j] == tail[j - 1];
        }
      }
    }
  }

  /** Stable sort by non-increasing `key` (insertion sort from the back). */
  function SortDesc<T(!new)>(xs: seq<T>, key: T -> real): (r: seq<T>)
    ensures |r| == |xs|
    ensures multiset(r) == multiset(xs)
    ensures forall y :: y in r <==> y in xs
    ensures SortedDesc(r, key)
  {
    if |xs| == 0 then []
    else
      assert xs == [xs[0]] + xs[1..];
      InsertSorted(xs[0], SortDesc(xs[1..], key), key);
      Insert(xs[0], SortDesc(xs[1..], key), key)
  }

  /** The head of a lexicographically sorted sequence comes before every later element. */
  lemma LexHead<T>(s: seq<T>, key: T -> real, rank: T -> int, y: T)
    requires LexSorted(s, key, rank) && |s| > 0 && y in s[1..]
    ensures key(s[0]) > key(y) || (key(s[0]) == key(y) && rank(s[0]) < rank(y))
  {
    var k :| 0 <= k < |s[1..]| && s[1..][k] == y;
    assert s[k + 1] == y;
  }

  /** `x` placed in front stays lexicographically sorted when it ranks ahead of the rest. */
  lemma InsertLexFront<T>(x: T, s: seq<T>, key: T -> real, rank: T -> int)
    requires LexSorted(s, key, rank)
    requires forall y :: y in s ==> rank(x) < rank(y)
    requires |s| == 0 || key(x) >= key(s[0])
    ensures LexSorted([x] + s, key, rank)
  {
    var r := [x] + s;
    forall i, j | 0 <= i < j < |r|
      ensures key(r[i]) > key(r[j]) || (key(r[i]) == key(r[j]) && rank(r[i]) < rank(r[j]))
    {
      assert r[j] == s[j - 1] && r[j] in s;
      if i > 0 {
        assert r[i] == s[i - 1];
      } else if j > 1 {
        LexHead(s, key, rank, s[j - 1]);
      }
    }
  }

  /** The head kept in front of a sorted insertion into the tail stays sorted. */
  lemma InsertLexBehind<T(!new)>(x: T, s: seq<T>, key: T -> real, rank: T -> int)
    requires LexSorted(s, key, rank) && |s| > 0 && key(x) < key(s[0])
    requires LexSorted(Insert(x, s[1..], key), key, rank)
    ensures LexSorted([s[0]] + Insert(x, s[1..], key), key, rank)
  {
    var tail := Insert(x, s[1..], key);
    var r := [s[0]] + tail;
    forall i, j | 0 <= i < j < |r|
      ensures key(r[i]) > key(r[j]) || (key(r[i]) == key(r[j]) && rank(r[i]) < rank(r[j]))
    {
      assert r[j] == tail[j - 1] && r[j] in tail;
      if i > 0 {
        assert r[i] == tail[i - 1];
      } else if r[j] != x {
        LexHead(s, key, rank, r[j]);
      }
    }
  }

  lemma {:induction false} InsertLex<T(!new)>(x: T, s: seq<T>, key: T -> real, rank: T -> int)
    requires LexSorted(s, key, rank)
    requires forall y :: y in s ==> rank(x) < rank(y)
    ensures LexSorted(Insert(x, s, key), key, rank)
  {
    if |s| == 0 || key(x) >= key(s[0]) {
      InsertLexFront(x, s, key, rank);
    } else {
      assert LexSorted(s[1..], key, rank) by {
        forall i, j | 0 <= i < j < |s[1..]| ensures s[1..][i] == s[i + 1] && s[1..][j] == s[j + 1] { }
      }
      InsertLex(x, s[1..], key, rank);
      InsertLexBehind(x, s, key, rank);
    }
  }

  /**
   * Stability: when the input is strictly increasing in some `rank`, the sorted output breaks
   * every tie in `key` by that rank, i.e. equal keys keep their input order.
   */
  lemma {:induction false} SortDescIsStable<T(!new)>(xs: seq<T>, key: T -> real, rank: T -> int)
    requires forall i, j :: 0 <= i < j < |xs| ==> rank(xs[i]) < rank(xs[j])
    ensures LexSorted(SortDesc(xs, key), key, rank)
  {
    if |xs| > 0 {
      var tail := xs[1..];
      assert forall i, j :: 0 <= i < j < |tail| ==> rank(tail[i]) < rank(tail[j]) by {
        forall i, j | 0 <= i < j < |tail| ensures rank(tail[i]) < rank(tail[j]) {
          assert tail[i] == xs[i + 1] && tail[j] == xs[j + 1];
        }
      }
      SortDescIsStable(tail, key, rank);
      forall y | y in SortDesc(tail, key) ensures rank(xs[0]) < rank(y) {
        assert y in tail;
        var k :| 0 <= k < |tail| && tail[k] == y;
        assert xs[k + 1] == y;
      }
      InsertLex(xs[0], SortDesc(tail, key), key, rank);
    }
  }

  /** A cut of a sorted sequence is sorted. */
  lemma TakeSorted<T>(s: seq<T>, n: nat, key: T -> real)
    requires SortedDesc(s, key)
    ensures SortedDesc(Take(s, n), key)
  {
    var r := Take(s, n);
    forall i, j | 0 <= i < j < |r| ensures key(r[i]) >= key(r[j]) {
      assert r[i] == s[i] && r[j] == s[j];
    }
  }

  /**
   * Cutting a sorted sequence keeps the best elements: an element the cut leaves out means
   * the cut is full, and it scores no higher than anything kept.
   */
  lemma TakeOfSortedIsTop<T>(s: seq<T>, n: nat, key: T -> real, x: T)
    requires SortedDesc(s, key) && x in s && x !in Take(s, n)
    ensures |Take(s, n)| == n
    ensures forall q :: q in Take(s, n) ==> key(q) >= key(x)
  {
    var r := Take(s, n);
    var j :| 0 <= j < |s| && s[j] == x;
    assert j >= |r|;
    forall q | q in r ensures key(q) >= key(x) {
      var i :| 0 <= i < |r| && r[i] == q;
      assert s[i] == q;
    }
  }
}
