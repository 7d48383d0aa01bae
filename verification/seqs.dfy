/** Sequence helpers that mirror the JavaScript array methods the source relies on. */
module Seqs {

  /** A non-empty sequence holds its first element. */
  lemma HeadIsMember<T>(xs: seq<T>)
    ensures xs == [] || xs[0] in xs
  {
  }

  /** `xs.slice(0, n)` for a non-negative `n`. */
  function Take<T>(xs: seq<T>, n: nat): (r: seq<T>)
    ensures |r| == if n < |xs| then n else |xs|
    ensures r == xs[..|r|]
    ensures multiset(r) <= multiset(xs)
  {
    if n < |xs| then
      assert xs == xs[..n] + xs[n..];
      xs[..n]
    else xs
  }

  /** `a` can be obtained from `b` by deleting elements: order is kept and nothing is added. */
  predicate Subseq<T(==)>(a: seq<T>, b: seq<T>)
    decreases |b|
  {
    if |a| == 0 then true
    else if |b| == 0 then false
    else (a[0] == b[0] && Subseq(a[1..], b[1..])) || Subseq(a, b[1..])
  }

  lemma SubseqSkip<T>(a: seq<T>, b: seq<T>)
    requires |b| > 0 && Subseq(a, b[1..])
    ensures Subseq(a, b)
  {
  }

  lemma SubseqKeep<T>(a: seq<T>, b: seq<T>)
    requires |a| > 0 && |b| > 0 && a[0] == b[0] && Subseq(a[1..], b[1..])
    ensures Subseq(a, b)
  {
  }

  /** A prefix is a subsequence. */
  lemma {:induction false} PrefixIsSubseq<T>(xs: seq<T>, n: nat)
    requires n <= |xs|
    ensures Subseq(xs[..n], xs)
    decreases n
  {
    if n > 0 {
      PrefixIsSubseq(xs[1..], n - 1);
      assert xs[..n][1..] == xs[1..][..n - 1];
    }
  }

  /** `xs.filter(f)`. */
  function Filter<T(==,!new)>(xs: seq<T>, f: T -> bool): (r: seq<T>)
    ensures |r| <= |xs|
    ensures forall x :: x in r <==> x in xs && f(x)
    ensures Subseq(r, xs)
    ensures forall i :: 0 <= i < |r| ==> f(r[i])
    ensures multiset(r) <= multiset(xs)
  {
    if |xs| == 0 then []
    else
      assert xs == [xs[0]] + xs[1..];
      if f(xs[0]) then [xs[0]] + Filter(xs[1..], f)
      else Filter(xs[1..], f)
  }

  /** No element occurs twice. */
  predicate NoDup<T(==)>(xs: seq<T>) {
    forall i, j :: 0 <= i < j < |xs| ==> xs[i] != xs[j]
  }

  /** `xs.filter(y => y !== x)`. */
  function Without<T(==,!new)>(xs: seq<T>, x: T): (r: seq<T>)
    ensures x !in r
    ensures forall y :: y in r <==> y in xs && y != x
    ensures Subseq(r, xs)
    ensures forall y :: y != x ==> multiset(r)[y] == multiset(xs)[y]
  {
    var f := (y: T) => y != x;
    forall y | y != x ensures multiset(Filter(xs, f))[y] == multiset(xs)[y] {
      FilterCount(xs, f, y);
    }
    Filter(xs, f)
  }

  /** Distinct elements in order of first occurrence, as `Array.from(new Set(xs))` lists them. */
  function Dedup<T(==,!new)>(xs: seq<T>): (r: seq<T>)
    ensures NoDup(r)
    ensures forall x :: x in r <==> x in xs
  {
    DedupOnto([], xs)
  }

  function DedupOnto<T(==,!new)>(acc: seq<T>, xs: seq<T>): (r: seq<T>)
    requires NoDup(acc)
    ensures NoDup(r)
    ensures forall x :: x in r <==> x in acc || x in xs
    decreases |xs|
  {
    if |xs| == 0 then acc
    else if xs[0] in acc then DedupOnto(acc, xs[1..])
    else DedupOnto(acc + [xs[0]], xs[1..])
  }

  lemma {:induction false} SubseqMembers<T>(a: seq<T>, b: seq<T>)
    requires Subseq(a, b)
    ensures forall x :: x in a ==> x in b
    ensures |a| <= |b|
    decreases |b|
  {
    if |a| > 0 {
      if a[0] == b[0] && Subseq(a[1..], b[1..]) {
        SubseqMembers(a[1..], b[1..]);
        forall x | x in a ensures x in b {
          if x != a[0] { assert x in a[1..]; assert x in b[1..]; }
        }
      } else {
        SubseqMembers(a, b[1..]);
      }
    }
  }

  lemma {:induction false} SubseqNoDup<T>(a: seq<T>, b: seq<T>)
    requires Subseq(a, b) && NoDup(b)
    ensures NoDup(a)
    decreases |b|
  {
    if |a| > 0 {
      assert NoDup(b[1..]) by {
        forall i, j | 0 <= i < j < |b[1..]| ensures b[1..][i] != b[1..][j] {
          assert b[1..][i] == b[i + 1] && b[1..][j] == b[j + 1];
        }
      }
      if a[0] == b[0] && Subseq(a[1..], b[1..]) {
        SubseqNoDup(a[1..], b[1..]);
        SubseqMembers(a[1..], b[1..]);
        forall i, j | 0 <= i < j < |a| ensures a[i] != a[j] {
          if i == 0 {
            assert a[j] == a[1..][j - 1];
            assert a[j] in b[1..];
            var k :| 0 <= k < |b[1..]| && b[1..][k] == a[j];
            assert b[k + 1] == a[j];
          } else {
            assert a[i] == a[1..][i - 1] && a[j] == a[1..][j - 1];
          }
        }
      } else {
        SubseqNoDup(a, b[1..]);
      }
    }
  }

  /** Order-respecting facts survive deletion of elements. */
  lemma {:induction false} SubseqOrdered<T>(a: seq<T>, b: seq<T>, le: (T, T) -> bool)
    requires Subseq(a, b)
    requires forall i, j :: 0 <= i < j < |b| ==> le(b[i], b[j])
    ensures forall i, j :: 0 <= i < j < |a| ==> le(a[i], a[j])
    decreases |b|
  {
    if |a| > 0 {
      assert forall i, j :: 0 <= i < j < |b[1..]| ==> le(b[1..][i], b[1..][j]) by {
        forall i, j | 0 <= i < j < |b[1..]| ensures le(b[1..][i], b[1..][j]) {
          assert b[1..][i] == b[i + 1] && b[1..][j] == b[j + 1];
        }
      }
      if a[0] == b[0] && Subseq(a[1..], b[1..]) {
        SubseqOrdered(a[1..], b[1..], le);
        SubseqMembers(a[1..], b[1..]);
        forall i, j | 0 <= i < j < |a| ensures le(a[i], a[j]) {
          if i == 0 {
            assert a[j] == a[1..][j - 1];
            assert a[j] in b[1..];
            var k :| 0 <= k < |b[1..]| && b[1..][k] == a[j];
            assert b[k + 1] == a[j];
          } else {
            assert a[i] == a[1..][i - 1] && a[j] == a[1..][j - 1];
          }
        }
      } else {
        SubseqOrdered(a, b[1..], le);
      }
    }
  }

  lemma {:induction false} TwiceCountsTwice<T>(s: seq<T>, i: nat, j: nat)
    requires i < j < |s| && s[i] == s[j]
    ensures multiset(s)[s[i]] >= 2
  {
    assert s == s[..i] + [s[i]] + s[i + 1..j] + [s[j]] + s[j + 1..];
    assert multiset(s) == multiset(s[..i]) + multiset{s[i]} + multiset(s[i + 1..j])
      + multiset{s[j]} + multiset(s[j + 1..]);
  }

  lemma {:induction false} NoDupCountsOnce<T>(xs: seq<T>)
    requires NoDup(xs)
    ensures forall x :: multiset(xs)[x] <= 1
  {
    if |xs| > 0 {
      var t := xs[1..];
      assert NoDup(t) by {
        forall i, j | 0 <= i < j < |t| ensures t[i] != t[j] {
          assert t[i] == xs[i + 1] && t[j] == xs[j + 1];
        }
      }
      NoDupCountsOnce(t);
      assert xs == [xs[0]] + t;
      forall k | 0 <= k < |t| ensures t[k] != xs[0] {
        assert t[k] == xs[k + 1];
      }
      assert multiset(xs) == multiset{xs[0]} + multiset(t);
    }
  }

  /** Being duplicate-free depends only on the multiset of elements. */
  lemma NoDupOfPermutation<T>(a: seq<T>, b: seq<T>)
    requires multiset(a) == multiset(b) && NoDup(b)
    ensures NoDup(a)
  {
    NoDupCountsOnce(b);
    forall i, j | 0 <= i < j < |a| ensures a[i] != a[j] {
      if a[i] == a[j] {
        TwiceCountsTwice(a, i, j);
      }
    }
  }

  /** Filtering keeps every element that passes with its full multiplicity. */
  lemma {:induction false} FilterCount<T(!new)>(xs: seq<T>, f: T -> bool, x: T)
    ensures multiset(Filter(xs, f))[x] == if f(x) then multiset(xs)[x] else 0
  {
    if |xs| > 0 {
      var rest := Filter(xs[1..], f);
      FilterCount(xs[1..], f, x);
      var here := if xs[0] == x then 1 else 0;
      assert multiset(xs)[x] == here + multiset(xs[1..])[x] by {
        assert xs == [xs[0]] + xs[1..];
      }
      if f(xs[0]) {
        assert multiset(Filter(xs, f))[x] == here + multiset(rest)[x] by {
          assert Filter(xs, f) == [xs[0]] + rest;
        }
      } else {
        assert Filter(xs, f) == rest;
      }
    }
  }

  lemma {:induction false} SubseqTrans<T>(a: seq<T>, b: seq<T>, c: seq<T>)
    requires Subseq(a, b) && Subseq(b, c)
    ensures Subseq(a, c)
    decreases |c|
  {
    if |a| > 0 && |c| > 0 {
      if b[0] == c[0] && Subseq(b[1..], c[1..]) {
        if a[0] == b[0] && Subseq(a[1..], b[1..]) {
          SubseqTrans(a[1..], b[1..], c[1..]);
        } else {
          SubseqTrans(a, b[1..], c[1..]);
        }
      } else {
        SubseqTrans(a, b, c[1..]);
      }
    }
  }

  /** Removing every copy of `x` shortens a sequence by the number of copies. */
  lemma {:induction false} WithoutLength<T(!new)>(xs: seq<T>, x: T)
    ensures |Without(xs, x)| == |xs| - multiset(xs)[x]
  {
    if |xs| > 0 {
      WithoutLength(xs[1..], x);
      assert xs == [xs[0]] + xs[1..];
      assert multiset(xs) == multiset{xs[0]} + multiset(xs[1..]);
      var f := (y: T) => y != x;
      assert Without(xs, x) == Filter(xs, f);
      assert Without(xs[1..], x) == Filter(xs[1..], f);
    }
  }

  /** Removing an element that occurs shortens the sequence. */
  lemma WithoutShrinks<T(!new)>(xs: seq<T>, x: T)
    requires x in xs
    ensures |Without(xs, x)| < |xs|
  {
    WithoutLength(xs, x);
    assert x in multiset(xs);
  }

  /** Filtering a two-element sequence whose first element fails the test. */
  lemma FilterPair<T(!new)>(x: T, y: T, f: T -> bool)
    requires !f(x)
    ensures Filter([x, y], f) == if f(y) then [y] else []
  {
    assert [x, y][1..] == [y];
    assert [y][1..] == [];
  }

  /** Filtering distributes over concatenation. */
  lemma {:induction false} FilterAppend<T(!new)>(xs: seq<T>, ys: seq<T>, f: T -> bool)
    ensures Filter(xs + ys, f) == Filter(xs, f) + Filter(ys, f)
  {
    var zs := xs + ys;
    if |xs| > 0 {
      assert zs[0] == xs[0] && zs[1..] == xs[1..] + ys;
      FilterAppend(xs[1..], ys, f);
      if f(xs[0]) {
        calc {
          Filter(zs, f);
          [xs[0]] + Filter(xs[1..] + ys, f);
          [xs[0]] + (Filter(xs[1..], f) + Filter(ys, f));
          ([xs[0]] + Filter(xs[1..], f)) + Filter(ys, f);
        }
      }
    } else {
      assert zs == ys;
    }
  }

  /** Removing the one copy of `x` that was appended gives back the original sequence. */
  lemma WithoutOfAppended<T(!new)>(xs: seq<T>, x: T)
    requires x !in xs
    ensures Without(xs + [x], x) == xs
  {
    var f := (y: T) => y != x;
    assert Without(xs + [x], x) == Filter(xs + [x], f);
    FilterAppend(xs, [x], f);
    FilterKeepsAll(xs, f);
    assert Filter([x], f) == [] by {
      assert [x][1..] == [];
    }
  }

  /** A filter every element passes changes nothing. */
  lemma {:induction false} FilterKeepsAll<T(!new)>(xs: seq<T>, f: T -> bool)
    requires forall x :: x in xs ==> f(x)
    ensures Filter(xs, f) == xs
  {
    if |xs| > 0 {
      FilterKeepsAll(xs[1..], f);
      assert xs == [xs[0]] + xs[1..];
    }
  }

  /** Removing an element that does not occur changes nothing. */
  lemma WithoutAbsent<T(!new)>(xs: seq<T>, x: T)
    requires x !in xs
    ensures Without(xs, x) == xs
  {
    var f := (y: T) => y != x;
    assert Without(xs, x) == Filter(xs, f);
    FilterKeepsAll(xs, f);
  }

  /** Appending to nothing gives the appended sequence back. */
  lemma EmptyAppend<T>(xs: seq<T>)
    ensures [] + xs == xs
  {
  }

  /** Taking one more from a sequence with one more element in front. */
  lemma TakeCons<T>(x: T, xs: seq<T>, n: nat)
    ensures Take([x] + xs, n + 1) == [x] + Take(xs, n)
  {
    if n < |xs| {
      assert ([x] + xs)[..n + 1] == [x] + xs[..n];
    }
  }

  /** A new element in front of a duplicate-free sequence keeps it duplicate-free. */
  lemma NoDupCons<T>(x: T, xs: seq<T>)
    requires NoDup(xs) && x !in xs
    ensures NoDup([x] + xs)
  {
    var ys := [x] + xs;
    forall i, j | 0 <= i < j < |ys| ensures ys[i] != ys[j] {
      assert ys[j] == xs[j - 1];
      if i > 0 {
        assert ys[i] == xs[i - 1];
      }
    }
  }

  /** A cut keeps only elements of the sequence it cuts. */
  lemma TakeMembers<T>(xs: seq<T>, n: nat)
    ensures forall x :: x in Take(xs, n) ==> x in xs
  {
    var r := Take(xs, n);
    forall x | x in r ensures x in xs {
      var i :| 0 <= i < |r| && r[i] == x;
      assert xs[i] == x;
    }
  }
}
