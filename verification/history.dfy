/**
 * The browsing history: product ids, most recently viewed first, at most twenty of them.
 */
module BrowsingHistory {
  import opened Seqs

  /** `.slice(0, 20)` on every update. */
  const MaxEntries: nat := 20

  /**
   * `addToBrowsingHistory`: the viewed id moves to the front, any earlier occurrence of it
   * is dropped, and the list is cut to twenty entries.
   */
  function AddToBrowsingHistory(history: seq<nat>, id: nat): (r: seq<nat>)
    ensures 1 <= |r| <= MaxEntries && r[0] == id
    ensures id !in r[1..]
    ensures Subseq(r[1..], history)
    ensures forall x :: x in r ==> x == id || x in history
    ensures |history| < MaxEntries ==> forall x :: x in history ==> x in r
    ensures NoDup(history) ==> NoDup(r)
    ensures |r| <= |history| + 1
  {
    var r := Take([id] + Without(history, id), MaxEntries);
    VisitShape(history, id);
    VisitTail(history, id);
    assert r[1..] == Kept(history, id);
    r
  }

  /** The entries that survive behind the viewed id: at most nineteen, in their old order. */
  function Kept(history: seq<nat>, id: nat): seq<nat> {
    Take(Without(history, id), MaxEntries - 1)
  }

  lemma VisitShape(history: seq<nat>, id: nat)
    ensures Take([id] + Without(history, id), MaxEntries) == [id] + Kept(history, id)
  {
    TakeCons(id, Without(history, id), MaxEntries - 1);
  }

  /** What survives of the old history behind the viewed id. */
  lemma VisitTail(history: seq<nat>, id: nat)
    ensures var t := Kept(history, id);
      && |t| < MaxEntries && id !in t
      && Subseq(t, history) && |t| <= |history|
      && (forall x :: x in t ==> x in history)
      && (|history| < MaxEntries ==> t == Without(history, id))
      && (NoDup(history) ==> NoDup([id] + t))
  {
    var rest := Without(history, id);
    var t := Kept(history, id);
    PrefixIsSubseq(rest, |t|);
    SubseqTrans(t, rest, history);
    SubseqMembers(t, history);
    SubseqMembers(rest, history);
    if NoDup(history) {
      SubseqNoDup(t, history);
      NoDupCons(id, t);
    }
  }

  /** The history left after viewing `views` in order, starting from an empty one. */
  function Replay(views: seq<nat>): (r: seq<nat>)
    ensures |r| <= MaxEntries && |r| <= |views|
  {
    if |views| == 0 then []
    else AddToBrowsingHistory(Replay(views[..|views| - 1]), views[|views| - 1])
  }

  /** Position of the last view of `x`, or -1 when `x` was never viewed. */
  function Recency(views: seq<nat>, x: nat): (r: int)
    ensures -1 <= r < |views|
    ensures r >= 0 <==> x in views
    ensures r >= 0 ==> views[r] == x
  {
    if |views| == 0 then -1
    else if views[|views| - 1] == x then |views| - 1
    else
      var init := views[..|views| - 1];
      assert views == init + [views[|views| - 1]];
      Recency(init, x)
  }

  /** Entries strictly ordered from most to least recently viewed. */
  predicate MostRecentFirst(views: seq<nat>, h: seq<nat>) {
    forall i, j :: 0 <= i < j < |h| ==> Recency(views, h[i]) > Recency(views, h[j])
  }

  /** Every entry was viewed more recently than `x`. */
  predicate AllNewerThan(views: seq<nat>, h: seq<nat>, x: nat) {
    forall y :: y in h ==> Recency(views, y) > Recency(views, x)
  }

  /**
   * What a history owes the views that built it: only viewed ids, each once, most recent
   * first; an id that was viewed but is missing was pushed out by twenty more recent ones.
   */
  predicate Faithful(views: seq<nat>, h: seq<nat>) {
    && (forall x :: x in h ==> x in views)
    && NoDup(h)
    && MostRecentFirst(views, h)
    && (forall x :: x in views && x !in h ==> |h| == MaxEntries && AllNewerThan(views, h, x))
  }

  /** One more view: only the viewed id changes its recency, to the newest. */
  lemma RecencySnoc(init: seq<nat>, v: nat, y: nat)
    ensures Recency(init + [v], y) == if y == v then |init| else Recency(init, y)
  {
    assert (init + [v])[..|init|] == init;
  }

  /** Entries other than `v` keep their order when `v` is viewed once more. */
  lemma OrderSurvivesView(init: seq<nat>, v: nat, t: seq<nat>)
    requires MostRecentFirst(init, t) && v !in t
    ensures MostRecentFirst(init + [v], [v] + t)
  {
    var r := [v] + t;
    forall i, j | 0 <= i < j < |r| ensures Recency(init + [v], r[i]) > Recency(init + [v], r[j]) {
      assert r[j] == t[j - 1];
      RecencySnoc(init, v, r[i]);
      RecencySnoc(init, v, r[j]);
      if i > 0 {
        assert r[i] == t[i - 1];
      }
    }
  }

  /** A view keeps the history ordered from most to least recent. */
  lemma VisitKeepsOrder(init: seq<nat>, h: seq<nat>, v: nat)
    requires MostRecentFirst(init, h)
    ensures MostRecentFirst(init + [v], AddToBrowsingHistory(h, v))
  {
    var t := Kept(h, v);
    VisitShape(h, v);
    VisitTail(h, v);
    var newer := (a: nat, b: nat) => Recency(init, a) > Recency(init, b);
    SubseqOrdered(t, h, newer);
    OrderSurvivesView(init, v, t);
  }

  /** Entries that were all newer than `x` stay newer after a view of something else. */
  lemma NewerSurvivesView(init: seq<nat>, v: nat, t: seq<nat>, x: nat)
    requires AllNewerThan(init, t, x) && x != v && x in init
    ensures AllNewerThan(init + [v], [v] + t, x)
  {
    RecencySnoc(init, v, x);
    forall y | y in [v] + t ensures Recency(init + [v], y) > Recency(init + [v], x) {
      RecencySnoc(init, v, y);
    }
  }

  /** An entry cut off by the slice is older than every entry kept. */
  lemma CutIsOlder(init: seq<nat>, h: seq<nat>, v: nat, x: nat)
    requires MostRecentFirst(init, h) && x in h && x != v && x !in Kept(h, v)
    ensures |Kept(h, v)| == MaxEntries - 1 && AllNewerThan(init, Kept(h, v), x)
  {
    var rest := Without(h, v);
    var t := Kept(h, v);
    var newer := (a: nat, b: nat) => Recency(init, a) > Recency(init, b);
    SubseqOrdered(rest, h, newer);
    var k :| 0 <= k < |rest| && rest[k] == x;
    assert k >= |t|;
    forall y | y in t ensures Recency(init, y) > Recency(init, x) {
      var i :| 0 <= i < |t| && t[i] == y;
      assert rest[i] == y;
      assert newer(rest[i], rest[k]);
    }
  }

  /** A full history that did not hold `x` loses at most the viewed id, so it stays full. */
  lemma FullStaysFull(h: seq<nat>, v: nat)
    requires NoDup(h) && |h| == MaxEntries
    ensures |Kept(h, v)| == MaxEntries - 1
  {
    WithoutLength(h, v);
    NoDupCountsOnce(h);
  }

  /** A view pushes an id out only when twenty more recent ones remain. */
  lemma VisitKeepsRecent(init: seq<nat>, h: seq<nat>, v: nat, x: nat)
    requires Faithful(init, h)
    requires x in init + [v] && x !in AddToBrowsingHistory(h, v)
    ensures |AddToBrowsingHistory(h, v)| == MaxEntries
    ensures AllNewerThan(init + [v], AddToBrowsingHistory(h, v), x)
  {
    var t := Kept(h, v);
    VisitShape(h, v);
    VisitTail(h, v);
    assert x != v && x !in t;
    assert x in init;
    if x in h {
      CutIsOlder(init, h, v, x);
    } else {
      FullStaysFull(h, v);
      assert AllNewerThan(init, t, x) by {
        forall y | y in t ensures Recency(init, y) > Recency(init, x) {
          assert y in h;
        }
      }
    }
    NewerSurvivesView(init, v, t, x);
  }

  lemma {:induction false} ReplayKeepsMostRecent(views: seq<nat>)
    ensures Faithful(views, Replay(views))
  {
    if |views| > 0 {
      var init := views[..|views| - 1];
      var v := views[|views| - 1];
      assert views == init + [v];
      var h := Replay(init);
      ReplayKeepsMostRecent(init);
      var r := AddToBrowsingHistory(h, v);
      VisitKeepsOrder(init, h, v);
      forall x | x in views && x !in r
        ensures |r| == MaxEntries && AllNewerThan(views, r, x)
      {
        VisitKeepsRecent(init, h, v, x);
      }
    }
  }

  /** Fewer than twenty distinct views: every viewed id is still in the history. */
  lemma ShortReplayKeepsAll(views: seq<nat>, x: nat)
    requires |views| < MaxEntries && x in views
    ensures x in Replay(views)
  {
    ReplayKeepsMostRecent(views);
  }
}
