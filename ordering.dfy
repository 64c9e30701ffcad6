/** Orderings of indices by score, and Python's `xs[:k]`. `SortByScore` is
    the stable sort that Python's `sorted(..., key=lambda x: -score)` performs
    on items listed in index order; `SortAscending` is `sorted` on distinct
    integers. */
module Ordering {

  function Min(a: int, b: int): int { if a <= b then a else b }

  function Max(a: int, b: int): int { if a <= b then b else a }

  /** `xs[:k]` for any integer `k`: a negative `k` drops `-k` elements from
      the end. */
  function SliceTo<T>(xs: seq<T>, k: int): (r: seq<T>)
    ensures |r| <= |xs| && r == xs[..|r|]
    ensures |r| == (if k >= 0 then Min(k, |xs|) else Max(0, |xs| + k))
  {
    if k >= 0 then (if k <= |xs| then xs[..k] else xs)
    else if |xs| + k >= 0 then xs[..|xs| + k]
    else []
  }

  /** `range(n)`. */
  function Range(n: nat): (r: seq<nat>)
    ensures |r| == n && forall i :: 0 <= i < n ==> r[i] == i
  {
    if n == 0 then [] else Range(n - 1) + [n - 1]
  }

  predicate InBounds(xs: seq<nat>, n: nat) {
    forall i :: 0 <= i < |xs| ==> xs[i] < n
  }

  /** `[xs[p] for p in ps]`. */
  function At<T>(xs: seq<T>, ps: seq<nat>): (r: seq<T>)
    requires InBounds(ps, |xs|)
    ensures |r| == |ps| && forall t :: 0 <= t < |ps| ==> r[t] == xs[ps[t]]
  {
    seq(|ps|, t requires 0 <= t < |ps| => xs[ps[t]])
  }

  predicate StrictlyIncreasing(xs: seq<nat>) {
    forall p, q :: 0 <= p < q < |xs| ==> xs[p] < xs[q]
  }

  predicate Distinct<T(==)>(xs: seq<T>) {
    forall p, q :: 0 <= p < q < |xs| ==> xs[p] != xs[q]
  }

  /** Index `a` comes before index `b` when sorting by descending score and
      keeping equal scores in index order. */
  predicate Precedes(scores: seq<real>, a: nat, b: nat)
    requires a < |scores| && b < |scores|
  {
    scores[a] > scores[b] || (scores[a] == scores[b] && a < b)
  }

  /** Every earlier element of `xs` precedes every later one. */
  predicate Chain(scores: seq<real>, xs: seq<nat>)
    requires InBounds(xs, |scores|)
  {
    forall p, q :: 0 <= p < q < |xs| ==> Precedes(scores, xs[p], xs[q])
  }

  /** One step of a stable insertion sort: `x` goes after every element whose
      score is at least its own. */
  function InsertByScore(scores: seq<real>, x: nat, xs: seq<nat>): (r: seq<nat>)
    requires x < |scores| && InBounds(xs, |scores|)
    requires Chain(scores, xs)
    requires forall i :: 0 <= i < |xs| ==> xs[i] < x
    ensures multiset(r) == multiset(xs) + multiset{x}
    ensures InBounds(r, |scores|) && Chain(scores, r)
  {
    if xs == [] then [x]
    else if scores[xs[0]] >= scores[x] then
      var tail := InsertByScore(scores, x, xs[1..]);
      assert xs == [xs[0]] + xs[1..];
      HeadPrecedes(scores, xs, x, tail);
      ChainCons(scores, xs[0], tail);
      [xs[0]] + tail
    else
      ChainCons(scores, x, xs);
      [x] + xs
  }

  /** The head of a chain precedes everything that inserting `x` into its
      tail produces. */
  lemma HeadPrecedes(scores: seq<real>, xs: seq<nat>, x: nat, tail: seq<nat>)
    requires x < |scores| && InBounds(xs, |scores|) && xs != []
    requires Chain(scores, xs) && xs[0] < x && scores[xs[0]] >= scores[x]
    requires InBounds(tail, |scores|)
    requires multiset(tail) == multiset(xs[1..]) + multiset{x}
    ensures forall q :: 0 <= q < |tail| ==> Precedes(scores, xs[0], tail[q])
  {
    forall q | 0 <= q < |tail| ensures Precedes(scores, xs[0], tail[q]) {
      assert tail[q] in multiset(tail);
      if tail[q] != x {
        assert tail[q] in multiset(xs[1..]);
        var i :| 0 <= i < |xs[1..]| && xs[1..][i] == tail[q];
        assert xs[i + 1] == tail[q];
      }
    }
  }

  /** Putting an element that precedes every element of a chain in front
      keeps it a chain. */
  lemma ChainCons(scores: seq<real>, h: nat, xs: seq<nat>)
    requires h < |scores| && InBounds(xs, |scores|) && Chain(scores, xs)
    requires forall q :: 0 <= q < |xs| ==> Precedes(scores, h, xs[q])
    ensures InBounds([h] + xs, |scores|) && Chain(scores, [h] + xs)
  {
    var r := [h] + xs;
    assert forall q :: 0 < q < |r| ==> r[q] == xs[q - 1];
  }

  /** Stable sort of `idxs` by descending score. */
  function SortByScore(scores: seq<real>, idxs: seq<nat>): (r: seq<nat>)
    requires InBounds(idxs, |scores|) && StrictlyIncreasing(idxs)
    ensures multiset(r) == multiset(idxs)
    ensures InBounds(r, |scores|) && Chain(scores, r)
  {
    if idxs == [] then []
    else
      var init := idxs[..|idxs| - 1];
      var last := idxs[|idxs| - 1];
      var sorted := SortByScore(scores, init);
      assert idxs == init + [last];
      BelowLast(idxs, sorted);
      InsertByScore(scores, last, sorted)
  }

  /** A rearrangement of all but the last element of an increasing list lies
      below that last element. */
  lemma BelowLast(idxs: seq<nat>, xs: seq<nat>)
    requires idxs != [] && StrictlyIncreasing(idxs)
    requires multiset(xs) == multiset(idxs[..|idxs| - 1])
    ensures forall i :: 0 <= i < |xs| ==> xs[i] < idxs[|idxs| - 1]
  {
    var init := idxs[..|idxs| - 1];
    forall i | 0 <= i < |xs| ensures xs[i] < idxs[|idxs| - 1] {
      assert xs[i] in multiset(xs);
      assert xs[i] in init;
      var j :| 0 <= j < |init| && init[j] == xs[i];
      assert idxs[j] == init[j];
    }
  }

  function InsertAscending(x: nat, xs: seq<nat>): (r: seq<nat>)
    requires StrictlyIncreasing(xs) && x !in xs
    ensures multiset(r) == multiset(xs) + multiset{x}
    ensures StrictlyIncreasing(r)
  {
    if xs == [] then [x]
    else if xs[0] < x then
      TailIncreasing(xs);
      var tail := InsertAscending(x, xs[1..]);
      assert xs == [xs[0]] + xs[1..];
      AboveAll(xs[0], xs[1..], x, tail);
      ConsIncreasing(xs[0], tail);
      [xs[0]] + tail
    else
      assert x != xs[0];
      ConsIncreasing(x, xs);
      [x] + xs
  }

  lemma TailIncreasing(xs: seq<nat>)
    requires xs != [] && StrictlyIncreasing(xs)
    ensures StrictlyIncreasing(xs[1..])
    ensures forall i :: 0 <= i < |xs| - 1 ==> xs[0] < xs[1..][i]
  {
    assert forall i :: 0 <= i < |xs| - 1 ==> xs[1..][i] == xs[i + 1];
  }

  lemma ConsIncreasing(h: nat, t: seq<nat>)
    requires StrictlyIncreasing(t) && (t != [] ==> h < t[0])
    ensures StrictlyIncreasing([h] + t)
  {
    var r := [h] + t;
    forall p, q | 0 <= p < q < |r| ensures r[p] < r[q] {
      assert r[q] == t[q - 1];
      if p > 0 {
        assert r[p] == t[p - 1];
      } else if q > 1 {
        assert t[0] < t[q - 1];
      }
    }
  }

  lemma AboveAll(h: nat, rest: seq<nat>, x: nat, tail: seq<nat>)
    requires h < x && forall i :: 0 <= i < |rest| ==> h < rest[i]
    requires multiset(tail) == multiset(rest) + multiset{x}
    ensures forall q :: 0 <= q < |tail| ==> h < tail[q]
  {
    forall q | 0 <= q < |tail| ensures h < tail[q] {
      assert tail[q] in multiset(tail);
      if tail[q] != x {
        assert tail[q] in multiset(rest);
        var i :| 0 <= i < |rest| && rest[i] == tail[q];
      }
    }
  }

  /** `sorted(xs)` for distinct integers. */
  function SortAscending(xs: seq<nat>): (r: seq<nat>)
    requires Distinct(xs)
    ensures multiset(r) == multiset(xs)
    ensures StrictlyIncreasing(r)
  {
    if xs == [] then []
    else
      var init := xs[..|xs| - 1];
      var last := xs[|xs| - 1];
      assert xs == init + [last];
      var sorted := SortAscending(init);
      assert last !in multiset(init);
      InsertAscending(last, sorted)
  }

  /** A chain never repeats an index. */
  lemma ChainDistinct(scores: seq<real>, xs: seq<nat>)
    requires InBounds(xs, |scores|) && Chain(scores, xs)
    ensures Distinct(xs)
  {
  }

  /** The stable descending-score order of all indices `range(n)`. */
  function ScoreOrder(scores: seq<real>): (order: seq<nat>)
    ensures |order| == |scores| && multiset(order) == multiset(Range(|scores|))
    ensures InBounds(order, |scores|) && Chain(scores, order)
  {
    var order := SortByScore(scores, Range(|scores|));
    assert |order| == |multiset(order)|;
    order
  }

  /** Every index of `range(n)` appears in the score order. */
  lemma InScoreOrder(scores: seq<real>, j: nat)
    requires j < |scores|
    ensures j in ScoreOrder(scores)
  {
    assert Range(|scores|)[j] == j;
    assert j in multiset(Range(|scores|));
  }

  /** A prefix of the score order: every index it leaves out comes after
      every index it keeps. */
  lemma PrefixDominates(scores: seq<real>, m: nat, a: nat, j: nat)
    requires m <= |scores|
    requires a in ScoreOrder(scores)[..m]
    requires j < |scores| && j !in ScoreOrder(scores)[..m]
    ensures Precedes(scores, a, j)
  {
    var order := ScoreOrder(scores);
    InScoreOrder(scores, j);
    assert j in order;
    var q :| 0 <= q < |order| && order[q] == j;
    var p :| 0 <= p < m && order[..m][p] == a;
    assert q >= m;
  }
}
