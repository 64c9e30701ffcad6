/** Extractive summaries (ranking/summarizer.py). The TF-IDF similarity graph
    and PageRank are the libraries': they are a parameter that gives one
    score per sentence. */
module Summarizer {
  import opened Text
  import opened Ordering

  /** `text.replace("\n", " ").strip()`. */
  function Normalize(text: string): string {
    Strip(NewlinesToSpaces(text))
  }

  /** The normalised text is trimmed, holds no newline, and is empty exactly
      when the input is whitespace only. */
  lemma NormalizeShape(text: string)
    ensures Trimmed(Normalize(text))
    ensures '\n' !in Normalize(text)
    ensures Normalize(text) == [] <==> AllSpace(text)
  {
    var r := NewlinesToSpaces(text);
    assert forall k :: 0 <= k < |r| ==> r[k] != '\n';
    StripKeepsOut(r, '\n');
    assert forall k :: 0 <= k < |text| ==> (IsSpace(r[k]) <==> IsSpace(text[k]));
  }

  /** The characters the look-behind `(?<=[\.!?])` accepts. */
  predicate IsTerminal(c: char) {
    c == '.' || c == '!' || c == '?'
  }

  /** A split point of `re.split(r'(?<=[\.!?])\s+', t)` starts at `i`:
      whitespace right after a sentence-ending character. */
  predicate BoundaryAt(t: string, i: nat)
    requires i < |t|
  {
    i > 0 && IsTerminal(t[i - 1]) && IsSpace(t[i])
  }

  /** No split point lies inside `s`. */
  predicate NoBoundary(s: string) {
    forall k :: 0 < k < |s| ==> !BoundaryAt(s, k)
  }

  /** The end of the run of whitespace that starts at `i`: `\s+` is
      greedy. */
  function SpaceRunEnd(t: string, i: nat): (e: nat)
    requires i <= |t|
    ensures i <= e <= |t|
    ensures forall k :: i <= k < e ==> IsSpace(t[k])
    ensures e == |t| || !IsSpace(t[e])
    decreases |t| - i
  {
    if i < |t| && IsSpace(t[i]) then SpaceRunEnd(t, i + 1) else i
  }

  /** One piece of `re.split`, as the index range `t[lo..hi]`. */
  datatype Cut = Cut(lo: nat, hi: nat)

  /** `c` cuts `t` from `start` to its end the way `re.split` does. */
  predicate CutsText(t: string, start: nat, c: seq<Cut>) {
    CutsCover(t, start, c) && CutsLinked(t, c) && CutsClean(t, c)
  }

  /** The first piece begins at `start`, the last ends at the end of `t`,
      and no piece is empty unless `t` is. */
  predicate CutsCover(t: string, start: nat, c: seq<Cut>) {
    && |c| >= 1 && c[0].lo == start && c[|c| - 1].hi == |t|
    && (forall k :: 0 <= k < |c| ==> start <= c[k].lo <= c[k].hi <= |t|)
    && (t != [] ==> forall k :: 0 <= k < |c| ==> c[k].lo < c[k].hi)
  }

  /** Every piece but the last ends at a split point, and the next begins
      where that split point's whitespace run ends. */
  predicate CutsLinked(t: string, c: seq<Cut>) {
    forall k :: 0 <= k < |c| - 1 ==>
      c[k].hi < |t| && BoundaryAt(t, c[k].hi) && c[k + 1].lo == SpaceRunEnd(t, c[k].hi)
  }

  /** No split point lies strictly inside a piece. */
  predicate CutsClean(t: string, c: seq<Cut>) {
    forall k, j :: 0 <= k < |c| && c[k].lo < j < c[k].hi && j < |t| ==> !BoundaryAt(t, j)
  }

  /** The scan of `re.split`: the current piece began at `start`, and the
      positions before `i` hold no split point. At a split point the piece
      ends and the next one begins after the whitespace run. */
  function Cuts(t: string, start: nat, i: nat): (c: seq<Cut>)
    requires start <= i <= |t|
    requires Trimmed(t) && (start < |t| || t == [])
    requires start == 0 || IsSpace(t[start - 1])
    requires forall j :: start < j < i ==> !BoundaryAt(t, j)
    ensures CutsText(t, start, c)
    decreases |t| - i
  {
    if i == |t| then
      [Cut(start, |t|)]
    else if BoundaryAt(t, i) then
      var e := SpaceRunEnd(t, i);
      var rest := Cuts(t, e, e);
      CutsCons(t, start, i, rest);
      [Cut(start, i)] + rest
    else
      Cuts(t, start, i + 1)
  }

  /** A piece that ends at a split point, followed by the cutting of the
      rest of the text after its whitespace run. */
  lemma CutsCons(t: string, start: nat, i: nat, rest: seq<Cut>)
    requires start <= i < |t| && BoundaryAt(t, i)
    requires start == 0 || IsSpace(t[start - 1])
    requires forall j :: start < j < i ==> !BoundaryAt(t, j)
    requires CutsText(t, SpaceRunEnd(t, i), rest)
    ensures CutsText(t, start, [Cut(start, i)] + rest)
  {
    assert start < i by {
      assert IsTerminal(t[i - 1]);
    }
    ConsCover(t, start, i, SpaceRunEnd(t, i), rest);
    ConsLinked(t, start, i, rest);
    ConsClean(t, start, i, rest);
  }

  lemma ConsCover(t: string, start: nat, i: nat, e: nat, rest: seq<Cut>)
    requires start < i <= e <= |t|
    requires CutsCover(t, e, rest)
    ensures CutsCover(t, start, [Cut(start, i)] + rest)
  {
    var c := [Cut(start, i)] + rest;
    assert forall k :: 0 < k < |c| ==> c[k] == rest[k - 1];
  }

  lemma ConsLinked(t: string, start: nat, i: nat, rest: seq<Cut>)
    requires i < |t| && BoundaryAt(t, i)
    requires |rest| >= 1 && rest[0].lo == SpaceRunEnd(t, i)
    requires CutsLinked(t, rest)
    ensures CutsLinked(t, [Cut(start, i)] + rest)
  {
    var c := [Cut(start, i)] + rest;
    forall k | 0 <= k < |c| - 1
      ensures c[k].hi < |t| && BoundaryAt(t, c[k].hi) && c[k + 1].lo == SpaceRunEnd(t, c[k].hi)
    {
      if k > 0 {
        assert c[k] == rest[k - 1] && c[k + 1] == rest[k];
      }
    }
  }

  lemma ConsClean(t: string, start: nat, i: nat, rest: seq<Cut>)
    requires i <= |t|
    requires forall j :: start < j < i ==> !BoundaryAt(t, j)
    requires CutsClean(t, rest)
    ensures CutsClean(t, [Cut(start, i)] + rest)
  {
    var c := [Cut(start, i)] + rest;
    forall k, j | 0 <= k < |c| && c[k].lo < j < c[k].hi && j < |t| ensures !BoundaryAt(t, j) {
      if k > 0 {
        assert c[k] == rest[k - 1];
      }
    }
  }

  /** The pieces of `re.split(r'(?<=[\.!?])\s+', t)` for a trimmed `t`:
      there is at least one; none is empty unless `t` is; every piece but
      the last ends with a sentence-ending character; and no piece holds a
      split point. */
  function Pieces(t: string): (r: seq<string>)
    requires Trimmed(t)
    ensures |r| >= 1
    ensures t != [] ==> forall k :: 0 <= k < |r| ==> r[k] != []
    ensures forall k :: 0 <= k < |r| - 1 ==> r[k] != [] && IsTerminal(r[k][|r[k]| - 1])
    ensures forall k :: 0 <= k < |r| ==> NoBoundary(r[k])
  {
    var c := Cuts(t, 0, 0);
    var r := seq(|c|, k requires 0 <= k < |c| => t[c[k].lo..c[k].hi]);
    forall k | 0 <= k < |r| ensures NoBoundary(r[k]) {
      NoBoundarySlice(t, c[k].lo, c[k].hi);
    }
    forall k | 0 <= k < |r| - 1 ensures r[k] != [] && IsTerminal(r[k][|r[k]| - 1]) {
      assert BoundaryAt(t, c[k].hi);
    }
    r
  }

  lemma NoBoundarySlice(t: string, lo: nat, hi: nat)
    requires lo <= hi <= |t|
    requires forall j :: lo < j < hi ==> !BoundaryAt(t, j)
    ensures NoBoundary(t[lo..hi])
  {
    var s := t[lo..hi];
    forall k | 0 < k < |s| ensures !BoundaryAt(s, k) {
      assert !BoundaryAt(t, lo + k);
      assert s[k - 1] == t[lo + k - 1] && s[k] == t[lo + k];
    }
  }

  /** `[s for s in sents if s]`: the same strings with every empty one
      dropped. */
  function NonEmptyOnly(xs: seq<string>): (r: seq<string>)
    ensures |r| <= |xs|
    ensures forall k :: 0 <= k < |r| ==> r[k] != [] && r[k] in xs
  {
    if xs == [] then []
    else
      var rest := NonEmptyOnly(xs[1..]);
      assert forall k :: 0 <= k < |rest| ==> rest[k] in xs;
      if xs[0] == [] then rest else [xs[0]] + rest
  }

  /** The filter drops every empty string and keeps every other one, as
      often as it occurs. */
  lemma {:induction false} NonEmptyOnlyCounts(xs: seq<string>)
    ensures multiset(NonEmptyOnly(xs)) == multiset(xs)[[] := 0]
  {
    if xs != [] {
      NonEmptyOnlyCounts(xs[1..]);
      assert xs == [xs[0]] + xs[1..];
      assert multiset(xs) == multiset{xs[0]} + multiset(xs[1..]);
    }
  }

  /** The filter keeps the order: filtering a concatenation concatenates
      the filtered parts. */
  lemma {:induction false} NonEmptyOnlyAppend(xs: seq<string>, ys: seq<string>)
    ensures NonEmptyOnly(xs + ys) == NonEmptyOnly(xs) + NonEmptyOnly(ys)
  {
    if xs != [] {
      assert (xs + ys)[0] == xs[0] && (xs + ys)[1..] == xs[1..] + ys;
      NonEmptyOnlyAppend(xs[1..], ys);
    } else {
      assert xs + ys == ys;
    }
  }

  /** Filtering a list without empty strings keeps it as it is. */
  lemma {:induction false} NonEmptyOnlyKeeps(xs: seq<string>)
    requires forall k :: 0 <= k < |xs| ==> xs[k] != []
    ensures NonEmptyOnly(xs) == xs
  {
    if xs != [] {
      NonEmptyOnlyKeeps(xs[1..]);
    }
  }

  /** The sentences of `text`. */
  function Sentences(text: string): seq<string> {
    var t := Normalize(text);
    NormalizeShape(text);
    NonEmptyOnly(Pieces(t))
  }

  /** Whitespace-only text has no sentence. Otherwise there is at least
      one, none is empty, every one but the last ends with `.`, `!` or `?`,
      and none holds a split point. */
  lemma SentencesShape(text: string)
    ensures AllSpace(text) ==> Sentences(text) == []
    ensures !AllSpace(text) ==> |Sentences(text)| >= 1
    ensures forall k :: 0 <= k < |Sentences(text)| ==> Sentences(text)[k] != []
    ensures forall k :: 0 <= k < |Sentences(text)| - 1 ==>
      IsTerminal(Sentences(text)[k][|Sentences(text)[k]| - 1])
    ensures forall k :: 0 <= k < |Sentences(text)| ==> NoBoundary(Sentences(text)[k])
  {
    var t := Normalize(text);
    NormalizeShape(text);
    var ps := Pieces(t);
    if t != [] {
      NonEmptyOnlyKeeps(ps);
    } else {
      assert ps == [t[0..0]];
    }
  }

  /** The sentences of text that is not whitespace only are the slices of
      the normalised text between its cuts, in order: the text is cut at
      every whitespace run that follows a sentence-ending character and
      nowhere else. */
  lemma SentencesAreCuts(text: string)
    requires !AllSpace(text)
    ensures var t := Normalize(text);
      var c := Cuts(t, 0, 0);
      |Sentences(text)| == |c| &&
      forall k :: 0 <= k < |c| ==> Sentences(text)[k] == t[c[k].lo..c[k].hi]
  {
    var t := Normalize(text);
    NormalizeShape(text);
    NonEmptyOnlyKeeps(Pieces(t));
  }

  /** `sorted(pr.items(), key=lambda x: -x[1])[:m]` followed by `sorted` of
      the indices: the `m` best-scoring indices, equal scores taken in index
      order, listed in ascending order. */
  function TopSentences(scores: seq<real>, m: int): (sel: seq<nat>)
    ensures |sel| == (if m >= 0 then Min(m, |scores|) else Max(0, |scores| + m))
    ensures StrictlyIncreasing(sel) && InBounds(sel, |scores|)
  {
    var order := ScoreOrder(scores);
    ChainDistinct(scores, order);
    var best := SliceTo(order, m);
    var sel := SortAscending(best);
    assert |sel| == |multiset(sel)| == |multiset(best)| == |best|;
    assert forall k :: 0 <= k < |sel| ==> sel[k] in multiset(best);
    sel
  }

  /** Selection is by score: every selected sentence comes before every
      unselected one in the descending order, so it scores at least as
      high, and on equal scores the earlier sentence is the one selected. */
  lemma TopSentencesDominate(scores: seq<real>, m: int)
    ensures var sel := TopSentences(scores, m);
      forall i: nat, j: nat :: i < |scores| && j < |scores| && i in sel && j !in sel ==>
        scores[i] >= scores[j] && (scores[i] == scores[j] ==> i < j)
  {
    var order := ScoreOrder(scores);
    ChainDistinct(scores, order);
    var best := SliceTo(order, m);
    var sel := TopSentences(scores, m);
    assert sel == SortAscending(best);
    assert best == order[..|best|];
    forall i: nat, j: nat | i < |scores| && j < |scores| && i in sel && j !in sel
      ensures scores[i] >= scores[j] && (scores[i] == scores[j] ==> i < j)
    {
      assert i in multiset(sel);
      assert j !in multiset(sel);
      PrefixDominates(scores, |best|, i, j);
    }
  }

  /** `textrank_summary`: nothing for text without sentences; every
      sentence when there are at most `maxSents`; otherwise the `maxSents`
      best-scoring ones in their original order. Sentences are joined by
      single spaces. */
  function TextRankSummary(text: string, maxSents: int, pagerank: seq<string> -> seq<real>): (r: string)
    requires |pagerank(Sentences(text))| == |Sentences(text)|
    ensures AllSpace(text) || maxSents == 0 ==> r == ""
    ensures !AllSpace(text) && maxSents >= 1 ==> r != ""
  {
    var sents := Sentences(text);
    SentencesShape(text);
    if sents == [] then ""
    else if |sents| <= maxSents then Join(sents, " ")
    else
      var picked := At(sents, TopSentences(pagerank(sents), maxSents));
      assert maxSents >= 1 ==> picked[0] != [];
      Join(picked, " ")
  }

  /** The three outcomes of the summary: empty for whitespace-only text, all
      sentences in order when there are few, and otherwise exactly
      `maxSents` of them (when `maxSents` is not negative), in ascending
      original order, chosen by score. */
  lemma SummaryCases(text: string, maxSents: int, pagerank: seq<string> -> seq<real>)
    requires |pagerank(Sentences(text))| == |Sentences(text)|
    ensures AllSpace(text) ==> TextRankSummary(text, maxSents, pagerank) == ""
    ensures !AllSpace(text) && |Sentences(text)| <= maxSents ==>
      TextRankSummary(text, maxSents, pagerank) == Join(Sentences(text), " ")
    ensures |Sentences(text)| > maxSents >= 0 ==>
      var sel := TopSentences(pagerank(Sentences(text)), maxSents);
      |sel| == maxSents && StrictlyIncreasing(sel) &&
      TextRankSummary(text, maxSents, pagerank) == Join(At(Sentences(text), sel), " ")
  {
    SentencesShape(text);
  }
}
