/** Outline extraction (core/extractor.py). The PDF is given by what the
    reader library returns for it: the embedded table of contents and, per
    page, its text lines with the font size of each line's first span. */
module Extractor {
  import opened Text

  datatype Option<T> = None | Some(value: T)

  /** One `(level, title, page)` entry of the embedded table of contents. */
  datatype TocEntry = TocEntry(level: int, title: string, page: int)

  /** A `{"page", "text"}` heading of the outline. */
  datatype OutlineEntry = OutlineEntry(page: int, text: string)

  /** A text line of a page: the concatenated text of its spans and the size
      of its first span. */
  datatype TextLine = TextLine(size: real, text: string)

  /** A recorded `(page, size, text)` line. */
  datatype Span = Span(page: int, size: real, text: string)

  /** A heading candidate while merging. */
  datatype Head = Head(page: int, size: real, text: string)

  function Abs(x: real): real { if x < 0.0 then -x else x }

  // ---------------------------------------------------------------------
  // Table of contents

  /** The entries the comprehension over the table of contents keeps. */
  predicate KeepTocEntry(e: TocEntry) {
    e.level <= 2 && Strip(e.title) != ""
  }

  /** Entries of level at most 2 with a non-blank title, in order, with the
      title trimmed and the page unchanged. */
  function TocOutline(toc: seq<TocEntry>): (outline: seq<OutlineEntry>)
    ensures |outline| <= |toc|
    ensures forall k :: 0 <= k < |outline| ==> outline[k].text != "" && Trimmed(outline[k].text)
  {
    if toc == [] then []
    else
      var e := toc[0];
      (if KeepTocEntry(e) then [OutlineEntry(e.page, Strip(e.title))] else []) + TocOutline(toc[1..])
  }

  /** The table-of-contents outline is a filter: it distributes over
      concatenation, so together with its value on one entry it fixes which
      entries survive and in what order. */
  lemma {:induction false} TocOutlineAppend(a: seq<TocEntry>, b: seq<TocEntry>)
    ensures TocOutline(a + b) == TocOutline(a) + TocOutline(b)
  {
    if a != [] {
      assert (a + b)[1..] == a[1..] + b;
      TocOutlineAppend(a[1..], b);
    } else {
      assert a + b == b;
    }
  }

  /** On a single entry: kept, trimmed, with its page, exactly when its level
      is at most 2 and its title is not blank. */
  lemma TocOutlineSingle(e: TocEntry)
    ensures TocOutline([e]) == if e.level <= 2 && !AllSpace(e.title)
                               then [OutlineEntry(e.page, Strip(e.title))] else []
  {
    assert [e][1..] == [];
  }

  // ---------------------------------------------------------------------
  // Gathering the lines

  /** The span recorded for a line of page `pnum`, if its text is not blank. */
  function LineSpan(pnum: int, line: TextLine): seq<Span> {
    var txt := Strip(line.text);
    if txt == "" then [] else [Span(pnum, line.size, txt)]
  }

  /** The spans recorded for the lines of page `pnum`, in order. */
  function LineSpans(pnum: int, lines: seq<TextLine>): (spans: seq<Span>)
    ensures forall k :: 0 <= k < |spans| ==> spans[k].page == pnum && !AllSpace(spans[k].text)
  {
    if lines == [] then []
    else LineSpans(pnum, lines[..|lines| - 1]) + LineSpan(pnum, lines[|lines| - 1])
  }

  /** The spans recorded for every page, numbering pages from 1. */
  function Gathered(pageLines: seq<seq<TextLine>>): (spans: seq<Span>)
    ensures forall k :: 0 <= k < |spans| ==>
      1 <= spans[k].page <= |pageLines| && !AllSpace(spans[k].text)
  {
    if pageLines == [] then []
    else
      var init := Gathered(pageLines[..|pageLines| - 1]);
      var last := LineSpans(|pageLines|, pageLines[|pageLines| - 1]);
      init + last
  }

  /** Every line of `lines` is blank. */
  predicate BlankLines(lines: seq<TextLine>) {
    forall k :: 0 <= k < |lines| ==> AllSpace(lines[k].text)
  }

  /** Every line of every page is blank. */
  predicate BlankPages(pageLines: seq<seq<TextLine>>) {
    forall p :: 0 <= p < |pageLines| ==> BlankLines(pageLines[p])
  }

  /** No span is recorded exactly when every line of every page is blank. */
  lemma {:induction false} GatheredEmpty(pageLines: seq<seq<TextLine>>)
    ensures Gathered(pageLines) == [] <==> BlankPages(pageLines)
  {
    if pageLines != [] {
      var n := |pageLines|;
      var a := Gathered(pageLines[..n - 1]);
      var b := LineSpans(n, pageLines[n - 1]);
      GatheredEmpty(pageLines[..n - 1]);
      LineSpansEmpty(n, pageLines[n - 1]);
      GatheredSplit(pageLines);
      BlankPagesSplit(pageLines);
      EmptyConcat(a, b);
    }
  }

  lemma EmptyConcat<T>(a: seq<T>, b: seq<T>)
    ensures a + b == [] <==> a == [] && b == []
  {
    assert |a + b| == |a| + |b|;
  }

  lemma GatheredSplit(pageLines: seq<seq<TextLine>>)
    requires pageLines != []
    ensures Gathered(pageLines) == Gathered(pageLines[..|pageLines| - 1]) + LineSpans(|pageLines|, pageLines[|pageLines| - 1])
  {
  }

  lemma BlankPagesSplit(pageLines: seq<seq<TextLine>>)
    requires pageLines != []
    ensures BlankPages(pageLines) <==> BlankPages(pageLines[..|pageLines| - 1]) && BlankLines(pageLines[|pageLines| - 1])
  {
    assert forall p :: 0 <= p < |pageLines| - 1 ==> pageLines[..|pageLines| - 1][p] == pageLines[p];
  }

  lemma {:induction false} LineSpansEmpty(pnum: int, lines: seq<TextLine>)
    ensures LineSpans(pnum, lines) == [] <==> BlankLines(lines)
  {
    if lines != [] {
      var n := |lines|;
      LineSpansEmpty(pnum, lines[..n - 1]);
      LineSpansSplit(pnum, lines);
      BlankLinesSplit(lines);
      LineSpanEmpty(pnum, lines[n - 1]);
      EmptyConcat(LineSpans(pnum, lines[..n - 1]), LineSpan(pnum, lines[n - 1]));
    }
  }

  lemma LineSpanEmpty(pnum: int, line: TextLine)
    ensures LineSpan(pnum, line) == [] <==> AllSpace(line.text)
  {
  }

  lemma LineSpansSplit(pnum: int, lines: seq<TextLine>)
    requires lines != []
    ensures LineSpans(pnum, lines) == LineSpans(pnum, lines[..|lines| - 1]) + LineSpan(pnum, lines[|lines| - 1])
  {
  }

  lemma BlankLinesSplit(lines: seq<TextLine>)
    requires lines != []
    ensures BlankLines(lines) <==> BlankLines(lines[..|lines| - 1]) && AllSpace(lines[|lines| - 1].text)
  {
    assert forall k :: 0 <= k < |lines| - 1 ==> lines[..|lines| - 1][k] == lines[k];
  }

  /** The nested loop over pages and lines that records the spans. */
  method GatherSpans(pageLines: seq<seq<TextLine>>) returns (spans: seq<Span>)
    ensures spans == Gathered(pageLines)
  {
    spans := [];
    var p := 0;
    while p < |pageLines|
      invariant 0 <= p <= |pageLines|
      invariant spans == Gathered(pageLines[..p])
    {
      var lines := pageLines[p];
      ghost var before := spans;
      var k := 0;
      while k < |lines|
        invariant 0 <= k <= |lines|
        invariant spans == before + LineSpans(p + 1, lines[..k])
      {
        LineSpansNext(p + 1, lines, k);
        AppendAssoc(before, LineSpans(p + 1, lines[..k]), LineSpan(p + 1, lines[k]));
        var txt := Strip(lines[k].text);
        if txt != "" {
          spans := spans + [Span(p + 1, lines[k].size, txt)];
        }
        k := k + 1;
      }
      assert lines[..k] == lines;
      GatheredNext(pageLines, p);
      p := p + 1;
    }
    assert pageLines[..p] == pageLines;
  }

  lemma AppendAssoc<T>(a: seq<T>, b: seq<T>, c: seq<T>)
    ensures (a + b) + c == a + (b + c)
  {
  }

  lemma LineSpansNext(pnum: int, lines: seq<TextLine>, k: nat)
    requires k < |lines|
    ensures LineSpans(pnum, lines[..k + 1]) == LineSpans(pnum, lines[..k]) + LineSpan(pnum, lines[k])
  {
    assert lines[..k + 1][..k] == lines[..k];
  }

  lemma GatheredNext(pageLines: seq<seq<TextLine>>, p: nat)
    requires p < |pageLines|
    ensures Gathered(pageLines[..p + 1]) == Gathered(pageLines[..p]) + LineSpans(p + 1, pageLines[p])
  {
    assert pageLines[..p + 1][..p] == pageLines[..p];
  }

  // ---------------------------------------------------------------------
  // Body size and heading threshold

  function Sizes(spans: seq<Span>): (sizes: seq<real>)
    ensures |sizes| == |spans| && forall k :: 0 <= k < |spans| ==> sizes[k] == spans[k].size
  {
    seq(|spans|, k requires 0 <= k < |spans| => spans[k].size)
  }

  /** How often `x` occurs in `sizes`: `Counter(sizes)[x]`. */
  function Count(sizes: seq<real>, x: real): nat {
    multiset(sizes)[x]
  }

  /** The scan `max(Counter(sizes).items(), key=count)` performs: `best` is the
      leader among the first `i` sizes; a later size replaces it only with a
      strictly higher count. */
  function LeaderFrom(sizes: seq<real>, i: nat, best: nat): (r: nat)
    requires best < i <= |sizes|
    requires forall j :: 0 <= j < i ==> Count(sizes, sizes[j]) <= Count(sizes, sizes[best])
    requires forall j :: 0 <= j < best ==> Count(sizes, sizes[j]) < Count(sizes, sizes[best])
    ensures r < |sizes|
    ensures forall j :: 0 <= j < |sizes| ==> Count(sizes, sizes[j]) <= Count(sizes, sizes[r])
    ensures forall j :: 0 <= j < r ==> Count(sizes, sizes[j]) < Count(sizes, sizes[r])
    decreases |sizes| - i
  {
    if i == |sizes| then best
    else if Count(sizes, sizes[i]) > Count(sizes, sizes[best]) then LeaderFrom(sizes, i + 1, i)
    else LeaderFrom(sizes, i + 1, best)
  }

  /** `Counter(sizes).most_common(1)[0][0]`: a most frequent size; every size
      met before its first occurrence is strictly less frequent, so among
      equally frequent sizes the first encountered wins. */
  function BodySize(sizes: seq<real>): (body: real)
    requires sizes != []
    ensures body in sizes
    ensures forall j :: 0 <= j < |sizes| ==> Count(sizes, sizes[j]) <= Count(sizes, body)
    ensures exists r :: 0 <= r < |sizes| && sizes[r] == body &&
                        forall j :: 0 <= j < r ==> Count(sizes, sizes[j]) < Count(sizes, body)
  {
    var r := LeaderFrom(sizes, 1, 0);
    sizes[r]
  }

  /** The smallest size strictly above `body`, if there is one: the head of
      `[s for s in sorted(set(sizes)) if s > body]`. */
  function SmallestAbove(sizes: seq<real>, body: real): (r: Option<real>)
    ensures r.Some? ==> (r.value in sizes && r.value > body &&
                         forall s :: s in sizes && s > body ==> r.value <= s)
    ensures r.None? ==> forall s :: s in sizes ==> s <= body
  {
    if sizes == [] then None
    else
      var rest := SmallestAbove(sizes[1..], body);
      assert forall s :: s in sizes ==> s == sizes[0] || s in sizes[1..];
      if sizes[0] <= body then rest
      else if rest.None? || sizes[0] < rest.value then Some(sizes[0])
      else rest
  }

  /** The heading threshold: the next size above the body size, or the 90th
      percentile `quantile` when no size exceeds the body size. */
  function Threshold(sizes: seq<real>, body: real, quantile: real): (t: real)
    ensures (exists s :: s in sizes && s > body) ==>
      t in sizes && t > body && forall s :: s in sizes && body < s ==> t <= s
    ensures (forall s :: s in sizes ==> s <= body) ==> t == quantile
  {
    match SmallestAbove(sizes, body)
    case Some(t) => t
    case None => quantile
  }

  // ---------------------------------------------------------------------
  // Filtering and merging

  /** A span may be folded into the last head: same page, and sizes less
      than one point apart. */
  predicate Mergeable(heads: seq<Head>, sp: Span) {
    heads != [] && heads[|heads| - 1].page == sp.page && Abs(sp.size - heads[|heads| - 1].size) < 1.0
  }

  /** One iteration of the merge loop. A span below the threshold changes
      nothing; a kept span that cannot be merged becomes a new head; a kept
      mergeable span is folded into the last head, whose text afterwards
      contains it: it is left alone when it already does, and otherwise
      extended by a space and the span's text. */
  function MergeStep(heads: seq<Head>, sp: Span, thresh: real): (r: seq<Head>)
    ensures |r| == |heads| || r == heads + [Head(sp.page, sp.size, sp.text)]
    ensures |r| > |heads| ==> (sp.size >= thresh &&
                               (heads == [] || heads[|heads| - 1].page != sp.page || Abs(sp.size - heads[|heads| - 1].size) >= 1.0))
    ensures |r| == |heads| ==> forall k :: 0 <= k < |heads| - 1 ==> r[k] == heads[k]
    ensures |r| == |heads| && heads != [] ==>
      var last, was := r[|r| - 1], heads[|heads| - 1];
      last.page == was.page && last.size == was.size &&
      (last.text == was.text ||
        (sp.size >= thresh && sp.page == was.page && Abs(sp.size - was.size) < 1.0 &&
         !Contains(was.text, sp.text) && last.text == was.text + " " + sp.text))
    ensures sp.size < thresh ==> r == heads
    ensures sp.size >= thresh && !Mergeable(heads, sp) ==> r == heads + [Head(sp.page, sp.size, sp.text)]
    ensures sp.size >= thresh && Mergeable(heads, sp) ==>
      |r| == |heads| &&
      (Contains(heads[|heads| - 1].text, sp.text) ==> r == heads) &&
      (!Contains(heads[|heads| - 1].text, sp.text) ==>
         r[|r| - 1].text == heads[|heads| - 1].text + " " + sp.text)
  {
    if sp.size < thresh then heads
    else if Mergeable(heads, sp) then
      var last := heads[|heads| - 1];
      if Contains(last.text, sp.text) then heads
      else heads[|heads| - 1 := last.(text := last.text + " " + sp.text)]
    else heads + [Head(sp.page, sp.size, sp.text)]
  }

  /** The heads after the merge loop has run over all of `spans`. */
  function Merged(spans: seq<Span>, thresh: real): seq<Head> {
    if spans == [] then []
    else MergeStep(Merged(spans[..|spans| - 1], thresh), spans[|spans| - 1], thresh)
  }

  /** The spans at or above the threshold, in order. */
  function Kept(spans: seq<Span>, thresh: real): (kept: seq<Span>)
    ensures |kept| <= |spans|
    ensures forall k :: 0 <= k < |kept| ==> kept[k] in spans && kept[k].size >= thresh
  {
    if spans == [] then []
    else
      var init := Kept(spans[..|spans| - 1], thresh);
      var last := spans[|spans| - 1];
      assert forall k :: 0 <= k < |init| ==> init[k] in spans[..|spans| - 1];
      init + (if last.size >= thresh then [last] else [])
  }

  /** The merge loop, appending heads and extending the last one in place. */
  method MergeHeads(spans: seq<Span>, thresh: real) returns (heads: seq<Head>)
    ensures heads == Merged(spans, thresh)
  {
    heads := [];
    for i := 0 to |spans|
      invariant heads == Merged(spans[..i], thresh)
    {
      assert spans[..i + 1][..i] == spans[..i];
      var sp := spans[i];
      if sp.size < thresh {
        continue;
      }
      if heads != [] && heads[|heads| - 1].page == sp.page && Abs(sp.size - heads[|heads| - 1].size) < 1.0 {
        if !Contains(heads[|heads| - 1].text, sp.text) {
          heads := heads[|heads| - 1 := heads[|heads| - 1].(text := heads[|heads| - 1].text + " " + sp.text)];
        }
      } else {
        heads := heads + [Head(sp.page, sp.size, sp.text)];
      }
    }
    assert spans[..|spans|] == spans;
  }

  /** Spans below the threshold never contribute: merging all spans is merging
      only the kept ones. */
  lemma {:induction false} MergedIgnoresBelow(spans: seq<Span>, thresh: real)
    ensures Merged(spans, thresh) == Merged(Kept(spans, thresh), thresh)
  {
    if spans != [] {
      var init := spans[..|spans| - 1];
      var last := spans[|spans| - 1];
      MergedIgnoresBelow(init, thresh);
      KeptSplit(spans, thresh);
      if last.size >= thresh {
        MergedSplit(Kept(init, thresh) + [last], thresh);
      }
    }
  }

  lemma KeptSplit(spans: seq<Span>, thresh: real)
    requires spans != []
    ensures var last := spans[|spans| - 1];
      Kept(spans, thresh) == if last.size >= thresh then Kept(spans[..|spans| - 1], thresh) + [last]
                             else Kept(spans[..|spans| - 1], thresh)
  {
  }

  lemma MergedSplit(spans: seq<Span>, thresh: real)
    requires spans != []
    ensures Merged(spans, thresh) == MergeStep(Merged(spans[..|spans| - 1], thresh), spans[|spans| - 1], thresh)
  {
  }

  /** Merging never produces more heads than spans. */
  lemma {:induction false} MergedLength(spans: seq<Span>, thresh: real)
    ensures |Merged(spans, thresh)| <= |spans|
  {
    if spans != [] {
      MergedLength(spans[..|spans| - 1], thresh);
    }
  }

  /** Every head carries the page and size of a span at or above the
      threshold, and at most one head is made per kept span. */
  lemma {:induction false} MergedFromKept(spans: seq<Span>, thresh: real)
    ensures |Merged(spans, thresh)| <= |Kept(spans, thresh)|
    ensures forall h :: h in Merged(spans, thresh) ==>
      exists k :: 0 <= k < |spans| && spans[k].size >= thresh && spans[k].page == h.page && spans[k].size == h.size
  {
    MergedIgnoresBelow(spans, thresh);
    MergedLength(Kept(spans, thresh), thresh);
    HeadsFromSpans(spans, thresh);
  }

  lemma {:induction false} HeadsFromSpans(spans: seq<Span>, thresh: real)
    ensures forall h :: h in Merged(spans, thresh) ==>
      exists k :: 0 <= k < |spans| && spans[k].size >= thresh && spans[k].page == h.page && spans[k].size == h.size
  {
    if spans != [] {
      var n := |spans|;
      var init := spans[..n - 1];
      HeadsFromSpans(init, thresh);
      var before := Merged(init, thresh);
      var after := Merged(spans, thresh);
      forall h | h in after
        ensures exists k :: 0 <= k < n && spans[k].size >= thresh && spans[k].page == h.page && spans[k].size == h.size
      {
        var i :| 0 <= i < |after| && after[i] == h;
        if i < |before| {
          var b := before[i];
          assert b in before;
          var k :| 0 <= k < n - 1 && init[k].size >= thresh && init[k].page == b.page && init[k].size == b.size;
          assert spans[k] == init[k];
        } else {
          assert spans[n - 1].size >= thresh;
        }
      }
    }
  }

  lemma NotAllSpaceExtend(a: string, b: string)
    requires !AllSpace(a)
    ensures !AllSpace(a + b)
  {
    var k :| 0 <= k < |a| && !IsSpace(a[k]);
    assert (a + b)[k] == a[k];
  }

  /** Heads built from non-blank spans are non-blank. */
  lemma {:induction false} MergedNonBlank(spans: seq<Span>, thresh: real)
    requires forall k :: 0 <= k < |spans| ==> !AllSpace(spans[k].text)
    ensures forall k :: 0 <= k < |Merged(spans, thresh)| ==> !AllSpace(Merged(spans, thresh)[k].text)
  {
    if spans != [] {
      var n := |spans|;
      MergedNonBlank(spans[..n - 1], thresh);
      var before := Merged(spans[..n - 1], thresh);
      var after := Merged(spans, thresh);
      forall i | 0 <= i < |after| ensures !AllSpace(after[i].text) {
        var h := after[i];
        if i < |before| {
          if h != before[i] {
            NotAllSpaceExtend(before[i].text, " " + spans[n - 1].text);
            assert before[i].text + " " + spans[n - 1].text == before[i].text + (" " + spans[n - 1].text);
          }
        }
      }
    }
  }

  /** No two neighbouring heads could have been merged: they lie on
      different pages or differ in size by at least one point. */
  predicate Separated(heads: seq<Head>) {
    forall k :: 0 <= k < |heads| - 1 ==>
      heads[k].page != heads[k + 1].page || Abs(heads[k + 1].size - heads[k].size) >= 1.0
  }

  /** The merge loop leaves its heads separated: a span on the same page as
      the last head and within one point of its size is always folded into
      that head (or dropped as already contained), never made a head of its
      own. */
  lemma {:induction false} MergedSeparated(spans: seq<Span>, thresh: real)
    ensures Separated(Merged(spans, thresh))
  {
    if spans != [] {
      var n := |spans|;
      MergedSeparated(spans[..n - 1], thresh);
      var before := Merged(spans[..n - 1], thresh);
      var after := Merged(spans, thresh);
      assert after == MergeStep(before, spans[n - 1], thresh);
      if |after| == |before| {
        forall k | 0 <= k < |after| - 1
          ensures after[k].page != after[k + 1].page || Abs(after[k + 1].size - after[k].size) >= 1.0
        {
          assert after[k] == before[k];
          if k + 1 < |after| - 1 {
            assert after[k + 1] == before[k + 1];
          }
        }
      } else {
        forall k | 0 <= k < |after| - 1
          ensures after[k].page != after[k + 1].page || Abs(after[k + 1].size - after[k].size) >= 1.0
        {
          assert after[k] == before[k];
          if k + 1 < |before| {
            assert after[k + 1] == before[k + 1];
          }
        }
      }
    }
  }

  /** No kept span is lost: the text of every span at or above the
      threshold is contained in some head on that span's page. */
  lemma {:induction false} MergedKeepsText(spans: seq<Span>, thresh: real)
    ensures forall k :: 0 <= k < |spans| && spans[k].size >= thresh ==>
      exists h :: h in Merged(spans, thresh) && h.page == spans[k].page && Contains(h.text, spans[k].text)
  {
    if spans != [] {
      var n := |spans|;
      var init := spans[..n - 1];
      var sp := spans[n - 1];
      MergedKeepsText(init, thresh);
      var before := Merged(init, thresh);
      var after := Merged(spans, thresh);
      assert after == MergeStep(before, sp, thresh);
      forall k | 0 <= k < n && spans[k].size >= thresh
        ensures exists h :: h in after && h.page == spans[k].page && Contains(h.text, spans[k].text)
      {
        if k == n - 1 {
          KeepsLast(before, sp, thresh);
        } else {
          assert spans[k] == init[k];
          var g :| g in before && g.page == init[k].page && Contains(g.text, init[k].text);
          KeepsEarlier(before, sp, thresh, g, init[k].text);
        }
      }
    }
  }

  /** The span a step processes is kept, if it is at or above the threshold. */
  lemma KeepsLast(heads: seq<Head>, sp: Span, thresh: real)
    requires sp.size >= thresh
    ensures exists h :: h in MergeStep(heads, sp, thresh) && h.page == sp.page && Contains(h.text, sp.text)
  {
    var r := MergeStep(heads, sp, thresh);
    if Mergeable(heads, sp) {
      var was := heads[|heads| - 1];
      if !Contains(was.text, sp.text) {
        ContainsTail(was.text + " ", sp.text);
      }
      assert r[|r| - 1] in r;
    } else {
      ContainsSelf(sp.text);
      assert r[|r| - 1] in r;
    }
  }

  /** A step keeps what the heads already contained, page by page. */
  lemma KeepsEarlier(heads: seq<Head>, sp: Span, thresh: real, g: Head, x: string)
    requires g in heads && Contains(g.text, x)
    ensures exists h :: h in MergeStep(heads, sp, thresh) && h.page == g.page && Contains(h.text, x)
  {
    var r := MergeStep(heads, sp, thresh);
    var i :| 0 <= i < |heads| && heads[i] == g;
    if |r| > |heads| || i < |heads| - 1 {
      assert r[i] == g && r[i] in r;
    } else {
      var last := r[|r| - 1];
      assert last in r;
      if last.text != g.text {
        ContainsExtend(g.text, " " + sp.text, x);
        assert last.text == g.text + (" " + sp.text);
      }
    }
  }

  // ---------------------------------------------------------------------
  // The heading filter

  const MaxHeadingWords := 12

  /** The positions of the tokens that begin with an upper-case letter. */
  function CapitalIndices(w: seq<string>): set<nat> {
    set k: nat | k < |w| && w[k] != [] && IsUpper(w[k][0])
  }

  /** How many tokens begin with an upper-case letter. */
  function CapitalisedCount(w: seq<string>): (c: nat)
    requires forall k :: 0 <= k < |w| ==> w[k] != []
    ensures c == |CapitalIndices(w)|
    ensures c <= |w|
    ensures c == 0 <==> forall k :: 0 <= k < |w| ==> !IsUpper(w[k][0])
    ensures c == |w| <==> forall k :: 0 <= k < |w| ==> IsUpper(w[k][0])
  {
    if w == [] then
      assert CapitalIndices(w) == {};
      0
    else
      var n := |w| - 1;
      var rest := CapitalisedCount(w[..n]);
      CapitalIndicesSnoc(w);
      assert forall k :: 0 <= k < n ==> w[k] == w[..n][k];
      rest + (if IsUpper(w[n][0]) then 1 else 0)
  }

  lemma CapitalIndicesSnoc(w: seq<string>)
    requires w != [] && w[|w| - 1] != []
    ensures var n := |w| - 1;
      |CapitalIndices(w)| == |CapitalIndices(w[..n])| + (if IsUpper(w[n][0]) then 1 else 0)
  {
    var n := |w| - 1;
    var top: set<nat> := if IsUpper(w[n][0]) then {n} else {};
    assert CapitalIndices(w) == CapitalIndices(w[..n]) + top;
    assert n !in CapitalIndices(w[..n]);
  }

  /** `is_heading`: at most 12 whitespace-separated tokens, and at least half
      of them begin with an upper-case letter. The text is never blank here,
      so the division by the number of tokens is defined. */
  predicate IsHeading(t: string)
    requires !AllSpace(t)
    ensures IsHeading(t) <==>
      1 <= |Words(t)| <= MaxHeadingWords && 2 * |CapitalIndices(Words(t))| >= |Words(t)|
  {
    WordsEmpty(t);
    var w := Words(t);
    |w| <= MaxHeadingWords && 2 * CapitalisedCount(w) >= |w|
  }

  /** More than 12 tokens are never a heading; at most 12 tokens that all
      begin with an upper-case letter always are; tokens that begin with
      anything else (a digit, punctuation, a lower-case letter) never count,
      so a text none of whose tokens is capitalised is never a heading. */
  lemma IsHeadingMeaning(t: string)
    requires !AllSpace(t)
    ensures |Words(t)| > MaxHeadingWords ==> !IsHeading(t)
    ensures |Words(t)| <= MaxHeadingWords && (forall k :: 0 <= k < |Words(t)| ==> IsUpper(Words(t)[k][0])) ==> IsHeading(t)
    ensures (forall k :: 0 <= k < |Words(t)| ==> !IsUpper(Words(t)[k][0])) ==> !IsHeading(t)
  {
    WordsEmpty(t);
  }

  /** The final comprehension: the heads that pass the filter, trimmed. */
  function HeadingOutline(heads: seq<Head>): (outline: seq<OutlineEntry>)
    requires forall k :: 0 <= k < |heads| ==> !AllSpace(heads[k].text)
    ensures |outline| <= |heads|
  {
    if heads == [] then []
    else
      var h := heads[0];
      (if IsHeading(h.text) then [OutlineEntry(h.page, Strip(h.text))] else []) + HeadingOutline(heads[1..])
  }

  /** On one head the final comprehension keeps it, trimmed and with its
      page, exactly when it passes `is_heading`. */
  lemma HeadingOutlineSingle(h: Head)
    requires !AllSpace(h.text)
    ensures HeadingOutline([h]) == if IsHeading(h.text) then [OutlineEntry(h.page, Strip(h.text))] else []
  {
    assert [h][1..] == [];
  }

  /** The final comprehension is a filter that keeps order: it distributes
      over concatenation. */
  lemma {:induction false} HeadingOutlineAppend(a: seq<Head>, b: seq<Head>)
    requires forall k :: 0 <= k < |a| ==> !AllSpace(a[k].text)
    requires forall k :: 0 <= k < |b| ==> !AllSpace(b[k].text)
    ensures HeadingOutline(a + b) == HeadingOutline(a) + HeadingOutline(b)
  {
    NonBlankAppend(a, b);
    if a != [] {
      var h := a[0];
      assert (a + b)[0] == h;
      assert (a + b)[1..] == a[1..] + b;
      HeadingOutlineAppend(a[1..], b);
      var first := if IsHeading(h.text) then [OutlineEntry(h.page, Strip(h.text))] else [];
      assert HeadingOutline(a + b) == first + HeadingOutline(a[1..] + b);
      assert HeadingOutline(a) == first + HeadingOutline(a[1..]);
      AppendAssoc(first, HeadingOutline(a[1..]), HeadingOutline(b));
    } else {
      assert a + b == b;
    }
  }

  lemma NonBlankAppend(a: seq<Head>, b: seq<Head>)
    requires forall k :: 0 <= k < |a| ==> !AllSpace(a[k].text)
    requires forall k :: 0 <= k < |b| ==> !AllSpace(b[k].text)
    ensures forall k :: 0 <= k < |a + b| ==> !AllSpace((a + b)[k].text)
    ensures a != [] ==> forall k :: 0 <= k < |a| - 1 ==> !AllSpace(a[1..][k].text)
  {
    forall k | 0 <= k < |a + b| ensures !AllSpace((a + b)[k].text) {
      if k < |a| { assert (a + b)[k] == a[k]; } else { assert (a + b)[k] == b[k - |a|]; }
    }
    if a != [] {
      forall k | 0 <= k < |a| - 1 ensures !AllSpace(a[1..][k].text) {
        assert a[1..][k] == a[k + 1];
      }
    }
  }

  // ---------------------------------------------------------------------
  // The whole extraction

  /** The outline found from font sizes, when there is no table of
      contents: empty when every line is blank, and otherwise at most one
      entry per recorded span. */
  function FontOutline(pageLines: seq<seq<TextLine>>, quantile: real): (outline: seq<OutlineEntry>)
    ensures BlankPages(pageLines) ==> outline == []
    ensures |outline| <= |Gathered(pageLines)|
  {
    var spans := Gathered(pageLines);
    GatheredEmpty(pageLines);
    if spans == [] then []
    else
      var sizes := Sizes(spans);
      var thresh := Threshold(sizes, BodySize(sizes), quantile);
      var heads := Merged(spans, thresh);
      MergedNonBlank(spans, thresh);
      MergedFromKept(spans, thresh);
      HeadingOutline(heads)
  }

  /** What `extract_outline` returns for a document. A non-empty table of
      contents decides the outline on its own, even when no entry survives;
      without one, blank pages give an empty outline, and otherwise the
      outline has at most one entry per recorded span. */
  function Outline(toc: seq<TocEntry>, pageLines: seq<seq<TextLine>>, quantile: real): (outline: seq<OutlineEntry>)
    ensures toc != [] ==> outline == TocOutline(toc)
    ensures toc == [] && BlankPages(pageLines) ==> outline == []
    ensures toc == [] ==> |outline| <= |Gathered(pageLines)|
  {
    if toc != [] then TocOutline(toc) else FontOutline(pageLines, quantile)
  }

  /** `extract_outline` with the document's contents as inputs. */
  method ExtractOutline(toc: seq<TocEntry>, pageLines: seq<seq<TextLine>>, quantile: real)
    returns (outline: seq<OutlineEntry>)
    ensures outline == Outline(toc, pageLines, quantile)
  {
    if toc != [] {
      return TocOutline(toc);
    }
    var spans := GatherSpans(pageLines);
    if spans == [] {
      return [];
    }
    var sizes := Sizes(spans);
    var body := BodySize(sizes);
    var thresh := Threshold(sizes, body, quantile);
    var heads := MergeHeads(spans, thresh);
    MergedNonBlank(spans, thresh);
    outline := HeadingOutline(heads);
  }
}
