/** Splitting a document into sections (core/segment.py). The outline comes
    from the extraction, the page texts from the reader library, and the
    file name's stem is given. */
module Segment {
  import opened Text
  import opened Extractor

  /** A section: its heading, its first page (1-based) and its text. */
  datatype Section = Section(heading: string, page: int, text: string)

  /** The outline used for segmentation: the extracted one, or a single entry
      on page 1 titled with the file's stem when nothing was extracted. */
  function EffectiveOutline(outline: seq<OutlineEntry>, stem: string): (ol: seq<OutlineEntry>)
    ensures ol != []
    ensures outline != [] ==> ol == outline
  {
    if outline == [] then [OutlineEntry(1, stem)] else outline
  }

  /** `max(1, min(p, n))`: a page number forced into `1..n`. */
  function Clamp(p: int, n: int): (r: int)
    requires n >= 1
    ensures 1 <= r <= n
    ensures 1 <= p <= n ==> r == p
    ensures p < 1 ==> r == 1
    ensures p > n ==> r == n
  {
    if p < 1 then 1 else if p > n then n else p
  }

  /** The exclusive end page of entry `idx`: the next entry's page, clamped,
      or one past the last page for the last entry. */
  function EndPage(ol: seq<OutlineEntry>, idx: nat, n: int): (e: int)
    requires idx < |ol| && n >= 1
    ensures 1 <= e <= n + 1
    ensures e == n + 1 <==> idx + 1 == |ol|
  {
    if idx + 1 < |ol| then Clamp(ol[idx + 1].page, n) else n + 1
  }

  /** `xs[lo:hi]` for `0 <= lo` and `hi <= |xs|`: empty when `hi <= lo`. */
  function PySlice<T>(xs: seq<T>, lo: nat, hi: nat): seq<T>
    requires lo <= |xs| && hi <= |xs|
  {
    if lo <= hi then xs[lo..hi] else []
  }

  /** The text of a section starting on page `p` and ending before page
      `end`: the pages in between joined by newlines and trimmed, or, when
      that is blank, page `p` alone, trimmed. */
  function Chunk(pages: seq<string>, p: int, end: int): (r: string)
    requires 1 <= p <= |pages| && 1 <= end <= |pages| + 1
    ensures Trimmed(r)
    ensures r == [] <==> AllSpace(pages[p - 1]) && forall k :: p - 1 <= k < end - 1 ==> AllSpace(pages[k])
  {
    var range := PySlice(pages, p - 1, end - 1);
    var joined := Strip(Join(range, "\n"));
    JoinAllSpace(range, "\n");
    assert forall k :: p - 1 <= k < end - 1 ==> pages[k] == range[k - (p - 1)];
    if joined != "" then joined else Strip(pages[p - 1])
  }

  /** The section built for entry `i` of the effective outline `ol`. */
  function SectionAt(ol: seq<OutlineEntry>, pages: seq<string>, i: nat): Section
    requires i < |ol| && |pages| >= 1
  {
    var p := Clamp(ol[i].page, |pages|);
    Section(Strip(ol[i].text), p, Chunk(pages, p, EndPage(ol, i, |pages|)))
  }

  /** `[f(0), ..., f(m - 1)]`, built front to back as a loop appends. */
  function Tabulate<T>(f: int --> T, m: nat): (r: seq<T>)
    requires forall i :: 0 <= i < m ==> f.requires(i)
    ensures |r| == m
  {
    if m == 0 then [] else Tabulate(f, m - 1) + [f(m - 1)]
  }

  lemma {:induction false} TabulateAt<T>(f: int --> T, m: nat, i: nat)
    requires forall i :: 0 <= i < m ==> f.requires(i)
    requires i < m
    ensures Tabulate(f, m)[i] == f(i)
  {
    if i < m - 1 {
      TabulateAt(f, m - 1, i);
    }
  }

  lemma TabulateNext<T>(f: int --> T, m: nat)
    requires forall i :: 0 <= i <= m ==> f.requires(i)
    ensures Tabulate(f, m + 1) == Tabulate(f, m) + [f(m)]
  {
  }

  /** Entry `i` of `ol` turned into its section. */
  function SectionFor(ol: seq<OutlineEntry>, pages: seq<string>): (f: int --> Section)
    requires |pages| >= 1
    ensures forall i :: 0 <= i < |ol| ==> f.requires(i)
  {
    i requires 0 <= i < |ol| && |pages| >= 1 => SectionAt(ol, pages, i)
  }

  /** The sections built for the first `m` entries of `ol`, in order. */
  function SectionsUpTo(ol: seq<OutlineEntry>, pages: seq<string>, m: nat): (secs: seq<Section>)
    requires m <= |ol| && |pages| >= 1
    ensures |secs| == m
  {
    Tabulate(SectionFor(ol, pages), m)
  }

  /** What `pdf_to_sections` returns: one section per entry of the effective
      outline, in order. */
  function Sections(outline: seq<OutlineEntry>, pages: seq<string>, stem: string): (secs: seq<Section>)
    requires |pages| >= 1
    ensures |secs| >= 1
    ensures outline != [] ==> |secs| == |outline|
  {
    var ol := EffectiveOutline(outline, stem);
    SectionsUpTo(ol, pages, |ol|)
  }

  lemma SectionsUpToIndex(ol: seq<OutlineEntry>, pages: seq<string>, m: nat)
    requires m <= |ol| && |pages| >= 1
    ensures forall i :: 0 <= i < m ==> SectionsUpTo(ol, pages, m)[i] == SectionAt(ol, pages, i)
  {
    forall i | 0 <= i < m ensures SectionsUpTo(ol, pages, m)[i] == SectionAt(ol, pages, i) {
      TabulateAt(SectionFor(ol, pages), m, i);
    }
  }

  /** `pdf_to_sections` with the outline, the page texts and the stem as
      inputs. A document without pages makes `pages[p-1]` fail, so at least
      one page is required. */
  method PdfToSections(outline: seq<OutlineEntry>, pages: seq<string>, stem: string)
    returns (sections: seq<Section>)
    requires |pages| >= 1
    ensures sections == Sections(outline, pages, stem)
  {
    var ol := outline;
    if ol == [] {
      ol := [OutlineEntry(1, stem)];
    }
    var n := |pages|;
    assert ol == EffectiveOutline(outline, stem);
    sections := [];
    var idx := 0;
    while idx < |ol|
      invariant 0 <= idx <= |ol|
      invariant sections == SectionsUpTo(ol, pages, idx)
    {
      var p := Clamp(ol[idx].page, n);
      var end := EndPage(ol, idx, n);
      var chunk := Chunk(pages, p, end);
      sections := sections + [Section(Strip(ol[idx].text), p, chunk)];
      idx := idx + 1;
    }
  }

  /** One section per outline entry, in outline order, each headed by the
      entry's trimmed text, starting on the entry's page clamped into
      `1..|pages|` and holding the text of its page range; an empty outline
      gives exactly one section, headed by the trimmed stem, on page 1. */
  lemma SectionsShape(outline: seq<OutlineEntry>, pages: seq<string>, stem: string)
    requires |pages| >= 1
    ensures outline == [] ==>
      (|Sections(outline, pages, stem)| == 1 &&
       Sections(outline, pages, stem)[0].heading == Strip(stem) && Sections(outline, pages, stem)[0].page == 1)
    ensures outline != [] ==> |Sections(outline, pages, stem)| == |outline|
    ensures outline != [] ==> forall i :: 0 <= i < |outline| ==>
      (var sec := Sections(outline, pages, stem)[i];
       sec.heading == Strip(outline[i].text) && sec.page == Clamp(outline[i].page, |pages|) &&
       1 <= sec.page <= |pages| && (1 <= outline[i].page <= |pages| ==> sec.page == outline[i].page) &&
       sec.text == Chunk(pages, sec.page, EndPage(outline, i, |pages|)))
  {
    var ol := EffectiveOutline(outline, stem);
    SectionsUpToIndex(ol, pages, |ol|);
  }

  /** The ranges abut: a section ends exactly where the next one starts, and
      the last one runs to the last page. */
  lemma RangesAbut(outline: seq<OutlineEntry>, pages: seq<string>, stem: string, i: nat)
    requires |pages| >= 1
    requires i < |EffectiveOutline(outline, stem)|
    ensures var ol := EffectiveOutline(outline, stem);
      var secs := Sections(outline, pages, stem);
      (i + 1 < |ol| ==> EndPage(ol, i, |pages|) == secs[i + 1].page) &&
      (i + 1 == |ol| ==> EndPage(ol, i, |pages|) == |pages| + 1)
  {
    var ol := EffectiveOutline(outline, stem);
    SectionsUpToIndex(ol, pages, |ol|);
  }

  /** When the next section starts on or before this one's page, the range
      is empty and the text is that page alone, trimmed. */
  lemma {:induction false} EmptyRangeUsesStartPage(pages: seq<string>, p: int, end: int)
    requires 1 <= p <= |pages| && 1 <= end <= p
    ensures Chunk(pages, p, end) == Strip(pages[p - 1])
  {
    assert PySlice(pages, p - 1, end - 1) == [];
  }

  /** When some page of the range is not blank, the text is the whole range
      joined by newlines, trimmed. */
  lemma {:induction false} RangeTextUsesRange(pages: seq<string>, p: int, end: int, k: int)
    requires 1 <= p <= |pages| && 1 <= end <= |pages| + 1
    requires p - 1 <= k < end - 1 && !AllSpace(pages[k])
    ensures Chunk(pages, p, end) == Strip(Join(pages[p - 1..end - 1], "\n"))
  {
    var range := PySlice(pages, p - 1, end - 1);
    assert range == pages[p - 1..end - 1];
    JoinAllSpace(range, "\n");
    assert range[k - (p - 1)] == pages[k];
  }

  /** Without an outline, the single section holds every page, joined by
      newlines and trimmed. */
  lemma {:induction false} FallbackTakesAllPages(pages: seq<string>, stem: string)
    requires |pages| >= 1
    ensures Sections([], pages, stem) == [Section(Strip(stem), 1, Strip(Join(pages, "\n")))]
  {
    FallbackSection(pages, stem);
    WholeRange(pages);
  }

  /** Without an outline there is one section, on page 1, whose range runs
      over every page. */
  lemma {:induction false} FallbackSection(pages: seq<string>, stem: string)
    requires |pages| >= 1
    ensures Sections([], pages, stem) == [Section(Strip(stem), 1, Chunk(pages, 1, |pages| + 1))]
  {
    var ol := [OutlineEntry(1, stem)];
    TabulateAt(SectionFor(ol, pages), 1, 0);
  }

  /** A range over every page is their join, trimmed. */
  lemma {:induction false} WholeRange(pages: seq<string>)
    requires |pages| >= 1
    ensures Chunk(pages, 1, |pages| + 1) == Strip(Join(pages, "\n"))
  {
    var n := |pages|;
    assert PySlice(pages, 0, n) == pages;
    JoinAllSpace(pages, "\n");
    if exists k :: 0 <= k < n && !AllSpace(pages[k]) {
      var k :| 0 <= k < n && !AllSpace(pages[k]);
      RangeTextUsesRange(pages, 1, n + 1, k);
      assert pages[0..n] == pages;
    }
  }

  /** The starts of the effective outline's sections never decrease. */
  predicate StartsSorted(ol: seq<OutlineEntry>, n: int)
    requires n >= 1
  {
    forall i, j :: 0 <= i <= j < |ol| ==> Clamp(ol[i].page, n) <= Clamp(ol[j].page, n)
  }

  /** When the starts never decrease, every page from the first section's
      start to the last page lies in the range of exactly one section. */
  lemma {:induction false} RangesPartition(ol: seq<OutlineEntry>, n: int, q: int)
    requires ol != [] && n >= 1 && StartsSorted(ol, n)
    requires Clamp(ol[0].page, n) <= q <= n
    ensures exists i :: 0 <= i < |ol| && Clamp(ol[i].page, n) <= q < EndPage(ol, i, n)
    ensures forall i, j :: (0 <= i < |ol| && 0 <= j < |ol| &&
      Clamp(ol[i].page, n) <= q < EndPage(ol, i, n) &&
      Clamp(ol[j].page, n) <= q < EndPage(ol, j, n)) ==> i == j
  {
    var i := LastStartAtOrBefore(ol, n, q, |ol| - 1);
    assert Clamp(ol[i].page, n) <= q < EndPage(ol, i, n);
  }

  /** The last entry at or below `hi` whose start is at most `q`. */
  function LastStartAtOrBefore(ol: seq<OutlineEntry>, n: int, q: int, hi: nat): (i: nat)
    requires n >= 1 && hi < |ol| && Clamp(ol[0].page, n) <= q <= n
    requires hi + 1 < |ol| ==> q < Clamp(ol[hi + 1].page, n)
    ensures i <= hi && Clamp(ol[i].page, n) <= q < EndPage(ol, i, n)
    decreases hi
  {
    if Clamp(ol[hi].page, n) <= q then hi
    else LastStartAtOrBefore(ol, n, q, hi - 1)
  }
}
