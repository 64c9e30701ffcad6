/** Processing a collection of PDFs (cli/run.py, `process_collection`):
    sections from every document, ranked against the persona and the job,
    de-duplicated by document and page, and turned into the two output
    lists. */
module Collection {
  import opened Text
  import opened Ordering
  import opened Extractor
  import opened Segment
  import opened Scorer
  import opened Summarizer

  /** One PDF of the input directory, as the libraries see it: its file name,
      its stem, its table of contents, its text lines per page, its page
      texts, and the 90th percentile of its line sizes. */
  datatype Pdf = Pdf(name: string, stem: string, toc: seq<TocEntry>, lines: seq<seq<TextLine>>,
                     pages: seq<string>, quantile: real)

  /** An entry of `extracted_sections`. */
  datatype ExtractedSection = ExtractedSection(document: string, sectionTitle: string,
                                               importanceRank: int, pageNumber: int)

  /** An entry of `subsection_analysis`. */
  datatype SubsectionAnalysis = SubsectionAnalysis(document: string, refinedText: string, pageNumber: int)

  /** The number of sentences `textrank_summary` keeps by default. */
  const MaxSummarySentences := 7

  /** Every document has at least one page. */
  predicate AllHavePages(pdfs: seq<Pdf>) {
    forall k :: 0 <= k < |pdfs| ==> |pdfs[k].pages| >= 1
  }

  /** The sections of one document. */
  function PdfSections(pdf: Pdf): seq<Section>
    requires |pdf.pages| >= 1
  {
    Sections(Outline(pdf.toc, pdf.lines, pdf.quantile), pdf.pages, pdf.stem)
  }

  /** The sections of each document, document by document. */
  function PerDocument(pdfs: seq<Pdf>): (per: seq<seq<Section>>)
    requires AllHavePages(pdfs)
    ensures |per| == |pdfs| && forall k :: 0 <= k < |pdfs| ==> per[k] == PdfSections(pdfs[k])
  {
    seq(|pdfs|, k requires 0 <= k < |pdfs| && |pdfs[k].pages| >= 1 => PdfSections(pdfs[k]))
  }

  /** `[p.name for p in pdf_paths]`. */
  function Names(pdfs: seq<Pdf>): (names: seq<string>)
    ensures |names| == |pdfs| && forall k :: 0 <= k < |pdfs| ==> names[k] == pdfs[k].name
  {
    seq(|pdfs|, k requires 0 <= k < |pdfs| => pdfs[k].name)
  }

  function Repeat(x: string, n: nat): (r: seq<string>)
    ensures |r| == n && forall i :: 0 <= i < n ==> r[i] == x
  {
    seq(n, i => x)
  }

  /** The lists one after the other, as repeated `extend` builds them. */
  function Concat<T>(xss: seq<seq<T>>): seq<T> {
    if xss == [] then [] else Concat(xss[..|xss| - 1]) + xss[|xss| - 1]
  }

  /** One label per element of `Concat(xss)`: the label of the list it came
      from. */
  function Labels<T>(names: seq<string>, xss: seq<seq<T>>): seq<string>
    requires |names| == |xss|
  {
    if xss == [] then []
    else Labels(names[..|xss| - 1], xss[..|xss| - 1]) + Repeat(names[|xss| - 1], |xss[|xss| - 1]|)
  }

  lemma {:induction false} LabelsLength<T>(names: seq<string>, xss: seq<seq<T>>)
    requires |names| == |xss|
    ensures |Labels(names, xss)| == |Concat(xss)|
  {
    if xss != [] {
      LabelsLength(names[..|xss| - 1], xss[..|xss| - 1]);
    }
  }

  /** The lists for the first `m` documents are prefixes of the lists for
      all of them. */
  lemma {:induction false} ConcatPrefix<T>(names: seq<string>, xss: seq<seq<T>>, m: nat)
    requires |names| == |xss| && m <= |xss|
    ensures |Concat(xss[..m])| <= |Concat(xss)|
    ensures Concat(xss)[..|Concat(xss[..m])|] == Concat(xss[..m])
    ensures |Labels(names[..m], xss[..m])| == |Concat(xss[..m])| && |Labels(names, xss)| == |Concat(xss)|
    ensures Labels(names, xss)[..|Concat(xss[..m])|] == Labels(names[..m], xss[..m])
    decreases |xss|
  {
    LabelsLength(names, xss);
    LabelsLength(names[..m], xss[..m]);
    if m < |xss| {
      var n := |xss| - 1;
      assert xss[..n][..m] == xss[..m];
      assert names[..n][..m] == names[..m];
      ConcatPrefix(names[..n], xss[..n], m);
      LabelsLength(names[..n], xss[..n]);
    } else {
      assert xss[..m] == xss;
      assert names[..m] == names;
    }
  }

  /** Element `j` of list `k` sits at `|Concat(xss[..k])| + j` and carries
      label `names[k]`. */
  lemma {:induction false} ConcatOwner<T>(names: seq<string>, xss: seq<seq<T>>, k: nat, j: nat)
    requires |names| == |xss| && k < |xss| && j < |xss[k]|
    ensures |Labels(names, xss)| == |Concat(xss)|
    ensures |Concat(xss[..k])| + j < |Concat(xss)|
    ensures Concat(xss)[|Concat(xss[..k])| + j] == xss[k][j]
    ensures Labels(names, xss)[|Concat(xss[..k])| + j] == names[k]
  {
    var upto := xss[..k + 1];
    var nup := names[..k + 1];
    assert upto[..k] == xss[..k] && nup[..k] == names[..k];
    ConcatPrefix(names, xss, k + 1);
    var a := Concat(xss[..k]);
    var m := |a| + |xss[k]|;
    assert Concat(upto) == a + xss[k];
    assert Concat(xss)[..m] == a + xss[k];
    assert Concat(xss)[|a| + j] == (a + xss[k])[|a| + j];
    var l := Labels(names[..k], xss[..k]);
    LabelsLength(names[..k], xss[..k]);
    assert Labels(nup, upto) == l + Repeat(names[k], |xss[k]|);
    assert Labels(names, xss)[..m] == l + Repeat(names[k], |xss[k]|);
    assert Labels(names, xss)[|a| + j] == (l + Repeat(names[k], |xss[k]|))[|a| + j];
  }

  /** `all_secs`: the sections of every document, document after
      document. */
  function AllSections(pdfs: seq<Pdf>): seq<Section>
    requires AllHavePages(pdfs)
  {
    Concat(PerDocument(pdfs))
  }

  /** `sec_docs`: the file name of each section's document. */
  function SectionDocs(pdfs: seq<Pdf>): (docs: seq<string>)
    requires AllHavePages(pdfs)
    ensures |docs| == |AllSections(pdfs)|
  {
    LabelsLength(Names(pdfs), PerDocument(pdfs));
    Labels(Names(pdfs), PerDocument(pdfs))
  }

  /** The loop that extends `all_secs` and `sec_docs` document by
      document. */
  method GatherSections(pdfs: seq<Pdf>) returns (allSecs: seq<Section>, secDocs: seq<string>)
    requires AllHavePages(pdfs)
    ensures allSecs == AllSections(pdfs) && secDocs == SectionDocs(pdfs)
  {
    ghost var per := PerDocument(pdfs);
    ghost var names := Names(pdfs);
    allSecs, secDocs := [], [];
    for k := 0 to |pdfs|
      invariant allSecs == Concat(per[..k]) && secDocs == Labels(names[..k], per[..k])
    {
      var pdf := pdfs[k];
      var outline := ExtractOutline(pdf.toc, pdf.lines, pdf.quantile);
      var secs := PdfToSections(outline, pdf.pages, pdf.stem);
      assert secs == per[k] && pdf.name == names[k];
      ConcatNext(names, per, k);
      allSecs := allSecs + secs;
      secDocs := secDocs + Repeat(pdf.name, |secs|);
    }
    assert per[..|pdfs|] == per && names[..|pdfs|] == names;
  }

  /** Extending by one more list. */
  lemma {:induction false} ConcatNext<T>(names: seq<string>, xss: seq<seq<T>>, k: nat)
    requires |names| == |xss| && k < |xss|
    ensures Concat(xss[..k + 1]) == Concat(xss[..k]) + xss[k]
    ensures Labels(names[..k + 1], xss[..k + 1]) == Labels(names[..k], xss[..k]) + Repeat(names[k], |xss[k]|)
  {
    assert xss[..k + 1][..k] == xss[..k] && names[..k + 1][..k] == names[..k];
  }

  // ---------------------------------------------------------------------
  // De-duplication

  /** The `(document, page)` key of each section. */
  function Keys(allSecs: seq<Section>, secDocs: seq<string>): (keys: seq<(string, int)>)
    requires |secDocs| == |allSecs|
    ensures |keys| == |allSecs| && forall i :: 0 <= i < |allSecs| ==> keys[i] == (secDocs[i], allSecs[i].page)
  {
    seq(|allSecs|, i requires 0 <= i < |allSecs| => (secDocs[i], allSecs[i].page))
  }

  /** Position `p` of the ranking holds the first index with its key. */
  predicate IsFirst(idxs: seq<nat>, keys: seq<(string, int)>, p: nat)
    requires InBounds(idxs, |keys|) && p < |idxs|
  {
    forall q :: 0 <= q < p ==> keys[idxs[q]] != keys[idxs[p]]
  }

  /** The positions below `m` that hold the first index with their key, in
      increasing order. */
  function FirstPositions(idxs: seq<nat>, keys: seq<(string, int)>, m: nat): (ps: seq<nat>)
    requires InBounds(idxs, |keys|) && m <= |idxs|
    ensures StrictlyIncreasing(ps) && InBounds(ps, m) && |ps| <= m
    ensures forall p :: 0 <= p < m ==> (p in ps <==> IsFirst(idxs, keys, p))
  {
    if m == 0 then []
    else
      var init := FirstPositions(idxs, keys, m - 1);
      if IsFirst(idxs, keys, m - 1) then init + [m - 1] else init
  }

  /** The indices the de-duplication keeps: the first index for each key, in
      ranking order, at most `max(top_k, 1)` of them. */
  function Deduplicated(idxs: seq<nat>, keys: seq<(string, int)>, topK: int): (d: seq<nat>)
    requires InBounds(idxs, |keys|)
    ensures |d| <= Max(topK, 1) && |d| <= |idxs|
    ensures forall k :: 0 <= k < |d| ==> d[k] in idxs
  {
    SliceTo(At(idxs, FirstPositions(idxs, keys, |idxs|)), Max(topK, 1))
  }

  lemma FirstPositionsPrefix(idxs: seq<nat>, keys: seq<(string, int)>, m: nat, n: nat)
    requires InBounds(idxs, |keys|) && m <= n <= |idxs|
    ensures |FirstPositions(idxs, keys, m)| <= |FirstPositions(idxs, keys, n)|
    ensures FirstPositions(idxs, keys, n)[..|FirstPositions(idxs, keys, m)|] == FirstPositions(idxs, keys, m)
    decreases n - m
  {
    if m < n {
      FirstPositionsPrefix(idxs, keys, m, n - 1);
    }
  }

  /** The first occurrences before `i` are exactly the keys in `seen`. */
  ghost predicate SeenBefore(idxs: seq<nat>, keys: seq<(string, int)>, i: nat, seen: set<(string, int)>)
    requires InBounds(idxs, |keys|) && i <= |idxs|
  {
    forall x :: x in seen <==> exists q :: 0 <= q < i && keys[idxs[q]] == x
  }

  /** One step of the loop: position `i` is a first occurrence exactly when
      its key is not yet in `seen`; afterwards `seen` holds its key too. */
  lemma {:induction false} SeenStep(idxs: seq<nat>, keys: seq<(string, int)>, i: nat, seen: set<(string, int)>)
    requires InBounds(idxs, |keys|) && i < |idxs|
    requires SeenBefore(idxs, keys, i, seen)
    ensures keys[idxs[i]] !in seen <==> IsFirst(idxs, keys, i)
    ensures SeenBefore(idxs, keys, i + 1, seen + {keys[idxs[i]]})
  {
    var key := keys[idxs[i]];
    forall x | x in seen + {key} ensures exists q :: 0 <= q < i + 1 && keys[idxs[q]] == x {
      if x == key {
        assert keys[idxs[i]] == x;
      }
    }
  }

  /** A first occurrence at `i` is kept after those before it; any other
      position adds nothing. Position 0 is always a first occurrence. */
  lemma {:induction false} FirstStep(idxs: seq<nat>, keys: seq<(string, int)>, i: nat)
    requires InBounds(idxs, |keys|) && i < |idxs|
    ensures IsFirst(idxs, keys, i) ==>
      At(idxs, FirstPositions(idxs, keys, i + 1)) == At(idxs, FirstPositions(idxs, keys, i)) + [idxs[i]]
    ensures !IsFirst(idxs, keys, i) ==>
      At(idxs, FirstPositions(idxs, keys, i + 1)) == At(idxs, FirstPositions(idxs, keys, i))
    ensures FirstPositions(idxs, keys, i + 1) != []
  {
    var ps := FirstPositions(idxs, keys, i);
    var ps1 := FirstPositions(idxs, keys, i + 1);
    if IsFirst(idxs, keys, i) {
      assert ps1 == ps + [i];
      var a, a1 := At(idxs, ps), At(idxs, ps1);
      assert forall t :: 0 <= t < |ps| ==> a1[t] == a[t];
      assert a1 == a + [idxs[i]];
    } else {
      assert ps1 == ps;
    }
    assert IsFirst(idxs, keys, 0);
    assert 0 in ps1;
  }

  /** The loop with the `seen` set and the early `break`. */
  method Dedup(idxs: seq<nat>, allSecs: seq<Section>, secDocs: seq<string>, topK: int)
    returns (unique: seq<nat>)
    requires |secDocs| == |allSecs| && InBounds(idxs, |allSecs|)
    ensures unique == Deduplicated(idxs, Keys(allSecs, secDocs), topK)
  {
    ghost var keys := Keys(allSecs, secDocs);
    ghost var cap := Max(topK, 1);
    unique := [];
    var seen: set<(string, int)> := {};
    var i := 0;
    while i < |idxs|
      invariant 0 <= i <= |idxs|
      invariant unique == At(idxs, FirstPositions(idxs, keys, i))
      invariant SeenBefore(idxs, keys, i, seen)
      invariant |unique| < cap
    {
      var idx := idxs[i];
      var key := (secDocs[idx], allSecs[idx].page);
      assert key == keys[idxs[i]];
      SeenStep(idxs, keys, i, seen);
      FirstStep(idxs, keys, i);
      if key !in seen {
        seen := seen + {key};
        unique := unique + [idx];
      }
      i := i + 1;
      if |unique| >= topK {
        assert |unique| == cap;
        break;
      }
    }
    assert |unique| <= cap && (i == |idxs| || |unique| == cap);
    DedupResult(idxs, keys, cap, i, unique);
  }

  /** The list the loop holds when it stops: every first occurrence when it
      ran to the end, the first `cap` of them when it broke off. */
  lemma DedupResult(idxs: seq<nat>, keys: seq<(string, int)>, cap: int, i: nat, unique: seq<nat>)
    requires InBounds(idxs, |keys|) && i <= |idxs| && cap >= 1
    requires unique == At(idxs, FirstPositions(idxs, keys, i))
    requires |unique| <= cap && (i == |idxs| || |unique| == cap)
    ensures unique == SliceTo(At(idxs, FirstPositions(idxs, keys, |idxs|)), cap)
  {
    var full := FirstPositions(idxs, keys, |idxs|);
    var part := FirstPositions(idxs, keys, i);
    FirstPositionsPrefix(idxs, keys, i, |idxs|);
    assert At(idxs, full)[..|part|] == At(idxs, part);
  }

  /** No two kept indices share a `(document, page)` key. */
  lemma DedupDistinctKeys(idxs: seq<nat>, keys: seq<(string, int)>, topK: int)
    requires InBounds(idxs, |keys|)
    ensures var d := Deduplicated(idxs, keys, topK);
      forall s, t :: 0 <= s < t < |d| ==> keys[d[s]] != keys[d[t]]
  {
    var ps := FirstPositions(idxs, keys, |idxs|);
    var d := Deduplicated(idxs, keys, topK);
    forall s, t | 0 <= s < t < |d| ensures keys[d[s]] != keys[d[t]] {
      assert d[s] == idxs[ps[s]] && d[t] == idxs[ps[t]];
      assert ps[t] in ps;
      assert IsFirst(idxs, keys, ps[t]);
    }
  }

  /** `a` is `b` with some elements left out, the rest kept in order. */
  ghost predicate SubsequenceOf(a: seq<nat>, b: seq<nat>) {
    exists ps :: StrictlyIncreasing(ps) && InBounds(ps, |b|) && a == At(b, ps)
  }

  /** The kept indices are an order-preserving subsequence of the ranking,
      at most `max(top_k, 1)` long; fewer only when every first occurrence
      of a key is kept. */
  lemma DedupSubsequence(idxs: seq<nat>, keys: seq<(string, int)>, topK: int)
    requires InBounds(idxs, |keys|)
    ensures SubsequenceOf(Deduplicated(idxs, keys, topK), idxs)
    ensures |Deduplicated(idxs, keys, topK)| <= Max(topK, 1)
    ensures |Deduplicated(idxs, keys, topK)| < Max(topK, 1) ==>
      Deduplicated(idxs, keys, topK) == At(idxs, FirstPositions(idxs, keys, |idxs|))
  {
    var ps := FirstPositions(idxs, keys, |idxs|);
    var d := Deduplicated(idxs, keys, topK);
    var qs := ps[..|d|];
    assert d == At(idxs, qs);
  }

  /** A ranked index is skipped only when an earlier one with the same key
      was kept. */
  lemma {:induction false} SkippedKeyWasKept(idxs: seq<nat>, keys: seq<(string, int)>, p: nat)
    requires InBounds(idxs, |keys|) && p < |idxs|
    requires p !in FirstPositions(idxs, keys, |idxs|)
    ensures exists q :: 0 <= q < p && q in FirstPositions(idxs, keys, |idxs|) && keys[idxs[q]] == keys[idxs[p]]
  {
    var ps := FirstPositions(idxs, keys, |idxs|);
    assert !IsFirst(idxs, keys, p);
    var q :| 0 <= q < p && keys[idxs[q]] == keys[idxs[p]];
    if q !in ps {
      SkippedKeyWasKept(idxs, keys, q);
    }
  }

  // ---------------------------------------------------------------------
  // Output

  /** The entry of `extracted_sections` for section `idx` at rank `rank`. */
  function Extraction(allSecs: seq<Section>, secDocs: seq<string>, idx: nat, rank: int): ExtractedSection
    requires idx < |allSecs| == |secDocs|
  {
    ExtractedSection(secDocs[idx], allSecs[idx].heading, rank, allSecs[idx].page)
  }

  /** The entry of `subsection_analysis` for section `idx`. */
  function Analysis(allSecs: seq<Section>, secDocs: seq<string>, idx: nat,
                    pagerank: seq<string> -> seq<real>): SubsectionAnalysis
    requires idx < |allSecs| == |secDocs|
    requires forall ss :: |pagerank(ss)| == |ss|
  {
    SubsectionAnalysis(secDocs[idx], TextRankSummary(allSecs[idx].text, MaxSummarySentences, pagerank),
                       allSecs[idx].page)
  }

  /** `extracted_sections` for the kept indices `unique`, ranked from 1. */
  function Extractions(unique: seq<nat>, allSecs: seq<Section>, secDocs: seq<string>): (r: seq<ExtractedSection>)
    requires |secDocs| == |allSecs| && InBounds(unique, |allSecs|)
    ensures |r| == |unique|
  {
    Tabulate(ExtractionFor(unique, allSecs, secDocs), |unique|)
  }

  function ExtractionFor(unique: seq<nat>, allSecs: seq<Section>, secDocs: seq<string>): (f: int --> ExtractedSection)
    requires |secDocs| == |allSecs| && InBounds(unique, |allSecs|)
    ensures forall t :: 0 <= t < |unique| ==> f.requires(t)
  {
    t requires 0 <= t < |unique| => Extraction(allSecs, secDocs, unique[t], t + 1)
  }

  /** `subsection_analysis` for the kept indices `unique`. */
  function Analyses(unique: seq<nat>, allSecs: seq<Section>, secDocs: seq<string>,
                    pagerank: seq<string> -> seq<real>): (r: seq<SubsectionAnalysis>)
    requires |secDocs| == |allSecs| && InBounds(unique, |allSecs|)
    requires forall ss :: |pagerank(ss)| == |ss|
    ensures |r| == |unique|
  {
    Tabulate(AnalysisFor(unique, allSecs, secDocs, pagerank), |unique|)
  }

  function AnalysisFor(unique: seq<nat>, allSecs: seq<Section>, secDocs: seq<string>,
                       pagerank: seq<string> -> seq<real>): (f: int --> SubsectionAnalysis)
    requires |secDocs| == |allSecs| && InBounds(unique, |allSecs|)
    requires forall ss :: |pagerank(ss)| == |ss|
    ensures forall t :: 0 <= t < |unique| ==> f.requires(t)
  {
    t requires 0 <= t < |unique| => Analysis(allSecs, secDocs, unique[t], pagerank)
  }

  /** The loop that builds both output lists, ranks counted from 1. */
  method BuildOutput(unique: seq<nat>, allSecs: seq<Section>, secDocs: seq<string>,
                     pagerank: seq<string> -> seq<real>)
    returns (extracted: seq<ExtractedSection>, subanalysis: seq<SubsectionAnalysis>)
    requires |secDocs| == |allSecs| && InBounds(unique, |allSecs|)
    requires forall ss :: |pagerank(ss)| == |ss|
    ensures extracted == Extractions(unique, allSecs, secDocs)
    ensures subanalysis == Analyses(unique, allSecs, secDocs, pagerank)
  {
    ghost var ef := ExtractionFor(unique, allSecs, secDocs);
    ghost var af := AnalysisFor(unique, allSecs, secDocs, pagerank);
    extracted, subanalysis := [], [];
    for r := 0 to |unique|
      invariant extracted == Tabulate(ef, r)
      invariant subanalysis == Tabulate(af, r)
    {
      var rank := r + 1;
      var idx := unique[r];
      var sec := allSecs[idx];
      var doc := secDocs[idx];
      var refined := TextRankSummary(sec.text, MaxSummarySentences, pagerank);
      TabulateNext(ef, r);
      TabulateNext(af, r);
      assert ef(r) == ExtractedSection(doc, sec.heading, rank, sec.page);
      assert af(r) == SubsectionAnalysis(doc, refined, sec.page);
      extracted := extracted + [ExtractedSection(doc, sec.heading, rank, sec.page)];
      subanalysis := subanalysis + [SubsectionAnalysis(doc, refined, sec.page)];
    }
  }

  /** The two lists run parallel: entry `t` of each comes from the section
      `unique[t]`, with its document and its first page, and carries rank
      `t + 1`; its refined text is that section's summary. */
  lemma OutputParallel(unique: seq<nat>, allSecs: seq<Section>, secDocs: seq<string>,
                       pagerank: seq<string> -> seq<real>, t: nat)
    requires |secDocs| == |allSecs| && InBounds(unique, |allSecs|)
    requires forall ss :: |pagerank(ss)| == |ss|
    requires t < |unique|
    ensures var e := Extractions(unique, allSecs, secDocs)[t];
      var a := Analyses(unique, allSecs, secDocs, pagerank)[t];
      e.importanceRank == t + 1 &&
      e.document == a.document == secDocs[unique[t]] &&
      e.pageNumber == a.pageNumber == allSecs[unique[t]].page &&
      e.sectionTitle == allSecs[unique[t]].heading &&
      a.refinedText == TextRankSummary(allSecs[unique[t]].text, MaxSummarySentences, pagerank)
  {
    ExtractionAt(unique, allSecs, secDocs, t);
    AnalysisAt(unique, allSecs, secDocs, pagerank, t);
  }

  lemma ExtractionAt(unique: seq<nat>, allSecs: seq<Section>, secDocs: seq<string>, t: nat)
    requires |secDocs| == |allSecs| && InBounds(unique, |allSecs|)
    requires t < |unique|
    ensures Extractions(unique, allSecs, secDocs)[t] == Extraction(allSecs, secDocs, unique[t], t + 1)
  {
    TabulateAt(ExtractionFor(unique, allSecs, secDocs), |unique|, t);
  }

  lemma AnalysisAt(unique: seq<nat>, allSecs: seq<Section>, secDocs: seq<string>,
                   pagerank: seq<string> -> seq<real>, t: nat)
    requires |secDocs| == |allSecs| && InBounds(unique, |allSecs|)
    requires forall ss :: |pagerank(ss)| == |ss|
    requires t < |unique|
    ensures Analyses(unique, allSecs, secDocs, pagerank)[t] == Analysis(allSecs, secDocs, unique[t], pagerank)
  {
    TabulateAt(AnalysisFor(unique, allSecs, secDocs, pagerank), |unique|, t);
  }

  /** The output document, without its timestamp. */
  datatype Output = Output(inputDocuments: seq<string>, persona: string, jobToBeDone: string,
                           extractedSections: seq<ExtractedSection>,
                           subsectionAnalysis: seq<SubsectionAnalysis>)

  /** The sections' adjusted scores for the persona and the job. */
  function CollectionScores(pdfs: seq<Pdf>, persona: string, job: string,
                            cosine: (seq<string>, string) -> seq<real>): (adj: seq<real>)
    requires AllHavePages(pdfs)
    requires forall ts, q :: |cosine(ts, q)| == |ts|
    ensures |adj| == |AllSections(pdfs)|
  {
    var secs := AllSections(pdfs);
    AdjustedScores(secs, cosine(Texts(secs), Query(persona, job)))
  }

  /** The section indices the collection reports: the ranker is asked for
      `top_k * 3` candidates, which are then de-duplicated. */
  function KeptIndices(pdfs: seq<Pdf>, persona: string, job: string, topK: int,
                       cosine: (seq<string>, string) -> seq<real>): (kept: seq<nat>)
    requires AllHavePages(pdfs)
    requires forall ts, q :: |cosine(ts, q)| == |ts|
    ensures InBounds(kept, |AllSections(pdfs)|)
  {
    var secs := AllSections(pdfs);
    var ranked := TopK(CollectionScores(pdfs, persona, job, cosine), topK * 3);
    var kept := Deduplicated(ranked, Keys(secs, SectionDocs(pdfs)), topK);
    DedupSubsequence(ranked, Keys(secs, SectionDocs(pdfs)), topK);
    kept
  }

  /** `process_collection` without the file system: the documents are given
      in the sorted order of their paths, and the output document is
      returned instead of written. */
  method ProcessCollection(pdfs: seq<Pdf>, persona: string, job: string, topK: int,
                           cosine: (seq<string>, string) -> seq<real>,
                           pagerank: seq<string> -> seq<real>)
    returns (output: Output)
    requires AllHavePages(pdfs)
    requires forall ts, q :: |cosine(ts, q)| == |ts|
    requires forall ss :: |pagerank(ss)| == |ss|
    ensures output.inputDocuments == Names(pdfs) && output.persona == persona && output.jobToBeDone == job
    ensures var kept := KeptIndices(pdfs, persona, job, topK, cosine);
      output.extractedSections == Extractions(kept, AllSections(pdfs), SectionDocs(pdfs)) &&
      output.subsectionAnalysis == Analyses(kept, AllSections(pdfs), SectionDocs(pdfs), pagerank)
  {
    var allSecs, secDocs := GatherSections(pdfs);
    var idxs, scores := RankSections(allSecs, persona, job, topK * 3, cosine);
    var unique := Dedup(idxs, allSecs, secDocs, topK);
    var extracted, subanalysis := BuildOutput(unique, allSecs, secDocs, pagerank);
    output := Output(Names(pdfs), persona, job, extracted, subanalysis);
  }

  /** Which sections the collection reports: at most `max(top_k, 1)` of
      them, never two from the same page of the same document, all taken
      from the `top_k * 3` best-scoring sections and kept in that ranking's
      order. */
  lemma KeptProperties(pdfs: seq<Pdf>, persona: string, job: string, topK: int,
                       cosine: (seq<string>, string) -> seq<real>)
    requires AllHavePages(pdfs)
    requires forall ts, q :: |cosine(ts, q)| == |ts|
    ensures var kept := KeptIndices(pdfs, persona, job, topK, cosine);
      var keys := Keys(AllSections(pdfs), SectionDocs(pdfs));
      |kept| <= Max(topK, 1) &&
      (forall s, t :: 0 <= s < t < |kept| ==> keys[kept[s]] != keys[kept[t]]) &&
      SubsequenceOf(kept, TopK(CollectionScores(pdfs, persona, job, cosine), topK * 3))
  {
    var secs := AllSections(pdfs);
    var ranked := TopK(CollectionScores(pdfs, persona, job, cosine), topK * 3);
    var keys := Keys(secs, SectionDocs(pdfs));
    DedupSubsequence(ranked, keys, topK);
    DedupDistinctKeys(ranked, keys, topK);
  }
}
