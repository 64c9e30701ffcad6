# Persona-driven section ranking over a PDF collection

The system reads a directory of PDFs and builds a JSON report of their most relevant
sections for a persona and a job to be done. It works in four steps:

- It extracts each document's outline. It uses the embedded table of contents when
  there is one. Otherwise it looks for lines whose font size stands out and filters
  them for heading-like text.
- It cuts each document into sections along that outline.
- It scores every section against the query "<persona> needs to <job>". The score is a
  TF-IDF cosine similarity, plus a bonus for action verbs in the heading, minus a
  penalty for long headings.
- It keeps the best sections, at most one per page of a document, and reports each with
  its rank and an extractive TextRank summary of its text.

This project models that pipeline in Dafny, with one module per source file:

- `Extractor` models `core/extractor.py`.
- `Segment` models `core/segment.py`.
- `Scorer` models `ranking/scorer.py`.
- `Summarizer` models `ranking/summarizer.py`.
- `Collection` models `process_collection` in `cli/run.py`.
- `Text` holds the Python string operations they share: `str.isspace`, `strip`, `split()`,
  `join`, `in`, `lower` and `replace`.
- `Ordering` holds the sorting and slicing they share: stable `sorted` by score, `sorted`
  of indices, and `xs[:k]` for any integer `k`.

The loops of the source are modelled as loops:

- `Extractor.GatherSpans` and `Extractor.MergeHeads` in the extractor;
- `Segment.PdfToSections` in the segmenter;
- `Scorer.RankSections`, which adjusts an array of similarities in place;
- the gathering, de-duplication and output loops of `process_collection`.

Each of these methods is proved equal to a specification function. The properties
are proved about those functions.

Two consequences of the code hold in the model as they do in the source:
table-of-contents entries of level 2 are kept, since the test is `level <= 2`; and when
the largest size is also the most frequent one, no size exceeds the body size, so the
percentile threshold applies.

Everything the code takes from a library is an input of the model:

- the PDF reader's view of each document: its table of contents, its text lines with
  their font sizes, and its page texts;
- the 90th percentile of the line sizes;
- the TF-IDF cosine similarities, given as a function from the section texts and the
  query to one similarity per text;
- the PageRank scores, given as a function from sentences to one score per sentence.

## Model

| member | source | states |
|---|---|---|
| Text.Strip | core/extractor.py:32 | `strip()` leaves no whitespace at either end and gives the empty string exactly when the input is whitespace only |
| Text.StripKeepsOut | ranking/summarizer.py:10 | stripping only removes characters, so a character absent from the input is absent from the result |
| Text.StripTrimmed | core/segment.py:41 | stripping an already trimmed string changes nothing |
| Text.Words | core/extractor.py:59 | every token of `split()` is non-empty and holds no whitespace |
| Text.WordsSingle | core/extractor.py:59 | a non-empty string without whitespace is a single token |
| Text.WordsSplitSpace | core/extractor.py:59 | the tokens of `a + c + b` for a whitespace character `c` are those of `a` followed by those of `b`; with `WordsSingle` and `WordsEmpty` this determines the tokens of every string, as the maximal whitespace-free runs in order |
| Text.WordsEmpty | core/extractor.py:59-62 | a string has no tokens exactly when it is whitespace only |
| Text.Join | core/segment.py:36 | `sep.join(xs)` of one part is that part; otherwise it begins with the first part and is as long as all parts plus one separator between each two; joining nothing gives the empty string |
| Text.JoinAppend | core/segment.py:36 | joining two non-empty lists is joining each with one separator between the results, which with the one-part case fixes every part and separator of a join |
| Text.JoinAllSpace | core/segment.py:36-38 | joining with a whitespace separator gives whitespace only exactly when every part is whitespace only |
| Text.Contains | ranking/scorer.py:29 | `needle in hay` holds exactly when the needle occurs in the haystack at some index |
| Text.Lower | ranking/scorer.py:29 | `lower()` keeps the length, leaves no upper-case letter, and leaves every character that is not upper-case as it is |
| Ordering.SliceTo | ranking/scorer.py:34 | `xs[:k]` is a prefix of `xs` of length `min(k, len)`, or `len + k` (at least 0) for negative `k` |
| Ordering.SortByScore | ranking/summarizer.py:29 | the stable sort by descending score is a permutation in which every index precedes the later ones (higher score, or equal score and smaller index) |
| Ordering.SortAscending | ranking/summarizer.py:30 | `sorted` of distinct indices is an increasing permutation of them |
| Ordering.ScoreOrder | ranking/summarizer.py:29 | the descending order of all indices is a permutation of `range(n)` in stable score order |
| Ordering.InScoreOrder | ranking/summarizer.py:29 | every index appears in the score order |
| Ordering.PrefixDominates | ranking/scorer.py:34 | an index outside a prefix of the score order comes after every index inside it |
| Extractor.TocOutline | core/extractor.py:16-23 | the table-of-contents outline has at most one entry per TOC entry, each with a trimmed, non-empty title |
| Extractor.TocOutlineAppend | core/extractor.py:17-21 | the TOC filter distributes over concatenation, so it keeps the order of the entries |
| Extractor.TocOutlineSingle | core/extractor.py:17-21 | an entry is kept, with its title trimmed and its page unchanged, exactly when its level is at most 2 and its title is not blank |
| Extractor.LineSpans | core/extractor.py:31-35 | every span recorded for a page carries that page number and non-blank text |
| Extractor.Gathered | core/extractor.py:26-35 | every recorded span has a page number from 1 to the number of pages and non-blank text |
| Extractor.GatheredEmpty | core/extractor.py:37-38 | no span is recorded exactly when every line of every page is blank |
| Extractor.GatherSpans | core/extractor.py:26-35 | the nested page and line loop records exactly the gathered spans |
| Extractor.BodySize | core/extractor.py:41-42 | the body size occurs among the sizes, no size is more frequent, and every size first seen before it is strictly less frequent |
| Extractor.SmallestAbove | core/extractor.py:43-44 | the first size of `sorted(set(sizes))` above the body size is the least size above it, and there is none only when no size exceeds the body size |
| Extractor.Threshold | core/extractor.py:45 | the threshold is the least size above the body size, or the percentile when no size is above it |
| Extractor.MergeStep | core/extractor.py:49-55 | one step of the merge loop: a span below the threshold changes nothing; a kept span that is on another page than the last head or at least one point away in size becomes a new head; a kept span that can be merged leaves the last head alone when its text already contains the span's text, and otherwise extends that text by a space and the span's text, the other heads unchanged |
| Extractor.MergedKeepsText | core/extractor.py:48-55 | no kept span is lost: the text of every span at or above the threshold is contained in some head on that span's page |
| Extractor.MergedSeparated | core/extractor.py:48-55 | after the merge loop no two neighbouring heads could have been merged: they lie on different pages or differ in size by at least one point |
| Extractor.MergeHeads | core/extractor.py:48-55 | the merge loop produces the merged heads |
| Extractor.MergedIgnoresBelow | core/extractor.py:50 | spans below the threshold never affect the merge |
| Extractor.MergedLength | core/extractor.py:48-55 | merging never produces more heads than spans |
| Extractor.MergedFromKept | core/extractor.py:49-55 | there are at most as many heads as kept spans, and each head has the page and size of a span at or above the threshold |
| Extractor.MergedNonBlank | core/extractor.py:51-55 | heads built from non-blank spans are non-blank, which makes `is_heading`'s division defined |
| Extractor.CapitalisedCount | core/extractor.py:61 | the count is the number of token positions whose token begins with an upper-case letter; it is 0 exactly when none does and the number of tokens exactly when all do |
| Extractor.IsHeading | core/extractor.py:58-62 | a text is a heading exactly when it has between 1 and 12 tokens and at least half of them begin with an upper-case letter |
| Extractor.IsHeadingMeaning | core/extractor.py:58-62 | more than 12 tokens are never a heading; at most 12 tokens, all capitalised, always are; text with no capitalised token never is |
| Extractor.HeadingOutline | core/extractor.py:64-67 | the heading filter keeps at most one entry per head |
| Extractor.HeadingOutlineSingle | core/extractor.py:64-67 | a single head is kept, with its page and its trimmed text, exactly when it passes `is_heading`; with the Append lemma this fixes which heads reach the outline, in order |
| Extractor.HeadingOutlineAppend | core/extractor.py:64-67 | the heading filter distributes over concatenation, so it keeps order |
| Extractor.ExtractOutline | core/extractor.py:6-67 | the extraction returns the outline the two paths define |
| Extractor.FontOutline | core/extractor.py:25-67 | without a TOC, blank pages give an empty outline, and otherwise there is at most one entry per recorded span |
| Extractor.Outline | core/extractor.py:14-67 | a non-empty TOC decides the outline alone, even when nothing survives; with no TOC and blank pages the outline is empty; with no TOC there are at most as many entries as spans |
| Segment.Clamp | core/segment.py:27 | the clamped page lies in `1..n`, is unchanged inside that range, and goes to the nearer end outside it |
| Segment.EffectiveOutline | core/segment.py:17-19 | the outline used is never empty, and it is the extracted outline whenever that is not empty |
| Segment.EndPage | core/segment.py:30-34 | a section's end page lies in `1..n+1`, and it is `n+1` exactly for the last entry |
| Segment.Chunk | core/segment.py:36-38 | the section text is trimmed, and it is empty exactly when the start page and every page of the range are whitespace only |
| Segment.PdfToSections | core/segment.py:15-46 | the loop returns one section per outline entry, as the specification function defines |
| Segment.Sections | core/segment.py:15-46 | `pdf_to_sections` gives at least one section, and one per entry of a non-empty outline |
| Segment.SectionsShape | core/segment.py:18-44 | there is one section per entry, in outline order, headed by the entry's trimmed text, starting on `max(1, min(page, n))` (the entry's own page when it lies in the document), and holding the text of its page range up to the next entry's clamped page; an empty outline gives one section, headed by the trimmed stem, on page 1 |
| Segment.RangesAbut | core/segment.py:30-34 | a section's range ends where the next section starts, and the last one runs to the last page |
| Segment.EmptyRangeUsesStartPage | core/segment.py:36-38 | when the next section starts on or before this one's page, the text is the start page alone, trimmed |
| Segment.RangeTextUsesRange | core/segment.py:36-38 | when some page of the range is not blank, the text is the range joined by newlines, trimmed |
| Segment.FallbackTakesAllPages | core/segment.py:18-19 | without an outline, the single section is headed by the stem on page 1 and holds every page joined and trimmed |
| Segment.RangesPartition | core/segment.py:24-34 | when section starts never decrease, every page from the first start to the last page lies in exactly one section's range |
| Segment.LastStartAtOrBefore | core/segment.py:30-34 | it finds a section whose range contains a given page |
| Scorer.BoostedIgnoresCase | ranking/scorer.py:29 | the verb test ignores case: a heading earns the bonus exactly when its lower-cased form does |
| Scorer.Penalty | ranking/scorer.py:28-31 | the length penalty is never negative, and it is zero exactly for a blank heading |
| Scorer.Adjusted | ranking/scorer.py:27-31 | the adjusted score is at most 0.1 above the similarity, never above it without the bonus, and above it with the bonus when the heading has fewer than 100 words |
| Scorer.AdjustedScores | ranking/scorer.py:27-31 | there is one adjusted score per section, and score `i` is the adjustment of similarity `i` by heading `i` alone |
| Scorer.BoostOutranks | ranking/scorer.py:27-31 | a boosted heading outranks an unboosted one of no higher similarity unless it is at least 100 words longer |
| Scorer.DesignIsBoosted | ranking/scorer.py:29 | the verb test is a substring test, so "Design" earns the bonus through "sign" |
| Scorer.OverviewIsNotBoosted | ranking/scorer.py:29 | "Overview" earns no bonus |
| Scorer.TopK | ranking/scorer.py:34 | the top indices number `min(k, n)` (fewer for negative `k`), are distinct and in range, and have non-increasing scores |
| Scorer.TopKDominates | ranking/scorer.py:34 | no index left out scores higher than an index kept |
| Scorer.RankSections | ranking/scorer.py:10-35 | returns the top indices of the adjusted scores with their scores, in non-increasing order, and no section left out scores above any returned score |
| Summarizer.NormalizeShape | ranking/summarizer.py:10 | the cleaned text is trimmed, has no newline, and is empty exactly when the input is whitespace only |
| Summarizer.SpaceRunEnd | ranking/summarizer.py:11 | `\s+` consumes the whole run of whitespace |
| Summarizer.Cuts | ranking/summarizer.py:11 | `re.split` cuts the text into pieces that cover it: the first begins at 0 and the last ends at the end; each other piece ends at a split point and the next begins where that split point's whitespace run ends; no split point lies inside a piece; no piece is empty unless the text is |
| Summarizer.Pieces | ranking/summarizer.py:11 | the pieces, as strings: at least one; every piece but the last ends with `.`, `!` or `?`; no piece contains a split point; no piece is empty when the text is not |
| Summarizer.NonEmptyOnly | ranking/summarizer.py:12 | the filter keeps only non-empty strings taken from its input |
| Summarizer.NonEmptyOnlyCounts | ranking/summarizer.py:12 | the filter drops every empty string and keeps every non-empty one as often as it occurs |
| Summarizer.NonEmptyOnlyAppend | ranking/summarizer.py:12 | filtering a concatenation concatenates the filtered parts, so the filter keeps the input order |
| Summarizer.NonEmptyOnlyKeeps | ranking/summarizer.py:12 | the filter changes nothing when there is no empty string |
| Summarizer.SentencesShape | ranking/summarizer.py:10-12 | whitespace-only text has no sentence, and other text has at least one; every sentence is non-empty; all but the last end a sentence; none holds a split point |
| Summarizer.SentencesAreCuts | ranking/summarizer.py:10-12 | for text that is not whitespace only, sentence `k` is exactly the text between the `k`-th pair of cuts of the normalised text |
| Summarizer.TopSentences | ranking/summarizer.py:29-30 | selects `min(m, n)` sentence indices, in range and in increasing order |
| Summarizer.TopSentencesDominate | ranking/summarizer.py:29-30 | every selected sentence scores at least as high as every unselected one, and on a tie it comes earlier |
| Summarizer.TextRankSummary | ranking/summarizer.py:8-33 | the summary is empty for whitespace-only text and for `max_sents = 0`, and it is non-empty for other text when `max_sents >= 1` |
| Summarizer.SummaryCases | ranking/summarizer.py:13-33 | the summary is empty for whitespace-only text; it is all sentences joined when there are at most `max_sents`; otherwise it is exactly `max_sents` sentences chosen by score, in original order |
| Collection.ConcatOwner | cli/run.py:20-23 | after the extends, element `j` of document `k`'s list sits at the combined length of the earlier lists plus `j`, and its `sec_docs` entry is that document's name |
| Collection.ConcatPrefix | cli/run.py:20-23 | the lists built for the first `m` documents are prefixes of the final ones, and the two lists keep equal lengths |
| Collection.SectionDocs | cli/run.py:23 | `sec_docs` has one entry per gathered section |
| Collection.GatherSections | cli/run.py:18-23 | the gathering loop builds the concatenated sections, one list per document in document order, and their document names |
| Collection.FirstPositions | cli/run.py:29-39 | a position of the ranking is listed exactly when no earlier position has the same key |
| Collection.Deduplicated | cli/run.py:29-40 | the de-duplicated list has at most `max(top_k, 1)` entries and no more than the ranking, all taken from the ranking |
| Collection.Dedup | cli/run.py:29-40 | the loop with `seen` and the early `break` returns the first `max(top_k, 1)` first occurrences of each key, in ranking order |
| Collection.DedupResult | cli/run.py:38-39 | stopping at the end or at the cap gives that prefix |
| Collection.DedupDistinctKeys | cli/run.py:28-37 | no two kept sections share a document and page |
| Collection.DedupSubsequence | cli/run.py:28-40 | the kept indices are an order-preserving subsequence of the ranking with at most `max(top_k, 1)` entries; there are fewer only when every key's first occurrence is kept |
| Collection.SkippedKeyWasKept | cli/run.py:35-37 | a ranked section is skipped only when an earlier kept section has the same key |
| Collection.Extractions | cli/run.py:45-54 | there is one extracted section per kept index |
| Collection.Analyses | cli/run.py:45-59 | there is one analysis per kept index |
| Collection.BuildOutput | cli/run.py:42-59 | the output loop builds both lists as specified |
| Collection.OutputParallel | cli/run.py:45-59 | entry `t` of both lists comes from the same section: rank `t + 1`, the same document and page, the section's heading as title, and its summary as refined text |
| Collection.CollectionScores | cli/run.py:26 | there is one score per gathered section |
| Collection.KeptIndices | cli/run.py:26-40 | the reported indices are valid section indices |
| Collection.ProcessCollection | cli/run.py:12-71 | the output lists the document names, the persona and the job, and the extracted sections and analyses of the kept indices |
| Collection.KeptProperties | cli/run.py:26-40 | at most `max(top_k, 1)` sections are reported, no two from the same page of the same document, forming an order-preserving subsequence of the `top_k * 3` best |

## Left out

- Reading PDFs, the file system and output. The model leaves out opening files, `glob`,
  `Path.stem`, `extract_pages`, `dump_json`, the final `print`, the command-line parsing
  and the environment-variable substitution in `cli/run.py`. Their results are inputs:
  - each document is given with its name and stem;
  - documents come in the sorted order of their paths;
  - each document has its table of contents, per-page text lines and page texts.
- Image blocks are not modelled. The line list per page holds only text blocks, the
  ones with type 0, so `core/extractor.py:30` is modelled by omission. For each line the
  model keeps the concatenated span text and the size of the first span.
- The processing timestamp is a clock reading and is not part of `Collection.Output`.
- `quantiles(sizes, n=100)[89]` is an input of the extraction. Some Python versions raise
  on a single data point.
- The TF-IDF vectoriser, cosine similarity, the similarity graph and PageRank are library
  numerics. They are function parameters that promise one value per input text. The
  libraries raise on empty or stop-word-only vocabularies; the model does not capture
  that.
- Floating point: similarities, sizes and scores are exact reals. Rounding in `lw / 1000`
  and in the 0.1 bonus is not modelled.
- `isupper` and `lower` are modelled for ASCII letters only. Other characters are treated
  as not upper-case and are left unchanged by lowering.
- Segment.PdfToSections: requires at least one page. With no pages the source fails on
  `pages[p-1]`, and the model does not model that failure.
- Collection.ProcessCollection: requires every document to have at least one page, for
  the same reason.
- Collection.ProcessCollection: with no documents the model gives a report with no
  sections. The source passes an empty list of texts to the TF-IDF vectoriser and the
  cosine similarity, and those most likely raise an error on zero rows. The model does
  not capture that failure.
- Scorer.TopK: breaks score ties by index order. `np.argsort` uses quicksort, which does
  not promise any tie order, so the ranking of equal scores can differ from the source.
  `Scorer.TopKDominates` does not depend on the tie order.
- Text.Strip: does not state that the result is a contiguous slice of the input. It
  states only that the result is trimmed and when it is empty.
