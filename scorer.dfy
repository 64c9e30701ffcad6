/** Ranking sections against a persona and a job (ranking/scorer.py). The
    TF-IDF vectorisation and the cosine similarity are the library's: they
    are a parameter that maps the section texts and the query to one
    similarity per text. */
module Scorer {
  import opened Text
  import opened Ordering
  import opened Segment

  /** The verbs whose presence in a heading earns a bonus. */
  const BoostVerbs: seq<string> := ["create", "send", "convert", "fill", "sign"]

  const BoostValue: real := 0.1

  /** `f"{persona} needs to {job}"`. */
  function Query(persona: string, job: string): (q: string)
    ensures |q| == |persona| + 10 + |job|
    ensures q[..|persona|] == persona && q[|persona|..|persona| + 10] == " needs to " && q[|persona| + 10..] == job
  {
    persona + " needs to " + job
  }

  /** The texts of the sections, in order. */
  function Texts(sections: seq<Section>): (texts: seq<string>)
    ensures |texts| == |sections| && forall i :: 0 <= i < |sections| ==> texts[i] == sections[i].text
  {
    seq(|sections|, i requires 0 <= i < |sections| => sections[i].text)
  }

  /** The lower-cased heading contains one of the verbs as a substring. */
  predicate Boosted(heading: string) {
    exists v :: v in BoostVerbs && Contains(Lower(heading), v)
  }

  /** The verb test ignores case: a heading earns the bonus exactly when its
      lower-cased form does. */
  lemma BoostedIgnoresCase(heading: string)
    ensures Boosted(Lower(heading)) <==> Boosted(heading)
  {
    LowerIdempotent(heading);
  }

  /** The heading-length penalty: a thousandth per whitespace-separated
      word, so never negative and zero exactly for a blank heading. */
  function Penalty(heading: string): (p: real)
    ensures p >= 0.0
    ensures p == 0.0 <==> AllSpace(heading)
  {
    WordsEmpty(heading);
    |Words(heading)| as real / 1000.0
  }

  /** The score of a section with similarity `sim` and heading `heading`
      after the bonus and the penalty: never more than 0.1 above the
      similarity, never above it without the bonus, and above it with the
      bonus while the heading has fewer than a hundred words. */
  function Adjusted(sim: real, heading: string): (r: real)
    ensures r <= sim + BoostValue
    ensures !Boosted(heading) ==> r <= sim
    ensures Boosted(heading) && |Words(heading)| < 100 ==> r > sim
  {
    sim + (if Boosted(heading) then BoostValue else 0.0) - Penalty(heading)
  }

  /** Every section's adjusted score, one per section, each depending only
      on that section's similarity and heading. */
  function AdjustedScores(sections: seq<Section>, sims: seq<real>): (adj: seq<real>)
    requires |sims| == |sections|
    ensures |adj| == |sections|
    ensures forall i :: 0 <= i < |adj| ==> adj[i] == Adjusted(sims[i], sections[i].heading)
  {
    seq(|sections|, i requires 0 <= i < |sections| => Adjusted(sims[i], sections[i].heading))
  }

  /** A boosted heading outranks an unboosted one of no higher similarity
      unless it is at least a hundred words longer. */
  lemma BoostOutranks(sim1: real, h1: string, sim2: real, h2: string)
    requires Boosted(h1) && !Boosted(h2)
    requires sim1 >= sim2 && |Words(h1)| < |Words(h2)| + 100
    ensures Adjusted(sim1, h1) > Adjusted(sim2, h2)
  {
  }

  /** The verb test is a substring test: "Design" earns the bonus because it
      contains "sign". */
  lemma DesignIsBoosted()
    ensures Boosted("Design")
  {
    assert Lower("Design") == "design";
    assert "design"[2..6] == "sign";
    assert OccursAt("design", "sign", 2);
    assert "sign" in BoostVerbs;
  }

  /** A heading none of whose letters spell a verb gets no bonus. */
  lemma OverviewIsNotBoosted()
    ensures !Boosted("Overview")
  {
    var low := Lower("Overview");
    assert low == "overview";
    forall v | v in BoostVerbs ensures !Contains(low, v) {
      NotContainsShort(low, v);
    }
  }

  lemma {:induction false} NotContainsShort(hay: string, needle: string)
    requires needle != [] && forall i :: 0 <= i < |hay| ==> hay[i] != needle[0]
    ensures !Contains(hay, needle)
  {
    assert !(needle <= hay) by {
      if hay != [] {
        assert hay[0] != needle[0];
      }
    }
    if hay != [] {
      var rest := hay[1..];
      forall i | 0 <= i < |rest| ensures rest[i] != needle[0] {
        assert rest[i] == hay[i + 1];
      }
      NotContainsShort(rest, needle);
    }
  }

  /** `np.argsort(-sims)[:min(top_k, len(sims))]`, taking equal scores in
      index order: a prefix of the descending order. A negative `k` drops
      `-k` indices from the end, as the slice does. */
  function TopK(scores: seq<real>, k: int): (r: seq<nat>)
    ensures |r| == (if k >= 0 then Min(k, |scores|) else Max(0, |scores| + k))
    ensures InBounds(r, |scores|) && Distinct(r)
    ensures forall p, q :: 0 <= p < q < |r| ==> scores[r[p]] >= scores[r[q]]
  {
    var order := ScoreOrder(scores);
    ChainDistinct(scores, order);
    SliceTo(order, Min(k, |scores|))
  }

  /** No index left out of the top `k` scores higher than any index in it. */
  lemma TopKDominates(scores: seq<real>, k: int, j: nat, t: nat)
    requires j < |scores| && j !in TopK(scores, k) && t < |TopK(scores, k)|
    ensures scores[j] <= scores[TopK(scores, k)[t]]
  {
    var order := ScoreOrder(scores);
    var r := TopK(scores, k);
    assert r == order[..|r|];
    assert r[t] in order[..|r|];
    PrefixDominates(scores, |r|, r[t], j);
  }

  /** `rank_sections`: adjusts the similarities in place, then returns the
      top indices and their adjusted scores. */
  method RankSections(sections: seq<Section>, persona: string, job: string, topK: int,
                      cosine: (seq<string>, string) -> seq<real>)
    returns (idxs: seq<nat>, scores: seq<real>)
    requires |cosine(Texts(sections), Query(persona, job))| == |sections|
    ensures var adj := AdjustedScores(sections, cosine(Texts(sections), Query(persona, job)));
      idxs == TopK(adj, topK) &&
      |scores| == |idxs| && forall t :: 0 <= t < |idxs| ==> scores[t] == adj[idxs[t]]
    ensures forall p, q :: 0 <= p < q < |scores| ==> scores[p] >= scores[q]
    ensures var adj := AdjustedScores(sections, cosine(Texts(sections), Query(persona, job)));
      forall j, t :: 0 <= j < |sections| && j !in idxs && 0 <= t < |scores| ==> adj[j] <= scores[t]
  {
    var texts := Texts(sections);
    var query := Query(persona, job);
    var sims0 := cosine(texts, query);
    var n := |sections|;
    var sims := new real[n](i requires 0 <= i < n => sims0[i]);
    for i := 0 to n
      invariant forall m :: 0 <= m < i ==> sims[m] == Adjusted(sims0[m], sections[m].heading)
      invariant forall m :: i <= m < n ==> sims[m] == sims0[m]
    {
      var lw := |Words(sections[i].heading)|;
      if Boosted(sections[i].heading) {
        sims[i] := sims[i] + BoostValue;
      }
      sims[i] := sims[i] - lw as real / 1000.0;
    }
    var adjusted := sims[..];
    assert adjusted == AdjustedScores(sections, sims0);
    idxs := TopK(adjusted, topK);
    scores := seq(|idxs|, t requires 0 <= t < |idxs| => adjusted[idxs[t]]);
    forall j, t | 0 <= j < n && j !in idxs && 0 <= t < |scores| ensures adjusted[j] <= scores[t] {
      TopKDominates(adjusted, topK, j, t);
    }
  }
}
