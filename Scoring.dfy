/** The pure rules of the opportunity backend: cosine similarity between a
  * brand embedding and a result embedding, the final ranking score, the
  * trending score, the summary preview, and the normalisation of raw news
  * search results and of extracted search terms. `Date.now()` is the
  * parameter `now`; the parsed publication date is a `Timestamp`. */
module Scoring {
  import opened Schema
  import opened Text

  /** `Math.max(0, Math.min(1, x))`. */
  function Clamp01(x: real): (r: real)
    ensures 0.0 <= r <= 1.0
    ensures 0.0 <= x <= 1.0 ==> r == x
  {
    if x > 1.0 then 1.0 else if x < 0.0 then 0.0 else x
  }

  /** `(now - publishedTime) / (1000 * 60 * 60)`: the age in hours. */
  function AgeHours(now: int, t: int): real
  {
    (now - t) as real / MsPerHour as real
  }

  // ---------------------------------------------------------------------
  // Cosine similarity (calculateCosineSimilarity)

  /** `vecB[i] || 0`: a missing entry reads as 0. */
  function EntryOr0(b: seq<real>, i: nat): real
  {
    if i < |b| then b[i] else 0.0
  }

  /** The `reduce` computing the dot product, over the entries of `a`. */
  function Dot(a: seq<real>, b: seq<real>): real
  {
    if |a| == 0 then 0.0
    else Dot(a[..|a| - 1], b) + a[|a| - 1] * EntryOr0(b, |a| - 1)
  }

  /** The `reduce` computing a squared magnitude. */
  function SumSquares(a: seq<real>): real
  {
    if |a| == 0 then 0.0 else SumSquares(a[..|a| - 1]) + a[|a| - 1] * a[|a| - 1]
  }

  /** calculateCosineSimilarity, with `Math.sqrt` as the parameter `sqrt`:
    * an empty vector on either side gives 0. */
  function CosineSimilarity(a: seq<real>, b: seq<real>, sqrt: real -> real): (r: real)
    ensures |a| == 0 || |b| == 0 ==> r == 0.0
  {
    if |a| == 0 || |b| == 0 then 0.0
    else
      var magnitudeA := sqrt(SumSquares(a));
      var magnitudeB := sqrt(SumSquares(b));
      if magnitudeA == 0.0 || magnitudeB == 0.0 then 0.0
      else Dot(a, b) / (magnitudeA * magnitudeB)
  }

  /** A squared magnitude is never negative, and the zero vector has
    * squared magnitude 0. */
  lemma {:induction false} SumSquaresZero(a: seq<real>)
    ensures SumSquares(a) >= 0.0
    ensures (forall i :: 0 <= i < |a| ==> a[i] == 0.0) ==> SumSquares(a) == 0.0
  {
    if |a| > 0 {
      var p := a[..|a| - 1];
      SumSquaresZero(p);
      Square(a[|a| - 1]);
      assert forall i :: 0 <= i < |p| ==> p[i] == a[i];
    }
  }

  lemma Square(x: real)
    ensures x * x >= 0.0
  {
    if x < 0.0 {
      var y := -x;
      assert y * y > 0.0 * y;
      assert x * x == y * y;
    } else if x > 0.0 {
      assert x * x > 0.0 * x;
    }
  }

  /** The zero vector (with `sqrt(0) == 0`) has similarity 0 with anything,
    * on either side: the magnitude guard fires before the division. */
  lemma ZeroVectorSimilarity(a: seq<real>, b: seq<real>, sqrt: real -> real)
    requires (forall i :: 0 <= i < |a| ==> a[i] == 0.0) || (forall i :: 0 <= i < |b| ==> b[i] == 0.0)
    requires sqrt(0.0) == 0.0
    ensures CosineSimilarity(a, b, sqrt) == 0.0
  {
    if forall i :: 0 <= i < |a| ==> a[i] == 0.0 {
      SumSquaresZero(a);
    } else {
      SumSquaresZero(b);
    }
  }

  /** Entries missing from `b` count as zeros: padding `b` with zeros does
    * not change the dot product. */
  lemma {:induction false} DotZeroPadded(a: seq<real>, b: seq<real>, n: nat)
    ensures Dot(a, b) == Dot(a, b + seq(n, _ => 0.0))
  {
    if |a| > 0 {
      DotZeroPadded(a[..|a| - 1], b, n);
      var k := |a| - 1;
      assert EntryOr0(b, k) == EntryOr0(b + seq(n, _ => 0.0), k);
    }
  }

  // ---------------------------------------------------------------------
  // Final score (calculateFinalScore)

  /** The credible-source list, in lower case. */
  const CredibleSources: seq<string> := ["reuters", "associated press", "bloomberg", "techcrunch", "forbes"]

  /** `result.source && result.source.toLowerCase().includes(x)` for some
    * `x` of the list. */
  predicate IsCredible(source: string)
  {
    source != "" && exists k :: 0 <= k < |CredibleSources| && Includes(Lower(source), CredibleSources[k])
  }

  /** The recency boost for a publication date: an unparseable date leaves
    * the age at 0 hours (`new Date` does not throw, so the 24-hour default
    * of the catch is never taken). */
  function Recency(now: int, published: Timestamp): (r: real)
    ensures 0.0 <= r <= 1.0
  {
    var ageInHours := if published.Ms? then AgeHours(now, published.ms) else 0.0;
    Clamp01(1.0 - ageInHours / 48.0)
  }

  /** The similarity as used: NaN counts as 0.5, anything else is clamped. */
  function SafeSimilarity(similarity: JsNumber): (r: real)
    ensures 0.0 <= r <= 1.0
  {
    if similarity.NaN? then 0.5 else Clamp01(similarity.value)
  }

  /** calculateFinalScore: 0.6 of the similarity, 0.25 of the recency boost
    * and 0.15 of the source factor (1.2 or 1.0), with `|| 0.5` and a clamp
    * to [0, 1]. Its least value is 0.15, the source factor alone. */
  function FinalScore(now: int, published: Timestamp, source: string, similarity: JsNumber): (r: real)
    ensures 0.15 <= r <= 1.0
  {
    var recencyBoost := Recency(now, published);
    var sourceScore := if IsCredible(source) then 1.2 else 1.0;
    var safeSimilarityScore := SafeSimilarity(similarity);
    var finalScore := safeSimilarityScore * 0.6 + recencyBoost * 0.25 + sourceScore * 0.15;
    Clamp01(if finalScore == 0.0 then 0.5 else finalScore)
  }

  /** A higher similarity never lowers the final score. */
  lemma FinalScoreMonotoneInSimilarity(now: int, published: Timestamp, source: string, lo: real, hi: real)
    requires lo <= hi
    ensures FinalScore(now, published, source, Num(lo)) <= FinalScore(now, published, source, Num(hi))
  {
  }

  /** A more recent publication never lowers the final score. */
  lemma FinalScoreMonotoneInDate(now: int, older: int, newer: int, source: string, similarity: JsNumber)
    requires older <= newer
    ensures FinalScore(now, Ms(older), source, similarity) <= FinalScore(now, Ms(newer), source, similarity)
  {
    assert AgeHours(now, newer) <= AgeHours(now, older);
  }

  /** A credible source never scores below a non-credible one. */
  lemma CredibleSourceNotLower(now: int, published: Timestamp, credible: string, other: string, similarity: JsNumber)
    requires IsCredible(credible) && !IsCredible(other)
    ensures FinalScore(now, published, credible, similarity) >= FinalScore(now, published, other, similarity)
  {
  }

  /** An unparseable publication date scores as if published at `now`. */
  lemma InvalidDateScoresAsNew(now: int, source: string, similarity: JsNumber)
    ensures FinalScore(now, Invalid, source, similarity) == FinalScore(now, Ms(now), source, similarity)
  {
  }

  /** A NaN similarity scores as a similarity of 0.5. */
  lemma NaNSimilarityScoresAsHalf(now: int, published: Timestamp, source: string)
    ensures FinalScore(now, published, source, NaN) == FinalScore(now, published, source, Num(0.5))
  {
  }

  /** "Reuters" is on the list. */
  lemma ReutersIsCredible()
    ensures IsCredible("Reuters")
  {
    assert Lower("Reuters") == "reuters";
    assert StartsWith("reuters", CredibleSources[0]);
  }

  /** Recency and credibility outweigh similarity: a Reuters article of 30
    * minutes ago at similarity 0.9 ranks above an article of 40 hours ago
    * from a source off the list at similarity 0.95. */
  lemma RecencyAndCredibilityExample(now: int, blog: string)
    requires !IsCredible(blog)
    ensures FinalScore(now, Ms(now - MsPerHour / 2), "Reuters", Num(0.9))
          > FinalScore(now, Ms(now - 40 * MsPerHour), blog, Num(0.95))
  {
    ReutersIsCredible();
    assert AgeHours(now, now - MsPerHour / 2) == 0.5;
    assert AgeHours(now, now - 40 * MsPerHour) == 40.0;
  }

  // ---------------------------------------------------------------------
  // Trending score (calculateTrendingScore)

  /** calculateTrendingScore: 0.9 under an hour old, 0.7 under six hours,
    * 0.5 under a day, 0.3 otherwise; an unparseable date counts as 24
    * hours old. */
  function TrendingScore(now: int, published: Timestamp): (r: real)
    ensures r == 0.9 || r == 0.7 || r == 0.5 || r == 0.3
    ensures published.Invalid? ==> r == 0.3
    ensures published.Ms? && now - published.ms < MsPerHour ==> r == 0.9
    ensures published.Ms? && MsPerHour <= now - published.ms < 6 * MsPerHour ==> r == 0.7
    ensures published.Ms? && 6 * MsPerHour <= now - published.ms < 24 * MsPerHour ==> r == 0.5
    ensures published.Ms? && 24 * MsPerHour <= now - published.ms ==> r == 0.3
  {
    var ageInHours := if published.Ms? then AgeHours(now, published.ms) else 24.0;
    if ageInHours < 1.0 then 0.9
    else if ageInHours < 6.0 then 0.7
    else if ageInHours < 24.0 then 0.5
    else 0.3
  }

  /** `calculateTrendingScore(result) > 0.5`. */
  predicate IsTrending(now: int, published: Timestamp)
  {
    TrendingScore(now, published) > 0.5
  }

  /** An opportunity is trending exactly when its date parses and it is
    * less than six hours old. */
  lemma TrendingIffUnderSixHours(now: int, published: Timestamp)
    ensures IsTrending(now, published) <==> published.Ms? && now - published.ms < 6 * MsPerHour
  {
  }

  /** The trending score never rises with age. */
  lemma TrendingNonIncreasing(now: int, older: int, newer: int)
    requires older <= newer
    ensures TrendingScore(now, Ms(older)) <= TrendingScore(now, Ms(newer))
  {
  }

  // ---------------------------------------------------------------------
  // Summary preview

  /** `content.substring(0, 300) + (content.length > 300 ? "..." : "")`:
    * the content itself when it has at most 300 characters, otherwise its
    * first 300 characters followed by an ellipsis. */
  function Summary(content: string): (r: string)
    ensures |content| <= 300 ==> r == content
    ensures |content| > 300 ==> |r| == 303 && r[..300] == content[..300] && r[300..] == "..."
  {
    Take(content, 300) + (if |content| > 300 then "..." else "")
  }

  // ---------------------------------------------------------------------
  // Normalising a news search result (the map in searchTavilyMCP)

  /** A result as the search API returns it: the source may sit under any
    * of five field names, and any of them, like the date, may be missing. */
  datatype RawResult = RawResult(
    title: string,
    url: string,
    content: string,
    publishedDate: Option<string>,
    source: Option<string>,
    domain: Option<string>,
    hostname: Option<string>,
    publication: Option<string>,
    publisher: Option<string>)

  /** A string value is truthy when present and not empty. */
  predicate Truthy(v: Option<string>)
  {
    v.Some? && v.value != ""
  }

  /** `a || b` for a possibly missing string `a`. */
  function Or(a: Option<string>, b: string): string
  {
    if Truthy(a) then a.value else b
  }

  /** The five source fields in the order the fallback chain tries them. */
  function SourceFields(raw: RawResult): seq<Option<string>>
  {
    [raw.source, raw.domain, raw.hostname, raw.publication, raw.publisher]
  }

  /** `v0 || v1 || ... || fallback`: the first value that is present and
    * not empty, or the fallback when there is none. */
  function FirstTruthy(vs: seq<Option<string>>, fallback: string): (r: string)
    ensures fallback != "" ==> r != ""
    ensures (forall k :: 0 <= k < |vs| ==> !Truthy(vs[k])) ==> r == fallback
    ensures forall k :: 0 <= k < |vs| && Truthy(vs[k]) && (forall j :: 0 <= j < k ==> !Truthy(vs[j]))
              ==> r == vs[k].value
  {
    if |vs| == 0 then fallback
    else
      assert forall k :: 1 <= k < |vs| ==> vs[1..][k - 1] == vs[k];
      Or(vs[0], FirstTruthy(vs[1..], fallback))
  }

  /** The source-name fallback chain, ending in "Unknown". */
  function SourceName(raw: RawResult): (name: string)
    ensures name != ""
  {
    FirstTruthy(SourceFields(raw), "Unknown")
  }

  /** The normalised result: title, url and content carried over, the date
    * falling back to `nowIso` (`new Date().toISOString()`), and the source
    * name from the fallback chain. */
  function NormaliseResult(raw: RawResult, nowIso: string): (r: SearchResult)
    ensures r.title == raw.title && r.url == raw.url && r.content == raw.content
    ensures r.source != ""
    ensures forall k :: 0 <= k < 5 && Truthy(SourceFields(raw)[k]) && (forall j :: 0 <= j < k ==> !Truthy(SourceFields(raw)[j]))
              ==> r.source == SourceFields(raw)[k].value
    ensures (forall k :: 0 <= k < 5 ==> !Truthy(SourceFields(raw)[k])) ==> r.source == "Unknown"
    ensures Truthy(raw.publishedDate) ==> r.publishedDate == raw.publishedDate.value
    ensures !Truthy(raw.publishedDate) ==> r.publishedDate == nowIso
  {
    SearchResult(raw.title, raw.url, raw.content, Or(raw.publishedDate, nowIso), SourceName(raw))
  }

  // ---------------------------------------------------------------------
  // Normalising extracted search terms

  /** A term as the extraction step returns it. */
  datatype RawTerm = RawTerm(term: string, weight: Option<JsNumber>, category: Option<string>)

  /** `sq.weight || 0.5`: a missing, zero or NaN weight becomes 0.5. */
  function TermWeight(w: Option<JsNumber>): (r: real)
    ensures r != 0.0
    ensures w.Some? && w.value.Num? && w.value.value != 0.0 ==> r == w.value.value
  {
    if w.Some? && w.value.Num? && w.value.value != 0.0 then w.value.value else 0.5
  }

  /** The term with its defaults (`category: sq.category || "industry"`)
    * and the category checked against the four literals. */
  function NormaliseTerm(t: RawTerm): (r: Option<Query>)
    ensures r.Some? <==> ParseCategory(Or(t.category, "industry")).Some?
    ensures r.Some? ==> r.value.term == t.term && r.value.weight == TermWeight(t.weight)
    ensures r.Some? && !Truthy(t.category) ==> r.value.category == Industry
    ensures r.Some? && Truthy(t.category) ==> CategoryName(r.value.category) == t.category.value
  {
    match ParseCategory(Or(t.category, "industry"))
    case Some(c) => Some(Query(t.term, TermWeight(t.weight), c))
    case None => None
  }

  /** The terms handed to saveSearchQueries: all of them normalised, or an
    * error when any category is not one of the four, since the argument
    * validator then rejects the whole call. */
  function NormaliseTerms(ts: seq<RawTerm>): (r: Result<seq<Query>>)
    ensures r.Ok? <==> forall k :: 0 <= k < |ts| ==> NormaliseTerm(ts[k]).Some?
    ensures r.Ok? ==> |r.value| == |ts| && forall k :: 0 <= k < |ts| ==> Some(r.value[k]) == NormaliseTerm(ts[k])
  {
    if |ts| == 0 then Ok([])
    else
      match (NormaliseTerm(ts[0]), NormaliseTerms(ts[1..]))
      case (Some(q), Ok(rest)) => Ok([q] + rest)
      case (None, _) => Err("ArgumentValidationError: category")
      case (_, Err(e)) => Err(e)
  }
}
