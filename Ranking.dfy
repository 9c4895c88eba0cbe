/** rankResultsBySimilarity: every search result whose content embeds is
  * drafted into an opportunity (similarity, final score, trending flag,
  * summary), results whose embedding fails are dropped, and the drafts are
  * sorted by descending final score with a stable sort. */
module Ranking {
  import opened Schema
  import opened Scoring
  import Lists

  /** What a ranking run takes besides the results: the brand embedding,
    * the owner, `Date.now()`, the embedding service (which may fail), date
    * parsing (`new Date(s).getTime()`) and `Math.sqrt`. */
  datatype Context = Context(
    brandEmbedding: seq<real>,
    userId: UserId,
    now: int,
    embed: string -> Option<seq<real>>,
    parse: string -> Timestamp,
    sqrt: real -> real)

  /** The opportunity drafted from a result whose content embedded as
    * `embedding`. */
  function Draft(r: SearchResult, embedding: seq<real>, ctx: Context): (o: Opportunity)
    ensures o.userId == ctx.userId && o.url == r.url && o.title == r.title && o.source == r.source
    ensures o.content == r.content && o.publishedAt == ctx.parse(r.publishedDate)
    ensures o.similarityScore == CosineSimilarity(ctx.brandEmbedding, embedding, ctx.sqrt)
    ensures o.createdAt == ctx.now && o.updatedAt == ctx.now
    ensures o.finalScore == FinalScore(ctx.now, ctx.parse(r.publishedDate), r.source, Num(o.similarityScore))
    ensures 0.15 <= o.finalScore <= 1.0
    ensures o.isTrending <==> ctx.parse(r.publishedDate).Ms? && ctx.now - ctx.parse(r.publishedDate).ms < 6 * MsPerHour
    ensures |r.content| <= 300 ==> o.summary == r.content
    ensures |r.content| > 300 ==> |o.summary| == 303 && o.summary[..300] == r.content[..300] && o.summary[300..] == "..."
    ensures !o.isDismissed && o.aiBrief.None?
  {
    var published := ctx.parse(r.publishedDate);
    var similarityScore := CosineSimilarity(ctx.brandEmbedding, embedding, ctx.sqrt);
    TrendingIffUnderSixHours(ctx.now, published);
    Opportunity(
      ctx.userId, r.title, Summary(r.content), r.content, r.source, r.url, published,
      similarityScore, FinalScore(ctx.now, published, r.source, Num(similarityScore)),
      IsTrending(ctx.now, published), false, None, ctx.now, ctx.now)
  }

  /** What one result contributes: its draft, or nothing when its content
    * does not embed. */
  function Drafted(r: SearchResult, ctx: Context): seq<Opportunity>
  {
    match ctx.embed(r.content)
    case Some(e) => [Draft(r, e, ctx)]
    case None => []
  }

  /** The drafts of a list of results, in the order of the results. */
  function Drafts(rs: seq<SearchResult>, ctx: Context): (ds: seq<Opportunity>)
    ensures |ds| <= |rs|
  {
    if |rs| == 0 then [] else Drafts(rs[..|rs| - 1], ctx) + Drafted(rs[|rs| - 1], ctx)
  }

  /** Every draft comes from a result whose content embedded. */
  lemma {:induction false} DraftsSound(rs: seq<SearchResult>, ctx: Context)
    ensures forall o :: o in Drafts(rs, ctx) ==>
              exists j :: 0 <= j < |rs| && ctx.embed(rs[j].content).Some? && o == Draft(rs[j], ctx.embed(rs[j].content).value, ctx)
  {
    if |rs| > 0 {
      var p := rs[..|rs| - 1];
      DraftsSound(p, ctx);
      forall o | o in Drafts(rs, ctx)
        ensures exists j :: 0 <= j < |rs| && ctx.embed(rs[j].content).Some? && o == Draft(rs[j], ctx.embed(rs[j].content).value, ctx)
      {
        if o in Drafts(p, ctx) {
          var j :| 0 <= j < |p| && ctx.embed(p[j].content).Some? && o == Draft(p[j], ctx.embed(p[j].content).value, ctx);
          assert p[j] == rs[j];
        } else {
          assert o in Drafted(rs[|rs| - 1], ctx);
        }
      }
    }
  }

  /** Every result whose content embeds is drafted. */
  lemma {:induction false} DraftsComplete(rs: seq<SearchResult>, ctx: Context)
    ensures forall j :: 0 <= j < |rs| && ctx.embed(rs[j].content).Some? ==>
              Draft(rs[j], ctx.embed(rs[j].content).value, ctx) in Drafts(rs, ctx)
  {
    if |rs| > 0 {
      var p := rs[..|rs| - 1];
      DraftsComplete(p, ctx);
      forall j | 0 <= j < |rs| && ctx.embed(rs[j].content).Some?
        ensures Draft(rs[j], ctx.embed(rs[j].content).value, ctx) in Drafts(rs, ctx)
      {
        if j < |p| {
          assert p[j] == rs[j];
        }
      }
    }
  }

  /** When every content embeds, nothing is dropped. */
  lemma {:induction false} DraftsAllEmbedded(rs: seq<SearchResult>, ctx: Context)
    requires forall j :: 0 <= j < |rs| ==> ctx.embed(rs[j].content).Some?
    ensures |Drafts(rs, ctx)| == |rs|
  {
    if |rs| > 0 {
      DraftsAllEmbedded(rs[..|rs| - 1], ctx);
    }
  }

  // ---------------------------------------------------------------------
  // The sort: `rankedResults.sort((a, b) => b.finalScore - a.finalScore)`

  predicate Descending(s: seq<Opportunity>)
  {
    forall i, j :: 0 <= i < j < |s| ==> s[i].finalScore >= s[j].finalScore
  }

  /** `o` placed before the first element that does not score above it. */
  function Insert(o: Opportunity, s: seq<Opportunity>): (r: seq<Opportunity>)
    ensures |r| == |s| + 1
    ensures multiset(r) == multiset(s) + multiset{o}
  {
    if |s| == 0 || s[0].finalScore <= o.finalScore then [o] + s
    else
      assert s == [s[0]] + s[1..];
      [s[0]] + Insert(o, s[1..])
  }

  /** Insertion from the back: a stable sort by descending final score. */
  function SortByScore(s: seq<Opportunity>): (r: seq<Opportunity>)
    ensures |r| == |s|
    ensures multiset(r) == multiset(s)
  {
    if |s| == 0 then []
    else
      assert s == [s[0]] + s[1..];
      Insert(s[0], SortByScore(s[1..]))
  }

  lemma {:induction false} InsertDescending(o: Opportunity, s: seq<Opportunity>)
    requires Descending(s)
    ensures Descending(Insert(o, s))
  {
    if |s| > 0 && s[0].finalScore > o.finalScore {
      InsertDescending(o, s[1..]);
      var r := Insert(o, s);
      forall k | 1 <= k < |r|
        ensures r[0].finalScore >= r[k].finalScore
      {
        assert r[k] in multiset(Insert(o, s[1..]));
        assert r[k] in multiset(s[1..]) + multiset{o};
        if r[k] in s[1..] {
          var m :| 0 <= m < |s[1..]| && s[1..][m] == r[k];
          assert s[m + 1] == r[k];
        }
      }
    }
  }

  /** The sort orders by non-increasing final score. */
  lemma {:induction false} SortDescending(s: seq<Opportunity>)
    ensures Descending(SortByScore(s))
  {
    if |s| > 0 {
      SortDescending(s[1..]);
      InsertDescending(s[0], SortByScore(s[1..]));
    }
  }

  /** Keeps the opportunities scoring exactly `v`. */
  function ScoreIs(v: real): Opportunity -> bool
  {
    (o: Opportunity) => o.finalScore == v
  }

  lemma {:induction false} InsertStable(o: Opportunity, s: seq<Opportunity>, v: real)
    ensures Lists.Filter(Insert(o, s), ScoreIs(v)) == Lists.Filter([o] + s, ScoreIs(v))
  {
    if |s| > 0 && s[0].finalScore > o.finalScore {
      var keep := ScoreIs(v);
      var x, t := s[0], s[1..];
      var inserted := Insert(o, t);
      InsertStable(o, t, v);
      assert Insert(o, s) == [x] + inserted;
      assert ([x] + inserted)[1..] == inserted;
      assert ([o] + t)[1..] == t;
      assert ([o] + s)[1..] == s;
      var fx := if keep(x) then [x] else [];
      var fo := if keep(o) then [o] else [];
      var ft := Lists.Filter(t, keep);
      assert Lists.Filter(Insert(o, s), keep) == fx + (fo + ft);
      assert Lists.Filter([o] + s, keep) == fo + (fx + ft);
      assert fx == [] || fo == [];
    }
  }

  /** The sort is stable: among opportunities of equal score the order is
    * that of the input. */
  lemma {:induction false} SortStable(s: seq<Opportunity>, v: real)
    ensures Lists.Filter(SortByScore(s), ScoreIs(v)) == Lists.Filter(s, ScoreIs(v))
  {
    if |s| > 0 {
      SortStable(s[1..], v);
      InsertStable(s[0], SortByScore(s[1..]), v);
      assert ([s[0]] + SortByScore(s[1..]))[1..] == SortByScore(s[1..]);
    }
  }

  // ---------------------------------------------------------------------
  // The action

  /** rankResultsBySimilarity: the drafts of the results whose embedding
    * succeeded, no more than there were results, every one of them and
    * nothing else, sorted by non-increasing final score. */
  method RankResultsBySimilarity(results: seq<SearchResult>, ctx: Context) returns (ranked: seq<Opportunity>)
    ensures ranked == SortByScore(Drafts(results, ctx))
    ensures |ranked| <= |results|
    ensures Descending(ranked)
    ensures forall j :: 0 <= j < |results| && ctx.embed(results[j].content).Some? ==>
              Draft(results[j], ctx.embed(results[j].content).value, ctx) in ranked
    ensures forall o :: o in ranked ==>
              exists j :: 0 <= j < |results| && ctx.embed(results[j].content).Some? && o == Draft(results[j], ctx.embed(results[j].content).value, ctx)
  {
    var rankedResults: seq<Opportunity> := [];
    for i := 0 to |results|
      invariant rankedResults == Drafts(results[..i], ctx)
    {
      var result := results[i];
      var resultEmbedding := ctx.embed(result.content);
      if resultEmbedding.Some? {
        var similarityScore := CosineSimilarity(ctx.brandEmbedding, resultEmbedding.value, ctx.sqrt);
        var published := ctx.parse(result.publishedDate);
        var finalScore := FinalScore(ctx.now, published, result.source, Num(similarityScore));
        var draft := Opportunity(
          ctx.userId, result.title, Summary(result.content), result.content, result.source, result.url,
          published, similarityScore, finalScore, TrendingScore(ctx.now, published) > 0.5,
          false, None, ctx.now, ctx.now);
        assert draft == Draft(result, resultEmbedding.value, ctx);
        rankedResults := rankedResults + [draft];
      }
      assert results[..i + 1][..i] == results[..i];
    }
    assert results[..|results|] == results;
    ranked := SortByScore(rankedResults);
    Ranked(results, ctx, rankedResults, ranked);
  }

  /** The facts about the sorted drafts that the action promises. */
  lemma Ranked(results: seq<SearchResult>, ctx: Context, drafts: seq<Opportunity>, ranked: seq<Opportunity>)
    requires drafts == Drafts(results, ctx) && ranked == SortByScore(drafts)
    ensures Descending(ranked)
    ensures forall j :: 0 <= j < |results| && ctx.embed(results[j].content).Some? ==>
              Draft(results[j], ctx.embed(results[j].content).value, ctx) in ranked
    ensures forall o :: o in ranked ==>
              exists j :: 0 <= j < |results| && ctx.embed(results[j].content).Some? && o == Draft(results[j], ctx.embed(results[j].content).value, ctx)
  {
    SortDescending(drafts);
    DraftsSound(results, ctx);
    DraftsComplete(results, ctx);
    forall o | o in drafts
      ensures o in ranked
    {
      assert o in multiset(drafts);
    }
    forall o | o in ranked
      ensures o in drafts
    {
      assert o in multiset(ranked);
    }
  }
}
