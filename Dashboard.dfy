/** The opportunity dashboard's pure helpers: how long ago an update was,
  * how long until the next six-hourly update, the category and trending
  * filter of the list, and the choice of opportunities still without an
  * AI brief. Times are whole milliseconds and `now` is a parameter. */
module Dashboard {
  import opened Schema
  import opened Text
  import Lists

  /** The interval between scheduled searches: six hours. */
  const UpdateInterval := 6 * MsPerHour

  // ---------------------------------------------------------------------
  // formatTimeSince

  /** `Math.floor(diffMs / 3600000)` and `Math.floor(diffHours / 24)`: the
    * whole hours and whole days elapsed, rounded down also for a future
    * timestamp. */
  function Elapsed(timestamp: int, now: int): (r: (int, int))
    ensures r.0 * MsPerHour <= now - timestamp < r.0 * MsPerHour + MsPerHour
    ensures r.1 * 24 <= r.0 < r.1 * 24 + 24
    ensures r.1 * MsPerDay <= now - timestamp < r.1 * MsPerDay + MsPerDay
  {
    var diffHours := (now - timestamp) / MsPerHour;
    (diffHours, diffHours / 24)
  }

  /** "N day(s) ago" when a whole day has passed, "N hour(s) ago" when a
    * whole hour has, and "Just now" otherwise, future timestamps included. */
  function FormatTimeSince(timestamp: int, now: int): string
  {
    var (diffHours, diffDays) := Elapsed(timestamp, now);
    if diffDays > 0 then Decimal(diffDays) + " day" + (if diffDays > 1 then "s" else "") + " ago"
    else if diffHours > 0 then Decimal(diffHours) + " hour" + (if diffHours > 1 then "s" else "") + " ago"
    else "Just now"
  }

  /** The three forms of formatTimeSince, each by the elapsed time alone:
    * the day count is the number of whole days elapsed, the hour count
    * lies in 1..23, and "Just now" is printed exactly when less than an
    * hour has passed. */
  lemma FormatTimeSinceCases(timestamp: int, now: int)
    ensures var diff := now - timestamp;
      && (diff >= MsPerDay ==>
            var days := diff / MsPerDay;
            FormatTimeSince(timestamp, now) == Decimal(days) + " day" + (if diff >= 2 * MsPerDay then "s" else "") + " ago")
      && (MsPerHour <= diff < MsPerDay ==>
            var hours := diff / MsPerHour;
            1 <= hours <= 23 &&
            FormatTimeSince(timestamp, now) == Decimal(hours) + " hour" + (if diff >= 2 * MsPerHour then "s" else "") + " ago")
      && (FormatTimeSince(timestamp, now) == "Just now" <==> diff < MsPerHour)
  {
    var diff := now - timestamp;
    var (h, d) := Elapsed(timestamp, now);
    if diff >= MsPerDay {
      DivisionBracket(diff, MsPerDay, d);
      assert (Decimal(d) + " day" + (if d > 1 then "s" else "") + " ago")[0] != 'J' by {
        assert IsDigit(Decimal(d)[0]);
      }
    } else if diff >= MsPerHour {
      DivisionBracket(diff, MsPerHour, h);
      assert (Decimal(h) + " hour" + (if h > 1 then "s" else "") + " ago")[0] != 'J' by {
        assert IsDigit(Decimal(h)[0]);
      }
    }
  }

  /** The quotient of a division by a positive constant is the one whole
    * number that brackets the dividend. */
  lemma DivisionBracket(n: int, m: int, q: int)
    requires m > 0 && q * m <= n < q * m + m
    ensures n / m == q
  {
    var q' := n / m;
    assert q' * m <= n < q' * m + m;
    if q' < q {
      MultiplyMonotone(q' + 1, q, m);
      assert false;
    } else if q < q' {
      MultiplyMonotone(q + 1, q', m);
      assert false;
    }
  }

  lemma MultiplyMonotone(a: int, b: int, m: int)
    requires a <= b && m > 0
    ensures a * m <= b * m
  {
    var k := b - a;
    assert b * m == a * m + k * m;
  }

  // ---------------------------------------------------------------------
  // formatTimeUntilNext

  /** `Math.max(0, lastUpdateTime + 6h - now)`. */
  function Remaining(lastUpdateTime: int, now: int): (r: nat)
    ensures r == 0 <==> now >= lastUpdateTime + UpdateInterval
    ensures now >= lastUpdateTime ==> r <= UpdateInterval
  {
    var timeUntilNext := lastUpdateTime + UpdateInterval - now;
    if timeUntilNext > 0 then timeUntilNext else 0
  }

  /** The whole hours and the whole minutes beyond them left until the next
    * update. */
  function Countdown(lastUpdateTime: int, now: int): (r: (nat, nat))
  {
    var timeUntilNext := Remaining(lastUpdateTime, now);
    (timeUntilNext / MsPerHour, (timeUntilNext % MsPerHour) / MsPerMinute)
  }

  /** The countdown is the unique hours-and-minutes reading of the time
    * left: minutes in 0..59 and the time left within a minute above it; at
    * most six hours once the last update is past, and zero once the next is
    * due. */
  lemma CountdownBrackets(lastUpdateTime: int, now: int)
    ensures var (hours, minutes) := Countdown(lastUpdateTime, now);
      var remaining := Remaining(lastUpdateTime, now);
      && minutes < 60
      && hours * MsPerHour + minutes * MsPerMinute <= remaining < hours * MsPerHour + minutes * MsPerMinute + MsPerMinute
      && (now >= lastUpdateTime ==> hours <= 6)
      && (now >= lastUpdateTime + UpdateInterval ==> hours == 0 && minutes == 0)
    ensures forall h: nat, m: nat ::
      (m < 60 && h * MsPerHour + m * MsPerMinute <= Remaining(lastUpdateTime, now) < h * MsPerHour + m * MsPerMinute + MsPerMinute) ==>
        (h, m) == Countdown(lastUpdateTime, now)
  {
    var remaining := Remaining(lastUpdateTime, now);
    var (hours, minutes) := Countdown(lastUpdateTime, now);
    var within := remaining % MsPerHour;
    assert remaining == hours * MsPerHour + within;
    assert minutes * MsPerMinute <= within < minutes * MsPerMinute + MsPerMinute;
    forall h: nat, m: nat | m < 60 &&
      h * MsPerHour + m * MsPerMinute <= remaining < h * MsPerHour + m * MsPerMinute + MsPerMinute
      ensures (h, m) == (hours, minutes)
    {
      DivisionBracket(remaining, MsPerMinute, h * 60 + m);
      DivisionBracket(remaining, MsPerMinute, hours * 60 + minutes);
    }
  }

  /** "Hh Mm" when at least an hour is left, "Mm" otherwise. */
  function FormatTimeUntilNext(lastUpdateTime: int, now: int): string
  {
    var (hours, minutes) := Countdown(lastUpdateTime, now);
    if hours > 0 then Decimal(hours) + "h " + Decimal(minutes) + "m" else Decimal(minutes) + "m"
  }

  /** The countdown reads "Hh Mm" with an hours part exactly when an hour
    * or more is left, and "Mm" otherwise; either way it ends in the
    * minutes. */
  lemma FormatTimeUntilNextForm(lastUpdateTime: int, now: int)
    ensures var (hours, minutes) := Countdown(lastUpdateTime, now);
      var r := FormatTimeUntilNext(lastUpdateTime, now);
      && (Remaining(lastUpdateTime, now) >= MsPerHour <==> 'h' in r)
      && (Remaining(lastUpdateTime, now) >= MsPerHour ==> r == Decimal(Remaining(lastUpdateTime, now) / MsPerHour) + "h " + Decimal(minutes) + "m")
      && (Remaining(lastUpdateTime, now) < MsPerHour ==> r == Decimal(Remaining(lastUpdateTime, now) / MsPerMinute) + "m")
  {
    var (hours, minutes) := Countdown(lastUpdateTime, now);
    var r := FormatTimeUntilNext(lastUpdateTime, now);
    var remaining := Remaining(lastUpdateTime, now);
    CountdownBrackets(lastUpdateTime, now);
    NoLetterInDecimal(minutes);
    if remaining >= MsPerHour {
      assert hours > 0;
      assert r[|Decimal(hours)|] == 'h';
    } else {
      assert hours == 0;
      DivisionBracket(remaining, MsPerMinute, minutes);
      assert r == Decimal(minutes) + "m";
      assert forall k :: 0 <= k < |r| ==> r[k] == 'm' || IsDigit(r[k]);
    }
  }

  lemma NoLetterInDecimal(n: nat)
    ensures 'h' !in Decimal(n)
  {
    var s := Decimal(n);
    assert forall k :: 0 <= k < |s| ==> IsDigit(s[k]);
  }

  // ---------------------------------------------------------------------
  // filteredOpportunities

  /** The category selector: all categories, or one. */
  datatype CategoryChoice = All | Only(category: Category)

  /** `activeSearchQueries.some(query => query.category === c)`, over the
    * queries of the user's set when it is active (none otherwise). */
  predicate SomeOfCategory(queries: seq<Query>, c: Category)
  {
    exists k :: 0 <= k < |queries| && queries[k].category == c
  }

  /** The category test, which looks at the active search terms and not at
    * the opportunity. */
  predicate MatchesCategory(selected: CategoryChoice, queries: seq<Query>)
  {
    selected.All? || SomeOfCategory(queries, selected.category)
  }

  function Shown(selected: CategoryChoice, queries: seq<Query>, trendingOnly: bool): ArticleOpportunity -> bool
  {
    (o: ArticleOpportunity) => MatchesCategory(selected, queries) && (!trendingOnly || o.isTrending)
  }

  function FilteredOpportunities(opportunities: seq<ArticleOpportunity>, selected: CategoryChoice,
                                 queries: seq<Query>, trendingOnly: bool): seq<ArticleOpportunity>
  {
    Lists.Filter(opportunities, Shown(selected, queries, trendingOnly))
  }

  /** The filtered list keeps the opportunities' order, holds every
    * trending one that passes the category test and, with "trending only",
    * nothing else; without it the list is the whole list or empty. */
  lemma FilteredShape(opportunities: seq<ArticleOpportunity>, selected: CategoryChoice,
                      queries: seq<Query>, trendingOnly: bool)
    ensures var r := FilteredOpportunities(opportunities, selected, queries, trendingOnly);
      && Lists.IsSubsequence(r, opportunities)
      && (forall o :: o in r <==> o in opportunities && MatchesCategory(selected, queries) && (!trendingOnly || o.isTrending))
      && (!trendingOnly ==> r == (if MatchesCategory(selected, queries) then opportunities else []))
      && (!MatchesCategory(selected, queries) ==> r == [])
  {
    var keep := Shown(selected, queries, trendingOnly);
    Lists.FilterSubsequence(opportunities, keep);
    Lists.FilterAllOrNone(opportunities, keep);
  }

  /** With "all" selected and "trending only" set, the list is exactly the
    * trending opportunities. */
  lemma AllTrending(opportunities: seq<ArticleOpportunity>, queries: seq<Query>)
    ensures forall o :: o in FilteredOpportunities(opportunities, All, queries, true) <==> o in opportunities && o.isTrending
  {
    Lists.FilterSubsequence(opportunities, Shown(All, queries, true));
  }

  // ---------------------------------------------------------------------
  // handleGenerateBriefs

  function HasNoBrief(): ArticleOpportunity -> bool
  {
    (o: ArticleOpportunity) => o.aiBrief.None?
  }

  function HasBrief(): ArticleOpportunity -> bool
  {
    (o: ArticleOpportunity) => o.aiBrief.Some?
  }

  /** `opportunities.filter(opp => !opp.aiBrief)`. */
  function WithoutBriefs(opportunities: seq<ArticleOpportunity>): seq<ArticleOpportunity>
  {
    Lists.Filter(opportunities, HasNoBrief())
  }

  /** The selection is exactly the opportunities without a brief, in their
    * order; together with those that have one it accounts for the list,
    * and it is empty ("All opportunities already have AI briefs!") exactly
    * when every opportunity has one. */
  lemma WithoutBriefsSelects(opportunities: seq<ArticleOpportunity>)
    ensures Lists.IsSubsequence(WithoutBriefs(opportunities), opportunities)
    ensures forall o :: o in WithoutBriefs(opportunities) <==> o in opportunities && o.aiBrief.None?
    ensures |WithoutBriefs(opportunities)| + |Lists.Filter(opportunities, HasBrief())| == |opportunities|
    ensures WithoutBriefs(opportunities) == [] <==> forall k :: 0 <= k < |opportunities| ==> opportunities[k].aiBrief.Some?
  {
    Lists.FilterSubsequence(opportunities, HasNoBrief());
    Lists.FilterComplement(opportunities, HasNoBrief(), HasBrief());
    Lists.FilterAllOrNone(opportunities, HasNoBrief());
    if WithoutBriefs(opportunities) == [] {
      forall k | 0 <= k < |opportunities|
        ensures opportunities[k].aiBrief.Some?
      {
        assert opportunities[k] in opportunities;
      }
    }
  }
}
