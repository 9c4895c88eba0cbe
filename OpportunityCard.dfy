/** The opportunity card's pure helpers: the publication date as a
  * relative age, the colour of the score bar, and the keyword chips. */
module OpportunityCard {
  import opened Schema
  import opened Text
  import Dashboard

  /** The largest magnitude of a JavaScript time value, in milliseconds
    * (section 21.4.1.31 of ECMA-262, TimeClip). */
  const MaxTime: real := 8640000000000000.0

  /** Rounding toward zero, as ToIntegerOrInfinity does. */
  function Truncate(x: real): (r: int)
    ensures x >= 0.0 ==> r as real <= x < r as real + 1.0
    ensures x < 0.0 ==> r as real - 1.0 < x <= r as real
  {
    if x >= 0.0 then x.Floor else -((-x).Floor)
  }

  /** `new Date(timestamp).getTime()`: NaN past the time range, otherwise
    * the timestamp rounded toward zero. */
  function TimeValue(timestamp: JsNumber): (r: Option<int>)
    ensures r.Some? <==> timestamp.Num? && -MaxTime <= timestamp.value <= MaxTime
  {
    match timestamp
    case NaN => None
    case Num(x) => if x < -MaxTime || x > MaxTime then None else Some(Truncate(x))
  }

  /** formatDate: "Unknown date" for 0, NaN or an invalid date; then by
    * whole hours elapsed: "Just now", "Nh ago", "Nd ago" within a week,
    * and the locale date (a parameter) after that. */
  function FormatDate(timestamp: JsNumber, now: int, localeDate: int -> string): string
  {
    if timestamp.NaN? || timestamp.value == 0.0 then "Unknown date"
    else
      match TimeValue(timestamp)
      case None => "Unknown date"
      case Some(t) =>
        var hoursAgo := Dashboard.Elapsed(t, now).0;
        if hoursAgo < 1 then "Just now"
        else if hoursAgo < 24 then Decimal(hoursAgo) + "h ago"
        else if hoursAgo < 168 then Decimal(hoursAgo / 24) + "d ago"
        else localeDate(t)
  }

  /** A missing, zero or out-of-range timestamp gives "Unknown date". */
  lemma FormatDateUnknown(timestamp: JsNumber, now: int, localeDate: int -> string)
    requires timestamp.NaN? || timestamp.value == 0.0 || timestamp.value < -MaxTime || timestamp.value > MaxTime
    ensures FormatDate(timestamp, now, localeDate) == "Unknown date"
  {
  }

  /** For a valid date t the card shows, by the milliseconds elapsed:
    * "Just now" under an hour (future dates included), the whole hours
    * (1..23) under a day, the whole days (1..6) under a week, and the
    * locale date after that; none of the first three is "Unknown date". */
  lemma FormatDateBuckets(timestamp: JsNumber, now: int, localeDate: int -> string)
    requires timestamp.Num? && timestamp.value != 0.0 && -MaxTime <= timestamp.value <= MaxTime
    ensures var t := Truncate(timestamp.value);
      var diff := now - t;
      var r := FormatDate(timestamp, now, localeDate);
      && (diff < MsPerHour ==> r == "Just now")
      && (MsPerHour <= diff < MsPerDay ==>
            1 <= diff / MsPerHour <= 23 && r == Decimal(diff / MsPerHour) + "h ago")
      && (MsPerDay <= diff < 7 * MsPerDay ==>
            1 <= diff / MsPerDay <= 6 && r == Decimal(diff / MsPerDay) + "d ago")
      && (diff >= 7 * MsPerDay ==> r == localeDate(t))
      && (diff < 7 * MsPerDay ==> r != "Unknown date")
  {
    var t := Truncate(timestamp.value);
    var diff := now - t;
    var (hours, days) := Dashboard.Elapsed(t, now);
    var r := FormatDate(timestamp, now, localeDate);
    if MsPerHour <= diff < MsPerDay {
      Dashboard.DivisionBracket(diff, MsPerHour, hours);
      assert IsDigit(r[0]);
    } else if MsPerDay <= diff < 7 * MsPerDay {
      Dashboard.DivisionBracket(diff, MsPerDay, days);
      assert hours / 24 == days;
      assert IsDigit(r[0]);
    }
  }

  /** getScoreColor: green from 0.8, yellow from 0.6, red below. */
  function ScoreColor(score: real): string
  {
    if score >= 0.8 then "bg-green-500"
    else if score >= 0.6 then "bg-yellow-500"
    else "bg-red-500"
  }

  /** The colours in the order of the scores they stand for. */
  function ColorRank(color: string): int
  {
    if color == "bg-green-500" then 2 else if color == "bg-yellow-500" then 1 else 0
  }

  /** The colour never falls as the score rises, and each colour stands
    * for exactly its band of scores. */
  lemma ScoreColorMonotone(low: real, high: real)
    requires low <= high
    ensures ColorRank(ScoreColor(low)) <= ColorRank(ScoreColor(high))
    ensures ScoreColor(high) == "bg-green-500" <==> high >= 0.8
    ensures ScoreColor(high) == "bg-yellow-500" <==> 0.6 <= high < 0.8
    ensures ScoreColor(high) == "bg-red-500" <==> high < 0.6
  {
  }

  /** The keyword row: nothing without keywords, otherwise the chips shown
    * and the "+N" chip when some are hidden. */
  datatype ChipRow = NoRow | Row(shown: seq<string>, more: Option<string>)

  /** `keywords.slice(0, 3)` and `+${keywords.length - 3}` when there are
    * more than three. */
  function Chips(keywords: seq<string>): ChipRow
  {
    if |keywords| == 0 then NoRow
    else Row(Take(keywords, 3), if |keywords| > 3 then Some("+" + Decimal(|keywords| - 3)) else None)
  }

  /** At most three chips are shown, the first keywords in order; the "+N"
    * chip appears exactly when there are more than three, and N counts the
    * hidden ones, so the row accounts for every keyword. */
  lemma ChipsAccount(keywords: seq<string>)
    ensures Chips(keywords).NoRow? <==> |keywords| == 0
    ensures Chips(keywords).Row? ==>
      var row := Chips(keywords);
      && |row.shown| == (if |keywords| < 3 then |keywords| else 3) && row.shown == keywords[..|row.shown|]
      && (row.more.Some? <==> |keywords| > 3)
      && (row.more.Some? ==>
            |row.more.value| >= 2 && row.more.value[0] == '+' &&
            (forall k :: 1 <= k < |row.more.value| ==> IsDigit(row.more.value[k])) &&
            Value(row.more.value[1..]) == |keywords| - 3 &&
            |row.shown| + Value(row.more.value[1..]) == |keywords|)
      && (row.more.None? ==> row.shown == keywords)
  {
    if |keywords| > 3 {
      var n := |keywords| - 3;
      var more := "+" + Decimal(n);
      assert more[1..] == Decimal(n);
      ValueOfDecimal(n);
    }
  }
}
