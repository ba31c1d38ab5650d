/** `_analyze_posting_patterns`: mean engagement per weekday and per hour
    of posting, best first. Parsing `created_at` is outside the model: the
    caller supplies it as a function that yields the weekday and hour of a
    timestamp, or nothing when the timestamp does not parse (such tweets are
    skipped, as the source's `except: continue` does). */
module Posting {

  import opened Collections
  import opened StableSort
  import opened Tweets

  datatype Weekday = Monday | Tuesday | Wednesday | Thursday | Friday | Saturday | Sunday

  /** `strftime('%A')`. */
  function DayName(d: Weekday): string
  {
    match d
    case Monday => "Monday"
    case Tuesday => "Tuesday"
    case Wednesday => "Wednesday"
    case Thursday => "Thursday"
    case Friday => "Friday"
    case Saturday => "Saturday"
    case Sunday => "Sunday"
  }

  const AllDays: set<Weekday> := {Monday, Tuesday, Wednesday, Thursday, Friday, Saturday, Sunday}

  type Hour = h: int | 0 <= h < 24

  /** What the analysis reads from a parsed timestamp. */
  datatype Stamp = Stamp(day: Weekday, hour: Hour)

  function DayOf(s: Stamp): Weekday
  {
    s.day
  }

  function HourOf(s: Stamp): Hour
  {
    s.hour
  }

  /** (slot, score) for every tweet whose timestamp parses, in tweet order;
      `slot` picks the weekday or the hour. */
  function SlotPairs<K>(tweets: seq<Tweet>, parse: string -> Option<Stamp>, slot: Stamp -> K): (ps: seq<(K, real)>)
    ensures |ps| <= |tweets|
  {
    if tweets == [] then []
    else
      (match parse(tweets[0].createdAt)
       case Some(st) => [(slot(st), tweets[0].score)]
       case None => [])
      + SlotPairs(tweets[1..], parse, slot)
  }

  /** Reference definition: the scores of the tweets posted in slot `k`. */
  function SlotScores<K(==)>(tweets: seq<Tweet>, parse: string -> Option<Stamp>, slot: Stamp -> K, k: K): seq<real>
  {
    if tweets == [] then []
    else
      (if parse(tweets[0].createdAt).Some? && slot(parse(tweets[0].createdAt).value) == k
       then [tweets[0].score] else [])
      + SlotScores(tweets[1..], parse, slot, k)
  }

  lemma {:induction false} SlotSelect<K>(tweets: seq<Tweet>, parse: string -> Option<Stamp>, slot: Stamp -> K, k: K)
    ensures Select(SlotPairs(tweets, parse, slot), k) == SlotScores(tweets, parse, slot, k)
  {
    if tweets != [] {
      var head := match parse(tweets[0].createdAt)
                  case Some(st) => [(slot(st), tweets[0].score)]
                  case None => [];
      SelectAppend(head, SlotPairs(tweets[1..], parse, slot), k);
      SlotSelect(tweets[1..], parse, slot, k);
      if head != [] {
        assert Select(head, k) == Select([], k) + (if head[0].0 == k then [head[0].1] else []);
      }
    }
  }

  /** A slot has scores exactly when some tweet was posted in it. */
  lemma {:induction false} SlotScoresNonEmpty<K>(tweets: seq<Tweet>, parse: string -> Option<Stamp>, slot: Stamp -> K, k: K)
    ensures |SlotScores(tweets, parse, slot, k)| > 0 <==>
            exists i :: 0 <= i < |tweets| && PostedIn(tweets[i], parse, slot, k)
  {
    if tweets != [] {
      SlotScoresNonEmpty(tweets[1..], parse, slot, k);
      if exists i :: 0 <= i < |tweets[1..]| && PostedIn(tweets[1..][i], parse, slot, k) {
        var i :| 0 <= i < |tweets[1..]| && PostedIn(tweets[1..][i], parse, slot, k);
        assert tweets[i + 1] == tweets[1..][i];
      }
      if exists i :: 0 <= i < |tweets| && PostedIn(tweets[i], parse, slot, k) {
        var i :| 0 <= i < |tweets| && PostedIn(tweets[i], parse, slot, k);
        if i > 0 {
          assert tweets[1..][i - 1] == tweets[i];
        }
      }
    }
  }

  predicate PostedIn<K(==)>(t: Tweet, parse: string -> Option<Stamp>, slot: Stamp -> K, k: K)
  {
    parse(t.createdAt).Some? && slot(parse(t.createdAt).value) == k
  }

  /** Mean engagement per slot that has at least one tweet, best first
      (stable, so ties keep the order in which the slots were first seen). */
  function SlotMeans<K(==)>(tweets: seq<Tweet>, parse: string -> Option<Stamp>, slot: Stamp -> K): (r: seq<(K, real)>)
    ensures SortedDesc(r, MeanKey)
    ensures Distinct(Keys(r))
    ensures |r| == |Dedup(Keys(SlotPairs(tweets, parse, slot)))|
    ensures forall i :: 0 <= i < |r| ==>
              |SlotScores(tweets, parse, slot, r[i].0)| > 0
              && r[i].1 == Mean(SlotScores(tweets, parse, slot, r[i].0))
  {
    var ps := SlotPairs(tweets, parse, slot);
    var means := Means(ps);
    var r := SortDesc(means, MeanKey);
    DistinctKeys(means);
    SortDescDistinctBy(means, MeanKey, Fst);
    DistinctKeys(r);
    forall i | 0 <= i < |r|
      ensures |SlotScores(tweets, parse, slot, r[i].0)| > 0
      ensures r[i].1 == Mean(SlotScores(tweets, parse, slot, r[i].0))
    {
      assert r[i] in multiset(means);
      SlotSelect(tweets, parse, slot, r[i].0);
    }
    r
  }

  /** Every slot in which a tweet was posted is listed, and only those. */
  lemma {:induction false} SlotMeansListed<K>(tweets: seq<Tweet>, parse: string -> Option<Stamp>, slot: Stamp -> K, k: K)
    ensures k in Keys(SlotMeans(tweets, parse, slot)) <==>
            exists i :: 0 <= i < |tweets| && PostedIn(tweets[i], parse, slot, k)
  {
    var ps := SlotPairs(tweets, parse, slot);
    var means := Means(ps);
    assert SlotMeans(tweets, parse, slot) == SortDesc(means, MeanKey);
    SortDescKeys(means, MeanKey, k);
    DedupIn(Keys(ps), k);
    SelectNonEmpty(ps, k);
    SlotSelect(tweets, parse, slot, k);
    SlotScoresNonEmpty(tweets, parse, slot, k);
  }

  /** The `posting_patterns` entry of the analysis. */
  datatype PostingPatterns = PostingPatterns(
    bestDays: seq<(Weekday, real)>,
    bestHours: seq<(Hour, real)>)

  /** `best_days`: every weekday with tweets, by mean engagement. */
  function BestDays(tweets: seq<Tweet>, parse: string -> Option<Stamp>): (r: seq<(Weekday, real)>)
    ensures |r| <= 7
    ensures SortedDesc(r, MeanKey) && Distinct(Keys(r))
    ensures forall i :: 0 <= i < |r| ==>
              |SlotScores(tweets, parse, DayOf, r[i].0)| > 0
              && r[i].1 == Mean(SlotScores(tweets, parse, DayOf, r[i].0))
  {
    var days := SlotMeans(tweets, parse, DayOf);
    AtMostSeven(Keys(days));
    days
  }

  /** `best_hours`: the five hours with the best mean engagement. */
  function BestHours(tweets: seq<Tweet>, parse: string -> Option<Stamp>): (r: seq<(Hour, real)>)
    ensures |r| <= 5
    ensures SortedDesc(r, MeanKey) && Distinct(Keys(r))
    ensures forall i :: 0 <= i < |r| ==>
              |SlotScores(tweets, parse, HourOf, r[i].0)| > 0
              && r[i].1 == Mean(SlotScores(tweets, parse, HourOf, r[i].0))
  {
    var hours := SlotMeans(tweets, parse, HourOf);
    TakeRanked(hours, MeanKey, 5);
    Take(hours, 5)
  }

  /** Weekdays of equal mean are listed in the order in which they were
      first posted on. */
  lemma {:induction false} BestDaysTies(tweets: seq<Tweet>, parse: string -> Option<Stamp>, k: real)
    ensures WithKey(BestDays(tweets, parse), MeanKey, k) == WithKey(Means(SlotPairs(tweets, parse, DayOf)), MeanKey, k)
  {
    SortDescStable(Means(SlotPairs(tweets, parse, DayOf)), MeanKey, k);
  }

  /** The cut at five keeps, among hours of equal mean, the ones first
      posted in. */
  lemma {:induction false} BestHoursTies(tweets: seq<Tweet>, parse: string -> Option<Stamp>, k: real)
    ensures WithKey(BestHours(tweets, parse), MeanKey, k) <= WithKey(Means(SlotPairs(tweets, parse, HourOf)), MeanKey, k)
  {
    var means := Means(SlotPairs(tweets, parse, HourOf));
    assert SlotMeans(tweets, parse, HourOf) == SortDesc(means, MeanKey);
    TopTies(means, BestHours(tweets, parse), MeanKey, k);
  }

  function AnalyzePosting(tweets: seq<Tweet>, parse: string -> Option<Stamp>): PostingPatterns
  {
    PostingPatterns(BestDays(tweets, parse), BestHours(tweets, parse))
  }

  lemma {:induction false} AtMostSeven(ds: seq<Weekday>)
    requires Distinct(ds)
    ensures |ds| <= 7
  {
    forall i | 0 <= i < |ds|
      ensures ds[i] in AllDays
    {
      match ds[i]
      case Monday =>
      case Tuesday =>
      case Wednesday =>
      case Thursday =>
      case Friday =>
      case Saturday =>
      case Sunday =>
    }
    DistinctLength(ds, AllDays);
  }

  /** Every weekday on which some tweet was posted appears in `best_days`. */
  lemma {:induction false} BestDaysComplete(tweets: seq<Tweet>, parse: string -> Option<Stamp>, d: Weekday)
    ensures d in Keys(BestDays(tweets, parse)) <==>
            exists i :: 0 <= i < |tweets| && PostedIn(tweets[i], parse, DayOf, d)
  {
    SlotMeansListed(tweets, parse, DayOf, d);
  }

  /** An hour with tweets that is not among the five listed has a mean no
      higher than every listed hour's (an hour has scores exactly when some
      tweet was posted in it, by `SlotScoresNonEmpty`). */
  lemma {:induction false} BestHoursTop(tweets: seq<Tweet>, parse: string -> Option<Stamp>, h: Hour)
    requires |SlotScores(tweets, parse, HourOf, h)| > 0
    requires h !in Keys(BestHours(tweets, parse))
    ensures |BestHours(tweets, parse)| == 5
    ensures forall i :: 0 <= i < 5 ==>
              BestHours(tweets, parse)[i].1 >= Mean(SlotScores(tweets, parse, HourOf, h))
  {
    var hours := SlotMeans(tweets, parse, HourOf);
    var best := BestHours(tweets, parse);
    SlotScoresNonEmpty(tweets, parse, HourOf, h);
    SlotMeansListed(tweets, parse, HourOf, h);
    var j :| 0 <= j < |hours| && Keys(hours)[j] == h;
    assert hours[j].0 == h;
    assert hours[j].1 == Mean(SlotScores(tweets, parse, HourOf, h));
    TopAmongMeans(tweets, parse, j);
  }

  /** The cut at five keeps the best: hour `j` of the ranked table is either
      kept or outranked by all five kept. */
  lemma {:induction false} TopAmongMeans(tweets: seq<Tweet>, parse: string -> Option<Stamp>, j: int)
    requires 0 <= j < |SlotMeans(tweets, parse, HourOf)|
    requires SlotMeans(tweets, parse, HourOf)[j].0 !in Keys(BestHours(tweets, parse))
    ensures |BestHours(tweets, parse)| == 5
    ensures forall i :: 0 <= i < 5 ==>
              BestHours(tweets, parse)[i].1 >= SlotMeans(tweets, parse, HourOf)[j].1
  {
    var hours := SlotMeans(tweets, parse, HourOf);
    var best := BestHours(tweets, parse);
    assert best == Take(hours, 5);
    if j < 5 {
      assert false;
    }
  }
}
