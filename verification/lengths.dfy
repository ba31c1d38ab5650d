/** `_analyze_length_patterns` and `_get_length_range`: tweets bucketed by
    text length, with count, total and mean engagement per bucket. */
module Lengths {

  import opened Collections
  import opened Tweets

  /** The four length buckets, shortest first. */
  datatype LengthRange = UpTo50 | UpTo100 | UpTo200 | Over200

  const AllRanges: set<LengthRange> := {UpTo50, UpTo100, UpTo200, Over200}

  /** There are only four buckets to list. */
  lemma {:induction false} AtMostFour(rs: seq<LengthRange>)
    requires Distinct(rs)
    ensures |rs| <= 4
  {
    forall i | 0 <= i < |rs|
      ensures rs[i] in AllRanges
    {
      match rs[i]
      case UpTo50 =>
      case UpTo100 =>
      case UpTo200 =>
      case Over200 =>
    }
    DistinctLength(rs, AllRanges);
  }

  /** The bucket's key in the result. */
  function Label(r: LengthRange): string
  {
    match r
    case UpTo50 => "0-50 chars"
    case UpTo100 => "51-100 chars"
    case UpTo200 => "101-200 chars"
    case Over200 => "200+ chars"
  }

  /** `_get_length_range`. */
  function RangeOf(length: nat): LengthRange
  {
    if length <= 50 then UpTo50
    else if length <= 100 then UpTo100
    else if length <= 200 then UpTo200
    else Over200
  }

  /** The lengths each bucket stands for, as its label describes them. */
  predicate InRange(r: LengthRange, length: nat)
  {
    match r
    case UpTo50 => length <= 50
    case UpTo100 => 51 <= length <= 100
    case UpTo200 => 101 <= length <= 200
    case Over200 => 201 <= length
  }

  /** The buckets partition the lengths: `RangeOf` picks the only bucket
      that contains the length. */
  lemma {:induction false} RangeOfUnique(length: nat, r: LengthRange)
    ensures InRange(RangeOf(length), length)
    ensures InRange(r, length) <==> r == RangeOf(length)
  {
  }

  function Rank(r: LengthRange): nat
  {
    match r
    case UpTo50 => 0
    case UpTo100 => 1
    case UpTo200 => 2
    case Over200 => 3
  }

  /** Longer texts never fall into a shorter bucket. */
  lemma {:induction false} RangeOfMonotone(m: nat, n: nat)
    requires m <= n
    ensures Rank(RangeOf(m)) <= Rank(RangeOf(n))
  {
  }

  /** Distinct buckets have distinct labels, so the labels are usable as
      dictionary keys. */
  lemma {:induction false} LabelInjective(a: LengthRange, b: LengthRange)
    requires Label(a) == Label(b)
    ensures a == b
  {
    assert Label(a)[0] == Label(b)[0];
    assert |Label(a)| == |Label(b)|;
  }

  /** One entry of `optimal_length`. */
  datatype LengthStat = LengthStat(
    range: LengthRange,
    count: nat,
    totalEngagement: real,
    avgEngagement: real)

  /** Each tweet's bucket, in tweet order. */
  function Buckets(tweets: seq<Tweet>): (bs: seq<LengthRange>)
    ensures |bs| == |tweets|
  {
    seq(|tweets|, i requires 0 <= i < |tweets| => RangeOf(|tweets[i].text|))
  }

  /** (bucket, engagement score) for every tweet, in tweet order. */
  function LengthPairs(tweets: seq<Tweet>): (ps: seq<(LengthRange, real)>)
    ensures Keys(ps) == Buckets(tweets)
  {
    seq(|tweets|, i requires 0 <= i < |tweets| => (RangeOf(|tweets[i].text|), tweets[i].score))
  }

  /** The scores of the tweets that fall into bucket `r`, in tweet order. */
  function ScoresIn(tweets: seq<Tweet>, r: LengthRange): seq<real>
  {
    Select(LengthPairs(tweets), r)
  }

  function StatOf(g: (LengthRange, seq<real>)): LengthStat
  {
    LengthStat(g.0, |g.1|, Sum(g.1), if |g.1| > 0 then Mean(g.1) else 0.0)
  }

  function RangesOf(stats: seq<LengthStat>): (rs: seq<LengthRange>)
    ensures |rs| == |stats|
  {
    seq(|stats|, i requires 0 <= i < |stats| => stats[i].range)
  }

  function CountSum(stats: seq<LengthStat>): nat
  {
    if stats == [] then 0 else stats[0].count + CountSum(stats[1..])
  }

  function Stats(gs: seq<(LengthRange, seq<real>)>): (r: seq<LengthStat>)
    ensures |r| == |gs|
    ensures RangesOf(r) == Keys(gs)
    ensures forall i :: 0 <= i < |r| ==> r[i] == StatOf(gs[i])
  {
    var r := seq(|gs|, i requires 0 <= i < |gs| => StatOf(gs[i]));
    assert RangesOf(r) == Keys(gs);
    r
  }

  lemma {:induction false} StatsCount(gs: seq<(LengthRange, seq<real>)>)
    ensures CountSum(Stats(gs)) == TotalSize(gs)
  {
    if gs != [] {
      StatsCount(gs[1..]);
      assert Stats(gs)[1..] == Stats(gs[1..]);
    }
  }

  /** Entry `i` describes the tweets of its bucket. */
  lemma {:induction false} StatFacts(tweets: seq<Tweet>, i: int)
    requires 0 <= i < |GroupBy(LengthPairs(tweets))|
    ensures var st := StatOf(GroupBy(LengthPairs(tweets))[i]);
            && st.count == multiset(Buckets(tweets))[st.range] > 0
            && st.totalEngagement == Sum(ScoresIn(tweets, st.range))
            && st.avgEngagement == st.totalEngagement / (st.count as real)
  {
    var ps := LengthPairs(tweets);
    var gs := GroupBy(ps);
    var g := gs[i];
    assert g.1 == Select(ps, g.0);
    GroupsNonEmpty(ps, i);
    SelectCount(ps, g.0);
  }

  /** `optimal_length`: the buckets that occur, in order of first
      occurrence, each with the number of its tweets, their total engagement
      and the mean. */
  function LengthPatterns(tweets: seq<Tweet>): (r: seq<LengthStat>)
    ensures RangesOf(r) == Dedup(Buckets(tweets))
    ensures |r| <= 4
    ensures forall i :: 0 <= i < |r| ==>
              && r[i].count == multiset(Buckets(tweets))[r[i].range] > 0
              && r[i].totalEngagement == Sum(ScoresIn(tweets, r[i].range))
              && r[i].avgEngagement == r[i].totalEngagement / (r[i].count as real)
    ensures CountSum(r) == |tweets|
  {
    var gs := GroupBy(LengthPairs(tweets));
    var r := Stats(gs);
    forall i | 0 <= i < |r|
      ensures && r[i].count == multiset(Buckets(tweets))[r[i].range] > 0
              && r[i].totalEngagement == Sum(ScoresIn(tweets, r[i].range))
              && r[i].avgEngagement == r[i].totalEngagement / (r[i].count as real)
    {
      StatFacts(tweets, i);
    }
    AtMostFour(RangesOf(r));
    StatsCount(gs);
    r
  }

  /** A bucket is listed exactly when some tweet's length falls into it. */
  lemma {:induction false} LengthPatternsListed(tweets: seq<Tweet>, b: LengthRange)
    ensures b in RangesOf(LengthPatterns(tweets)) <==>
            exists i :: 0 <= i < |tweets| && InRange(b, |tweets[i].text|)
  {
    DedupIn(Buckets(tweets), b);
    BucketsIn(tweets, b);
  }

  /** Some tweet falls into bucket `b` exactly when `b` is among the
      tweets' buckets. */
  lemma {:induction false} BucketsIn(tweets: seq<Tweet>, b: LengthRange)
    ensures b in Buckets(tweets) <==> exists i :: 0 <= i < |tweets| && InRange(b, |tweets[i].text|)
  {
    var bs := Buckets(tweets);
    if exists i :: 0 <= i < |tweets| && InRange(b, |tweets[i].text|) {
      var i :| 0 <= i < |tweets| && InRange(b, |tweets[i].text|);
      RangeOfUnique(|tweets[i].text|, b);
      assert bs[i] == b;
    }
    if b in bs {
      var i :| 0 <= i < |bs| && bs[i] == b;
      RangeOfUnique(|tweets[i].text|, b);
    }
  }
}
