/** `_analyze_engagement_patterns`: the tweets scoring strictly above the
    mean, their likes-to-retweets ratio, and up to three qualitative notes
    about them. */
module Engagement {

  import opened Collections
  import opened Text
  import opened Tweets

  /** Every tweet's `engagement_score`, in tweet order. */
  function ScoresOf(tweets: seq<Tweet>): (xs: seq<real>)
    ensures |xs| == |tweets|
    ensures forall i :: 0 <= i < |tweets| ==> xs[i] == tweets[i].score
  {
    seq(|tweets|, i requires 0 <= i < |tweets| => tweets[i].score)
  }

  function MeanScore(tweets: seq<Tweet>): real
    requires |tweets| > 0
  {
    Mean(ScoresOf(tweets))
  }

  /** The tweets whose score is strictly above `m`, in order. */
  function Above(tweets: seq<Tweet>, m: real): (h: seq<Tweet>)
    ensures |h| <= |tweets|
    ensures forall i :: 0 <= i < |h| ==> h[i].score > m
    ensures forall t :: multiset(h)[t] == if t.score > m then multiset(tweets)[t] else 0
  {
    if tweets == [] then []
    else
      assert tweets == [tweets[0]] + tweets[1..];
      (if tweets[0].score > m then [tweets[0]] else []) + Above(tweets[1..], m)
  }

  /** `high_engagement`. The comprehension evaluates the mean only when it
      has a tweet to test, so an empty list yields an empty group rather
      than a division by zero. */
  function HighGroup(tweets: seq<Tweet>): (h: seq<Tweet>)
    ensures |tweets| == 0 ==> h == []
    ensures |tweets| > 0 ==> forall t :: t in h <==> t in tweets && t.score > MeanScore(tweets)
  {
    if tweets == [] then []
    else
      var h := Above(tweets, MeanScore(tweets));
      forall t
        ensures t in h <==> t in tweets && t.score > MeanScore(tweets)
      {
        assert t in h <==> multiset(h)[t] > 0;
        assert t in tweets <==> multiset(tweets)[t] > 0;
      }
      h
  }

  /** Every copy of a tweet above the mean is kept, and nothing else. */
  lemma {:induction false} HighGroupCounts(tweets: seq<Tweet>, t: Tweet)
    requires |tweets| > 0
    ensures multiset(HighGroup(tweets))[t] ==
              if t.score > MeanScore(tweets) then multiset(tweets)[t] else 0
  {
  }

  predicate AllAtMost(xs: seq<real>, hi: real)
  {
    forall i :: 0 <= i < |xs| ==> xs[i] <= hi
  }

  lemma {:induction false} SumUpTo(xs: seq<real>, hi: real)
    requires AllAtMost(xs, hi)
    ensures Sum(xs) <= (|xs| as real) * hi
  {
    if xs != [] {
      SumUpTo(xs[..|xs| - 1], hi);
    }
  }

  /** One element strictly below the bound makes the sum strictly
      smaller than the bound times the length. */
  lemma {:induction false} SumBelow(xs: seq<real>, hi: real, k: int)
    requires AllAtMost(xs, hi)
    requires 0 <= k < |xs| && xs[k] < hi
    ensures Sum(xs) < (|xs| as real) * hi
  {
    var init := xs[..|xs| - 1];
    if k == |xs| - 1 {
      SumUpTo(init, hi);
    } else {
      assert init[k] == xs[k];
      SumBelow(init, hi, k);
    }
  }

  lemma {:induction false} DivBelow(s: real, n: real, x: real)
    requires n > 0.0 && s < n * x
    ensures s / n < x
  {
    assert s / n * n == s;
  }

  /** Position of a largest score. */
  function ArgMax(xs: seq<real>): (k: nat)
    requires |xs| > 0
    ensures k < |xs| && AllAtMost(xs, xs[k])
  {
    if |xs| == 1 then 0
    else
      var k := ArgMax(xs[1..]);
      assert forall i :: 1 <= i < |xs| ==> xs[i] == xs[1..][i - 1];
      if xs[0] >= xs[1..][k] then 0 else k + 1
  }

  /** Every tweet scores the same. */
  predicate Uniform(tweets: seq<Tweet>)
  {
    forall i :: 0 <= i < |tweets| ==> tweets[i].score == tweets[0].score
  }

  /** The high group is empty exactly when every tweet has the same score:
      a spread of scores puts the best one strictly above the mean. */
  lemma {:induction false} HighGroupEmpty(tweets: seq<Tweet>)
    requires |tweets| > 0
    ensures HighGroup(tweets) == [] <==> Uniform(tweets)
  {
    if Uniform(tweets) {
      UniformNoneHigh(tweets);
    } else {
      var b :| 0 <= b < |tweets| && tweets[b].score != tweets[0].score;
      SpreadSomeHigh(tweets, b);
    }
  }

  lemma {:induction false} UniformNoneHigh(tweets: seq<Tweet>)
    ensures Uniform(tweets) ==> HighGroup(tweets) == []
  {
    if tweets == [] || !Uniform(tweets) {
      return;
    }
    MeanBounds(ScoresOf(tweets), tweets[0].score, tweets[0].score);
    var m := MeanScore(tweets);
    var h := HighGroup(tweets);
    forall t
      ensures multiset(h)[t] == 0
    {
      HighGroupCounts(tweets, t);
      forall i | 0 <= i < |tweets|
        ensures tweets[i] != t || t.score <= m
      {
      }
      assert t.score > m ==> t !in tweets;
    }
    assert multiset(h) == multiset{};
    assert |h| == |multiset(h)|;
  }

  lemma {:induction false} SpreadSomeHigh(tweets: seq<Tweet>, b: int)
    requires 0 <= b < |tweets| && tweets[b].score != tweets[0].score
    ensures HighGroup(tweets) != []
  {
    var xs := ScoresOf(tweets);
    var k := ArgMax(xs);
    var low := if xs[0] < xs[k] then 0 else b;
    assert xs[low] < xs[k];
    SumBelow(xs, xs[k], low);
    DivBelow(Sum(xs), |xs| as real, xs[k]);
    assert tweets[k].score > MeanScore(tweets);
    assert tweets[k] in tweets;
  }

  /** Total likes and total retweets of a list of tweets. */
  function Likes(ts: seq<Tweet>): int
  {
    if ts == [] then 0 else ts[0].likes + Likes(ts[1..])
  }

  function Retweets(ts: seq<Tweet>): int
  {
    if ts == [] then 0 else ts[0].retweets + Retweets(ts[1..])
  }

  /** `avg_likes_to_retweets_ratio`: stays 0 unless the group has retweets. */
  function Ratio(high: seq<Tweet>): (r: real)
    ensures Retweets(high) <= 0 ==> r == 0.0
    ensures Retweets(high) > 0 ==> r * (Retweets(high) as real) == Likes(high) as real
  {
    if Retweets(high) > 0 then (Likes(high) as real) / (Retweets(high) as real) else 0.0
  }

  /** The three qualitative notes, in the order they are tested. */
  datatype Note = Questions | Emojis | Threads

  /** The text the analysis reports for a note. */
  function NoteText(n: Note): string
  {
    match n
    case Questions => "Questions perform well"
    case Emojis => "Emojis boost engagement"
    case Threads => "Threads generate discussion"
  }

  predicate AsksQuestion(t: Tweet)
  {
    '?' in t.text
  }

  /** `any(ord(c) > 127 for c in text)`. */
  predicate HasEmoji(t: Tweet)
  {
    exists i :: 0 <= i < |t.text| && t.text[i] as int > 127
  }

  predicate MentionsThread(t: Tweet)
  {
    Contains(Lower(t.text), "thread")
  }

  function NoteRank(n: Note): nat
  {
    match n
    case Questions => 0
    case Emojis => 1
    case Threads => 2
  }

  predicate InNoteOrder(ns: seq<Note>)
  {
    forall i, j :: 0 <= i < j < |ns| ==> NoteRank(ns[i]) < NoteRank(ns[j])
  }

  /** `if question_tweets:` */
  function AnyQuestion(high: seq<Tweet>): (b: bool)
    ensures b <==> exists t :: t in high && AsksQuestion(t)
  {
    FilterNonEmpty(high, AsksQuestion);
    |Filter(high, AsksQuestion)| > 0
  }

  /** `len(emoji_tweets) > len(high_engagement) * 0.3`, which in exact
      arithmetic is `10 * emoji > 3 * group`. */
  function EmojiShare(high: seq<Tweet>): (b: bool)
    ensures b <==> 10 * |Filter(high, HasEmoji)| > 3 * |high|
  {
    (|Filter(high, HasEmoji)| as real) > (|high| as real) * 0.3
  }

  /** `if thread_tweets:` */
  function AnyThread(high: seq<Tweet>): (b: bool)
    ensures b <==> exists t :: t in high && MentionsThread(t)
  {
    FilterNonEmpty(high, MentionsThread);
    |Filter(high, MentionsThread)| > 0
  }

  /** The notes whose tests passed, in test order. */
  function NotesFor(questions: bool, emoji: bool, threads: bool): (ns: seq<Note>)
    ensures |ns| <= 3 && InNoteOrder(ns)
    ensures Questions in ns <==> questions
    ensures Emojis in ns <==> emoji
    ensures Threads in ns <==> threads
  {
    (if questions then [Questions] else [])
    + (if emoji then [Emojis] else [])
    + (if threads then [Threads] else [])
  }

  /** `high_engagement_characteristics` for a high group. */
  function Notes(high: seq<Tweet>): (ns: seq<Note>)
    ensures |ns| <= 3 && InNoteOrder(ns)
    ensures high == [] ==> ns == []
    ensures Questions in ns <==> exists t :: t in high && AsksQuestion(t)
    ensures Emojis in ns <==> 10 * |Filter(high, HasEmoji)| > 3 * |high|
    ensures Threads in ns <==> exists t :: t in high && MentionsThread(t)
  {
    NotesFor(AnyQuestion(high), EmojiShare(high), AnyThread(high))
  }

  /** The `engagement_insights` entry. `optimalStructure` is never filled
      in. */
  datatype Insights = Insights(
    likesToRetweets: real,
    characteristics: seq<Note>,
    optimalStructure: seq<string>)

  /** The insights computed from a high group. */
  function InsightsOf(high: seq<Tweet>): (r: Insights)
    ensures r.optimalStructure == []
    ensures high == [] ==> r.likesToRetweets == 0.0 && r.characteristics == []
    ensures Retweets(high) <= 0 ==> r.likesToRetweets == 0.0
    ensures Retweets(high) > 0 ==> r.likesToRetweets == (Likes(high) as real) / (Retweets(high) as real)
    ensures |r.characteristics| <= 3 && InNoteOrder(r.characteristics)
    ensures Questions in r.characteristics <==> exists t :: t in high && AsksQuestion(t)
    ensures Emojis in r.characteristics <==> 10 * |Filter(high, HasEmoji)| > 3 * |high|
    ensures Threads in r.characteristics <==> exists t :: t in high && MentionsThread(t)
  {
    Insights(Ratio(high), Notes(high), [])
  }

  /** `_analyze_engagement_patterns`. */
  function EngagementInsights(tweets: seq<Tweet>): (r: Insights)
    ensures r.optimalStructure == []
    ensures Uniform(tweets) ==> r == Insights(0.0, [], [])
  {
    UniformNoneHigh(tweets);
    InsightsOf(HighGroup(tweets))
  }

  /** The notes, read off the input: some tweet above the mean asks a
      question or mentions a thread, and more than 30% of the tweets above
      the mean carry a character beyond ASCII. */
  lemma {:induction false} EngagementNotes(tweets: seq<Tweet>)
    requires |tweets| > 0
    ensures Questions in EngagementInsights(tweets).characteristics <==>
              exists t :: t in tweets && t.score > MeanScore(tweets) && AsksQuestion(t)
    ensures Threads in EngagementInsights(tweets).characteristics <==>
              exists t :: t in tweets && t.score > MeanScore(tweets) && MentionsThread(t)
    ensures Emojis in EngagementInsights(tweets).characteristics <==>
              10 * |Filter(HighGroup(tweets), HasEmoji)| > 3 * |HighGroup(tweets)|
  {
  }

  /** The ratio is the high group's likes over its retweets, and zero
      when it has no retweets. */
  lemma {:induction false} EngagementRatio(tweets: seq<Tweet>)
    ensures var high := HighGroup(tweets);
            var r := EngagementInsights(tweets).likesToRetweets;
            && (Retweets(high) <= 0 ==> r == 0.0)
            && (Retweets(high) > 0 ==> r == (Likes(high) as real) / (Retweets(high) as real))
  {
  }
}
