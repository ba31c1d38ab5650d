/** `analyze_tweet_patterns`: flatten the account map, answer the error
    sentinel when there is nothing to analyse, and otherwise assemble the
    total, the mean engagement and every pattern computed by the other
    modules over the flattened tweets. */
module Analysis {

  import opened Collections
  import opened Tweets
  import Hashtags
  import Hooks
  import Lengths
  import Posting
  import Themes
  import Engagement

  /** The patterns dictionary, one field per key. */
  datatype Patterns = Patterns(
    totalTweetsAnalyzed: nat,
    avgEngagementScore: real,
    topHashtags: seq<(string, nat)>,
    hookPatterns: Hooks.HookPatterns,
    optimalLength: seq<Lengths.LengthStat>,
    postingPatterns: Posting.PostingPatterns,
    topicThemes: seq<string>,
    engagementInsights: Engagement.Insights)

  /** Either the sentinel `{"error": "No tweet data to analyze"}` or the
      patterns. */
  datatype Analysis = NoTweetData | Analyzed(patterns: Patterns)

  const NoDataMessage: string := "No tweet data to analyze"

  function AnalyzeTweetPatterns(accounts: seq<Account>, parse: string -> Option<Posting.Stamp>): (r: Analysis)
    ensures r.NoTweetData? <==> TotalTweets(accounts) == 0
    ensures r.Analyzed? ==>
              && r.patterns.totalTweetsAnalyzed == TotalTweets(accounts)
              && r.patterns.avgEngagementScore
                 == Sum(Engagement.ScoresOf(Flatten(accounts))) / (TotalTweets(accounts) as real)
    ensures r.Analyzed? ==>
              && |r.patterns.topHashtags| <= 15
              && |r.patterns.optimalLength| <= 4
              && |r.patterns.topicThemes| <= 15
              && Lengths.CountSum(r.patterns.optimalLength) == TotalTweets(accounts)
    ensures r.Analyzed? ==>
              && r.patterns.topHashtags == Hashtags.TopHashtags(Flatten(accounts))
              && r.patterns.hookPatterns == Hooks.AnalyzeHooks(Flatten(accounts))
              && r.patterns.optimalLength == Lengths.LengthPatterns(Flatten(accounts))
              && r.patterns.postingPatterns == Posting.AnalyzePosting(Flatten(accounts), parse)
              && r.patterns.topicThemes == Themes.TopicThemes(Flatten(accounts))
              && r.patterns.engagementInsights == Engagement.EngagementInsights(Flatten(accounts))
  {
    var all := Flatten(accounts);
    if all == [] then NoTweetData
    else
      Analyzed(Patterns(
        |all|,
        Engagement.MeanScore(all),
        Hashtags.TopHashtags(all),
        Hooks.AnalyzeHooks(all),
        Lengths.LengthPatterns(all),
        Posting.AnalyzePosting(all, parse),
        Themes.TopicThemes(all),
        Engagement.EngagementInsights(all)))
  }

  /** The map holds no tweets exactly when every account's list is
      empty. */
  lemma {:induction false} TotalTweetsZero(accounts: seq<Account>)
    ensures TotalTweets(accounts) == 0 <==> forall a :: 0 <= a < |accounts| ==> accounts[a].tweets == []
  {
    if accounts != [] {
      TotalTweetsZero(accounts[1..]);
      assert forall a :: 1 <= a < |accounts| ==> accounts[a] == accounts[1..][a - 1];
    }
  }

  /** The sentinel is answered exactly when no account has a tweet. */
  lemma {:induction false} NoDataIffEmpty(accounts: seq<Account>, parse: string -> Option<Posting.Stamp>)
    ensures AnalyzeTweetPatterns(accounts, parse).NoTweetData? <==>
            forall a :: 0 <= a < |accounts| ==> accounts[a].tweets == []
  {
    TotalTweetsZero(accounts);
  }

  /** The mean engagement lies between the lowest and the highest score of
      any account's tweets. */
  lemma {:induction false} AverageBounds(accounts: seq<Account>, parse: string -> Option<Posting.Stamp>, lo: real, hi: real)
    requires TotalTweets(accounts) > 0
    requires forall a, k :: 0 <= a < |accounts| && 0 <= k < |accounts[a].tweets| ==>
               lo <= accounts[a].tweets[k].score <= hi
    ensures lo <= AnalyzeTweetPatterns(accounts, parse).patterns.avgEngagementScore <= hi
  {
    var all := Flatten(accounts);
    var xs := Engagement.ScoresOf(all);
    forall i | 0 <= i < |xs|
      ensures lo <= xs[i] <= hi
    {
      FlattenOrigin(accounts, i);
      var a, k :| 0 <= a < |accounts| && 0 <= k < |accounts[a].tweets| && all[i] == Tagged(accounts, a, k);
      assert xs[i] == accounts[a].tweets[k].score;
    }
    MeanBounds(xs, lo, hi);
  }
}
