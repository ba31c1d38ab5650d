/** Tweet records, the account-to-tweets map flattened into one list, and
    the ranking helpers built on the stable sort: the top-N cut of
    `get_top_performing_tweets`, the five-tweet content sample, and the
    keyword-to-hashtag rules used for the canned sample tweets. */
module Tweets {

  import opened Collections
  import opened Text
  import opened StableSort

  /** One tweet as the analyser sees it. `competitor` is the account the
      tweet was fetched for; flattening overwrites it. */
  datatype Tweet = Tweet(
    text: string,
    likes: int,
    retweets: int,
    score: real,
    createdAt: string,
    hashtags: seq<string>,
    competitor: string)

  /** One entry of the account map: an account name and its tweets. The
      map's iteration order is the order of the sequence of accounts. */
  datatype Account = Account(name: string, tweets: seq<Tweet>)

  /** The sort key `engagement_score`. */
  function Score(t: Tweet): real
  {
    t.score
  }

  /** Sum of the per-account list lengths. */
  function TotalTweets(accounts: seq<Account>): nat
  {
    if accounts == [] then 0
    else |accounts[0].tweets| + TotalTweets(accounts[1..])
  }

  /** Position at which account `a`'s first tweet lands once flattened. */
  function Offset(accounts: seq<Account>, a: nat): nat
    requires a <= |accounts|
  {
    if a == 0 then 0
    else |accounts[0].tweets| + Offset(accounts[1..], a - 1)
  }

  lemma {:induction false} OffsetBound(accounts: seq<Account>, a: nat)
    requires a < |accounts|
    ensures Offset(accounts, a) + |accounts[a].tweets| <= TotalTweets(accounts)
  {
    if a > 0 {
      OffsetBound(accounts[1..], a - 1);
    }
  }

  /** A tweet of account `a` with the account's name attached. */
  function Tagged(accounts: seq<Account>, a: nat, k: nat): Tweet
    requires a < |accounts| && k < |accounts[a].tweets|
  {
    accounts[a].tweets[k].(competitor := accounts[a].name)
  }

  /** One account's tweets, each stamped with the account's name. */
  function Stamped(acc: Account): (r: seq<Tweet>)
    ensures |r| == |acc.tweets|
    ensures forall k :: 0 <= k < |r| ==> r[k] == acc.tweets[k].(competitor := acc.name)
  {
    seq(|acc.tweets|, k requires 0 <= k < |acc.tweets| => acc.tweets[k].(competitor := acc.name))
  }

  /** The nested loop that collects every account's tweets into one list,
      stamping each with its account name. */
  function Flatten(accounts: seq<Account>): (all: seq<Tweet>)
    ensures |all| == TotalTweets(accounts)
  {
    if accounts == [] then []
    else Stamped(accounts[0]) + Flatten(accounts[1..])
  }

  /** Tweet `k` of account `a` lands at the account's offset plus `k`,
      stamped with the account's name. */
  lemma {:induction false} FlattenAt(accounts: seq<Account>, a: nat, k: nat)
    requires a < |accounts| && k < |accounts[a].tweets|
    ensures Offset(accounts, a) + k < |Flatten(accounts)|
    ensures Flatten(accounts)[Offset(accounts, a) + k] == Tagged(accounts, a, k)
  {
    var head := Stamped(accounts[0]);
    assert Flatten(accounts) == head + Flatten(accounts[1..]);
    if a > 0 {
      FlattenAt(accounts[1..], a - 1, k);
      assert Tagged(accounts, a, k) == Tagged(accounts[1..], a - 1, k);
    }
  }

  /** Every flattened tweet is some account's tweet stamped with that
      account's name. */
  lemma {:induction false} FlattenOrigin(accounts: seq<Account>, i: int)
    requires 0 <= i < |Flatten(accounts)|
    ensures exists a, k :: 0 <= a < |accounts| && 0 <= k < |accounts[a].tweets|
              && Flatten(accounts)[i] == Tagged(accounts, a, k)
    decreases |accounts|
  {
    var n := |accounts[0].tweets|;
    assert Flatten(accounts) == Stamped(accounts[0]) + Flatten(accounts[1..]);
    if n <= i {
      FlattenOrigin(accounts[1..], i - n);
      var a, k :| 0 <= a < |accounts[1..]| && 0 <= k < |accounts[1..][a].tweets|
                  && Flatten(accounts[1..])[i - n] == Tagged(accounts[1..], a, k);
      assert Flatten(accounts)[i] == Flatten(accounts[1..])[i - n];
      assert Tagged(accounts[1..], a, k) == Tagged(accounts, a + 1, k);
    } else {
      assert Flatten(accounts)[i] == Tagged(accounts, 0, i);
    }
  }

  /** Every flattened tweet carries the name of one of the accounts. */
  lemma {:induction false} FlattenCompetitor(accounts: seq<Account>, i: int)
    requires 0 <= i < |Flatten(accounts)|
    ensures exists a :: 0 <= a < |accounts| && Flatten(accounts)[i].competitor == accounts[a].name
  {
    FlattenOrigin(accounts, i);
  }

  /** `tweets.sort(key=engagement_score, reverse=True); tweets[:count]`. */
  function TopTweets(tweets: seq<Tweet>, count: int): (r: seq<Tweet>)
    ensures SortedDesc(r, Score)
    ensures multiset(r) <= multiset(tweets)
    ensures 0 <= count ==> |r| == if count < |tweets| then count else |tweets|
  {
    var sorted := SortDesc(tweets, Score);
    var r := PyTake(sorted, count);
    PrefixSorted(sorted, r, Score);
    PrefixMultiset(sorted, r);
    r
  }

  /** Tweets of equal score are kept in their input order, the earliest
      first. */
  lemma {:induction false} TopTweetsTies(tweets: seq<Tweet>, count: int, k: real)
    ensures WithKey(TopTweets(tweets, count), Score, k) <= WithKey(tweets, Score, k)
  {
    TopTies(tweets, TopTweets(tweets, count), Score, k);
  }

  /** No tweet left out of `TopTweets` outscores one kept. */
  lemma {:induction false} TopTweetsBest(tweets: seq<Tweet>, count: nat, t: Tweet)
    requires multiset(TopTweets(tweets, count))[t] < multiset(tweets)[t]
    ensures |TopTweets(tweets, count)| == count
    ensures forall i :: 0 <= i < count ==> TopTweets(tweets, count)[i].score >= t.score
  {
    TopDominates(tweets, Score, count, t);
  }

  /** The text shown for a tweet in the content sample: at most 200
      characters, followed by "..." when it was cut. */
  function Preview(text: string): (p: string)
    ensures |p| <= 203
    ensures |text| <= 200 ==> p == text
    ensures |text| > 200 ==> |p| == 203 && p[..200] == text[..200] && p[200..] == "..."
  {
    if |text| > 200 then text[..200] + "..." else text
  }

  datatype Sample = Sample(
    competitor: string,
    text: string,
    score: real,
    likes: int,
    retweets: int,
    hashtags: seq<string>)

  function Summarize(t: Tweet): Sample
  {
    Sample(t.competitor, Preview(t.text), t.score, t.likes, t.retweets, t.hashtags)
  }

  /** Each tweet of a list summarised, in order. */
  function SummarizeAll(ts: seq<Tweet>): (r: seq<Sample>)
    ensures |r| == |ts|
    ensures forall i :: 0 <= i < |r| ==> r[i] == Summarize(ts[i])
  {
    seq(|ts|, i requires 0 <= i < |ts| => Summarize(ts[i]))
  }

  /** Summaries keep the scores, so a list sorted by score stays sorted,
      and every shown text fits the preview bound. */
  lemma {:induction false} SummariesSorted(ts: seq<Tweet>)
    requires SortedDesc(ts, Score)
    ensures forall i, j :: 0 <= i < j < |SummarizeAll(ts)| ==>
              SummarizeAll(ts)[i].score >= SummarizeAll(ts)[j].score
    ensures forall i :: 0 <= i < |SummarizeAll(ts)| ==> |SummarizeAll(ts)[i].text| <= 203
  {
    var r := SummarizeAll(ts);
    forall i, j | 0 <= i < j < |r|
      ensures r[i].score >= r[j].score
    {
      assert Score(ts[i]) >= Score(ts[j]);
    }
  }

  /** The five highest-scoring tweets across all accounts, summarised. */
  function ContentSample(accounts: seq<Account>): (r: seq<Sample>)
    ensures |r| == if TotalTweets(accounts) < 5 then TotalTweets(accounts) else 5
    ensures forall i, j :: 0 <= i < j < |r| ==> r[i].score >= r[j].score
    ensures forall i :: 0 <= i < |r| ==> |r[i].text| <= 203
    ensures forall i :: 0 <= i < |r| ==> Summarize(TopTweets(Flatten(accounts), 5)[i]) == r[i]
  {
    var top := TopTweets(Flatten(accounts), 5);
    SummariesSorted(top);
    SummarizeAll(top)
  }

  /** Every sampled entry summarises one of the flattened tweets. */
  lemma {:induction false} ContentSampleFromInput(accounts: seq<Account>, i: int)
    requires 0 <= i < |ContentSample(accounts)|
    ensures exists t :: t in Flatten(accounts) && ContentSample(accounts)[i] == Summarize(t)
  {
    var top := TopTweets(Flatten(accounts), 5);
    assert top[i] in multiset(top);
  }

  /** The keyword rules behind `_extract_hashtags_from_template`, in the
      order they are tried: any keyword of a rule found in the lower-cased
      text adds the rule's three tags. */
  const Rules: seq<(seq<string>, seq<string>)> := [
    (["javascript", "js"], ["javascript", "webdev", "coding"]),
    (["react"], ["react", "frontend", "webdev"]),
    (["startup"], ["startup", "entrepreneur", "business"]),
    (["developer", "coding"], ["developer", "coding", "programming"]),
    (["css"], ["css", "webdev", "frontend"]),
    (["docker"], ["docker", "devops", "containers"])
  ]

  predicate Fires(rule: (seq<string>, seq<string>), text: string)
  {
    exists i :: 0 <= i < |rule.0| && Contains(Lower(text), rule.0[i])
  }

  function MatchedTags(rules: seq<(seq<string>, seq<string>)>, text: string): seq<string>
  {
    if rules == [] then []
    else (if Fires(rules[0], text) then rules[0].1 else []) + MatchedTags(rules[1..], text)
  }

  /** `_extract_hashtags_from_template`: the matched tags, at most three. */
  function TemplateHashtags(text: string): (tags: seq<string>)
    ensures |tags| <= 3
  {
    Take(MatchedTags(Rules, text), 3)
  }

  /** Every rule adds exactly three tags, so the cap of three keeps the
      tags of the first rule that fires and nothing else. */
  lemma {:induction false} MatchedTagsFirst(rules: seq<(seq<string>, seq<string>)>, text: string, j: nat)
    requires forall i :: 0 <= i < |rules| ==> |rules[i].1| == 3
    requires j < |rules| && Fires(rules[j], text)
    requires forall i :: 0 <= i < j ==> !Fires(rules[i], text)
    ensures Take(MatchedTags(rules, text), 3) == rules[j].1
  {
    if j > 0 {
      assert !Fires(rules[0], text);
      MatchedTagsFirst(rules[1..], text, j - 1);
    }
  }

  lemma {:induction false} MatchedTagsNone(rules: seq<(seq<string>, seq<string>)>, text: string)
    requires forall i :: 0 <= i < |rules| ==> !Fires(rules[i], text)
    ensures MatchedTags(rules, text) == []
  {
    if rules != [] {
      assert !Fires(rules[0], text);
      MatchedTagsNone(rules[1..], text);
    }
  }

  /** The three tags of the first rule that fires, or none when no rule
      fires. */
  lemma {:induction false} TemplateHashtagsFirstRule(text: string, j: nat)
    requires j < |Rules| && Fires(Rules[j], text)
    requires forall i :: 0 <= i < j ==> !Fires(Rules[i], text)
    ensures TemplateHashtags(text) == Rules[j].1
  {
    MatchedTagsFirst(Rules, text, j);
  }

  lemma {:induction false} TemplateHashtagsNone(text: string)
    requires forall i :: 0 <= i < |Rules| ==> !Fires(Rules[i], text)
    ensures TemplateHashtags(text) == []
  {
    MatchedTagsNone(Rules, text);
  }
}
