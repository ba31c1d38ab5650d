/** `_generate_fallback_ideas` and the choice `generate_content_ideas`
    makes between the remote reply and that fallback. The fallback fills
    fixed templates from the first themes and hashtags of the analysis and
    reads nothing else from it. */
module Ideas {

  import opened Collections
  import Analysis

  /** The three idea lists. */
  datatype Ideas = Ideas(
    tweetIdeas: seq<string>,
    hookIdeas: seq<string>,
    strategyInsights: seq<string>)

  const ThreadPrefix: string := "Thread: "
  const ThreadSuffix: string := " mistakes everyone makes"
  const HotTakePrefix: string := "Hot take: "
  const HotTakeSuffix: string := " is overrated. Here's why..."

  /** The five tweet ideas that follow the filled-in templates. */
  const CannedTweetIdeas: seq<string> := [
    "What's the worst advice you've received about your career?",
    "Unpopular opinion: Most 'productivity' advice is just procrastination",
    "The skill that changed my life (and why schools don't teach it)",
    "If you're struggling with imposter syndrome, read this",
    "Things I wish I knew before starting my career"
  ]

  const HookIdeas: seq<string> := [
    "Unpopular opinion:",
    "Hot take:",
    "The harsh truth about",
    "What nobody tells you about",
    "I wish someone told me",
    "Stop doing this if you want to",
    "Here's what I learned after",
    "The biggest lie about",
    "Why everyone gets this wrong:",
    "This changed everything for me:",
    "Thread: Why",
    "Controversial take:",
    "The uncomfortable truth:",
    "What I wish I knew:",
    "Stop believing that"
  ]

  const StrategyInsights: seq<string> := [
    "Questions and controversial takes drive engagement",
    "Threads perform better than single tweets for complex topics",
    "Personal stories resonate more than generic advice",
    "Timing matters: post when your audience is most active",
    "Engage with replies within the first hour for better reach"
  ]

  function ThreadIdea(theme: string): string
  {
    ThreadPrefix + theme + ThreadSuffix
  }

  function HotTakeIdea(tag: string): string
  {
    HotTakePrefix + tag + HotTakeSuffix
  }

  function ThreadIdeas(themes: seq<string>): (r: seq<string>)
    ensures |r| == |themes|
    ensures forall i :: 0 <= i < |r| ==> r[i] == ThreadIdea(themes[i])
  {
    seq(|themes|, i requires 0 <= i < |themes| => ThreadIdea(themes[i]))
  }

  function HotTakeIdeas(tags: seq<string>): (r: seq<string>)
    ensures |r| == |tags|
    ensures forall i :: 0 <= i < |r| ==> r[i] == HotTakeIdea(tags[i])
  {
    seq(|tags|, i requires 0 <= i < |tags| => HotTakeIdea(tags[i]))
  }

  /** The fallback for given hashtag names and themes: up to three thread
      ideas from the first themes, up to two hot takes from the first
      hashtags, then the five canned ideas; fifteen hooks; five insights. */
  function Fallback(tags: seq<string>, themes: seq<string>): (r: Ideas)
    ensures |r.tweetIdeas| == |Take(themes, 3)| + |Take(tags, 2)| + 5
    ensures 5 <= |r.tweetIdeas| <= 10
    ensures forall i :: 0 <= i < |Take(themes, 3)| ==> r.tweetIdeas[i] == ThreadIdea(themes[i])
    ensures forall i :: 0 <= i < |Take(tags, 2)| ==>
              r.tweetIdeas[|Take(themes, 3)| + i] == HotTakeIdea(tags[i])
    ensures r.tweetIdeas[|r.tweetIdeas| - 5..] == CannedTweetIdeas
    ensures |r.hookIdeas| == 15 && r.hookIdeas == HookIdeas
    ensures |r.strategyInsights| == 5 && r.strategyInsights == StrategyInsights
  {
    var themes5 := Take(themes, 5);
    var tags5 := Take(tags, 5);
    var ideas := ThreadIdeas(Take(themes5, 3)) + HotTakeIdeas(Take(tags5, 2)) + CannedTweetIdeas;
    assert ideas[|ideas| - 5..] == CannedTweetIdeas;
    Ideas(ideas, HookIdeas, StrategyInsights)
  }

  /** A filled-in template gives back the theme or hashtag it was filled
      with. */
  lemma {:induction false} IdeaRoundTrip(word: string)
    ensures ThreadIdea(word)[|ThreadPrefix|..|ThreadIdea(word)| - |ThreadSuffix|] == word
    ensures HotTakeIdea(word)[|HotTakePrefix|..|HotTakeIdea(word)| - |HotTakeSuffix|] == word
  {
    var t := ThreadIdea(word);
    assert t == ThreadPrefix + word + ThreadSuffix;
    assert t[|ThreadPrefix|..|t| - |ThreadSuffix|] == word;
    var h := HotTakeIdea(word);
    assert h == HotTakePrefix + word + HotTakeSuffix;
    assert h[|HotTakePrefix|..|h| - |HotTakeSuffix|] == word;
  }

  /** `patterns_analysis.get('top_hashtags', [])` as hashtag names; the
      sentinel has no such key. */
  function HashtagNames(a: Analysis.Analysis): seq<string>
  {
    match a
    case NoTweetData => []
    case Analyzed(p) => Keys(p.topHashtags)
  }

  /** `patterns_analysis.get('topic_themes', [])`. */
  function ThemesOf(a: Analysis.Analysis): seq<string>
  {
    match a
    case NoTweetData => []
    case Analyzed(p) => p.topicThemes
  }

  /** `_generate_fallback_ideas`. */
  function FallbackIdeas(a: Analysis.Analysis): (r: Ideas)
    ensures a.NoTweetData? ==> r.tweetIdeas == CannedTweetIdeas
    ensures |r.tweetIdeas| == |Take(ThemesOf(a), 3)| + |Take(HashtagNames(a), 2)| + 5
    ensures |r.hookIdeas| == 15 && |r.strategyInsights| == 5
  {
    Fallback(HashtagNames(a), ThemesOf(a))
  }

  /** The fallback reads only the hashtags and the themes: two analyses
      that agree on those get the same ideas. */
  lemma {:induction false} FallbackReadsOnlyTagsAndThemes(a: Analysis.Analysis, b: Analysis.Analysis)
    requires HashtagNames(a) == HashtagNames(b) && ThemesOf(a) == ThemesOf(b)
    ensures FallbackIdeas(a) == FallbackIdeas(b)
  {
  }

  /** `generate_content_ideas`: the remote reply when one arrived and
      decoded, otherwise the fallback. The HTTP exchange is outside the
      model; `reply` stands for its outcome. */
  function GenerateContentIdeas(a: Analysis.Analysis, reply: Option<Ideas>): (r: Ideas)
    ensures reply.Some? ==> r == reply.value
    ensures reply.None? ==> |r.hookIdeas| == 15 && |r.strategyInsights| == 5
                            && 5 <= |r.tweetIdeas| <= 10
  {
    match reply
    case Some(ideas) => ideas
    case None => FallbackIdeas(a)
  }
}
