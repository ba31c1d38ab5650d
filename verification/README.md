# Twitter competitor analysis core, in Dafny

This project models the analysis core of `TwitterCompetitorAnalyzer` in
`twitter_analyzer.py`. The analyser takes a map from competitor account to that
account's tweets and reduces it to a pattern summary:

- the total number of tweets and their mean engagement score;
- the most frequent hashtags;
- the opening "hooks" of the tweets and the common ways those hooks start;
- engagement per length bucket, per weekday and per hour;
- the frequent topic words;
- the tweets scoring above the mean, with their likes-to-retweets ratio and
  notes about them.

The model also covers:

- the deterministic fallback that fills idea templates from the summary;
- the keyword rules that attach hashtags to a canned tweet;
- the top-N cut of `get_top_performing_tweets`;
- the five-tweet content sample.

Every operation is a pure function over immutable values:

- A tweet is a `Tweet` record with a `real` engagement score.
- The account map is a sequence of `Account` entries. The dictionary's
  iteration order is the order of the sequence.
- A Python dict filled in one pass becomes an association list. Its keys come
  in first-seen order (`Collections.GroupBy`, `Collections.Counts`).
- Python's stable `sorted(..., reverse=True)` becomes a stable descending
  insertion sort (`StableSort.SortDesc`).

Modules follow the source's helpers, one per analysis:

| module | file | models |
|---|---|---|
| `Collections` | collections.dfy | slicing, sums and means, one-pass dict grouping and counting, filtering |
| `StableSort` | stable_sort.dfy | the stable descending sort and what a top-N cut of it keeps |
| `Text` | text.dfy | `str.isspace`, `split()`, `split(c)[0]`, `strip()`, `' '.join`, `in`, `lower()` |
| `Tweets` | tweets.dfy | tweets, flattening the account map, top-N tweets, content sample, template hashtags |
| `Hashtags` | hashtags.dfy | `_get_top_hashtags` |
| `Hooks` | hooks.dfy | `_analyze_hook_patterns`, `_find_common_hook_starters` |
| `Lengths` | lengths.dfy | `_analyze_length_patterns`, `_get_length_range` |
| `Posting` | posting.dfy | `_analyze_posting_patterns` |
| `Themes` | themes.dfy | `_analyze_topic_themes` |
| `Engagement` | engagement.dfy | `_analyze_engagement_patterns` |
| `Analysis` | analysis.dfy | `analyze_tweet_patterns` |
| `Ideas` | ideas.dfy | `_generate_fallback_ideas` and the reply-or-fallback choice of `generate_content_ideas` |

Behaviour worth noting:

- **Starter cut and filter.** The common hook starters are cut to the ten
  best-averaging groups first and only then filtered to groups used more than
  once. Fewer than ten may survive even when more repeated groups exist
  (`Hooks.CommonStartersCutFirst`).
- **Empty input.** An analysis of no tweets answers the error sentinel
  `{"error": "No tweet data to analyze"}`. It is not a summary with zeroed
  averages.
- **Fallback size.** The fallback produces 5 to 10 tweet ideas, 15 hook ideas
  and 5 strategy insights, so 25 to 30 strings in all.

## Model

| member | source | states |
|---|---|---|
| Tweets.Flatten | twitter_analyzer.py:184-188 | the flattened list holds as many tweets as all accounts' lists together |
| Tweets.FlattenAt | twitter_analyzer.py:184-188 | tweet `k` of account `a` lands at that account's offset plus `k`, with `competitor` set to the account's name |
| Tweets.FlattenOrigin | twitter_analyzer.py:184-188 | every flattened tweet is some account's tweet stamped with that account's name |
| Tweets.FlattenCompetitor | twitter_analyzer.py:187 | every flattened tweet carries one of the account names as `competitor` |
| Tweets.TopTweets | twitter_analyzer.py:88-90 | the result is sorted by score, best first, and takes no tweet more often than the input holds it; its length is `min(count, len)` for a non-negative count |
| Tweets.TopTweetsBest | twitter_analyzer.py:88-90 | if some copy of a tweet is left out, the cut is full and every kept tweet scores at least as high as it |
| Tweets.TopTweetsTies | twitter_analyzer.py:88-90 | tweets of equal score are kept in input order: the kept ones with a given score are the first input tweets with that score |
| Collections.PyTake | twitter_analyzer.py:90 | `s[:n]` is a prefix of `s`; a non-negative bound keeps `min(n, len)` elements, a negative one drops that many from the end |
| Tweets.Preview | twitter_analyzer.py:492 | a text of at most 200 characters is shown unchanged; a longer one as its first 200 characters followed by "...", 203 in all |
| Tweets.ContentSample | twitter_analyzer.py:478-497 | the sample has `min(5, total)` entries, in non-increasing score, each with text of at most 203 characters, entry `i` summarising the `i`-th best flattened tweet |
| Tweets.ContentSampleFromInput | twitter_analyzer.py:480-497 | every sampled entry summarises a tweet of the input accounts |
| Tweets.TemplateHashtags | twitter_analyzer.py:178 | at most three tags are attached |
| Tweets.TemplateHashtagsFirstRule | twitter_analyzer.py:164-178 | since each rule adds three tags, the result is exactly the tags of the first keyword rule whose keyword occurs in the lower-cased text |
| Tweets.TemplateHashtagsNone | twitter_analyzer.py:164-178 | a text matching no keyword rule gets no tags |
| Analysis.AnalyzeTweetPatterns | twitter_analyzer.py:180-205 | the sentinel is answered exactly when the map holds no tweet; otherwise the total is the sum of the list lengths, the mean is the score sum over that total, the hashtag and theme lists hold at most 15 entries, there are at most four length buckets whose counts add up to the total, and every pattern is computed from the flattened tweets of all accounts |
| Analysis.NoDataIffEmpty | twitter_analyzer.py:184-191 | the sentinel is answered exactly when every account's list is empty |
| Analysis.AverageBounds | twitter_analyzer.py:196 | the mean engagement lies between any lower and upper bound of all scores |
| Collections.GroupBy | twitter_analyzer.py:308-318 | one-pass grouping into an insertion-ordered dict of lists: keys are the distinct keys in first-seen order, each key's list is exactly its values in input order, and no value is lost or added |
| Collections.Counts | twitter_analyzer.py:209-213 | the `get(x, 0) + 1` counter lists each distinct item once, in first-seen order, with its number of occurrences |
| Collections.DedupFirstSeen | twitter_analyzer.py:209-213 | the distinct items are listed in the order of their first occurrence |
| StableSort.SortDesc | twitter_analyzer.py:216 | the sort is a permutation of its input, non-increasing in the key |
| StableSort.SortDescStable | twitter_analyzer.py:216 | for every key value, the elements with that key keep their input order (stability) |
| StableSort.SortDescLex | twitter_analyzer.py:216 | an input listed in increasing rank is sorted by key descending and, within equal keys, by rank ascending |
| StableSort.TopDominates | twitter_analyzer.py:216 | an element left out by a top-`n` cut of the sort is outranked by all `n` kept elements |
| StableSort.TopTies | twitter_analyzer.py:216 | a leading cut of the sort keeps, for each key value, the first input elements with that key, in input order |
| Hashtags.TopHashtags | twitter_analyzer.py:207-217 | at most 15 entries, each hashtag once, with frequency equal to its number of occurrences over all tweets' lists (so positive), in non-increasing frequency |
| Hashtags.TopHashtagsTies | twitter_analyzer.py:216 | listed hashtags of equal frequency appear in the order in which they were first seen |
| Hashtags.TopHashtagsCut | twitter_analyzer.py:209-216 | among hashtags of equal frequency, the cut at fifteen keeps the ones seen first: the listed entries with a given frequency are the first entries with that frequency in the first-seen counter |
| Hashtags.TopHashtagsComplete | twitter_analyzer.py:216 | a used hashtag that is not listed means the list is full and every listed hashtag is at least as frequent |
| Text.BeforeFirst | twitter_analyzer.py:227 | `s.split(c)[0]` is the prefix of `s` up to the first `c`, which it does not contain |
| Text.Strip | twitter_analyzer.py:227 | `strip()` returns a slice of its argument with only whitespace around it and no whitespace at either end |
| Text.StripEmpty | twitter_analyzer.py:227-228 | stripping leaves nothing exactly when the string is all whitespace |
| Text.StripUnchanged | twitter_analyzer.py:227 | a string with no whitespace at either end is its own strip |
| Hooks.ExtractHook | twitter_analyzer.py:227 | a hook contains no ':' and no '.', has at most 100 characters, and is empty or starts and ends with a non-space |
| Hooks.LeadIsPrefix | twitter_analyzer.py:227 | before stripping, the hook is the text up to its first ':' or '.', cut to 100 characters |
| Hooks.HookIsStrippedLead | twitter_analyzer.py:227 | the hook is that prefix stripped of surrounding whitespace |
| Hooks.HookNonEmpty | twitter_analyzer.py:227-228 | a hook survives exactly when that prefix has a non-whitespace character |
| Hooks.HookBeforeColon | twitter_analyzer.py:227 | a short opening run free of ':' and '.' and followed by ':' is, stripped, the hook |
| Hooks.HookExample | twitter_analyzer.py:227 | the hook of "Stop doing this: it's the #1 mistake" is "Stop doing this" |
| Hooks.EmptyTextNoHook | twitter_analyzer.py:225-228 | the test for an empty text is subsumed by the test for an empty hook |
| Hooks.CollectHooks | twitter_analyzer.py:223-233 | as many entries as tweets with a non-empty hook; every such tweet contributes its hook, score and competitor, and every entry is well formed and comes from such a tweet |
| Hooks.CollectHooksSnoc | twitter_analyzer.py:223-233 | the append loop: no tweets give no hooks, and one more tweet appends its hook exactly when it has one, so hooks appear once per such tweet, in tweet order |
| Hooks.TopHooks | twitter_analyzer.py:236-240 | `min(10, n)` hooks in non-increasing score, taking no hook more often than the input holds it |
| Hooks.TopHooksTies | twitter_analyzer.py:236-240 | hooks of equal score are kept in collection order: the kept ones with a given score are the first hooks with that score |
| Hooks.AnalyzeHooks | twitter_analyzer.py:219-242 | `total_hooks_analyzed` counts the tweets with a hook; the top hooks are at most ten collected hooks, each well formed, in non-increasing score, none repeated more often than collected; the starters are computed from the hooks after sorting, at most ten, each used more than once with at most three examples |
| Hooks.TopHooksBest | twitter_analyzer.py:236-240 | a collected hook left out of the top hooks means ten are listed, each scoring at least as high |
| Text.WordsOfJoin | twitter_analyzer.py:251-253 | splitting a single-space join of non-empty, space-free words gives the words back |
| Text.WordsAtSpace | twitter_analyzer.py:347 | `split()` of the empty string is empty, and a whitespace character anywhere separates: the words of `a`, one whitespace character and `b` are the words of `a` followed by those of `b`, for every `a` and `b` |
| Text.WordsOfWord | twitter_analyzer.py:347 | a non-empty string without whitespace splits into itself alone |
| Text.JoinSnoc | twitter_analyzer.py:346 | joining one more string appends the separator and that string; nothing else changes |
| Hooks.StarterOf | twitter_analyzer.py:249-253 | a hook has a starter exactly when its lower-cased text has at least two words; the starter's words are the first three (or two) of them, and the starter is exactly those words joined by single spaces, so hooks opening with the same words share one starter |
| Hooks.StarterPairsSelect | twitter_analyzer.py:248-260 | the hooks grouped under a starter are exactly the hooks with that starter, in order |
| Hooks.StarterStats | twitter_analyzer.py:246-266 | one entry per distinct starter: every starter some hook has is listed, no starter twice, and each entry's count, average engagement and first three examples are those of the hooks with that starter |
| Hooks.CommonStarters | twitter_analyzer.py:268-269 | at most ten distinct starters in non-increasing average engagement, each used more than once with at most three examples, each describing its hooks |
| Hooks.CommonStartersCutFirst | twitter_analyzer.py:269 | a repeated group at rank `i` of the ranked groups is listed exactly when `i` is below ten |
| Hooks.CommonStartersListed | twitter_analyzer.py:268-269 | a starter used by more than one hook is listed exactly when its group is among the ten best-averaging groups |
| Hooks.CommonStartersTies | twitter_analyzer.py:268-269 | among starters of equal average, the listed ones are the repeated ones among those kept by the cut at ten, and the cut keeps the first such starters in first-seen order |
| Lengths.RangeOfUnique | twitter_analyzer.py:293-302 | every length falls into exactly one of the four buckets, with inclusive upper bounds 50, 100 and 200 |
| Lengths.RangeOfMonotone | twitter_analyzer.py:293-302 | a longer text never falls into a shorter bucket |
| Lengths.LabelInjective | twitter_analyzer.py:295-302 | distinct buckets have distinct labels |
| Lengths.LengthPatterns | twitter_analyzer.py:271-291 | the buckets that occur, in first-seen order, each with the number of its tweets, the sum of their scores and total divided by count; counts add up to the number of tweets |
| Lengths.LengthPatternsListed | twitter_analyzer.py:275-283 | a bucket is listed exactly when some tweet's length falls into it |
| Lengths.StatsCount | twitter_analyzer.py:282 | the counts of the buckets add up to the number of values grouped |
| Posting.SlotSelect | twitter_analyzer.py:311-321 | the scores grouped under a weekday or hour are exactly the scores of the tweets whose timestamp parses to it, in order |
| Posting.SlotScoresNonEmpty | twitter_analyzer.py:311-321 | a slot has scores exactly when some tweet was posted in it |
| Posting.SlotMeans | twitter_analyzer.py:324-329 | each listed slot once, with the mean of its scores, in non-increasing mean |
| Posting.SlotMeansListed | twitter_analyzer.py:324-325 | a slot is listed exactly when some tweet with a parsable timestamp was posted in it |
| Posting.BestDays | twitter_analyzer.py:324-328 | at most seven distinct weekdays, each with its mean score, best first |
| Posting.BestDaysTies | twitter_analyzer.py:316-328 | weekdays of equal mean are listed in the order in which they were first posted on |
| Posting.BestDaysComplete | twitter_analyzer.py:324-328 | every weekday on which a tweet was posted is listed, and no other |
| Posting.BestHours | twitter_analyzer.py:325-329 | at most five distinct hours, each with its mean score, best first |
| Posting.BestHoursTop | twitter_analyzer.py:329 | an hour with tweets left out of the five means five are listed, each with a mean at least as high |
| Posting.BestHoursTies | twitter_analyzer.py:316-329 | among hours of equal mean, the cut at five keeps the ones first posted in, in that order |
| Themes.StripTags | twitter_analyzer.py:340 | after removing `[#@]\w+`, no tag or mention starts anywhere in the text |
| Themes.StripTagsNoTags | twitter_analyzer.py:340 | text in which no tag or mention starts is left unchanged |
| Themes.StripTagsAppend | twitter_analyzer.py:340 | text split where no word character follows is stripped part by part, so text outside the matches is kept |
| Themes.StripTagsToken | twitter_analyzer.py:340 | a `#` or `@` with the whole run of word characters after it is removed |
| Themes.StripTagsIdempotent | twitter_analyzer.py:340 | removing tags twice removes nothing more |
| Themes.StripUrlsNoUrls | twitter_analyzer.py:341 | a text in which no `http\S+` match starts is left unchanged |
| Themes.StripUrlsToken | twitter_analyzer.py:341 | a URL token is removed up to the whitespace that ends it |
| Themes.StripUrlsAppend | twitter_analyzer.py:341 | text in which no URL starts is kept as it is, whatever follows it; with the token lemma this fixes the result on every text |
| Themes.Blank | twitter_analyzer.py:342 | every character that is neither a word character nor whitespace becomes `' '`, and the others are kept in place |
| Themes.Clean | twitter_analyzer.py:340-343 | a cleaned text holds only whitespace and lower-case word characters |
| Themes.CorpusWords | twitter_analyzer.py:346-347 | every corpus word is non-empty and made only of lower-case word characters |
| Themes.CorpusWordsSnoc | twitter_analyzer.py:334-347 | no tweets give no words, and one more tweet adds exactly the words of its cleaned text at the end when its text is non-empty, and nothing otherwise: the joining space never merges words of two tweets |
| Themes.RankedWordsFacts | twitter_analyzer.py:352-358 | the ranked table lists each candidate word once with its number of occurrences, in non-increasing frequency |
| Themes.FrequentPrefix | twitter_analyzer.py:359 | on a frequency-sorted table the entries seen more than twice form a prefix |
| Themes.TopicThemes | twitter_analyzer.py:332-359 | at most 15 distinct themes, a prefix of the top-15 words; each is longer than 3 characters, not a stop word, made of word characters, seen more than twice; in non-increasing frequency |
| Themes.ThemesListFrequent | twitter_analyzer.py:358-359 | a word among the top 15 that is seen more than twice is a theme |
| Themes.TopicThemesComplete | twitter_analyzer.py:358-359 | a candidate word seen more than twice that is not a theme means fifteen themes are listed, each at least as frequent |
| Themes.ThemesTies | twitter_analyzer.py:352-359 | among candidate words of equal frequency, the entries the themes are read from are the first such words in first-seen order |
| Engagement.Above | twitter_analyzer.py:363-364 | keeps every copy of each tweet scoring strictly above the bound and nothing else |
| Engagement.HighGroup | twitter_analyzer.py:363-364 | a tweet is in the high group exactly when it is an input tweet scoring strictly above the mean |
| Engagement.HighGroupEmpty | twitter_analyzer.py:363-372 | the high group is empty exactly when all tweets have the same score |
| Engagement.Ratio | twitter_analyzer.py:374-377 | the ratio stays 0 unless the retweets total is positive, and then times the retweets it gives the likes |
| Engagement.AnyQuestion | twitter_analyzer.py:380-381 | the question test passes exactly when some high tweet contains '?' |
| Engagement.EmojiShare | twitter_analyzer.py:384-385 | the emoji test passes exactly when more than 30% of the high tweets hold a code point above 127 |
| Engagement.AnyThread | twitter_analyzer.py:388-389 | the thread test passes exactly when some high tweet mentions "thread" in any letter case |
| Engagement.NotesFor | twitter_analyzer.py:379-390 | at most three notes, in the order Questions, Emojis, Threads, each present exactly when its test passed |
| Engagement.InsightsOf | twitter_analyzer.py:366-392 | the structure list is empty; an empty group gives ratio 0 and no notes; otherwise the ratio and notes follow their tests |
| Engagement.EngagementInsights | twitter_analyzer.py:361-392 | the structure list is always empty; tweets that all score the same give ratio 0 and no notes |
| Engagement.EngagementNotes | twitter_analyzer.py:363-390 | the question and thread notes appear exactly when some tweet above the mean asks a question or mentions a thread |
| Engagement.EngagementRatio | twitter_analyzer.py:372-377 | the ratio is the high group's likes over its retweets, or 0 when it has none |
| Ideas.Fallback | twitter_analyzer.py:504-540 | `min(3, themes) + min(2, tags) + 5` tweet ideas (so 5 to 10): thread templates from the first themes, hot-take templates from the first hashtags, then the five canned ideas; exactly 15 hook ideas and 5 insights |
| Ideas.IdeaRoundTrip | twitter_analyzer.py:506-508 | a filled-in template gives back the theme or hashtag it was filled with |
| Ideas.FallbackIdeas | twitter_analyzer.py:499-502 | the sentinel analysis, which has neither key, yields only the canned tweet ideas; the sizes follow the counts of themes and hashtags |
| Ideas.FallbackReadsOnlyTagsAndThemes | twitter_analyzer.py:499-502 | two analyses agreeing on hashtags and themes get the same fallback |
| Ideas.GenerateContentIdeas | twitter_analyzer.py:460-476 | a decoded reply is returned as is; otherwise the fallback, with 15 hooks, 5 insights and 5 to 10 tweet ideas |

## Left out

- Themes.ThemesTies: the tie order is stated on the (word, count) entries that the themes are read from, not on the theme strings. `Themes.TopicThemes` lists the words of those entries in order.
- The remote idea generation (twitter_analyzer.py:394-476) is left out: the
  prompt, the HTTP exchange and the JSON decoding of the reply.
  `Ideas.GenerateContentIdeas` takes the outcome as a parameter, `Some(ideas)`
  for a decoded reply and `None` for any failure.
- Timestamp parsing (`datetime.fromisoformat` and `strftime`,
  twitter_analyzer.py:313-315) is a function parameter. It yields a weekday
  and an hour, or nothing when the timestamp does not parse.
- Scores and averages are exact `real`s, not floats. Rounding and the `:.1f`
  formatting are not modelled. For the emoji test, Python compares against the
  float product `n * 0.3`. The model uses the exact comparison `10 * e > 3 * n`.
- `\w` is modelled as the ASCII class `[A-Za-z0-9_]` and `str.lower()` as
  ASCII lower-casing. Python applies both to all of Unicode. Whitespace is the
  exact `str.isspace` set.
- Missing dictionary keys are not modelled. The source reads `text` and
  `hashtags` with defaults (`''`, `[]`) and `engagement_score` with default 0
  at twitter_analyzer.py:89. The model's `Tweet` always carries every field,
  so an absent field equals its default. The `KeyError` a missing
  `engagement_score` would raise elsewhere is not modelled.
- Flattening writes `competitor` into the caller's tweet dicts
  (twitter_analyzer.py:187, 484). The model returns stamped copies, so that
  side effect on the input is not modelled. One consequence: when the same
  dict object is listed under two accounts, Python stamps both flattened
  entries with the last account's name, while the model stamps each entry
  with the account it was listed under.
- The `avg_likes_to_retweets_ratio` default is the integer `0` in the source.
  The model uses `0.0`.
- `Posting.AnalyzePosting` has no contract of its own. Its properties are
  stated on `Posting.BestDays` and `Posting.BestHours`, which it pairs up.
- `Engagement.Ratio` states the ratio as `r * retweets == likes`, not as a
  division. The division form is stated by `Engagement.InsightsOf` and
  `Engagement.EngagementRatio`.
- These parts of `twitter_analyzer.py` are not part of this model:
  - the sample tweet generator `_generate_sample_tweets` (99-160), whose data
    depends on the clock;
  - the scraper input, logging and exception fallback of
    `get_top_performing_tweets` (72-97); only its sort-and-cut is modelled;
  - `discover_competitors` (26-70), whose order depends on set iteration;
  - the constructor's environment checks (17-24);
  - the actor entry point `main` (544-645), which does I/O.
- The command-line, demo and reporting scripts are not part of this model:
  run_production.py, demo_cli.py, cli_test.py and auto_demo.py.
- The Instagram scripts are not part of this model either:
  demo_with_sample_data.py, test_integration.py and test_simple.py. They import
  a class that main.py does not define.
