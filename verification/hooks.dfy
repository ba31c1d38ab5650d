/** `_analyze_hook_patterns` and `_find_common_hook_starters`: the opening
    clause of each tweet, ranked by engagement, and the groups of hooks that
    open with the same two or three words. */
module Hooks {

  import opened Collections
  import opened Text
  import opened StableSort
  import opened Tweets

  /** Position of the first ':' or '.', or the length when there is none. */
  function StopIndex(text: string): (n: nat)
    ensures n <= |text|
  {
    if text == [] || text[0] == ':' || text[0] == '.' then 0
    else 1 + StopIndex(text[1..])
  }

  /** What a well-formed hook looks like. */
  predicate WellFormedHook(h: string)
  {
    && h != []
    && ':' !in h && '.' !in h
    && |h| <= 100
    && !IsSpace(h[0]) && !IsSpace(h[|h| - 1])
  }

  lemma {:induction false} NotInPrefix(s: string, r: string, c: char)
    requires c !in s && r <= s
    ensures c !in r
  {
    forall i | 0 <= i < |r|
      ensures r[i] != c
    {
      assert r[i] == s[i];
    }
  }

  lemma {:induction false} NotInTrimmed(s: string, r: string, c: char)
    requires c !in s
    requires exists a :: TrimmedAt(s, r, a)
    ensures c !in r
  {
    var a :| TrimmedAt(s, r, a);
    forall i | 0 <= i < |r|
      ensures r[i] != c
    {
      assert r[i] == s[a + i];
    }
  }

  /** `text.split(':')[0].split('.')[0][:100]`: at most 100 characters of
      the text before its first ':' or '.'. */
  function Lead(text: string): (l: string)
    ensures ':' !in l && '.' !in l
    ensures |l| <= 100
  {
    var beforeColon := BeforeFirst(text, ':');
    var beforeStop := BeforeFirst(beforeColon, '.');
    NotInPrefix(beforeColon, beforeStop, ':');
    NotInPrefix(beforeStop, Take(beforeStop, 100), ':');
    NotInPrefix(beforeStop, Take(beforeStop, 100), '.');
    Take(beforeStop, 100)
  }

  /** `text.split(':')[0].split('.')[0][:100].strip()`. */
  function ExtractHook(text: string): (h: string)
    ensures ':' !in h && '.' !in h
    ensures |h| <= 100
    ensures h == [] || WellFormedHook(h)
  {
    var l := Lead(text);
    NotInTrimmed(l, Strip(l), ':');
    NotInTrimmed(l, Strip(l), '.');
    Strip(l)
  }

  lemma {:induction false} BeforeStops(text: string)
    ensures BeforeFirst(BeforeFirst(text, ':'), '.') == text[..StopIndex(text)]
  {
    if text != [] && text[0] != ':' && text[0] != '.' {
      BeforeStops(text[1..]);
      assert BeforeFirst(text, ':') == [text[0]] + BeforeFirst(text[1..], ':');
      assert text[..StopIndex(text)] == [text[0]] + text[1..][..StopIndex(text[1..])];
    }
  }

  /** How much of the text the hook is cut from. */
  function LeadLength(text: string): (n: nat)
    ensures n <= |text| && n <= 100
  {
    if StopIndex(text) < 100 then StopIndex(text) else 100
  }

  /** The lead is the text up to the first ':' or '.', cut to 100
      characters. */
  lemma {:induction false} LeadIsPrefix(text: string)
    ensures Lead(text) == text[..LeadLength(text)]
  {
    BeforeStops(text);
    var stop := text[..StopIndex(text)];
    assert Take(stop, 100) == stop[..LeadLength(text)];
  }

  /** The hook is that lead stripped of surrounding whitespace. */
  lemma {:induction false} HookIsStrippedLead(text: string)
    ensures ExtractHook(text) == Strip(text[..LeadLength(text)])
  {
    LeadIsPrefix(text);
  }

  /** A hook survives exactly when the lead has a non-whitespace character. */
  lemma {:induction false} HookNonEmpty(text: string)
    ensures ExtractHook(text) != [] <==>
            exists i :: 0 <= i < LeadLength(text) && !IsSpace(text[i])
  {
    HookIsStrippedLead(text);
    var n := LeadLength(text);
    StripEmpty(text[..n]);
    var lead := text[..n];
    assert forall i :: 0 <= i < n ==> lead[i] == text[i];
  }

  /** The hook of "Stop doing this: it's the #1 mistake" is
      "Stop doing this". */
  lemma {:induction false} HookExample(lead: string, rest: string)
    requires lead == "Stop doing this" && rest == ": it's the #1 mistake"
    ensures ExtractHook(lead + rest) == "Stop doing this"
  {
    ExampleLeadFree(lead);
    HookBeforeColon(lead, rest);
    ExampleLeadStripped(lead);
  }

  lemma {:induction false} ExampleLeadFree(lead: string)
    requires lead == "Stop doing this"
    ensures |lead| < 100 && ':' !in lead && '.' !in lead
  {
  }

  /** A text that opens with a short run free of ':' and '.' followed by a
      ':' has that run, stripped, as its hook. */
  lemma {:induction false} HookBeforeColon(lead: string, rest: string)
    requires |lead| < 100 && ':' !in lead && '.' !in lead
    requires rest != [] && rest[0] == ':'
    ensures ExtractHook(lead + rest) == Strip(lead)
  {
    var text := lead + rest;
    forall i | 0 <= i < |lead|
      ensures text[i] != ':' && text[i] != '.'
    {
      assert text[i] == lead[i];
    }
    StopIndexAt(text, |lead|);
    HookIsStrippedLead(text);
    assert text[..|lead|] == lead;
  }

  lemma {:induction false} ExampleLeadStripped(lead: string)
    requires lead == "Stop doing this"
    ensures Strip(lead) == lead
  {
    SpaceNotWord('S');
    SpaceNotWord('s');
    assert lead[0] == 'S' && lead[|lead| - 1] == 's';
    StripUnchanged(lead);
  }

  lemma {:induction false} StopIndexAt(text: string, n: nat)
    requires n < |text| && (text[n] == ':' || text[n] == '.')
    requires forall i :: 0 <= i < n ==> text[i] != ':' && text[i] != '.'
    ensures StopIndex(text) == n
  {
    if n > 0 {
      StopIndexAt(text[1..], n - 1);
    }
  }

  /** One entry of `top_performing_hooks`. */
  datatype Hook = Hook(hook: string, score: real, competitor: string)

  function HookScore(h: Hook): real
  {
    h.score
  }

  /** A tweet contributes a hook when its text and its hook are non-empty. */
  predicate HasHook(t: Tweet)
  {
    t.text != [] && ExtractHook(t.text) != []
  }

  function HookOf(t: Tweet): Hook
  {
    Hook(ExtractHook(t.text), t.score, t.competitor)
  }

  /** The hook entry of every tweet of a list, in order. */
  function HooksOf(ts: seq<Tweet>): (hs: seq<Hook>)
    ensures |hs| == |ts|
    ensures forall i :: 0 <= i < |hs| ==> hs[i] == HookOf(ts[i])
  {
    seq(|ts|, i requires 0 <= i < |ts| => HookOf(ts[i]))
  }

  /** `h` is the hook entry of one of the tweets. */
  predicate HookFrom(tweets: seq<Tweet>, h: Hook)
  {
    exists t :: t in tweets && HasHook(t) && h == HookOf(t)
  }

  /** The hooks of the tweets that have one, in tweet order. */
  function CollectHooks(tweets: seq<Tweet>): (hs: seq<Hook>)
    ensures |hs| == |Filter(tweets, HasHook)|
    ensures forall i :: 0 <= i < |hs| ==> WellFormedHook(hs[i].hook)
    ensures forall i :: 0 <= i < |hs| ==> HookFrom(tweets, hs[i])
    ensures forall t :: t in tweets && HasHook(t) ==> HookOf(t) in hs
  {
    var kept := Filter(tweets, HasHook);
    CollectedFacts(tweets, kept);
    HooksOfAll(kept);
    HooksOf(kept)
  }

  /** The collection loop: no tweets give no hooks, and one more tweet adds
      its hook at the end exactly when it has one. */
  lemma {:induction false} CollectHooksSnoc(tweets: seq<Tweet>, t: Tweet)
    ensures CollectHooks([]) == []
    ensures CollectHooks(tweets + [t]) == CollectHooks(tweets) + (if HasHook(t) then [HookOf(t)] else [])
  {
    var kept := Filter(tweets, HasHook);
    var extra := if HasHook(t) then [t] else [];
    FilterSnoc(tweets, t, HasHook);
    assert Filter(tweets + [t], HasHook) == kept + extra;
    HooksOfAppend(kept, extra);
    assert HooksOf(extra) == if HasHook(t) then [HookOf(t)] else [];
  }

  lemma {:induction false} HooksOfAppend(a: seq<Tweet>, b: seq<Tweet>)
    ensures HooksOf(a + b) == HooksOf(a) + HooksOf(b)
  {
    var l := HooksOf(a + b);
    var r := HooksOf(a) + HooksOf(b);
    forall i | 0 <= i < |l|
      ensures l[i] == r[i]
    {
      HooksOfAt(a, b, i);
    }
  }

  lemma {:induction false} HooksOfAt(a: seq<Tweet>, b: seq<Tweet>, i: int)
    requires 0 <= i < |a| + |b|
    ensures HooksOf(a + b)[i] == (HooksOf(a) + HooksOf(b))[i]
  {
    var ha := HooksOf(a);
    var hb := HooksOf(b);
    if i < |a| {
      assert (a + b)[i] == a[i];
      assert (ha + hb)[i] == ha[i];
    } else {
      assert (a + b)[i] == b[i - |a|];
      assert (ha + hb)[i] == hb[i - |a|];
    }
  }

  /** Every tweet of the list contributes its hook entry. */
  lemma {:induction false} HooksOfAll(kept: seq<Tweet>)
    ensures forall t :: t in kept ==> HookOf(t) in HooksOf(kept)
  {
    var hs := HooksOf(kept);
    forall t | t in kept
      ensures HookOf(t) in hs
    {
      var i :| 0 <= i < |kept| && kept[i] == t;
      assert hs[i] == HookOf(t);
    }
  }

  lemma {:induction false} CollectedFacts(tweets: seq<Tweet>, kept: seq<Tweet>)
    requires forall i :: 0 <= i < |kept| ==> HasHook(kept[i]) && kept[i] in tweets
    ensures forall i :: 0 <= i < |kept| ==> WellFormedHook(HooksOf(kept)[i].hook)
    ensures forall i :: 0 <= i < |kept| ==> HookFrom(tweets, HooksOf(kept)[i])
  {
    var hs := HooksOf(kept);
    forall i | 0 <= i < |kept|
      ensures WellFormedHook(hs[i].hook)
      ensures HookFrom(tweets, hs[i])
    {
      assert kept[i] in tweets && HasHook(kept[i]) && hs[i] == HookOf(kept[i]);
      assert ExtractHook(kept[i].text) != [];
    }
  }

  /** An empty text never yields a hook, so the emptiness test on the text
      is subsumed by the test on the hook. */
  lemma {:induction false} EmptyTextNoHook(t: Tweet)
    ensures HasHook(t) <==> ExtractHook(t.text) != []
  {
    if t.text == [] {
      HookNonEmpty(t.text);
    }
  }

  /** `starter`: the first two or three words of the lower-cased hook joined
      by single spaces, or nothing for a one-word hook. */
  function StarterOf(hook: string): (s: Option<string>)
    ensures s.Some? <==> |Words(Lower(hook))| >= 2
    ensures s.Some? ==> Words(s.value) == Take(Words(Lower(hook)), 3)
    ensures s.Some? ==> s.value == Join(Words(s.value), " ")
  {
    var ws := Words(Lower(hook));
    if |ws| >= 2 then
      WordsOfJoin(Take(ws, 3));
      Some(Join(Take(ws, 3), " "))
    else None
  }

  /** One entry of `common_hook_starters`. */
  datatype Starter = Starter(starter: string, count: nat, avgEngagement: real, examples: seq<string>)

  function AvgKey(s: Starter): real
  {
    s.avgEngagement
  }

  function StarterName(s: Starter): string
  {
    s.starter
  }

  function Scores(hs: seq<Hook>): (r: seq<real>)
    ensures |r| == |hs|
  {
    seq(|hs|, i requires 0 <= i < |hs| => hs[i].score)
  }

  function Texts(hs: seq<Hook>): (r: seq<string>)
    ensures |r| == |hs|
  {
    seq(|hs|, i requires 0 <= i < |hs| => hs[i].hook)
  }

  /** The hooks, in order, whose starter is `p`: a reference definition. */
  function HooksWith(hooks: seq<Hook>, p: string): seq<Hook>
  {
    if hooks == [] then []
    else
      var last := hooks[|hooks| - 1];
      HooksWith(hooks[..|hooks| - 1], p) + (if StarterOf(last.hook) == Some(p) then [last] else [])
  }

  /** (starter, hook) for every hook that has a starter, in order. */
  function StarterPairs(hooks: seq<Hook>): seq<(string, Hook)>
  {
    if hooks == [] then []
    else
      var last := hooks[|hooks| - 1];
      StarterPairs(hooks[..|hooks| - 1])
        + (match StarterOf(last.hook) case Some(p) => [(p, last)] case None => [])
  }

  lemma {:induction false} StarterPairsSelect(hooks: seq<Hook>, p: string)
    ensures Select(StarterPairs(hooks), p) == HooksWith(hooks, p)
  {
    if hooks != [] {
      var init := hooks[..|hooks| - 1];
      var last := hooks[|hooks| - 1];
      StarterPairsSelect(init, p);
      var tail := match StarterOf(last.hook) case Some(q) => [(q, last)] case None => [];
      SelectAppend(StarterPairs(init), tail, p);
      if tail != [] {
        assert Select(tail, p) == Select([], p) + (if tail[0].0 == p then [last] else []);
      }
    }
  }

  /** The entry built for one group of hooks sharing a starter. */
  function StatOf(g: (string, seq<Hook>)): Starter
  {
    Starter(g.0, |g.1|, if |g.1| > 0 then Mean(Scores(g.1)) else 0.0, Take(Texts(g.1), 3))
  }

  /** `st` is the entry for its starter among `hooks`. */
  ghost predicate Describes(hooks: seq<Hook>, st: Starter)
  {
    var group := HooksWith(hooks, st.starter);
    && |group| > 0
    && st.count == |group|
    && st.avgEngagement == Mean(Scores(group))
    && st.examples == Take(Texts(group), 3)
  }

  /** The starters named by a list of entries, in order. */
  function StarterNames(stats: seq<Starter>): (ns: seq<string>)
    ensures |ns| == |stats|
    ensures forall i :: 0 <= i < |stats| ==> ns[i] == stats[i].starter
  {
    seq(|stats|, i requires 0 <= i < |stats| => stats[i].starter)
  }

  /** Every starter group, in first-seen order, with its statistics: one
      entry for each starter some hook has, and no other. */
  function StarterStats(hooks: seq<Hook>): (stats: seq<Starter>)
    ensures DistinctBy(stats, StarterName)
    ensures forall i :: 0 <= i < |stats| ==> Describes(hooks, stats[i])
    ensures forall p :: HooksWith(hooks, p) != [] ==> p in StarterNames(stats)
  {
    var groups := GroupBy(StarterPairs(hooks));
    StatsDescribed(hooks);
    StatsDistinct(groups);
    forall p | HooksWith(hooks, p) != []
      ensures p in StarterNames(StatsOf(groups))
    {
      StarterListed(hooks, p);
    }
    StatsOf(groups)
  }

  /** A starter that some hook has names one of the groups. */
  lemma {:induction false} StarterListed(hooks: seq<Hook>, p: string)
    requires HooksWith(hooks, p) != []
    ensures p in StarterNames(StatsOf(GroupBy(StarterPairs(hooks))))
  {
    var pairs := StarterPairs(hooks);
    var groups := GroupBy(pairs);
    StarterPairsSelect(hooks, p);
    SelectNonEmpty(pairs, p);
    DedupIn(Keys(pairs), p);
    var j := KeyIndex(groups, p);
    assert StarterNames(StatsOf(groups))[j] == p;
  }

  function StatsOf(groups: seq<(string, seq<Hook>)>): (stats: seq<Starter>)
    ensures |stats| == |groups|
    ensures forall i :: 0 <= i < |groups| ==> stats[i] == StatOf(groups[i])
  {
    seq(|groups|, i requires 0 <= i < |groups| => StatOf(groups[i]))
  }

  lemma {:induction false} StatsDescribed(hooks: seq<Hook>)
    ensures forall i :: 0 <= i < |StatsOf(GroupBy(StarterPairs(hooks)))| ==>
              Describes(hooks, StatsOf(GroupBy(StarterPairs(hooks)))[i])
  {
    var groups := GroupBy(StarterPairs(hooks));
    forall i | 0 <= i < |groups|
      ensures Describes(hooks, StatsOf(groups)[i])
    {
      GroupDescribed(hooks, i);
    }
  }

  lemma {:induction false} StatsDistinct(groups: seq<(string, seq<Hook>)>)
    requires Distinct(Keys(groups))
    ensures DistinctBy(StatsOf(groups), StarterName)
  {
    var stats := StatsOf(groups);
    forall i, j | 0 <= i < j < |stats|
      ensures StarterName(stats[i]) != StarterName(stats[j])
    {
      assert Keys(groups)[i] == groups[i].0 && Keys(groups)[j] == groups[j].0;
    }
  }

  lemma {:induction false} GroupDescribed(hooks: seq<Hook>, i: int)
    requires 0 <= i < |GroupBy(StarterPairs(hooks))|
    ensures Describes(hooks, StatOf(GroupBy(StarterPairs(hooks))[i]))
  {
    var pairs := StarterPairs(hooks);
    GroupsNonEmpty(pairs, i);
    StarterPairsSelect(hooks, GroupBy(pairs)[i].0);
  }

  /** Starter groups ranked by average engagement (stable). */
  function RankedStarters(hooks: seq<Hook>): seq<Starter>
  {
    SortDesc(StarterStats(hooks), AvgKey)
  }

  predicate Repeated(s: Starter)
  {
    s.count > 1
  }

  /** `common_hook_starters`: of the ten best-averaging starters, those used
      more than once. */
  function CommonStarters(hooks: seq<Hook>): (r: seq<Starter>)
    ensures |r| <= 10
    ensures SortedDesc(r, AvgKey)
    ensures DistinctBy(r, StarterName)
    ensures forall i :: 0 <= i < |r| ==> r[i].count > 1 && |r[i].examples| <= 3
    ensures forall i :: 0 <= i < |r| ==> Describes(hooks, r[i])
  {
    var stats := StarterStats(hooks);
    var ranked := SortDesc(stats, AvgKey);
    SortDescDistinctBy(stats, AvgKey, StarterName);
    var top := Take(ranked, 10);
    TakeSortedDistinct(ranked, AvgKey, StarterName, 10);
    var r := Filter(top, Repeated);
    FilterSorted(top, Repeated, AvgKey);
    FilterDistinctBy(top, Repeated, StarterName);
    forall i | 0 <= i < |r|
      ensures Describes(hooks, r[i])
    {
      assert r[i] in top;
      TopDescribed(hooks, r[i]);
    }
    r
  }

  /** Among starters of equal mean, the listed ones are the repeated ones
      among the first such starters in first-seen order that survive the
      cut at ten. */
  lemma {:induction false} CommonStartersTies(hooks: seq<Hook>, k: real)
    ensures WithKey(CommonStarters(hooks), AvgKey, k)
            == Filter(WithKey(Take(RankedStarters(hooks), 10), AvgKey, k), Repeated)
    ensures WithKey(Take(RankedStarters(hooks), 10), AvgKey, k) <= WithKey(StarterStats(hooks), AvgKey, k)
  {
    var top := Take(RankedStarters(hooks), 10);
    assert CommonStarters(hooks) == Filter(top, Repeated);
    WithKeyFilter(top, Repeated, AvgKey, k);
    TopTies(StarterStats(hooks), top, AvgKey, k);
  }

  lemma {:induction false} TopDescribed(hooks: seq<Hook>, st: Starter)
    requires st in Take(SortDesc(StarterStats(hooks), AvgKey), 10)
    ensures Describes(hooks, st)
  {
    var stats := StarterStats(hooks);
    var top := Take(SortDesc(stats, AvgKey), 10);
    SortDescTakeMembers(stats, AvgKey, 10);
    var k :| 0 <= k < |top| && top[k] == st;
    var m :| 0 <= m < |stats| && stats[m] == st;
  }

  /** The cut to ten happens before the filter: a repeated starter is listed
      exactly when it ranks among the first ten groups, even when some of
      those ten are used only once. */
  lemma {:induction false} CommonStartersCutFirst(hooks: seq<Hook>, i: int)
    requires 0 <= i < |RankedStarters(hooks)|
    requires RankedStarters(hooks)[i].count > 1
    ensures RankedStarters(hooks)[i] in CommonStarters(hooks) <==> i < 10
  {
    var stats := StarterStats(hooks);
    var ranked := RankedStarters(hooks);
    SortDescDistinctBy(stats, AvgKey, StarterName);
    var top := Take(ranked, 10);
    assert CommonStarters(hooks) == Filter(top, Repeated);
    if i < 10 {
      assert ranked[i] == top[i];
    } else {
      forall m | 0 <= m < |top|
        ensures top[m] != ranked[i]
      {
        assert StarterName(ranked[m]) != StarterName(ranked[i]);
      }
      var r := Filter(top, Repeated);
      forall k | 0 <= k < |r|
        ensures r[k] != ranked[i]
      {
        assert r[k] in top;
      }
    }
  }

  /** A starter used by more than one hook is among `common_hook_starters`
      exactly when its group is among the ten best-averaging groups. */
  lemma {:induction false} CommonStartersListed(hooks: seq<Hook>, p: string)
    requires |HooksWith(hooks, p)| > 1
    ensures p in StarterNames(CommonStarters(hooks)) <==>
            p in StarterNames(Take(RankedStarters(hooks), 10))
  {
    var top := Take(RankedStarters(hooks), 10);
    CommonStartersFilter(hooks);
    forall m | 0 <= m < |top| && top[m].starter == p
      ensures Repeated(top[m])
    {
      TopDescribed(hooks, top[m]);
    }
    FilterNames(top, p);
  }

  lemma {:induction false} CommonStartersFilter(hooks: seq<Hook>)
    ensures CommonStarters(hooks) == Filter(Take(RankedStarters(hooks), 10), Repeated)
  {
  }

  /** Filtering out single-use entries keeps a name whose entries are all
      repeated. */
  lemma {:induction false} FilterNames(top: seq<Starter>, p: string)
    requires forall m :: 0 <= m < |top| && top[m].starter == p ==> Repeated(top[m])
    ensures p in StarterNames(Filter(top, Repeated)) <==> p in StarterNames(top)
  {
    var r := Filter(top, Repeated);
    if p in StarterNames(r) {
      var k :| 0 <= k < |r| && StarterNames(r)[k] == p;
      var m :| 0 <= m < |top| && top[m] == r[k];
      assert StarterNames(top)[m] == p;
    }
    if p in StarterNames(top) {
      var m :| 0 <= m < |top| && StarterNames(top)[m] == p;
      var k :| 0 <= k < |r| && r[k] == top[m];
      assert StarterNames(r)[k] == p;
    }
  }

  /** The `hook_patterns` entry of the analysis. */
  datatype HookPatterns = HookPatterns(
    totalHooksAnalyzed: nat,
    topPerformingHooks: seq<Hook>,
    commonHookStarters: seq<Starter>)

  /** `hooks[:10]` of the hooks sorted by engagement. */
  function TopHooks(hooks: seq<Hook>): (top: seq<Hook>)
    ensures |top| == if |hooks| < 10 then |hooks| else 10
    ensures SortedDesc(top, HookScore)
    ensures forall i :: 0 <= i < |top| ==> top[i] in hooks
    ensures multiset(top) <= multiset(hooks)
  {
    SortDescTakeMembers(hooks, HookScore, 10);
    PrefixMultiset(SortDesc(hooks, HookScore), Take(SortDesc(hooks, HookScore), 10));
    Take(SortDesc(hooks, HookScore), 10)
  }

  /** Hooks of equal score are kept in collection order, the earliest
      first. */
  lemma {:induction false} TopHooksTies(hooks: seq<Hook>, k: real)
    ensures WithKey(TopHooks(hooks), HookScore, k) <= WithKey(hooks, HookScore, k)
  {
    TopTies(hooks, TopHooks(hooks), HookScore, k);
  }

  /** Hooks picked from well-formed hooks are well-formed. */
  lemma {:induction false} KeptWellFormed(hooks: seq<Hook>, kept: seq<Hook>)
    requires forall i :: 0 <= i < |hooks| ==> WellFormedHook(hooks[i].hook)
    requires forall i :: 0 <= i < |kept| ==> kept[i] in hooks
    ensures forall i :: 0 <= i < |kept| ==> WellFormedHook(kept[i].hook)
  {
    forall i | 0 <= i < |kept|
      ensures WellFormedHook(kept[i].hook)
    {
      var m :| 0 <= m < |hooks| && hooks[m] == kept[i];
    }
  }

  function AnalyzeHooks(tweets: seq<Tweet>): (r: HookPatterns)
    ensures r.totalHooksAnalyzed == |Filter(tweets, HasHook)|
    ensures |r.topPerformingHooks| == if r.totalHooksAnalyzed < 10 then r.totalHooksAnalyzed else 10
    ensures SortedDesc(r.topPerformingHooks, HookScore)
    ensures forall i :: 0 <= i < |r.topPerformingHooks| ==>
              WellFormedHook(r.topPerformingHooks[i].hook)
              && r.topPerformingHooks[i] in CollectHooks(tweets)
    ensures multiset(r.topPerformingHooks) <= multiset(CollectHooks(tweets))
    ensures r.commonHookStarters == CommonStarters(SortDesc(CollectHooks(tweets), HookScore))
    ensures |r.commonHookStarters| <= 10
    ensures forall i :: 0 <= i < |r.commonHookStarters| ==>
              r.commonHookStarters[i].count > 1 && |r.commonHookStarters[i].examples| <= 3
  {
    var hooks := CollectHooks(tweets);
    var top := TopHooks(hooks);
    KeptWellFormed(hooks, top);
    HookPatterns(|hooks|, top, CommonStarters(SortDesc(hooks, HookScore)))
  }

  /** Hooks that are not among the ten listed score no higher than every
      listed one. */
  lemma {:induction false} TopHooksBest(tweets: seq<Tweet>, h: Hook)
    requires multiset(AnalyzeHooks(tweets).topPerformingHooks)[h] < multiset(CollectHooks(tweets))[h]
    ensures |AnalyzeHooks(tweets).topPerformingHooks| == 10
    ensures forall i :: 0 <= i < 10 ==> AnalyzeHooks(tweets).topPerformingHooks[i].score >= h.score
  {
    assert AnalyzeHooks(tweets).topPerformingHooks == Take(SortDesc(CollectHooks(tweets), HookScore), 10);
    TopDominates(CollectHooks(tweets), HookScore, 10, h);
  }
}
