/** `_analyze_topic_themes`: clean every tweet text, split the joined
    corpus into words, count the words that are long enough and not stop
    words, and report the frequent ones among the fifteen most frequent. */
module Themes {

  import opened Collections
  import opened Text
  import opened StableSort
  import opened Tweets

  /** Length of the leading run of word characters. */
  function WordRun(s: string): (n: nat)
    ensures n <= |s|
    ensures forall i :: 0 <= i < n ==> IsWordChar(s[i])
    ensures n < |s| ==> !IsWordChar(s[n])
  {
    if s == [] || !IsWordChar(s[0]) then 0 else 1 + WordRun(s[1..])
  }

  /** A match of `[#@]\w+` starts at the head of `s`. */
  predicate TagAtHead(s: string)
  {
    |s| > 1 && (s[0] == '#' || s[0] == '@') && IsWordChar(s[1])
  }

  /** No match of `[#@]\w+` starts anywhere in `s`. */
  predicate TagFree(s: string)
  {
    forall i :: 0 <= i < |s| ==> !TagAtHead(s[i..])
  }

  /** `re.sub(r'[#@]\w+', '', s)`: scanning left to right, a `#` or `@`
      followed by word characters is removed together with the whole run of
      word characters; every other character is kept. */
  function StripTags(s: string): (r: string)
    ensures |r| <= |s|
    ensures s != [] && !IsWordChar(s[0]) ==> r == [] || !IsWordChar(r[0])
    ensures TagFree(r)
    decreases |s|
  {
    if s == [] then []
    else if TagAtHead(s) then
      StripTags(s[1 + WordRun(s[1..])..])
    else
      var rest := StripTags(s[1..]);
      var r := [s[0]] + rest;
      assert forall i :: 1 <= i < |r| ==> r[i..] == rest[i - 1..];
      assert !TagAtHead(r) by {
        if |r| > 1 && (s[0] == '#' || s[0] == '@') {
          assert !IsWordChar(s[1]);
        }
      }
      r
  }

  /** Text without any tag or mention is left alone. */
  lemma {:induction false} StripTagsNoTags(s: string)
    requires TagFree(s)
    ensures StripTags(s) == s
  {
    if s != [] {
      assert s[0..] == s;
      assert forall i :: 0 <= i < |s[1..]| ==> s[1..][i..] == s[i + 1..];
      StripTagsNoTags(s[1..]);
    }
  }

  /** Removing tags twice removes nothing more. */
  lemma {:induction false} StripTagsIdempotent(s: string)
    ensures StripTags(StripTags(s)) == StripTags(s)
  {
    StripTagsNoTags(StripTags(s));
  }

  /** A run of word characters ends where a non-word character follows. */
  lemma {:induction false} WordRunAppend(x: string, b: string)
    requires b == [] || !IsWordChar(b[0])
    ensures WordRun(x + b) == WordRun(x)
  {
    if x != [] && IsWordChar(x[0]) {
      assert (x + b)[1..] == x[1..] + b;
      WordRunAppend(x[1..], b);
    } else if x == [] {
      assert x + b == b;
    }
  }

  /** Tag removal works piece by piece: text cut where no word character
      follows strips as its two parts do. */
  lemma {:induction false} StripTagsAppend(a: string, b: string)
    requires b == [] || !IsWordChar(b[0])
    ensures StripTags(a + b) == StripTags(a) + StripTags(b)
    decreases |a|
  {
    if a == [] {
      assert a + b == b;
    } else if TagAtHead(a + b) {
      assert |a| > 1;
      var n := 1 + WordRun(a[1..]);
      StripTagsAppend(a[n..], b);
      AppendTagCase(a, b);
    } else {
      StripTagsAppend(a[1..], b);
      AppendCharCase(a, b);
    }
  }

  /** The step of `StripTagsAppend` when a tag starts the text. */
  lemma {:induction false} AppendTagCase(a: string, b: string)
    requires b == [] || !IsWordChar(b[0])
    requires |a| > 1 && TagAtHead(a + b)
    requires StripTags(a[1 + WordRun(a[1..])..] + b)
             == StripTags(a[1 + WordRun(a[1..])..]) + StripTags(b)
    ensures StripTags(a + b) == StripTags(a) + StripTags(b)
  {
    var n := 1 + WordRun(a[1..]);
    var tail := a[n..];
    TagRunAppend(a, b);
    TagStep(a + b);
    assert StripTags(a + b) == StripTags(tail + b);
    assert TagAtHead(a);
    TagStep(a);
    assert StripTags(a) == StripTags(tail);
  }

  /** The tag at the head of `a + b` ends inside `a`. */
  lemma {:induction false} TagRunAppend(a: string, b: string)
    requires b == [] || !IsWordChar(b[0])
    requires |a| > 1
    ensures WordRun((a + b)[1..]) == WordRun(a[1..])
    ensures (a + b)[1 + WordRun(a[1..])..] == a[1 + WordRun(a[1..])..] + b
  {
    assert (a + b)[1..] == a[1..] + b;
    WordRunAppend(a[1..], b);
  }

  /** The step of `StripTagsAppend` when the first character is kept. */
  lemma {:induction false} AppendCharCase(a: string, b: string)
    requires a != [] && !TagAtHead(a + b)
    requires b == [] || !IsWordChar(b[0])
    requires StripTags(a[1..] + b) == StripTags(a[1..]) + StripTags(b)
    ensures StripTags(a + b) == StripTags(a) + StripTags(b)
  {
    var s := a + b;
    assert !TagAtHead(a);
    assert s[1..] == a[1..] + b;
    assert s[0] == a[0];
    CharStep(s);
    CharStep(a);
    ConsAssoc(a[0], StripTags(a[1..]), StripTags(b));
  }

  lemma {:induction false} ConsAssoc(c: char, x: string, y: string)
    ensures [c] + (x + y) == ([c] + x) + y
  {
  }

  lemma {:induction false} TagStep(s: string)
    requires TagAtHead(s)
    ensures StripTags(s) == StripTags(s[1 + WordRun(s[1..])..])
  {
  }

  lemma {:induction false} CharStep(s: string)
    requires s != [] && !TagAtHead(s)
    ensures StripTags(s) == [s[0]] + StripTags(s[1..])
  {
  }

  /** A tag or mention is removed whole, with the word characters after its
      `#` or `@`. */
  lemma {:induction false} StripTagsToken(tag: string, rest: string)
    requires |tag| > 1 && (tag[0] == '#' || tag[0] == '@')
    requires forall i :: 1 <= i < |tag| ==> IsWordChar(tag[i])
    requires rest == [] || !IsWordChar(rest[0])
    ensures StripTags(tag + rest) == StripTags(rest)
  {
    var s := tag + rest;
    assert TagAtHead(s);
    assert s[1..] == tag[1..] + rest;
    WordRunAppend(tag[1..], rest);
    WordRunAll(tag[1..]);
    assert s[|tag|..] == rest;
  }

  lemma {:induction false} WordRunAll(x: string)
    requires forall i :: 0 <= i < |x| ==> IsWordChar(x[i])
    ensures WordRun(x) == |x|
  {
    if x != [] {
      WordRunAll(x[1..]);
    }
  }

  /** A match of `http\S+` starts at the head of `s`. */
  predicate UrlAtHead(s: string)
  {
    |s| > 4 && s[..4] == "http" && !IsSpace(s[4])
  }

  /** `re.sub(r'http\S+', '', s)`: "http" followed by at least one
      non-whitespace character is removed up to the next whitespace. */
  function StripUrls(s: string): (r: string)
    ensures |r| <= |s|
    decreases |s|
  {
    if s == [] then []
    else if UrlAtHead(s) then
      SpaceNotWord('h');
      assert s[0] == 'h';
      StripUrls(s[WordLen(s)..])
    else [s[0]] + StripUrls(s[1..])
  }

  /** Text in which "http" never occurs is left alone. */
  lemma {:induction false} StripUrlsNoUrls(s: string)
    requires forall i :: 0 <= i < |s| ==> !UrlAtHead(s[i..])
    ensures StripUrls(s) == s
  {
    if s != [] {
      assert s[0..] == s;
      assert forall i :: 0 <= i < |s[1..]| ==> s[1..][i..] == s[i + 1..];
      StripUrlsNoUrls(s[1..]);
    }
  }

  /** No match of `http\S+` starts inside `a` when `b` follows it. */
  predicate NoUrlStartsIn(a: string, b: string)
  {
    forall i :: 0 <= i < |a| ==> !UrlAtHead(a[i..] + b)
  }

  /** Text in which no URL starts is kept as it is, whatever follows it. */
  lemma {:induction false} StripUrlsAppend(a: string, b: string)
    requires NoUrlStartsIn(a, b)
    ensures StripUrls(a + b) == a + StripUrls(b)
    decreases |a|
  {
    if a == [] {
      assert a + b == b;
    } else {
      assert a[0..] == a;
      assert forall i :: 0 <= i < |a[1..]| ==> a[1..][i..] == a[i + 1..];
      StripUrlsAppend(a[1..], b);
      UrlAppendStep(a, b);
    }
  }

  /** The step of `StripUrlsAppend`: a first character that starts no URL
      is kept. */
  lemma {:induction false} UrlAppendStep(a: string, b: string)
    requires a != [] && !UrlAtHead(a + b)
    requires StripUrls(a[1..] + b) == a[1..] + StripUrls(b)
    ensures StripUrls(a + b) == a + StripUrls(b)
  {
    var s := a + b;
    assert s[1..] == a[1..] + b;
    assert s[0] == a[0];
    UrlCharStep(s);
    assert a == [a[0]] + a[1..];
    ConsAssoc(a[0], a[1..], StripUrls(b));
  }

  lemma {:induction false} UrlCharStep(s: string)
    requires s != [] && !UrlAtHead(s)
    ensures StripUrls(s) == [s[0]] + StripUrls(s[1..])
  {
  }

  /** A URL token is dropped up to the whitespace that ends it. */
  lemma {:induction false} StripUrlsToken(url: string, rest: string)
    requires UrlAtHead(url) && NoSpace(url)
    requires rest == [] || IsSpace(rest[0])
    ensures StripUrls(url + rest) == StripUrls(rest)
  {
    var s := url + rest;
    assert s[..4] == url[..4];
    WordLenAppend(url, rest);
    assert WordLen(rest) == 0;
    assert s[|url|..] == rest;
  }

  /** `re.sub(r'[^\w\s]', ' ', s)`: every character that is neither a word
      character nor whitespace becomes a space. */
  function Blank(s: string): (r: string)
    ensures |r| == |s|
    ensures forall i :: 0 <= i < |r| ==> IsWordChar(r[i]) || IsSpace(r[i])
    ensures forall i :: 0 <= i < |s| && (IsWordChar(s[i]) || IsSpace(s[i])) ==> r[i] == s[i]
    ensures forall i :: 0 <= i < |s| && !IsWordChar(s[i]) && !IsSpace(s[i]) ==> r[i] == ' '
  {
    seq(|s|, i requires 0 <= i < |s| => if IsWordChar(s[i]) || IsSpace(s[i]) then s[i] else ' ')
  }

  /** A character a cleaned text may hold outside whitespace. */
  predicate ThemeChar(c: char)
  {
    IsWordChar(c) && !IsUpper(c)
  }

  predicate Cleaned(s: string)
  {
    forall i :: 0 <= i < |s| ==> IsSpace(s[i]) || ThemeChar(s[i])
  }

  /** One tweet text, cleaned and lower-cased. */
  function Clean(text: string): (c: string)
    ensures Cleaned(c)
  {
    Lower(Blank(StripUrls(StripTags(text))))
  }

  /** `all_text`: the cleaned texts of the tweets with a non-empty text. */
  function CleanTexts(tweets: seq<Tweet>): (cs: seq<string>)
    ensures forall i :: 0 <= i < |cs| ==> Cleaned(cs[i])
  {
    if tweets == [] then []
    else (if tweets[0].text != [] then [Clean(tweets[0].text)] else []) + CleanTexts(tweets[1..])
  }

  lemma {:induction false} JoinCleaned(cs: seq<string>)
    requires forall i :: 0 <= i < |cs| ==> Cleaned(cs[i])
    ensures Cleaned(Join(cs, " "))
  {
    if |cs| > 1 {
      JoinCleaned(cs[1..]);
      var rest := Join(cs[1..], " ");
      var j := cs[0] + " " + rest;
      forall i | 0 <= i < |j|
        ensures IsSpace(j[i]) || ThemeChar(j[i])
      {
        if i < |cs[0]| {
          assert j[i] == cs[0][i];
        } else if i == |cs[0]| {
          assert j[i] == ' ';
        } else {
          assert j[i] == rest[i - |cs[0]| - 1];
        }
      }
    }
  }

  /** `' '.join(all_text).split()`. */
  function CorpusWords(tweets: seq<Tweet>): (ws: seq<string>)
    ensures forall i :: 0 <= i < |ws| ==> |ws[i]| > 0
    ensures forall i, j :: 0 <= i < |ws| && 0 <= j < |ws[i]| ==> ThemeChar(ws[i][j])
  {
    var corpus := Join(CleanTexts(tweets), " ");
    JoinCleaned(CleanTexts(tweets));
    WordsChars(corpus);
    var ws := Words(corpus);
    forall i, j | 0 <= i < |ws| && 0 <= j < |ws[i]|
      ensures ThemeChar(ws[i][j])
    {
      assert ws[i][j] in corpus;
      assert !IsSpace(ws[i][j]);
    }
    ws
  }

  lemma {:induction false} CleanTextsSnoc(tweets: seq<Tweet>, t: Tweet)
    ensures CleanTexts(tweets + [t]) == CleanTexts(tweets) + (if t.text != [] then [Clean(t.text)] else [])
  {
    var u := tweets + [t];
    var e := if t.text != [] then [Clean(t.text)] else [];
    if tweets == [] {
      assert u == [t];
      assert u[1..] == [];
      assert CleanTexts(u) == e + CleanTexts([]);
    } else {
      var x := tweets[0];
      var h := if x.text != [] then [Clean(x.text)] else [];
      assert u[0] == x;
      assert u[1..] == tweets[1..] + [t];
      assert CleanTexts(u) == h + CleanTexts(u[1..]);
      assert CleanTexts(tweets) == h + CleanTexts(tweets[1..]);
      CleanTextsSnoc(tweets[1..], t);
      assert h + (CleanTexts(tweets[1..]) + e) == (h + CleanTexts(tweets[1..])) + e;
    }
  }

  /** The corpus is built tweet by tweet: no tweet gives no words, and one
      more tweet adds exactly the words of its cleaned text, if it has a
      text. Joining with a space never merges words of two tweets. */
  lemma {:induction false} CorpusWordsSnoc(tweets: seq<Tweet>, t: Tweet)
    ensures CorpusWords([]) == []
    ensures CorpusWords(tweets + [t]) ==
            CorpusWords(tweets) + (if t.text != [] then Words(Clean(t.text)) else [])
  {
    var cs := CleanTexts(tweets);
    CleanTextsSnoc(tweets, t);
    if t.text != [] {
      var c := Clean(t.text);
      JoinSnoc(cs, c, " ");
      if cs == [] {
        assert CorpusWords(tweets) == Words([]);
      } else {
        assert Join(cs, " ") + " " + c == Join(cs, " ") + [' '] + c;
        WordsAtSpace(Join(cs, " "), ' ', c);
      }
    } else {
      assert CleanTexts(tweets + [t]) == cs;
    }
  }

  /** `common_words`. */
  const Stopwords: seq<string> := [
    "the", "and", "or", "but", "in", "on", "at", "to", "for", "of", "with",
    "by", "is", "are", "was", "were", "be", "been", "have", "has", "had",
    "do", "does", "did", "will", "would", "could", "should", "may", "might",
    "can", "cant", "dont", "wont", "this", "that", "these", "those", "a",
    "an", "you", "your", "if", "how", "why", "what", "when", "where"
  ]

  /** The words the frequency table counts. */
  predicate Candidate(w: string)
  {
    |w| > 3 && w !in Stopwords
  }

  /** `word_freq`, sorted by frequency (stable). */
  function RankedWords(tweets: seq<Tweet>): seq<(string, nat)>
  {
    SortDesc(Counts(Filter(CorpusWords(tweets), Candidate)), CountKey)
  }

  predicate Frequent(p: (string, nat))
  {
    p.1 > 2
  }

  /** How often `w` occurs in the cleaned corpus. */
  function Occurrences(tweets: seq<Tweet>, w: string): nat
  {
    multiset(CorpusWords(tweets))[w]
  }

  /** The ranked table holds every candidate word once, with its number of
      occurrences. */
  lemma {:induction false} RankedWordsFacts(tweets: seq<Tweet>)
    ensures SortedDesc(RankedWords(tweets), CountKey)
    ensures Distinct(Keys(RankedWords(tweets)))
    ensures forall i :: 0 <= i < |RankedWords(tweets)| ==>
              var p := RankedWords(tweets)[i];
              Candidate(p.0) && p.1 == Occurrences(tweets, p.0) > 0 && p.0 in CorpusWords(tweets)
  {
    var words := CorpusWords(tweets);
    var cands := Filter(words, Candidate);
    var ranked := RankedWords(tweets);
    RankedCounts(cands);
    forall i | 0 <= i < |ranked|
      ensures Candidate(ranked[i].0) && ranked[i].1 == Occurrences(tweets, ranked[i].0) > 0
      ensures ranked[i].0 in words
    {
      var w := ranked[i].0;
      assert w in multiset(cands);
      assert w in cands;
      FilterCount(words, Candidate, w);
    }
  }

  lemma {:induction false} RankedWordsDistinct(tweets: seq<Tweet>)
    ensures Distinct(Keys(RankedWords(tweets)))
  {
    RankedCounts(Filter(CorpusWords(tweets), Candidate));
  }

  /** On a table sorted by frequency, the frequent entries come first. */
  lemma {:induction false} FrequentPrefix(s: seq<(string, nat)>)
    requires SortedDesc(s, CountKey)
    ensures Filter(s, Frequent) == s[..|Filter(s, Frequent)|]
  {
    if s != [] {
      var rest := s[1..];
      SortedDescTail(s, CountKey);
      FrequentPrefix(rest);
      var f := Filter(rest, Frequent);
      if Frequent(s[0]) {
        assert Filter(s, Frequent) == [s[0]] + f;
        ConsPrefix(s, f);
      } else {
        InfrequentAfter(s);
      }
    }
  }

  /** Once an entry is infrequent, so is everything ranked below it. */
  lemma {:induction false} InfrequentAfter(s: seq<(string, nat)>)
    requires s != [] && !Frequent(s[0])
    requires forall i :: 0 <= i < |s[1..]| ==> CountKey(s[0]) >= CountKey(s[1..][i])
    ensures Filter(s, Frequent) == []
  {
    forall i | 0 <= i < |s|
      ensures !Frequent(s[i])
    {
      if i > 0 {
        assert s[i] == s[1..][i - 1];
      }
    }
    FilterNone(s, Frequent);
  }

  lemma {:induction false} FilterNone<T>(s: seq<T>, p: T -> bool)
    requires forall i :: 0 <= i < |s| ==> !p(s[i])
    ensures Filter(s, p) == []
  {
    if s != [] {
      FilterNone(s[1..], p);
    }
  }

  /** The frequent entries among the fifteen best ranked: a prefix of the
      ranked table. */
  function FrequentTop(tweets: seq<Tweet>): (kept: seq<(string, nat)>)
    ensures |kept| <= 15 && |kept| <= |RankedWords(tweets)|
    ensures forall i :: 0 <= i < |kept| ==> kept[i] == RankedWords(tweets)[i] && Frequent(kept[i])
  {
    var top := Take(RankedWords(tweets), 15);
    RankedWordsDistinct(tweets);
    TakeRanked(RankedWords(tweets), CountKey, 15);
    FrequentPrefix(top);
    Filter(top, Frequent)
  }

  /** Among candidate words of equal frequency, the entries behind the
      themes are the first such words in first-seen order. */
  lemma {:induction false} ThemesTies(tweets: seq<Tweet>, k: real)
    ensures WithKey(FrequentTop(tweets), CountKey, k)
            <= WithKey(Counts(Filter(CorpusWords(tweets), Candidate)), CountKey, k)
  {
    var counts := Counts(Filter(CorpusWords(tweets), Candidate));
    var top := Take(SortDesc(counts, CountKey), 15);
    var kept := Filter(top, Frequent);
    assert FrequentTop(tweets) == kept;
    PrefixSorted(SortDesc(counts, CountKey), top, CountKey);
    FrequentPrefix(top);
    assert kept <= top;
    TopTies(counts, kept, CountKey, k);
  }

  /** What the ranked table says about its `i`-th word. */
  lemma {:induction false} RankedWord(tweets: seq<Tweet>, i: int)
    requires 0 <= i < |RankedWords(tweets)|
    ensures Candidate(RankedWords(tweets)[i].0)
    ensures RankedWords(tweets)[i].1 == Occurrences(tweets, RankedWords(tweets)[i].0)
    ensures forall j :: 0 <= j < |RankedWords(tweets)[i].0| ==> ThemeChar(RankedWords(tweets)[i].0[j])
  {
    RankedWordsFacts(tweets);
    var w := RankedWords(tweets)[i].0;
    var m :| 0 <= m < |CorpusWords(tweets)| && CorpusWords(tweets)[m] == w;
  }

  /** `topic_themes`. */
  function TopicThemes(tweets: seq<Tweet>): (r: seq<string>)
    ensures |r| <= 15
    ensures Distinct(r)
    ensures r <= Keys(Take(RankedWords(tweets), 15))
    ensures forall i :: 0 <= i < |r| ==>
              Candidate(r[i]) && Occurrences(tweets, r[i]) > 2
              && forall j :: 0 <= j < |r[i]| ==> ThemeChar(r[i][j])
    ensures forall i, j :: 0 <= i < j < |r| ==> Occurrences(tweets, r[i]) >= Occurrences(tweets, r[j])
  {
    var r := Keys(FrequentTop(tweets));
    ThemesWordFacts(tweets);
    ThemesDistinct(tweets);
    ThemesOrdered(tweets);
    r
  }

  lemma {:induction false} ThemesWordFacts(tweets: seq<Tweet>)
    ensures forall i :: 0 <= i < |Keys(FrequentTop(tweets))| ==>
              var w := Keys(FrequentTop(tweets))[i];
              && i < |Keys(Take(RankedWords(tweets), 15))|
              && w == Keys(Take(RankedWords(tweets), 15))[i]
              && Candidate(w) && Occurrences(tweets, w) > 2
              && forall j :: 0 <= j < |w| ==> ThemeChar(w[j])
  {
    var r := Keys(FrequentTop(tweets));
    forall i | 0 <= i < |r|
      ensures i < |Keys(Take(RankedWords(tweets), 15))|
      ensures r[i] == Keys(Take(RankedWords(tweets), 15))[i]
      ensures Candidate(r[i]) && Occurrences(tweets, r[i]) > 2
      ensures forall j :: 0 <= j < |r[i]| ==> ThemeChar(r[i][j])
    {
      RankedWord(tweets, i);
    }
  }

  lemma {:induction false} ThemesDistinct(tweets: seq<Tweet>)
    ensures Distinct(Keys(FrequentTop(tweets)))
  {
    RankedWordsDistinct(tweets);
    PrefixDistinct(RankedWords(tweets), FrequentTop(tweets));
  }

  lemma {:induction false} ThemesOrdered(tweets: seq<Tweet>)
    ensures forall i, j :: 0 <= i < j < |FrequentTop(tweets)| ==>
              Occurrences(tweets, FrequentTop(tweets)[i].0) >= Occurrences(tweets, FrequentTop(tweets)[j].0)
  {
    var ranked := RankedWords(tweets);
    var kept := FrequentTop(tweets);
    forall i, j | 0 <= i < j < |kept|
      ensures Occurrences(tweets, kept[i].0) >= Occurrences(tweets, kept[j].0)
    {
      RankedWord(tweets, i);
      RankedWord(tweets, j);
      assert CountKey(ranked[i]) >= CountKey(ranked[j]);
    }
  }

  /** A candidate word seen more than twice that is not a theme is
      outranked: there are fifteen themes, each at least as frequent. */
  lemma {:induction false} TopicThemesComplete(tweets: seq<Tweet>, w: string)
    requires Candidate(w) && Occurrences(tweets, w) > 2
    requires w !in TopicThemes(tweets)
    ensures |TopicThemes(tweets)| == 15
    ensures forall i :: 0 <= i < 15 ==> Occurrences(tweets, TopicThemes(tweets)[i]) >= Occurrences(tweets, w)
  {
    var ranked := RankedWords(tweets);
    var j := RankOf(tweets, w);
    RankedWord(tweets, j);
    if j < 15 {
      ThemesListFrequent(tweets, j);
      assert false;
    }
    RankedWordsFacts(tweets);
    forall i | 0 <= i < 15
      ensures Frequent(Take(ranked, 15)[i])
      ensures ranked[i].1 >= Occurrences(tweets, w)
    {
      assert CountKey(ranked[i]) >= CountKey(ranked[j]);
    }
    ThemesFull(tweets);
    forall i | 0 <= i < 15
      ensures Occurrences(tweets, TopicThemes(tweets)[i]) >= Occurrences(tweets, w)
    {
      RankedWord(tweets, i);
    }
  }

  /** Where a counted word sits in the ranked table. */
  lemma {:induction false} RankOf(tweets: seq<Tweet>, w: string) returns (j: nat)
    requires Candidate(w) && Occurrences(tweets, w) > 0
    ensures j < |RankedWords(tweets)| && RankedWords(tweets)[j].0 == w
  {
    var counts := Counts(Filter(CorpusWords(tweets), Candidate));
    CountedWord(tweets, w);
    SortDescKeys(counts, CountKey, w);
    j := KeyIndex(RankedWords(tweets), w);
  }

  /** A candidate word that occurs in the corpus is counted. */
  lemma {:induction false} CountedWord(tweets: seq<Tweet>, w: string)
    requires Candidate(w) && Occurrences(tweets, w) > 0
    ensures w in Keys(Counts(Filter(CorpusWords(tweets), Candidate)))
  {
    var words := CorpusWords(tweets);
    var cands := Filter(words, Candidate);
    FilterCount(words, Candidate, w);
    assert w in multiset(cands);
    DedupIn(cands, w);
  }

  /** A frequent word among the fifteen best ranked is a theme. */
  lemma {:induction false} ThemesListFrequent(tweets: seq<Tweet>, m: int)
    requires 0 <= m < 15 && m < |RankedWords(tweets)|
    requires Frequent(RankedWords(tweets)[m])
    ensures RankedWords(tweets)[m].0 in TopicThemes(tweets)
  {
    var kept := FrequentTop(tweets);
    var n := FrequentTopHas(tweets, m);
    assert Keys(kept)[n] == RankedWords(tweets)[m].0;
    assert TopicThemes(tweets) == Keys(kept);
  }

  lemma {:induction false} FrequentTopHas(tweets: seq<Tweet>, m: int) returns (n: nat)
    requires 0 <= m < 15 && m < |RankedWords(tweets)|
    requires Frequent(RankedWords(tweets)[m])
    ensures n < |FrequentTop(tweets)| && FrequentTop(tweets)[n] == RankedWords(tweets)[m]
  {
    var top := Take(RankedWords(tweets), 15);
    var kept := FrequentTop(tweets);
    assert top[m] == RankedWords(tweets)[m];
    assert kept == Filter(top, Frequent);
    assert top[m] in kept;
    n :| 0 <= n < |kept| && kept[n] == top[m];
  }

  /** When all fifteen kept entries are frequent, all fifteen are themes. */
  lemma {:induction false} ThemesFull(tweets: seq<Tweet>)
    requires |Take(RankedWords(tweets), 15)| == 15
    requires forall i :: 0 <= i < 15 ==> Frequent(Take(RankedWords(tweets), 15)[i])
    ensures |TopicThemes(tweets)| == 15
    ensures forall i :: 0 <= i < 15 ==> TopicThemes(tweets)[i] == Take(RankedWords(tweets), 15)[i].0
  {
    var top := Take(RankedWords(tweets), 15);
    FilterAll(top, Frequent);
  }

  lemma {:induction false} FilterAll<T>(s: seq<T>, p: T -> bool)
    requires forall i :: 0 <= i < |s| ==> p(s[i])
    ensures Filter(s, p) == s
  {
    if s != [] {
      FilterAll(s[1..], p);
    }
  }
}
