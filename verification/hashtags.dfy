/** `_get_top_hashtags`: count every hashtag over all tweets, rank by
    frequency (stable, so ties stay in first-seen order) and keep fifteen. */
module Hashtags {

  import opened Collections
  import opened StableSort
  import opened Tweets

  /** Every tweet's hashtag list, in tweet order, concatenated. */
  function AllHashtags(tweets: seq<Tweet>): seq<string>
  {
    if tweets == [] then [] else tweets[0].hashtags + AllHashtags(tweets[1..])
  }

  /** The ranked frequency table before the cut to fifteen. */
  function RankedHashtags(tweets: seq<Tweet>): seq<(string, nat)>
  {
    SortDesc(Counts(AllHashtags(tweets)), CountKey)
  }

  /** `top_hashtags`: (hashtag, frequency) pairs. */
  function TopHashtags(tweets: seq<Tweet>): (r: seq<(string, nat)>)
    ensures |r| <= 15
    ensures Distinct(Keys(r))
    ensures forall i :: 0 <= i < |r| ==> r[i].1 == multiset(AllHashtags(tweets))[r[i].0] > 0
    ensures SortedDesc(r, CountKey)
  {
    var counts := Counts(AllHashtags(tweets));
    var ranked := SortDesc(counts, CountKey);
    DistinctKeys(counts);
    SortDescDistinctBy(counts, CountKey, Fst);
    var r := Take(ranked, 15);
    TakeSortedDistinct(ranked, CountKey, Fst, 15);
    DistinctKeys(r);
    forall i | 0 <= i < |r|
      ensures r[i].1 == multiset(AllHashtags(tweets))[r[i].0] > 0
    {
      assert r[i] == ranked[i];
      assert ranked[i] in multiset(counts);
    }
    r
  }

  /** The tie-break rank of a (hashtag, count) pair: where the hashtag was
      first seen. */
  function FirstSeen(tags: seq<string>): ((string, nat)) -> int
  {
    (p: (string, nat)) => FirstIndex(tags, p.0)
  }

  /** The ranked table is ordered by count, ties by first occurrence. */
  lemma {:induction false} RankedLex(tweets: seq<Tweet>)
    ensures LexDesc(RankedHashtags(tweets), CountKey, FirstSeen(AllHashtags(tweets)))
  {
    var tags := AllHashtags(tweets);
    CountsFirstSeen(tags);
    assert RankIncreasing(Counts(tags), FirstSeen(tags));
    SortDescLex(Counts(tags), CountKey, FirstSeen(tags));
  }

  /** Ties in frequency keep the order in which the hashtags were first
      seen. */
  lemma {:induction false} TopHashtagsTies(tweets: seq<Tweet>, i: int, j: int)
    requires 0 <= i < j < |TopHashtags(tweets)|
    requires TopHashtags(tweets)[i].1 == TopHashtags(tweets)[j].1
    ensures FirstIndex(AllHashtags(tweets), TopHashtags(tweets)[i].0)
            < FirstIndex(AllHashtags(tweets), TopHashtags(tweets)[j].0)
  {
    var ranked := RankedHashtags(tweets);
    RankedLex(tweets);
    assert TopHashtags(tweets) == Take(ranked, 15);
    assert TopHashtags(tweets)[i] == ranked[i] && TopHashtags(tweets)[j] == ranked[j];
    assert LexBefore(ranked[i], ranked[j], CountKey, FirstSeen(AllHashtags(tweets)));
  }

  /** The cut at fifteen keeps, among hashtags of equal frequency, the ones
      seen first: the listed entries with frequency `k` are the first
      entries with that frequency in the first-seen frequency table. */
  lemma {:induction false} TopHashtagsCut(tweets: seq<Tweet>, k: real)
    ensures WithKey(TopHashtags(tweets), CountKey, k) <= WithKey(Counts(AllHashtags(tweets)), CountKey, k)
  {
    TopTies(Counts(AllHashtags(tweets)), TopHashtags(tweets), CountKey, k);
  }

  /** A hashtag that is used but not listed is outranked: the list is full
      and every listed hashtag is at least as frequent. */
  lemma {:induction false} TopHashtagsComplete(tweets: seq<Tweet>, tag: string)
    requires tag in AllHashtags(tweets)
    requires tag !in Keys(TopHashtags(tweets))
    ensures |TopHashtags(tweets)| == 15
    ensures forall i :: 0 <= i < 15 ==>
              TopHashtags(tweets)[i].1 >= multiset(AllHashtags(tweets))[tag]
  {
    var tags := AllHashtags(tweets);
    var counts := Counts(tags);
    DedupIn(tags, tag);
    var k := KeyIndex(counts, tag);
    var x := counts[k];
    var r := TopHashtags(tweets);
    assert r == Take(SortDesc(counts, CountKey), 15);
    KeyAbsent(r, x);
    assert x in multiset(counts);
    TopDominates(counts, CountKey, 15, x);
  }
}
