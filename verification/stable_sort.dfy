/** Python's `sorted(xs, key=k, reverse=True)` and `xs.sort(key=k,
    reverse=True)`: a stable sort into non-increasing key order, in which
    elements with equal keys keep their input order. */
module StableSort {

  import opened Collections

  /** Non-increasing by `key`. */
  predicate SortedDesc<T>(s: seq<T>, key: T -> real)
  {
    forall i, j :: 0 <= i < j < |s| ==> key(s[i]) >= key(s[j])
  }

  /** The elements of `s` whose key is `k`, in order. */
  function WithKey<T>(s: seq<T>, key: T -> real, k: real): seq<T>
  {
    if s == [] then []
    else (if key(s[0]) == k then [s[0]] else []) + WithKey(s[1..], key, k)
  }

  /** Inserts `x`, which came before every element of `t` in the input,
      ahead of the first element whose key is not larger than its own. */
  function Insert<T>(x: T, t: seq<T>, key: T -> real): (r: seq<T>)
    ensures |r| == |t| + 1
    ensures multiset(r) == multiset(t) + multiset{x}
  {
    if t == [] || key(x) >= key(t[0]) then [x] + t
    else
      assert t == [t[0]] + t[1..];
      [t[0]] + Insert(x, t[1..], key)
  }

  lemma {:induction false} InsertMembers<T>(x: T, t: seq<T>, key: T -> real)
    ensures forall i :: 0 <= i < |Insert(x, t, key)| ==>
              Insert(x, t, key)[i] == x || Insert(x, t, key)[i] in t
  {
    var r := Insert(x, t, key);
    forall i | 0 <= i < |r|
      ensures r[i] == x || r[i] in t
    {
      assert r[i] in multiset(r);
    }
  }

  lemma {:induction false} InsertSorted<T>(x: T, t: seq<T>, key: T -> real)
    requires SortedDesc(t, key)
    ensures SortedDesc(Insert(x, t, key), key)
  {
    if t != [] && key(x) < key(t[0]) {
      var r' := Insert(x, t[1..], key);
      SortedDescTail(t, key);
      InsertSorted(x, t[1..], key);
      InsertMembers(x, t[1..], key);
      forall i | 0 <= i < |r'|
        ensures key(t[0]) >= key(r'[i])
      {
        if r'[i] != x {
          var m :| 0 <= m < |t[1..]| && t[1..][m] == r'[i];
        }
      }
      ConsSorted(t[0], r', key);
    } else {
      ConsSorted(x, t, key);
    }
  }

  function SortDesc<T>(s: seq<T>, key: T -> real): (r: seq<T>)
    ensures |r| == |s|
    ensures multiset(r) == multiset(s)
    ensures SortedDesc(r, key)
  {
    if s == [] then []
    else
      assert s == [s[0]] + s[1..];
      InsertSorted(s[0], SortDesc(s[1..], key), key);
      Insert(s[0], SortDesc(s[1..], key), key)
  }

  lemma {:induction false} InsertWithKey<T>(x: T, t: seq<T>, key: T -> real, k: real)
    requires SortedDesc(t, key)
    ensures WithKey(Insert(x, t, key), key, k)
            == (if key(x) == k then [x] else []) + WithKey(t, key, k)
  {
    if t == [] || key(x) >= key(t[0]) {
      assert ([x] + t)[1..] == t;
    } else {
      var r' := Insert(x, t[1..], key);
      SortedDescTail(t, key);
      InsertWithKey(x, t[1..], key, k);
      assert ([t[0]] + r')[1..] == r';
      SwapSingles(if key(x) == k then [x] else [], if key(t[0]) == k then [t[0]] else [],
                  WithKey(t[1..], key, k));
    }
  }

  /** Two sequences of which one is empty can be swapped. */
  lemma {:induction false} SwapSingles<T>(a: seq<T>, b: seq<T>, c: seq<T>)
    requires a == [] || b == []
    ensures b + (a + c) == a + (b + c)
  {
    if a == [] {
      assert a + c == c;
      assert b + (a + c) == b + c;
    } else {
      assert b + c == c;
      assert b + (a + c) == a + c;
    }
  }

  /** Stability: for every key value, the elements carrying it appear in the
      output in exactly their input order. */
  lemma {:induction false} SortDescStable<T>(s: seq<T>, key: T -> real, k: real)
    ensures WithKey(SortDesc(s, key), key, k) == WithKey(s, key, k)
  {
    if s != [] {
      SortDescStable(s[1..], key, k);
      InsertWithKey(s[0], SortDesc(s[1..], key), key, k);
    }
  }

  /** The elements with one key value in a leading part of a list are a
      leading part of the elements with that key value in the whole list. */
  lemma {:induction false} WithKeyPrefix<T>(r: seq<T>, s: seq<T>, key: T -> real, k: real)
    requires r <= s
    ensures WithKey(r, key, k) <= WithKey(s, key, k)
  {
    if r != [] {
      assert r[1..] <= s[1..];
      WithKeyPrefix(r[1..], s[1..], key, k);
    }
  }

  /** Ties in a top-`n` cut of the sort: the kept elements with key `k` are
      the first elements with key `k` of the input, in input order. */
  lemma {:induction false} TopTies<T>(s: seq<T>, r: seq<T>, key: T -> real, k: real)
    requires r <= SortDesc(s, key)
    ensures WithKey(r, key, k) <= WithKey(s, key, k)
  {
    WithKeyPrefix(r, SortDesc(s, key), key, k);
    SortDescStable(s, key, k);
  }

  /** Filtering and picking one key commute. */
  lemma {:induction false} WithKeyFilter<T>(s: seq<T>, p: T -> bool, key: T -> real, k: real)
    ensures WithKey(Filter(s, p), key, k) == Filter(WithKey(s, key, k), p)
  {
    if s != [] {
      var x := s[0];
      var rest := Filter(s[1..], p);
      var w := WithKey(s[1..], key, k);
      WithKeyFilter(s[1..], p, key, k);
      assert s == [x] + s[1..];
      ConsFilter(x, s[1..], p);
      ConsWithKey(x, s[1..], key, k);
      if p(x) {
        ConsWithKey(x, rest, key, k);
      } else {
        assert Filter(s, p) == rest;
      }
      if key(x) == k {
        ConsFilter(x, w, p);
      } else {
        assert WithKey(s, key, k) == w;
      }
    }
  }

  lemma {:induction false} ConsWithKey<T>(x: T, t: seq<T>, key: T -> real, k: real)
    ensures WithKey([x] + t, key, k) == (if key(x) == k then [x] else []) + WithKey(t, key, k)
  {
    assert ([x] + t)[1..] == t;
  }

  lemma {:induction false} ConsFilter<T>(x: T, t: seq<T>, p: T -> bool)
    ensures Filter([x] + t, p) == (if p(x) then [x] else []) + Filter(t, p)
  {
    assert ([x] + t)[1..] == t;
  }

  /** Sorting input that is already in non-increasing order changes nothing;
      in particular sorting is idempotent. */
  lemma {:induction false} SortDescOfSorted<T>(s: seq<T>, key: T -> real)
    requires SortedDesc(s, key)
    ensures SortDesc(s, key) == s
  {
    if s != [] {
      SortDescOfSorted(s[1..], key);
      assert s == [s[0]] + s[1..];
    }
  }

  /** Elements listed in order of increasing `rank` come out ordered by key
      descending and, among equal keys, by rank ascending. */
  predicate RankIncreasing<T>(s: seq<T>, rank: T -> int)
  {
    forall i, j :: 0 <= i < j < |s| ==> rank(s[i]) < rank(s[j])
  }

  predicate LexDesc<T>(s: seq<T>, key: T -> real, rank: T -> int)
  {
    forall i, j :: 0 <= i < j < |s| ==> LexBefore(s[i], s[j], key, rank)
  }

  lemma {:induction false} InsertLex<T>(x: T, t: seq<T>, key: T -> real, rank: T -> int)
    requires LexDesc(t, key, rank)
    requires forall y :: y in t ==> rank(x) < rank(y)
    ensures LexDesc(Insert(x, t, key), key, rank)
  {
    if t == [] || key(x) >= key(t[0]) {
      forall i | 0 <= i < |t|
        ensures LexBefore(x, t[i], key, rank)
      {
        assert t[i] in t;
      }
      ConsLex(x, t, key, rank);
    } else {
      var r' := Insert(x, t[1..], key);
      LexTail(t, key, rank);
      InsertLex(x, t[1..], key, rank);
      InsertMembers(x, t[1..], key);
      forall i | 0 <= i < |r'|
        ensures LexBefore(t[0], r'[i], key, rank)
      {
        if r'[i] != x {
          var m :| 0 <= m < |t[1..]| && t[1..][m] == r'[i];
          assert t[m + 1] == r'[i];
        }
      }
      ConsLex(t[0], r', key, rank);
    }
  }

  /** `x` comes before `y` in (key descending, rank ascending) order. */
  predicate LexBefore<T>(x: T, y: T, key: T -> real, rank: T -> int)
  {
    key(x) > key(y) || (key(x) == key(y) && rank(x) < rank(y))
  }

  lemma {:induction false} ConsLex<T>(x: T, t: seq<T>, key: T -> real, rank: T -> int)
    requires LexDesc(t, key, rank)
    requires forall i :: 0 <= i < |t| ==> LexBefore(x, t[i], key, rank)
    ensures LexDesc([x] + t, key, rank)
  {
    var r := [x] + t;
    forall i, j | 0 <= i < j < |r|
      ensures LexBefore(r[i], r[j], key, rank)
    {
      assert r[j] == t[j - 1];
      if i > 0 {
        assert r[i] == t[i - 1];
      }
    }
  }

  lemma {:induction false} LexTail<T>(t: seq<T>, key: T -> real, rank: T -> int)
    requires LexDesc(t, key, rank) && t != []
    ensures LexDesc(t[1..], key, rank)
    ensures forall i :: 0 <= i < |t[1..]| ==> LexBefore(t[0], t[1..][i], key, rank)
  {
    var rest := t[1..];
    forall i, j | 0 <= i < j < |rest|
      ensures LexBefore(rest[i], rest[j], key, rank)
    {
      assert rest[i] == t[i + 1] && rest[j] == t[j + 1];
    }
  }

  lemma {:induction false} SortDescLex<T>(s: seq<T>, key: T -> real, rank: T -> int)
    requires RankIncreasing(s, rank)
    ensures LexDesc(SortDesc(s, key), key, rank)
  {
    if s != [] {
      SortDescLex(s[1..], key, rank);
      var t := SortDesc(s[1..], key);
      forall y | y in t
        ensures rank(s[0]) < rank(y)
      {
        assert y in multiset(s[1..]);
        var m :| 0 <= m < |s[1..]| && s[1..][m] == y;
      }
      InsertLex(s[0], t, key, rank);
    }
  }

  /** Keeping the first `n` of the sorted list keeps the best: an element
      with fewer copies kept than the input has scores no higher than every
      kept element. */
  lemma {:induction false} TopDominates<T>(s: seq<T>, key: T -> real, n: nat, x: T)
    requires multiset(Take(SortDesc(s, key), n))[x] < multiset(s)[x]
    ensures |s| > n
    ensures |Take(SortDesc(s, key), n)| == n
    ensures forall i :: 0 <= i < n ==> key(Take(SortDesc(s, key), n)[i]) >= key(x)
  {
    var r := SortDesc(s, key);
    if n >= |r| {
      assert false;
    } else {
      assert Take(r, n) == r[..n];
      var m := LaterCopy(r, n, x);
      Dominates(r, key, n, m);
    }
  }

  /** In a sorted list every entry before position `n` is at least as
      large as any entry from `n` on. */
  lemma {:induction false} Dominates<T>(r: seq<T>, key: T -> real, n: nat, m: nat)
    requires SortedDesc(r, key) && n <= m < |r|
    ensures |Take(r, n)| == n
    ensures forall i :: 0 <= i < n ==> key(Take(r, n)[i]) >= key(r[m])
  {
    assert Take(r, n) == r[..n];
  }

  /** An element with more copies in `r` than in its first `n` entries has
      a copy at position `n` or later. */
  lemma {:induction false} LaterCopy<T>(r: seq<T>, n: nat, x: T) returns (m: nat)
    requires n < |r|
    requires multiset(r[..n])[x] < multiset(r)[x]
    ensures n <= m < |r| && r[m] == x
  {
    assert r == r[..n] + r[n..];
    assert multiset(r) == multiset(r[..n]) + multiset(r[n..]);
    assert x in multiset(r[n..]);
    var j :| 0 <= j < |r[n..]| && r[n..][j] == x;
    m := n + j;
  }

  /** A sub-list of a non-increasing list is non-increasing. */
  lemma {:induction false} FilterSorted<T>(s: seq<T>, p: T -> bool, key: T -> real)
    requires SortedDesc(s, key)
    ensures SortedDesc(Filter(s, p), key)
  {
    if s != [] {
      SortedDescTail(s, key);
      FilterSorted(s[1..], p, key);
      var rest := Filter(s[1..], p);
      forall i | 0 <= i < |rest|
        ensures key(s[0]) >= key(rest[i])
      {
        var m :| 0 <= m < |s[1..]| && s[1..][m] == rest[i];
      }
      if p(s[0]) {
        ConsSorted(s[0], rest, key);
      }
    }
  }

  /** An element no smaller than every element of a sorted list can go in
      front of it. */
  lemma {:induction false} ConsSorted<T>(x: T, t: seq<T>, key: T -> real)
    requires SortedDesc(t, key)
    requires forall i :: 0 <= i < |t| ==> key(x) >= key(t[i])
    ensures SortedDesc([x] + t, key)
  {
    var r := [x] + t;
    forall i, j | 0 <= i < j < |r|
      ensures key(r[i]) >= key(r[j])
    {
      assert r[j] == t[j - 1];
      if i > 0 {
        assert r[i] == t[i - 1];
      }
    }
  }

  lemma {:induction false} InsertDistinctBy<T, K>(x: T, t: seq<T>, key: T -> real, proj: T -> K)
    requires DistinctBy(t, proj)
    requires forall i :: 0 <= i < |t| ==> proj(t[i]) != proj(x)
    ensures DistinctBy(Insert(x, t, key), proj)
  {
    if t != [] && key(x) < key(t[0]) {
      var r' := Insert(x, t[1..], key);
      InsertDistinctBy(x, t[1..], key, proj);
      InsertMembers(x, t[1..], key);
      forall i | 0 <= i < |r'|
        ensures proj(r'[i]) != proj(t[0])
      {
        if r'[i] != x {
          var m :| 1 <= m < |t| && t[m] == r'[i];
        }
      }
    }
  }

  /** Sorting permutes, so it keeps projections distinct. */
  lemma {:induction false} SortDescDistinctBy<T, K>(s: seq<T>, key: T -> real, proj: T -> K)
    requires DistinctBy(s, proj)
    ensures DistinctBy(SortDesc(s, key), proj)
  {
    if s != [] {
      SortDescDistinctBy(s[1..], key, proj);
      var t := SortDesc(s[1..], key);
      forall i | 0 <= i < |t|
        ensures proj(t[i]) != proj(s[0])
      {
        assert t[i] in multiset(s[1..]);
        var m :| 0 <= m < |s[1..]| && s[1..][m] == t[i];
        assert s[m + 1] == t[i];
      }
      InsertDistinctBy(s[0], t, key, proj);
    }
  }

  /** Sorting keeps every element: membership is unchanged. */
  lemma {:induction false} SortDescMembers<T>(s: seq<T>, key: T -> real, x: T)
    ensures x in SortDesc(s, key) <==> x in s
  {
    assert x in multiset(SortDesc(s, key)) <==> x in multiset(s);
  }

  /** Every element kept after sorting and cutting comes from the input. */
  lemma {:induction false} SortDescTakeMembers<T>(s: seq<T>, key: T -> real, n: nat)
    ensures forall i :: 0 <= i < |Take(SortDesc(s, key), n)| ==> Take(SortDesc(s, key), n)[i] in s
  {
    var r := Take(SortDesc(s, key), n);
    forall i | 0 <= i < |r|
      ensures r[i] in s
    {
      assert r[i] in multiset(SortDesc(s, key));
    }
  }

  /** Sorting a table keeps the same keys. */
  lemma {:induction false} SortDescKeys<K, V>(s: seq<(K, V)>, key: ((K, V)) -> real, k: K)
    ensures k in Keys(SortDesc(s, key)) <==> k in Keys(s)
  {
    var r := SortDesc(s, key);
    if k in Keys(s) {
      var m :| 0 <= m < |s| && Keys(s)[m] == k;
      SortDescMembers(s, key, s[m]);
      var j :| 0 <= j < |r| && r[j] == s[m];
      assert Keys(r)[j] == k;
    }
    if k in Keys(r) {
      var j :| 0 <= j < |r| && Keys(r)[j] == k;
      SortDescMembers(s, key, r[j]);
      var m :| 0 <= m < |s| && s[m] == r[j];
      assert Keys(s)[m] == k;
    }
  }

  /** A leading part of a sorted list is sorted. */
  lemma {:induction false} PrefixSorted<T>(s: seq<T>, r: seq<T>, key: T -> real)
    requires SortedDesc(s, key) && r <= s
    ensures SortedDesc(r, key)
  {
    assert forall i :: 0 <= i < |r| ==> r[i] == s[i];
  }

  /** A prefix of a sorted list with distinct projections keeps both
      properties. */
  lemma {:induction false} TakeSortedDistinct<T, K>(s: seq<T>, key: T -> real, proj: T -> K, n: nat)
    requires SortedDesc(s, key) && DistinctBy(s, proj)
    ensures SortedDesc(Take(s, n), key) && DistinctBy(Take(s, n), proj)
  {
    var t := Take(s, n);
    assert forall i :: 0 <= i < |t| ==> t[i] == s[i];
  }

  lemma {:induction false} TakeRanked<K, V>(t: seq<(K, V)>, key: ((K, V)) -> real, n: nat)
    requires SortedDesc(t, key) && Distinct(Keys(t))
    ensures SortedDesc(Take(t, n), key) && Distinct(Keys(Take(t, n)))
    ensures forall i :: 0 <= i < |Take(t, n)| ==> Take(t, n)[i] == t[i]
  {
    assert Keys(Take(t, n)) == Keys(t)[..|Take(t, n)|];
  }

  /** Dropping the head keeps a list sorted. */
  lemma {:induction false} SortedDescTail<T>(s: seq<T>, key: T -> real)
    requires SortedDesc(s, key) && s != []
    ensures SortedDesc(s[1..], key)
    ensures forall i :: 0 <= i < |s[1..]| ==> key(s[0]) >= key(s[1..][i])
  {
    var rest := s[1..];
    forall i, j | 0 <= i < j < |rest|
      ensures key(rest[i]) >= key(rest[j])
    {
      assert rest[i] == s[i + 1] && rest[j] == s[j + 1];
    }
    forall i | 0 <= i < |rest|
      ensures key(s[0]) >= key(rest[i])
    {
      assert rest[i] == s[i + 1];
    }
  }

  /** A frequency table sorted by count lists each value once, with its
      number of occurrences. */
  lemma {:induction false} RankedCounts<K>(xs: seq<K>)
    ensures Distinct(Keys(SortDesc(Counts(xs), CountKey)))
    ensures forall i :: 0 <= i < |SortDesc(Counts(xs), CountKey)| ==>
              var p := SortDesc(Counts(xs), CountKey)[i];
              p.1 == multiset(xs)[p.0] > 0
  {
    var counts := Counts(xs);
    var r := SortDesc(counts, CountKey);
    DistinctKeys(counts);
    SortDescDistinctBy(counts, CountKey, Fst);
    DistinctKeys(r);
    forall i | 0 <= i < |r|
      ensures r[i].1 == multiset(xs)[r[i].0] > 0
    {
      assert r[i] in multiset(counts);
    }
  }
}
