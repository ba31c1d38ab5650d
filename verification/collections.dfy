/** Sequence helpers shared by the analyser: optional values, prefixes, real
    sums and means, first-seen de-duplication, and the insertion-ordered
    grouping that a Python dict built by a single pass gives. */
module Collections {

  datatype Option<+T> = None | Some(value: T)

  /** Python's `s[:n]` for a non-negative bound. */
  function Take<T>(s: seq<T>, n: nat): (r: seq<T>)
    ensures |r| == if n < |s| then n else |s|
    ensures r <= s
  {
    if n < |s| then s[..n] else s
  }

  /** Python's `s[:n]` for any integer bound: a negative bound counts from
      the end, so `s[:-1]` drops the last element. */
  function PyTake<T>(s: seq<T>, n: int): (r: seq<T>)
    ensures r <= s
    ensures 0 <= n ==> |r| == if n < |s| then n else |s|
    ensures n < 0 ==> |r| == if |s| + n < 0 then 0 else |s| + n
  {
    if 0 <= n then Take(s, n)
    else if |s| + n < 0 then []
    else s[..|s| + n]
  }

  function Sum(xs: seq<real>): real
  {
    if xs == [] then 0.0 else Sum(xs[..|xs| - 1]) + xs[|xs| - 1]
  }

  function Mean(xs: seq<real>): real
    requires |xs| > 0
  {
    Sum(xs) / (|xs| as real)
  }

  /** The mean lies between the smallest and the largest element. */
  lemma {:induction false} SumBounds(xs: seq<real>, lo: real, hi: real)
    requires forall i :: 0 <= i < |xs| ==> lo <= xs[i] <= hi
    ensures (|xs| as real) * lo <= Sum(xs) <= (|xs| as real) * hi
  {
    if xs != [] {
      SumBounds(xs[..|xs| - 1], lo, hi);
    }
  }

  lemma {:induction false} MeanBounds(xs: seq<real>, lo: real, hi: real)
    requires |xs| > 0
    requires forall i :: 0 <= i < |xs| ==> lo <= xs[i] <= hi
    ensures lo <= Mean(xs) <= hi
  {
    SumBounds(xs, lo, hi);
    var n := |xs| as real;
    assert n * lo <= Sum(xs) <= n * hi;
    assert lo == (n * lo) / n;
    assert hi == (n * hi) / n;
  }

  predicate Distinct<K(==)>(xs: seq<K>)
  {
    forall i, j :: 0 <= i < j < |xs| ==> xs[i] != xs[j]
  }

  /** The keys of an association list, in order. */
  function Keys<K, V>(ps: seq<(K, V)>): (ks: seq<K>)
    ensures |ks| == |ps|
    ensures forall i :: 0 <= i < |ps| ==> ks[i] == ps[i].0
  {
    seq(|ps|, i requires 0 <= i < |ps| => ps[i].0)
  }

  lemma {:induction false} KeysSnoc<K, V>(ps: seq<(K, V)>, p: (K, V))
    ensures Keys(ps + [p]) == Keys(ps) + [p.0]
  {
  }

  /** The values paired with key `k`, in input order: the list a Python
      `defaultdict(list)` accumulates for `k`. */
  function Select<K(==), V>(ps: seq<(K, V)>, k: K): seq<V>
  {
    if ps == [] then []
    else
      var last := ps[|ps| - 1];
      Select(ps[..|ps| - 1], k) + (if last.0 == k then [last.1] else [])
  }

  /** How many times `k` occurs as a key is the length of its selection. */
  lemma {:induction false} SelectCount<K, V>(ps: seq<(K, V)>, k: K)
    ensures |Select(ps, k)| == multiset(Keys(ps))[k]
  {
    if ps != [] {
      var init := ps[..|ps| - 1];
      SelectCount(init, k);
      assert ps == init + [ps[|ps| - 1]];
      KeysSnoc(init, ps[|ps| - 1]);
    }
  }

  lemma {:induction false} SelectNonEmpty<K, V>(ps: seq<(K, V)>, k: K)
    ensures |Select(ps, k)| > 0 <==> k in Keys(ps)
  {
    SelectCount(ps, k);
  }

  /** Position of the first occurrence of `x` in `xs`, or `|xs|` when absent. */
  function FirstIndex<K(==)>(xs: seq<K>, x: K): (i: nat)
    ensures i <= |xs|
    ensures i < |xs| <==> x in xs
    ensures i < |xs| ==> xs[i] == x && x !in xs[..i]
  {
    if xs == [] then 0
    else if xs[0] == x then 0
    else 1 + FirstIndex(xs[1..], x)
  }

  lemma {:induction false} FirstIndexAppend<K>(a: seq<K>, b: seq<K>, x: K)
    ensures x in a ==> FirstIndex(a + b, x) == FirstIndex(a, x)
    ensures x !in a ==> FirstIndex(a + b, x) == |a| + FirstIndex(b, x)
  {
    if a != [] {
      assert (a + b)[1..] == a[1..] + b;
      FirstIndexAppend(a[1..], b, x);
    } else {
      assert a + b == b;
    }
  }

  /** The distinct elements of `xs` in order of first occurrence: the key
      order of a Python dict filled by one pass over `xs`. */
  function Dedup<K(==)>(xs: seq<K>): (d: seq<K>)
    ensures Distinct(d)
    ensures forall i :: 0 <= i < |d| ==> d[i] in xs
    ensures forall i :: 0 <= i < |xs| ==> xs[i] in d
  {
    if xs == [] then []
    else
      var d := Dedup(xs[..|xs| - 1]);
      var x := xs[|xs| - 1];
      assert xs == xs[..|xs| - 1] + [x];
      if x in d then d else d + [x]
  }

  /** `d` lists its elements in the order of their first occurrence in
      `xs`. */
  predicate FirstSeenOrder<K(==)>(xs: seq<K>, d: seq<K>)
  {
    forall i, j :: 0 <= i < j < |d| ==> FirstIndex(xs, d[i]) < FirstIndex(xs, d[j])
  }

  /** Dedup lists the elements in the order in which they first occur. */
  lemma {:induction false} DedupFirstSeen<K>(xs: seq<K>)
    ensures FirstSeenOrder(xs, Dedup(xs))
  {
    if xs != [] {
      var init := xs[..|xs| - 1];
      var x := xs[|xs| - 1];
      assert xs == init + [x];
      DedupFirstSeen(init);
      FirstSeenSnoc(init, x, Dedup(init));
    }
  }

  /** One more element keeps the first-seen order of the distinct
      elements seen so far, and a new element goes last. */
  lemma {:induction false} FirstSeenSnoc<K>(init: seq<K>, x: K, d0: seq<K>)
    requires FirstSeenOrder(init, d0)
    requires forall i :: 0 <= i < |d0| ==> d0[i] in init
    requires forall i :: 0 <= i < |init| ==> init[i] in d0
    ensures FirstSeenOrder(init + [x], if x in d0 then d0 else d0 + [x])
  {
    var xs := init + [x];
    var d := if x in d0 then d0 else d0 + [x];
    forall y | y in d0
      ensures FirstIndex(xs, y) == FirstIndex(init, y) < |init|
    {
      FirstIndexAppend(init, [x], y);
    }
    if x !in d0 {
      FirstIndexAppend(init, [x], x);
      assert FirstIndex(xs, x) == |init|;
      forall i, j | 0 <= i < j < |d|
        ensures FirstIndex(xs, d[i]) < FirstIndex(xs, d[j])
      {
        assert d[i] == d0[i] && d[i] in d0;
        if j < |d0| {
          assert d[j] == d0[j] && d[j] in d0;
        }
      }
    } else {
      forall i, j | 0 <= i < j < |d|
        ensures FirstIndex(xs, d[i]) < FirstIndex(xs, d[j])
      {
        assert d[i] in d0 && d[j] in d0;
      }
    }
  }

  /** Total number of values across the groups. */
  function TotalSize<K, V>(gs: seq<(K, seq<V>)>): nat
  {
    if gs == [] then 0 else |gs[0].1| + TotalSize(gs[1..])
  }

  /** One dict update `groups[k].append(v)`, creating the entry at the end
      when `k` is new. */
  function AddTo<K(==), V>(gs: seq<(K, seq<V>)>, k: K, v: V): (r: seq<(K, seq<V>)>)
    requires Distinct(Keys(gs))
    ensures Keys(r) == if k in Keys(gs) then Keys(gs) else Keys(gs) + [k]
    ensures forall i :: 0 <= i < |gs| ==>
              r[i] == if gs[i].0 == k then (k, gs[i].1 + [v]) else gs[i]
    ensures k !in Keys(gs) ==> r[|gs|] == (k, [v])
    ensures TotalSize(r) == TotalSize(gs) + 1
  {
    var n := FirstIndex(Keys(gs), k);
    if n < |gs| then
      var r := gs[n := (k, gs[n].1 + [v])];
      TotalSizeUpdate(gs, n, (k, gs[n].1 + [v]));
      assert Keys(r) == Keys(gs);
      r
    else
      var r := gs + [(k, [v])];
      TotalSizeSnoc(gs, (k, [v]));
      assert Keys(r) == Keys(gs) + [k];
      r
  }

  lemma {:induction false} TotalSizeSnoc<K, V>(gs: seq<(K, seq<V>)>, g: (K, seq<V>))
    ensures TotalSize(gs + [g]) == TotalSize(gs) + |g.1|
  {
    if gs != [] {
      assert (gs + [g])[1..] == gs[1..] + [g];
      TotalSizeSnoc(gs[1..], g);
    }
  }

  lemma {:induction false} TotalSizeUpdate<K, V>(gs: seq<(K, seq<V>)>, n: nat, g: (K, seq<V>))
    requires n < |gs|
    ensures TotalSize(gs[n := g]) == TotalSize(gs) - |gs[n].1| + |g.1|
  {
    if n == 0 {
      assert gs[n := g][1..] == gs[1..];
    } else {
      assert gs[n := g][1..] == gs[1..][n - 1 := g];
      TotalSizeUpdate(gs[1..], n - 1, g);
    }
  }

  /** Python's single-pass grouping into an insertion-ordered dict of lists:
      keys in first-seen order, each with the values paired with it. */
  function GroupBy<K(==), V>(ps: seq<(K, V)>): (gs: seq<(K, seq<V>)>)
    ensures Keys(gs) == Dedup(Keys(ps))
    ensures forall i :: 0 <= i < |gs| ==> gs[i].1 == Select(ps, gs[i].0)
    ensures TotalSize(gs) == |ps|
  {
    if ps == [] then []
    else
      var init := ps[..|ps| - 1];
      var p := ps[|ps| - 1];
      assert ps == init + [p];
      var g := GroupBy(init);
      GroupByStep(init, p, g);
      AddTo(g, p.0, p.1)
  }

  lemma {:induction false} DedupSnoc<K>(xs: seq<K>, x: K)
    ensures Dedup(xs + [x]) == if x in Dedup(xs) then Dedup(xs) else Dedup(xs) + [x]
  {
    assert (xs + [x])[..|xs|] == xs;
  }

  /** One step of GroupBy keeps its three promises. */
  lemma {:induction false} GroupByStep<K, V>(init: seq<(K, V)>, p: (K, V), g: seq<(K, seq<V>)>)
    requires Keys(g) == Dedup(Keys(init))
    requires forall i :: 0 <= i < |g| ==> g[i].1 == Select(init, g[i].0)
    requires TotalSize(g) == |init|
    ensures Distinct(Keys(g))
    ensures Keys(AddTo(g, p.0, p.1)) == Dedup(Keys(init + [p]))
    ensures forall i :: 0 <= i < |AddTo(g, p.0, p.1)| ==>
              AddTo(g, p.0, p.1)[i].1 == Select(init + [p], AddTo(g, p.0, p.1)[i].0)
    ensures TotalSize(AddTo(g, p.0, p.1)) == |init + [p]|
  {
    GroupStepKeys(init, p, g);
    GroupStepSelect(init, p, g);
  }

  lemma {:induction false} GroupStepKeys<K, V>(init: seq<(K, V)>, p: (K, V), g: seq<(K, seq<V>)>)
    requires Keys(g) == Dedup(Keys(init))
    ensures Keys(AddTo(g, p.0, p.1)) == Dedup(Keys(init + [p]))
  {
    KeysSnoc(init, p);
    DedupSnoc(Keys(init), p.0);
  }

  lemma {:induction false} GroupStepSelect<K, V>(init: seq<(K, V)>, p: (K, V), g: seq<(K, seq<V>)>)
    requires Keys(g) == Dedup(Keys(init))
    requires forall i :: 0 <= i < |g| ==> g[i].1 == Select(init, g[i].0)
    ensures forall i :: 0 <= i < |AddTo(g, p.0, p.1)| ==>
              AddTo(g, p.0, p.1)[i].1 == Select(init + [p], AddTo(g, p.0, p.1)[i].0)
  {
    var r := AddTo(g, p.0, p.1);
    forall i | 0 <= i < |r|
      ensures r[i].1 == Select(init + [p], r[i].0)
    {
      SelectSnoc(init, p, r[i].0);
      if i >= |g| {
        assert p.0 !in Keys(g);
        SelectNonEmpty(init, p.0);
      }
    }
  }

  /** Selecting from a concatenation concatenates the selections. */
  lemma {:induction false} SelectAppend<K, V>(a: seq<(K, V)>, b: seq<(K, V)>, k: K)
    ensures Select(a + b, k) == Select(a, k) + Select(b, k)
  {
    if b != [] {
      var b' := b[..|b| - 1];
      var x := b[|b| - 1];
      var ab := a + b';
      assert b == b' + [x];
      assert a + b == ab + [x];
      SelectAppend(a, b', k);
      SelectSnoc(ab, x, k);
      SelectSnoc(b', x, k);
    } else {
      assert a + b == a;
    }
  }

  lemma {:induction false} SelectSnoc<K, V>(init: seq<(K, V)>, p: (K, V), k: K)
    ensures Select(init + [p], k) == Select(init, k) + (if p.0 == k then [p.1] else [])
  {
    assert (init + [p])[..|init|] == init;
  }

  /** Every key of a grouping has at least one value. */
  lemma {:induction false} GroupsNonEmpty<K, V>(ps: seq<(K, V)>, i: int)
    requires 0 <= i < |GroupBy(ps)|
    ensures |GroupBy(ps)[i].1| > 0
  {
    var gs := GroupBy(ps);
    assert Keys(gs)[i] == gs[i].0;
    assert gs[i].0 in Dedup(Keys(ps));
    SelectNonEmpty(ps, gs[i].0);
  }

  function PairWithSelf<K>(xs: seq<K>): (ps: seq<(K, K)>)
    ensures Keys(ps) == xs
  {
    seq(|xs|, i requires 0 <= i < |xs| => (xs[i], xs[i]))
  }

  /** Frequency table in first-seen order, as built by
      `counts[x] = counts.get(x, 0) + 1`. */
  function Counts<K(==)>(xs: seq<K>): (r: seq<(K, nat)>)
    ensures Keys(r) == Dedup(xs)
    ensures forall i :: 0 <= i < |r| ==> r[i].1 == multiset(xs)[r[i].0] > 0
  {
    var gs := GroupBy(PairWithSelf(xs));
    var r := seq(|gs|, i requires 0 <= i < |gs| => (gs[i].0, |gs[i].1|));
    assert Keys(r) == Keys(gs);
    forall i | 0 <= i < |r|
      ensures r[i].1 == multiset(xs)[r[i].0] > 0
    {
      SelectCount(PairWithSelf(xs), gs[i].0);
      GroupsNonEmpty(PairWithSelf(xs), i);
    }
    r
  }

  /** Per-key mean of the values, keys in first-seen order; a key appears
      only if some value was recorded for it. */
  function Means<K(==)>(ps: seq<(K, real)>): (r: seq<(K, real)>)
    ensures Keys(r) == Dedup(Keys(ps))
    ensures forall i :: 0 <= i < |r| ==>
              |Select(ps, r[i].0)| > 0 && r[i].1 == Mean(Select(ps, r[i].0))
  {
    var gs := GroupBy(ps);
    var r := seq(|gs|, i requires 0 <= i < |gs| =>
                 (gs[i].0, if |gs[i].1| > 0 then Mean(gs[i].1) else 0.0));
    assert Keys(r) == Keys(gs);
    forall i | 0 <= i < |r|
      ensures |Select(ps, r[i].0)| > 0
    {
      GroupsNonEmpty(ps, i);
    }
    r
  }

  /** `[x for x in s if p(x)]`. */
  function Filter<T>(s: seq<T>, p: T -> bool): (r: seq<T>)
    ensures |r| <= |s|
    ensures forall i :: 0 <= i < |r| ==> p(r[i]) && r[i] in s
    ensures forall i :: 0 <= i < |s| && p(s[i]) ==> s[i] in r
  {
    if s == [] then []
    else (if p(s[0]) then [s[0]] else []) + Filter(s[1..], p)
  }

  /** Filtering keeps every copy of an element that passes and none of one
      that does not. */
  lemma {:induction false} FilterCount<T>(s: seq<T>, p: T -> bool, x: T)
    ensures multiset(Filter(s, p))[x] == if p(x) then multiset(s)[x] else 0
  {
    if s != [] {
      FilterCount(s[1..], p, x);
      var h := if p(s[0]) then [s[0]] else [];
      var r := Filter(s[1..], p);
      assert Filter(s, p) == h + r;
      assert multiset(h + r) == multiset(h) + multiset(r);
      assert s == [s[0]] + s[1..];
      assert multiset(s) == multiset([s[0]]) + multiset(s[1..]);
    }
  }

  /** The comprehension is non-empty exactly when some element passes. */
  lemma {:induction false} FilterNonEmpty<T>(s: seq<T>, p: T -> bool)
    ensures |Filter(s, p)| > 0 <==> exists t :: t in s && p(t)
  {
    if exists t :: t in s && p(t) {
      var t :| t in s && p(t);
      var i :| 0 <= i < |s| && s[i] == t;
    }
    if |Filter(s, p)| > 0 {
      assert Filter(s, p)[0] in s;
    }
  }

  function Fst<K, V>(p: (K, V)): K
  {
    p.0
  }

  /** The sort key of a frequency-table entry. */
  function CountKey<K>(p: (K, nat)): real
  {
    p.1 as real
  }

  /** The sort key of a (key, mean) entry. */
  function MeanKey<K>(p: (K, real)): real
  {
    p.1
  }

  /** No two elements share a projection. */
  ghost predicate DistinctBy<T, K>(s: seq<T>, proj: T -> K)
  {
    forall i, j :: 0 <= i < j < |s| ==> proj(s[i]) != proj(s[j])
  }

  lemma {:induction false} DistinctKeys<K, V>(s: seq<(K, V)>)
    ensures Distinct(Keys(s)) <==> DistinctBy(s, Fst)
  {
    if Distinct(Keys(s)) {
      forall i, j | 0 <= i < j < |s|
        ensures Fst(s[i]) != Fst(s[j])
      {
        assert Keys(s)[i] != Keys(s)[j];
      }
    }
  }

  lemma {:induction false} FilterDistinctBy<T, K>(s: seq<T>, p: T -> bool, proj: T -> K)
    requires DistinctBy(s, proj)
    ensures DistinctBy(Filter(s, p), proj)
  {
    if s != [] {
      FilterDistinctBy(s[1..], p, proj);
      var rest := Filter(s[1..], p);
      forall i | 0 <= i < |rest|
        ensures proj(rest[i]) != proj(s[0])
      {
        var m :| 0 <= m < |s[1..]| && s[1..][m] == rest[i];
        assert s[m + 1] == rest[i];
      }
    }
  }

  /** Removing repeats keeps exactly the values that occur. */
  lemma {:induction false} DedupIn<K>(xs: seq<K>, x: K)
    ensures x in Dedup(xs) <==> x in xs
  {
    if x in xs {
      var i :| 0 <= i < |xs| && xs[i] == x;
    }
    if x in Dedup(xs) {
      var i :| 0 <= i < |Dedup(xs)| && Dedup(xs)[i] == x;
    }
  }

  /** Putting back the first element of a list in front of a leading part
      of its tail gives a leading part of the list. */
  lemma {:induction false} ConsPrefix<T>(s: seq<T>, f: seq<T>)
    requires s != [] && f <= s[1..]
    ensures [s[0]] + f == s[..|f| + 1]
  {
    assert forall i :: 0 <= i < |f| ==> f[i] == s[i + 1];
  }

  /** A pair whose key is missing from an association list is not in it. */
  lemma {:induction false} KeyAbsent<K, V>(ps: seq<(K, V)>, p: (K, V))
    requires p.0 !in Keys(ps)
    ensures multiset(ps)[p] == 0
  {
    forall m | 0 <= m < |ps|
      ensures ps[m] != p
    {
      assert Keys(ps)[m] == ps[m].0;
    }
  }

  /** A leading part of a list holds no more of any value than the list. */
  lemma {:induction false} PrefixMultiset<T>(s: seq<T>, r: seq<T>)
    requires r <= s
    ensures multiset(r) <= multiset(s)
  {
    assert s == r + s[|r|..];
    assert multiset(s) == multiset(r) + multiset(s[|r|..]);
  }

  /** A key of an association list sits at some index. */
  lemma {:induction false} KeyIndex<K, V>(ps: seq<(K, V)>, k: K) returns (j: nat)
    requires k in Keys(ps)
    ensures j < |ps| && ps[j].0 == k
  {
    j :| 0 <= j < |Keys(ps)| && Keys(ps)[j] == k;
  }

  /** A leading part of a table with distinct keys has distinct keys. */
  lemma {:induction false} PrefixDistinct<K, V>(t: seq<(K, V)>, p: seq<(K, V)>)
    requires Distinct(Keys(t))
    requires |p| <= |t| && forall i :: 0 <= i < |p| ==> p[i] == t[i]
    ensures Distinct(Keys(p))
  {
    forall i, j | 0 <= i < j < |p|
      ensures Keys(p)[i] != Keys(p)[j]
    {
      assert Keys(t)[i] == Keys(p)[i] && Keys(t)[j] == Keys(p)[j];
    }
  }

  /** A distinct sequence over a finite set of values is no longer than the
      set. */
  lemma {:induction false} DistinctLength<T>(s: seq<T>, all: set<T>)
    requires Distinct(s)
    requires forall i :: 0 <= i < |s| ==> s[i] in all
    ensures |s| <= |all|
  {
    if s != [] {
      var rest := s[1..];
      assert forall i :: 0 <= i < |rest| ==> rest[i] in all - {s[0]} by {
        forall i | 0 <= i < |rest|
          ensures rest[i] in all - {s[0]}
        {
          assert rest[i] == s[i + 1];
        }
      }
      DistinctLength(rest, all - {s[0]});
    }
  }

  /** A frequency table lists its keys in order of first occurrence. */
  lemma {:induction false} CountsFirstSeen<K>(xs: seq<K>)
    ensures forall a, b :: 0 <= a < b < |Counts(xs)| ==>
              FirstIndex(xs, Counts(xs)[a].0) < FirstIndex(xs, Counts(xs)[b].0)
  {
    var c := Counts(xs);
    DedupFirstSeen(xs);
    forall a, b | 0 <= a < b < |c|
      ensures FirstIndex(xs, c[a].0) < FirstIndex(xs, c[b].0)
    {
      assert Keys(c)[a] == c[a].0 && Keys(c)[b] == c[b].0;
    }
  }

  /** Filtering a list extended by one element extends the filtered list by
      that element when it passes. */
  lemma {:induction false} FilterSnoc<T>(s: seq<T>, x: T, p: T -> bool)
    ensures Filter(s + [x], p) == Filter(s, p) + (if p(x) then [x] else [])
  {
    if s == [] {
      assert s + [x] == [x];
      assert [x][1..] == [];
    } else {
      assert (s + [x])[1..] == s[1..] + [x];
      FilterSnoc(s[1..], x, p);
    }
  }
}
