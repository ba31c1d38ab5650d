/** The Python string operations the analyser relies on, over strings of
    Unicode code points: `str.isspace`, `str.split()`, `str.split(c)[0]`,
    `str.strip()`, `' '.join`, `sub in s`, and an ASCII `str.lower()`. */
module Text {

  import opened Collections

  /** The characters for which Python's `str.isspace()` holds; the same set
      is used by `str.split()`, `str.strip()` and the regular-expression
      class `\s`. */
  const Whitespace: set<char> := {
      '\t', '\n', '\U{0B}', '\U{0C}', '\r', '\U{1C}', '\U{1D}', '\U{1E}',
      '\U{1F}', ' ', '\U{85}', '\U{A0}', '\U{1680}', '\U{2000}', '\U{2001}',
      '\U{2002}', '\U{2003}', '\U{2004}', '\U{2005}', '\U{2006}',
      '\U{2007}', '\U{2008}', '\U{2009}', '\U{200A}', '\U{2028}',
      '\U{2029}', '\U{202F}', '\U{205F}', '\U{3000}'
    }

  predicate IsSpace(c: char)
  {
    c in Whitespace
  }

  /** The regular-expression class `\w`, restricted to ASCII: letters,
      digits and underscore. */
  predicate IsWordChar(c: char)
  {
    ('a' <= c <= 'z') || ('A' <= c <= 'Z') || ('0' <= c <= '9') || c == '_'
  }

  predicate IsUpper(c: char)
  {
    'A' <= c <= 'Z'
  }

  /** No whitespace character is a word character. */
  lemma {:induction false} SpaceNotWord(c: char)
    ensures IsWordChar(c) ==> !IsSpace(c)
  {
  }

  function ToLower(c: char): (d: char)
    ensures !IsUpper(d)
    ensures IsSpace(d) <==> IsSpace(c)
    ensures IsWordChar(d) <==> IsWordChar(c)
    ensures !IsUpper(c) ==> d == c
  {
    if IsUpper(c) then (c as int + 32) as char else c
  }

  /** `str.lower()` on the ASCII letters. */
  function Lower(s: string): (r: string)
    ensures |r| == |s|
    ensures forall i :: 0 <= i < |s| ==> r[i] == ToLower(s[i])
  {
    seq(|s|, i requires 0 <= i < |s| => ToLower(s[i]))
  }

  predicate NoSpace(w: string)
  {
    forall j :: 0 <= j < |w| ==> !IsSpace(w[j])
  }

  /** `s.split(c)[0]`: everything before the first `c`, or all of `s`. */
  function BeforeFirst(s: string, c: char): (r: string)
    ensures c !in r
    ensures r <= s
    ensures r == s || s[|r|] == c
  {
    if s == [] || s[0] == c then []
    else [s[0]] + BeforeFirst(s[1..], c)
  }

  /** `s.lstrip()`. */
  function StripLeft(s: string): (r: string)
    ensures |r| <= |s| && r == s[|s| - |r|..]
    ensures forall i :: 0 <= i < |s| - |r| ==> IsSpace(s[i])
    ensures r == [] || !IsSpace(r[0])
  {
    if s == [] || !IsSpace(s[0]) then s
    else StripLeft(s[1..])
  }

  /** `s.rstrip()`. */
  function StripRight(s: string): (r: string)
    ensures r <= s
    ensures forall i :: |r| <= i < |s| ==> IsSpace(s[i])
    ensures r == [] || !IsSpace(r[|r| - 1])
  {
    if s == [] || !IsSpace(s[|s| - 1]) then s
    else StripRight(s[..|s| - 1])
  }

  /** `s.strip()`: the slice `s[a..b]` left after removing whitespace at
      both ends. */
  function Strip(s: string): (r: string)
    ensures r == [] || (!IsSpace(r[0]) && !IsSpace(r[|r| - 1]))
    ensures exists a :: TrimmedAt(s, r, a)
  {
    StripTrims(s);
    StripRight(StripLeft(s))
  }

  lemma {:induction false} StripTrims(s: string)
    ensures TrimmedAt(s, StripRight(StripLeft(s)), |s| - |StripLeft(s)|)
  {
    var l := StripLeft(s);
    TrimmedSlice(s, |s| - |l|, l, StripRight(l));
  }

  /** A prefix `r` of the suffix `l == s[a..]`, with only whitespace
      before `a` and after `r`, is `s` trimmed at `a`. */
  lemma {:induction false} TrimmedSlice(s: string, a: nat, l: string, r: string)
    requires a <= |s| && l == s[a..] && r <= l
    requires forall i :: 0 <= i < a ==> IsSpace(s[i])
    requires forall i :: |r| <= i < |l| ==> IsSpace(l[i])
    ensures TrimmedAt(s, r, a)
  {
    assert r == s[a..a + |r|];
    forall i | a + |r| <= i < |s|
      ensures IsSpace(s[i])
    {
      assert s[i] == l[i - a];
    }
  }

  /** `r` is `s[a..a + |r|]` and everything of `s` around it is whitespace. */
  predicate TrimmedAt(s: string, r: string, a: int)
  {
    && 0 <= a <= a + |r| <= |s|
    && r == s[a..a + |r|]
    && (forall i :: 0 <= i < a ==> IsSpace(s[i]))
    && (forall i :: a + |r| <= i < |s| ==> IsSpace(s[i]))
  }

  /** A string with no whitespace at either end is its own strip. */
  lemma {:induction false} StripUnchanged(s: string)
    requires s == [] || (!IsSpace(s[0]) && !IsSpace(s[|s| - 1]))
    ensures Strip(s) == s
  {
  }

  /** Stripping leaves nothing exactly when the string is all whitespace. */
  lemma {:induction false} StripEmpty(s: string)
    ensures Strip(s) == [] <==> forall i :: 0 <= i < |s| ==> IsSpace(s[i])
  {
    if Strip(s) == [] {
      var a :| TrimmedAt(s, [], a);
    } else {
      var r := Strip(s);
      var a :| TrimmedAt(s, r, a);
      assert s[a] == r[0];
    }
  }

  /** Length of the leading run of non-whitespace characters. */
  function WordLen(s: string): (n: nat)
    ensures n <= |s|
    ensures forall i :: 0 <= i < n ==> !IsSpace(s[i])
    ensures n < |s| ==> IsSpace(s[n])
  {
    if s == [] || IsSpace(s[0]) then 0 else 1 + WordLen(s[1..])
  }

  /** `s.split()`: the maximal runs of non-whitespace characters, in order. */
  function Words(s: string): (ws: seq<string>)
    ensures forall i :: 0 <= i < |ws| ==> |ws[i]| > 0 && NoSpace(ws[i])
    decreases |s|
  {
    if s == [] then []
    else if IsSpace(s[0]) then Words(s[1..])
    else
      var n := WordLen(s);
      [s[..n]] + Words(s[n..])
  }

  /** Every character of every word is a character of the split string. */
  lemma {:induction false} WordsChars(s: string)
    ensures forall i, j :: 0 <= i < |Words(s)| && 0 <= j < |Words(s)[i]| ==> Words(s)[i][j] in s
    decreases |s|
  {
    if s == [] {
    } else if IsSpace(s[0]) {
      WordsChars(s[1..]);
      forall c | c in s[1..]
        ensures c in s
      {
        var m :| 0 <= m < |s[1..]| && s[1..][m] == c;
        assert s[m + 1] == c;
      }
    } else {
      var n := WordLen(s);
      WordsChars(s[n..]);
      forall c | c in s[n..]
        ensures c in s
      {
        var m :| 0 <= m < |s[n..]| && s[n..][m] == c;
        assert s[n + m] == c;
      }
      forall c | c in s[..n]
        ensures c in s
      {
        var m :| 0 <= m < n && s[..n][m] == c;
        assert s[m] == c;
      }
    }
  }

  /** A word at the head of `a` that ends inside `a`, or where `t` begins
      with whitespace, is not lengthened by `t`. */
  lemma {:induction false} WordLenStops(a: string, t: string)
    requires WordLen(a) < |a| || t == [] || IsSpace(t[0])
    ensures WordLen(a + t) == WordLen(a)
  {
    if a == [] {
      assert a + t == t;
    } else if !IsSpace(a[0]) {
      assert (a + t)[1..] == a[1..] + t;
      WordLenStops(a[1..], t);
    }
  }

  /** `split()` separates at every whitespace character: the words of `a`,
      one whitespace character and `b` are the words of `a` followed by
      the words of `b`. With `WordsOfWord` this fixes the split of every
      string. */
  lemma {:induction false} WordsAtSpace(a: string, c: char, b: string)
    requires IsSpace(c)
    ensures Words([]) == []
    ensures Words(a + [c] + b) == Words(a) + Words(b)
    decreases |a|
  {
    var s := a + [c] + b;
    if a == [] {
      assert s[1..] == b;
    } else if IsSpace(a[0]) {
      assert s[1..] == a[1..] + [c] + b;
      WordsAtSpace(a[1..], c, b);
      SpaceHead(s);
      SpaceHead(a);
    } else {
      var n := WordLen(a);
      WordsAtSpace(a[n..], c, b);
      WordHeadCase(a, c, b);
    }
  }

  lemma {:induction false} SpaceHead(s: string)
    requires s != [] && IsSpace(s[0])
    ensures Words(s) == Words(s[1..])
  {
  }

  lemma {:induction false} WordHead(s: string)
    requires s != [] && !IsSpace(s[0])
    ensures Words(s) == [s[..WordLen(s)]] + Words(s[WordLen(s)..])
  {
  }

  /** The step of `WordsAtSpace` when a word starts `a`: that word ends
      inside `a` or at `c`. */
  lemma {:induction false} WordHeadCase(a: string, c: char, b: string)
    requires IsSpace(c) && a != [] && !IsSpace(a[0])
    requires Words(a[WordLen(a)..] + [c] + b) == Words(a[WordLen(a)..]) + Words(b)
    ensures Words(a + [c] + b) == Words(a) + Words(b)
  {
    var s := a + [c] + b;
    var n := WordLen(a);
    assert s == a + ([c] + b);
    WordLenStops(a, [c] + b);
    assert s[..n] == a[..n];
    assert s[n..] == a[n..] + [c] + b;
    WordHead(s);
    WordHead(a);
  }

  /** `sep.join(ws)`. */
  function Join(ws: seq<string>, sep: string): string
  {
    if ws == [] then []
    else if |ws| == 1 then ws[0]
    else ws[0] + sep + Join(ws[1..], sep)
  }

  /** Joining one more string appends the separator and that string. */
  lemma {:induction false} JoinSnoc(ws: seq<string>, w: string, sep: string)
    ensures Join(ws + [w], sep) == if ws == [] then w else Join(ws, sep) + sep + w
  {
    if ws == [] {
      assert ws + [w] == [w];
    } else if |ws| == 1 {
      assert (ws + [w])[1..] == [w];
    } else {
      assert (ws + [w])[1..] == ws[1..] + [w];
      JoinSnoc(ws[1..], w, sep);
      assert ws[0] + sep + (Join(ws[1..], sep) + sep + w)
          == (ws[0] + sep + Join(ws[1..], sep)) + sep + w;
    }
  }

  lemma {:induction false} WordLenAppend(w: string, t: string)
    requires NoSpace(w)
    ensures WordLen(w + t) == |w| + WordLen(t)
  {
    if w != [] {
      assert (w + t)[1..] == w[1..] + t;
      WordLenAppend(w[1..], t);
    } else {
      assert w + t == t;
    }
  }

  lemma {:induction false} WordsOfWord(w: string)
    requires |w| > 0 && NoSpace(w)
    ensures Words(w) == [w]
  {
    assert WordLen(w) == |w|;
    assert w[..|w|] == w;
    assert w[|w|..] == [];
    assert Words(w) == [w] + Words([]);
  }

  /** Splitting undoes joining with a single space, as long as no joined
      word is empty or contains whitespace. */
  lemma {:induction false} WordsOfJoin(ws: seq<string>)
    requires forall i :: 0 <= i < |ws| ==> |ws[i]| > 0 && NoSpace(ws[i])
    ensures Words(Join(ws, " ")) == ws
  {
    if |ws| == 1 {
      WordsOfWord(ws[0]);
    } else if |ws| > 1 {
      var w := ws[0];
      var rest := Join(ws[1..], " ");
      var s := w + " " + rest;
      assert s == w + (" " + rest);
      WordLenAppend(w, " " + rest);
      assert WordLen(s) == |w|;
      assert s[..|w|] == w;
      assert s[|w|..] == " " + rest;
      assert (" " + rest)[1..] == rest;
      WordsOfJoin(ws[1..]);
      assert Words(s) == [w] + Words(rest);
    }
  }

  /** `sub in s`. */
  function Contains(s: string, sub: string): bool
  {
    sub <= s || (s != [] && Contains(s[1..], sub))
  }

  predicate OccursAt(s: string, sub: string, i: int)
  {
    0 <= i && i + |sub| <= |s| && s[i..i + |sub|] == sub
  }

  /** `Contains` holds exactly when `sub` occurs at some position of `s`. */
  lemma {:induction false} ContainsAt(s: string, sub: string)
    ensures Contains(s, sub) <==> exists i :: OccursAt(s, sub, i)
  {
    if sub <= s {
      assert s[0..|sub|] == sub;
      assert OccursAt(s, sub, 0);
    } else if s == [] {
    } else {
      ContainsAt(s[1..], sub);
      if Contains(s[1..], sub) {
        var i :| OccursAt(s[1..], sub, i);
        assert s[i + 1..i + 1 + |sub|] == s[1..][i..i + |sub|];
        assert OccursAt(s, sub, i + 1);
      }
      if exists i :: OccursAt(s, sub, i) {
        var i :| OccursAt(s, sub, i);
        if i == 0 {
          assert false;
        } else {
          assert s[1..][i - 1..i - 1 + |sub|] == s[i..i + |sub|];
          assert OccursAt(s[1..], sub, i - 1);
        }
      }
    }
  }
}
