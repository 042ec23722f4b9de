/** Python's whitespace handling on `str`, as the bot uses it: `isspace`,
    `split()` with no separator, `sep.join(parts)`, `strip()`, and the
    normalisation `' '.join(s.split())` that every extractor applies to
    its output (extractors.py lines 93, 146 and 173). */
module PyStr {

  /** The characters for which Python's `str.isspace()` holds, which is also
      the set the `\s` class of a `str` regular expression matches: tab
      through carriage return, the separators U+001C..U+001F, space, NEL,
      no-break space, and the Unicode space, line and paragraph separators. */
  predicate IsSpace(c: char)
  {
    || c == ' '
    || ('\t' <= c <= '\r')
    || ('\U{1C}' <= c <= '\U{1F}')
    || c == '\U{85}' || c == '\U{A0}' || c == '\U{1680}'
    || ('\U{2000}' <= c <= '\U{200A}')
    || c == '\U{2028}' || c == '\U{2029}' || c == '\U{202F}' || c == '\U{205F}' || c == '\U{3000}'
  }

  predicate NoSpace(s: string)
  {
    forall i :: 0 <= i < |s| ==> !IsSpace(s[i])
  }

  predicate AllSpace(s: string)
  {
    forall i :: 0 <= i < |s| ==> IsSpace(s[i])
  }

  /** A word as `str.split()` yields it: non-empty and free of whitespace. */
  predicate IsWord(w: string)
  {
    w != [] && NoSpace(w)
  }

  predicate AreWords(ws: seq<string>)
  {
    forall i :: 0 <= i < |ws| ==> IsWord(ws[i])
  }

  /** The word being read, emitted when a separator or the end is reached. */
  function Flush(cur: string): seq<string>
  {
    if cur == [] then [] else [cur]
  }

  /** `str.split()` resumed in a state where `cur` holds the characters of
      the word being read. */
  function SplitFrom(s: string, cur: string): (ws: seq<string>)
    requires NoSpace(cur)
    ensures AreWords(ws)
    decreases |s|
  {
    if s == [] then Flush(cur)
    else if IsSpace(s[0]) then Flush(cur) + SplitFrom(s[1..], [])
    else SplitFrom(s[1..], cur + [s[0]])
  }

  /** `s.split()`: the maximal runs of non-whitespace characters, left to right. */
  function Split(s: string): (ws: seq<string>)
    ensures AreWords(ws)
  {
    SplitFrom(s, [])
  }

  /** `sep.join(parts)` */
  function Join(sep: string, parts: seq<string>): (r: string)
    ensures parts != [] ==> |parts[0]| <= |r| && forall i :: 0 <= i < |parts[0]| ==> r[i] == parts[0][i]
  {
    if parts == [] then []
    else if |parts| == 1 then parts[0]
    else parts[0] + sep + Join(sep, parts[1..])
  }

  /** The words of each part, one part after the other. */
  function SplitAll(parts: seq<string>): seq<string>
  {
    if parts == [] then [] else Split(parts[0]) + SplitAll(parts[1..])
  }

  /** Whitespace occurs only as single spaces between non-whitespace
      characters: none leading, none trailing, no tab or newline, never two
      in a row. */
  ghost predicate IsNormalized(r: string)
  {
    && (r == [] || (!IsSpace(r[0]) && !IsSpace(r[|r| - 1])))
    && (forall i :: 0 <= i < |r| ==> IsSpace(r[i]) ==> r[i] == ' ')
    // no two adjacent characters are both whitespace
    && (forall i, j :: 0 <= i < j < |r| && j == i + 1 ==> !(IsSpace(r[i]) && IsSpace(r[j])))
  }

  /** `' '.join(s.split())` */
  function Normalize(s: string): (r: string)
    ensures IsNormalized(r)
    ensures r == [] <==> AllSpace(s)
  {
    JoinWordsNormalized(Split(s));
    SplitEmptyIffAllSpace(s);
    Join(" ", Split(s))
  }

  /** `s.lstrip()` */
  function TrimStart(s: string): (r: string)
    ensures |r| <= |s| && r == s[|s| - |r|..]
    ensures AllSpace(s[..|s| - |r|])
    ensures r == [] || !IsSpace(r[0])
    decreases |s|
  {
    if s != [] && IsSpace(s[0]) then
      var r := TrimStart(s[1..]);
      assert s[..|s| - |r|] == [s[0]] + s[1..][..|s| - 1 - |r|];
      assert s[1..][|s| - 1 - |r|..] == s[|s| - |r|..];
      r
    else s
  }

  /** `s.rstrip()` */
  function TrimEnd(s: string): (r: string)
    ensures |r| <= |s| && r == s[..|r|]
    ensures AllSpace(s[|r|..])
    ensures r == [] || !IsSpace(r[|r| - 1])
    decreases |s|
  {
    if s != [] && IsSpace(s[|s| - 1]) then
      var r := TrimEnd(s[..|s| - 1]);
      assert s[..|s| - 1][..|r|] == s[..|r|];
      assert s[|r|..] == s[..|s| - 1][|r|..] + [s[|s| - 1]];
      r
    else s
  }

  /** Neither starts nor ends with whitespace. */
  predicate IsStripped(r: string)
  {
    r == [] || (!IsSpace(r[0]) && !IsSpace(r[|r| - 1]))
  }

  /** `s.strip()`: `s` with its leading and trailing whitespace removed. */
  function Strip(s: string): (r: string)
    ensures IsStripped(r)
  {
    var t := TrimStart(s);
    var r := TrimEnd(t);
    assert r != [] ==> r[0] == t[0];
    r
  }

  /** Only an all-whitespace string strips to nothing. */
  lemma StripEmptyIffAllSpace(s: string)
    ensures Strip(s) == [] <==> AllSpace(s)
  {
    var t := TrimStart(s);
    assert s == s[..|s| - |t|] + t;
  }

  /** What `strip()` removes is whitespace on either side of the result. */
  lemma StripInfix(s: string)
    ensures var r := Strip(s);
      exists k :: 0 <= k <= |s| - |r| && s[k..k + |r|] == r && AllSpace(s[..k]) && AllSpace(s[k + |r|..])
  {
    var t := TrimStart(s);
    var k := |s| - |t|;
    var r := TrimEnd(t);
    SliceOfSuffix(s, t, r, k);
    assert r == Strip(s);
    assert s[k..k + |r|] == r && AllSpace(s[..k]) && AllSpace(s[k + |r|..]);
  }

  lemma SliceOfSuffix(s: string, t: string, r: string, k: nat)
    requires k <= |s| && t == s[k..] && |r| <= |t| && r == t[..|r|] && AllSpace(t[|r|..])
    ensures s[k..k + |r|] == r && AllSpace(s[k + |r|..])
  {
    assert s[k + |r|..] == t[|r|..];
  }

  /** The first whitespace position of `s`, or `|s|` when there is none. */
  function FirstSpace(s: string): (i: nat)
    ensures i <= |s| && NoSpace(s[..i])
    ensures i < |s| ==> IsSpace(s[i])
    decreases |s|
  {
    if s == [] || IsSpace(s[0]) then 0
    else
      var i := 1 + FirstSpace(s[1..]);
      assert s[..i] == [s[0]] + s[1..][..i - 1];
      i
  }

  // ---------------------------------------------------------------------
  // Lemmas about split and join
  // ---------------------------------------------------------------------

  /** A string has no words exactly when it is all whitespace. */
  lemma {:induction false} SplitFromEmpty(s: string, cur: string)
    requires NoSpace(cur)
    ensures SplitFrom(s, cur) == [] <==> cur == [] && AllSpace(s)
    decreases |s|
  {
    if s != [] {
      if IsSpace(s[0]) {
        SplitFromEmpty(s[1..], []);
      } else {
        SplitFromEmpty(s[1..], cur + [s[0]]);
      }
    }
  }

  lemma SplitEmptyIffAllSpace(s: string)
    ensures Split(s) == [] <==> AllSpace(s)
  {
    SplitFromEmpty(s, []);
  }

  /** Reading a word continues the word being read. */
  lemma {:induction false} SplitFromWord(w: string, cur: string)
    requires NoSpace(w) && NoSpace(cur) && cur + w != []
    ensures SplitFrom(w, cur) == [cur + w]
    decreases |w|
  {
    if w == [] {
      assert cur + w == cur;
    } else {
      assert !IsSpace(w[0]);
      assert (cur + [w[0]]) + w[1..] == cur + w;
      SplitFromWord(w[1..], cur + [w[0]]);
    }
  }

  /** Leading whitespace produces no words. */
  lemma {:induction false} SplitSpacePrefix(sp: string, s: string)
    requires AllSpace(sp)
    ensures Split(sp + s) == Split(s)
    decreases |sp|
  {
    if sp == [] {
      assert sp + s == s;
    } else {
      assert (sp + s)[1..] == sp[1..] + s;
      SplitSpacePrefix(sp[1..], s);
    }
  }

  /** A whitespace character ends the word being read and separates the
      words before it from those after it. */
  lemma {:induction false} SplitFromAtSpace(a: string, c: char, b: string, cur: string)
    requires NoSpace(cur) && IsSpace(c)
    ensures SplitFrom(a + [c] + b, cur) == SplitFrom(a, cur) + Split(b)
    decreases |a|
  {
    var s := a + [c] + b;
    if a == [] {
      assert s[0] == c && s[1..] == b;
    } else {
      assert s[0] == a[0] && s[1..] == a[1..] + [c] + b;
      if IsSpace(a[0]) {
        SplitFromAtSpace(a[1..], c, b, []);
        assert SplitFrom(s, cur) == Flush(cur) + SplitFrom(a[1..] + [c] + b, []);
        assert SplitFrom(a, cur) == Flush(cur) + SplitFrom(a[1..], []);
        assert SplitFrom(s, cur) == Flush(cur) + (SplitFrom(a[1..], []) + Split(b));
      } else {
        var next := cur + [a[0]];
        assert NoSpace(next) by {
          assert forall i :: 0 <= i < |cur| ==> next[i] == cur[i];
        }
        SplitFromAtSpace(a[1..], c, b, next);
        assert SplitFrom(s, cur) == SplitFrom(a[1..] + [c] + b, next);
        assert SplitFrom(a, cur) == SplitFrom(a[1..], next);
      }
    }
  }

  /** The words around a non-empty whitespace separator. */
  lemma SplitAroundSpace(a: string, sep: string, b: string)
    requires sep != [] && AllSpace(sep)
    ensures Split(a + sep + b) == Split(a) + Split(b)
  {
    assert a + sep + b == a + [sep[0]] + (sep[1..] + b);
    SplitFromAtSpace(a, sep[0], sep[1..] + b, []);
    SplitSpacePrefix(sep[1..], b);
  }

  /** Joining with a whitespace separator keeps every part's words, in order. */
  lemma {:induction false} SplitJoin(sep: string, parts: seq<string>)
    requires sep != [] && AllSpace(sep)
    ensures Split(Join(sep, parts)) == SplitAll(parts)
    decreases |parts|
  {
    if |parts| == 1 {
      assert SplitAll(parts) == Split(parts[0]) + SplitAll([]);
    } else if |parts| > 1 {
      SplitAroundSpace(parts[0], sep, Join(sep, parts[1..]));
      SplitJoin(sep, parts[1..]);
    }
  }

  lemma {:induction false} SplitAllAppend(a: seq<string>, b: seq<string>)
    ensures SplitAll(a + b) == SplitAll(a) + SplitAll(b)
    decreases |a|
  {
    if a == [] {
      assert a + b == b;
    } else {
      assert (a + b)[1..] == a[1..] + b;
      SplitAllAppend(a[1..], b);
    }
  }

  lemma {:induction false} JoinAppend(sep: string, a: seq<string>, b: seq<string>)
    requires a != [] && b != []
    ensures Join(sep, a + b) == Join(sep, a) + sep + Join(sep, b)
    decreases |a|
  {
    if |a| == 1 {
      assert (a + b)[1..] == b;
    } else {
      assert (a + b)[1..] == a[1..] + b;
      JoinAppend(sep, a[1..], b);
    }
  }

  /** Words joined by single spaces form a normalised string that starts and
      ends with a non-whitespace character. */
  lemma {:induction false} JoinWordsNormalized(ws: seq<string>)
    requires AreWords(ws)
    ensures IsNormalized(Join(" ", ws))
    ensures ws != [] ==> Join(" ", ws) != []
    decreases |ws|
  {
    if |ws| == 1 {
      assert IsWord(ws[0]);
    } else if |ws| > 1 {
      var w, t := ws[0], Join(" ", ws[1..]);
      assert IsWord(w) && IsWord(ws[1]);
      JoinWordsNormalized(ws[1..]);
      var r := w + " " + t;
      assert r == Join(" ", ws);
      forall i | 0 <= i < |r|
        ensures IsSpace(r[i]) ==> r[i] == ' '
      {
        if i < |w| {
          assert r[i] == w[i];
        } else if i > |w| {
          assert r[i] == t[i - |w| - 1];
        }
      }
      forall i, j | 0 <= i < j < |r| && j == i + 1
        ensures !(IsSpace(r[i]) && IsSpace(r[j]))
      {
        if j < |w| {
          assert r[i] == w[i] && r[j] == w[j];
        } else if j == |w| {
          assert r[i] == w[|w| - 1];
        } else if i == |w| {
          assert r[j] == t[0];
        } else {
          assert r[i] == t[i - |w| - 1] && r[j] == t[j - |w| - 1];
        }
      }
      assert r[0] == w[0] && r[|r| - 1] == t[|t| - 1];
    }
  }

  /** `' '.join(words)` splits back into the same words. */
  lemma {:induction false} SplitJoinWords(ws: seq<string>)
    requires AreWords(ws)
    ensures Split(Join(" ", ws)) == ws
    decreases |ws|
  {
    if |ws| == 1 {
      assert IsWord(ws[0]) && [] + ws[0] == ws[0];
      SplitFromWord(ws[0], []);
    } else if |ws| > 1 {
      assert IsWord(ws[0]) && [] + ws[0] == ws[0];
      assert AllSpace(" ");
      SplitAroundSpace(ws[0], " ", Join(" ", ws[1..]));
      SplitFromWord(ws[0], []);
      SplitJoinWords(ws[1..]);
      assert ws == [ws[0]] + ws[1..];
    }
  }

  // ---------------------------------------------------------------------
  // What the normalisation promises
  // ---------------------------------------------------------------------

  /** Normalising keeps the words of the text, in order. */
  lemma NormalizeKeepsWords(s: string)
    ensures Split(Normalize(s)) == Split(s)
  {
    SplitJoinWords(Split(s));
  }

  /** Normalising twice is normalising once. */
  lemma NormalizeIdempotent(s: string)
    ensures Normalize(Normalize(s)) == Normalize(s)
  {
    NormalizeKeepsWords(s);
  }

  /** Around a whitespace character of a normalised string. */
  lemma NormalizedAt(s: string, i: nat)
    requires IsNormalized(s) && i < |s| && IsSpace(s[i])
    ensures s[i] == ' ' && 0 < i < |s| - 1 && !IsSpace(s[i - 1]) && !IsSpace(s[i + 1])
  {
    assert 0 < i < |s| - 1;
    var before, after := s[i - 1], s[i + 1];
    assert !IsSpace(before) && !IsSpace(after);
  }

  /** A normalised string is the single-space join of its own words. */
  lemma {:induction false} NormalizedIsJoinOfWords(s: string)
    requires IsNormalized(s)
    ensures Join(" ", Split(s)) == s
    decreases |s|
  {
    var i := FirstSpace(s);
    if i == |s| {
      assert s[..i] == s;
      if s != [] {
        SplitFromWord(s, []);
      }
    } else {
      var w, rest := s[..i], s[i + 1..];
      NormalizedAt(s, i);
      assert rest[0] == s[i + 1] && rest[|rest| - 1] == s[|s| - 1];
      forall j | 0 <= j < |rest|
        ensures IsSpace(rest[j]) ==> rest[j] == ' '
      {
        assert rest[j] == s[i + 1 + j];
      }
      forall j, k | 0 <= j < k < |rest| && k == j + 1
        ensures !(IsSpace(rest[j]) && IsSpace(rest[k]))
      {
        assert rest[j] == s[i + 1 + j] && rest[k] == s[i + 1 + k];
      }
      NormalizedIsJoinOfWords(rest);
      assert s == w + " " + rest;
      assert AllSpace(" ") && [] + w == w;
      SplitAroundSpace(w, " ", rest);
      SplitFromWord(w, []);
      assert Split(s) == [w] + Split(rest);
      assert Split(rest) != [];
      assert ([w] + Split(rest))[1..] == Split(rest);
    }
  }

  /** The normalised strings are exactly the fixpoints of the normalisation. */
  lemma NormalizeFixpoints(s: string)
    ensures Normalize(s) == s <==> IsNormalized(s)
  {
    if IsNormalized(s) {
      NormalizedIsJoinOfWords(s);
    }
  }
}
