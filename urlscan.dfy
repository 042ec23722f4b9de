/** `extract_urls` (app.py lines 31-40): `re.findall` of the pattern

      <(https?://[^>|]+)(?:\|[^>]*)?>|(?<![<])(https?://[^\s<>]+)

    over the text of a Slack message, keeping the non-empty group of each
    match.

    The scanner below is written by hand for this one pattern. The two
    alternatives never compete at one position: the first needs '<' there,
    the second 'h'. Backtracking finds nothing that the greedy reading
    misses. `s?` cannot give up its 's', because "://" would then have to
    start at that 's'. In the first alternative the URL run stops only at
    '>' or '|'. A shorter run would be followed by a character that is
    neither, and neither the optional label nor the closing '>' can start
    there. After a '|', the label run stops only at '>' or at the end of
    the text, so a missing '>' makes the whole alternative fail. */
module UrlScan {
  import opened Wrappers
  import opened PyStr

  /** Which alternative of the pattern produced a match. */
  datatype Form = Bracketed | Bare

  /** One match: text[start..end] is the whole match and
      text[urlStart..urlEnd] the group that holds the URL. */
  datatype Hit = Hit(form: Form, start: nat, urlStart: nat, urlEnd: nat, end: nat)

  predicate WellFormed(text: string, h: Hit)
  {
    h.start <= h.urlStart < h.urlEnd <= h.end <= |text| && h.start < h.end
  }

  // ---------------------------------------------------------------------
  // What the pattern admits, stated declaratively
  // ---------------------------------------------------------------------

  /** `https?://` followed by at least one more character. */
  predicate HasScheme(u: string)
  {
    || (|u| > 7 && u[..7] == "http://")
    || (|u| > 8 && u[..8] == "https://")
  }

  /** `[^\s<>]`, the characters of a bare URL. */
  predicate BareChar(c: char)
  {
    !IsSpace(c) && c != '<' && c != '>'
  }

  /** text[h.start..h.end] is `<URL>` or `<URL|LABEL>`, where URL is
      `https?://[^>|]+` and LABEL is `[^>]*`; the URL is captured. */
  ghost predicate BracketedMatch(text: string, h: Hit)
  {
    && h.form == Bracketed
    && h.start < h.urlStart < h.urlEnd < h.end <= |text|
    && h.urlStart == h.start + 1
    && text[h.start] == '<'
    && HasScheme(text[h.urlStart..h.urlEnd])
    && (forall i :: h.urlStart <= i < h.urlEnd ==> text[i] != '>' && text[i] != '|')
    && text[h.end - 1] == '>'
    && (h.urlEnd == h.end - 1 || text[h.urlEnd] == '|')
    && (forall i :: h.urlEnd < i < h.end - 1 ==> text[i] != '>')
  }

  /** text[h.start..h.end] is `https?://[^\s<>]+`, not preceded by '<', and
      the run of URL characters is as long as it can be (the greedy `+`). */
  ghost predicate BareMatch(text: string, h: Hit)
  {
    && h.form == Bare
    && h.start == h.urlStart < h.urlEnd == h.end <= |text|
    && (h.start == 0 || text[h.start - 1] != '<')
    && HasScheme(text[h.start..h.end])
    && (forall i :: h.start <= i < h.end ==> BareChar(text[i]))
    && (h.end == |text| || !BareChar(text[h.end]))
  }

  ghost predicate PatternMatch(text: string, h: Hit)
  {
    BracketedMatch(text, h) || BareMatch(text, h)
  }

  // ---------------------------------------------------------------------
  // The scanner
  // ---------------------------------------------------------------------

  predicate StartsAt(text: string, p: nat, lit: string)
  {
    p + |lit| <= |text| && text[p..p + |lit|] == lit
  }

  /** Length of the `https?://` at p: 8, 7, or 0 when there is none. */
  function SchemeLength(text: string, p: nat): nat
  {
    if p + 7 <= |text| && text[p] == 'h' && text[p + 1] == 't' && text[p + 2] == 't' && text[p + 3] == 'p' then
      if p + 8 <= |text| && text[p + 4] == 's' && text[p + 5] == ':' && text[p + 6] == '/' && text[p + 7] == '/' then 8
      else if text[p + 4] == ':' && text[p + 5] == '/' && text[p + 6] == '/' then 7
      else 0
    else 0
  }

  /** The three character classes whose runs the pattern reads, named by
      the characters that end a run. */
  datatype Stop = UrlInBrackets | LabelInBrackets | BareUrl

  predicate Stops(kind: Stop, c: char)
  {
    match kind
    case UrlInBrackets => c == '>' || c == '|'
    case LabelInBrackets => c == '>'
    case BareUrl => !BareChar(c)
  }

  /** Where a greedy run from p ends: the first stop character at or after
      p, or the end of the text. */
  function RunEnd(text: string, p: nat, kind: Stop): (q: nat)
    requires p <= |text|
    ensures p <= q <= |text|
    ensures forall i :: p <= i < q ==> !Stops(kind, text[i])
    ensures q < |text| ==> Stops(kind, text[q])
    decreases |text| - p
  {
    if p == |text| || Stops(kind, text[p]) then p else RunEnd(text, p + 1, kind)
  }

  /** The first alternative tried at pos. */
  function MatchBracketed(text: string, pos: nat): Option<Hit>
    requires pos <= |text|
  {
    if pos < |text| && text[pos] == '<' && SchemeLength(text, pos + 1) > 0 then
      var u := pos + 1;
      var p := u + SchemeLength(text, u);
      var e := RunEnd(text, p, UrlInBrackets);
      if e == p || e == |text| then None
      else if text[e] == '>' then Some(Hit(Bracketed, pos, u, e, e + 1))
      else
        var f := RunEnd(text, e + 1, LabelInBrackets);
        if f == |text| then None else Some(Hit(Bracketed, pos, u, e, f + 1))
    else None
  }

  /** The second alternative tried at pos. */
  function MatchBare(text: string, pos: nat): Option<Hit>
    requires pos <= |text|
  {
    if (pos == 0 || text[pos - 1] != '<') && SchemeLength(text, pos) > 0 then
      var p := pos + SchemeLength(text, pos);
      var e := RunEnd(text, p, BareUrl);
      if e == p then None else Some(Hit(Bare, pos, pos, e, e))
    else None
  }

  /** The pattern tried at pos: the alternatives in order, the first that
      succeeds wins. */
  function MatchAt(text: string, pos: nat): (m: Option<Hit>)
    requires pos <= |text|
    ensures m.Some? ==> m.value.start == pos && WellFormed(text, m.value)
  {
    match MatchBracketed(text, pos)
    case Some(h) => Some(h)
    case None => MatchBare(text, pos)
  }

  /** `re.findall` from pos: try the pattern at each position; after a match
      the search resumes where the match ended, otherwise one further on. */
  function Hits(text: string, pos: nat): (hs: seq<Hit>)
    requires pos <= |text|
    ensures forall i :: 0 <= i < |hs| ==>
      WellFormed(text, hs[i]) && pos <= hs[i].start
    ensures forall i, j :: 0 <= i < j < |hs| ==> hs[i].end <= hs[j].start
    decreases |text| - pos
  {
    if pos == |text| then []
    else
      match MatchAt(text, pos)
      case Some(h) => [h] + Hits(text, h.end)
      case None => Hits(text, pos + 1)
  }

  /** Every hit of hs is the match the scanner gives at its start. */
  ghost predicate FoundAll(text: string, hs: seq<Hit>)
    decreases |hs|
  {
    hs == [] || (hs[0].start <= |text| && MatchAt(text, hs[0].start) == Some(hs[0]) && FoundAll(text, hs[1..]))
  }

  function Captured(text: string, h: Hit): string
    requires WellFormed(text, h)
  {
    text[h.urlStart..h.urlEnd]
  }

  /** The tuple `re.findall` yields for a match: the captured URL in the
      group of the alternative that matched, "" in the other. */
  function Groups(text: string, h: Hit): (string, string)
    requires WellFormed(text, h)
  {
    if h.form == Bracketed then (Captured(text, h), "") else ("", Captured(text, h))
  }

  /** `re.findall(url_pattern, text)` */
  function FindAll(text: string): (r: seq<(string, string)>)
    ensures |r| == |Hits(text, 0)|
    ensures forall i :: 0 <= i < |r| ==>
      && (r[i].0 != [] <==> Hits(text, 0)[i].form == Bracketed)
      && (r[i].0 == [] <==> r[i].1 != [])
  {
    var hs := Hits(text, 0);
    seq(|hs|, i requires 0 <= i < |hs| => Groups(text, hs[i]))
  }

  /** The URL of every match, in order. */
  function Urls(text: string): seq<string>
  {
    var hs := Hits(text, 0);
    seq(|hs|, i requires 0 <= i < |hs| => Captured(text, hs[i]))
  }

  /** `extract_urls(text)` */
  method ExtractUrls(text: string) returns (urls: seq<string>)
    ensures urls == Urls(text)
  {
    var matches := FindAll(text);
    urls := [];
    for k := 0 to |matches|
      invariant urls == Urls(text)[..k]
    {
      var url := if matches[k].0 != "" then matches[k].0 else matches[k].1;
      GroupOfMatch(text, k);
      if url != "" {
        urls := urls + [url];
      }
      assert Urls(text)[..k + 1] == Urls(text)[..k] + [Urls(text)[k]];
    }
    assert Urls(text)[..|matches|] == Urls(text);
  }

  /** The non-empty group of the k-th tuple is the k-th URL. */
  lemma GroupOfMatch(text: string, k: nat)
    requires k < |FindAll(text)|
    ensures |Urls(text)| == |FindAll(text)|
    ensures var g := FindAll(text)[k];
      (if g.0 != "" then g.0 else g.1) == Urls(text)[k] && Urls(text)[k] != ""
  {
    var h := Hits(text, 0)[k];
    assert FindAll(text)[k] == Groups(text, h);
    assert Urls(text)[k] == Captured(text, h);
  }

  // ---------------------------------------------------------------------
  // The scanner agrees with the declarative description
  // ---------------------------------------------------------------------

  /** A run ends at the first stop character, so any end point with no stop
      character before it and a stop character (or the end) at it is that. */
  lemma {:induction false} RunEndIsFirstStop(text: string, p: nat, q: nat, kind: Stop)
    requires p <= q <= |text|
    requires forall i :: p <= i < q ==> !Stops(kind, text[i])
    requires q < |text| ==> Stops(kind, text[q])
    ensures RunEnd(text, p, kind) == q
    decreases q - p
  {
    if p < q {
      assert !Stops(kind, text[p]);
      RunEndIsFirstStop(text, p + 1, q, kind);
    }
  }

  lemma SchemeLengthHasScheme(text: string, p: nat, q: nat)
    requires p + SchemeLength(text, p) < q <= |text| && SchemeLength(text, p) > 0
    ensures HasScheme(text[p..q])
  {
    var n := SchemeLength(text, p);
    assert text[p..q][..n] == text[p..p + n];
  }

  lemma HasSchemeLength(text: string, p: nat, q: nat)
    requires p <= q <= |text| && HasScheme(text[p..q])
    ensures SchemeLength(text, p) > 0 && p + SchemeLength(text, p) < q
  {
    var u := text[p..q];
    if |u| > 8 && u[..8] == "https://" {
      var w := u[..8];
      assert w[0] == 'h' && w[1] == 't' && w[2] == 't' && w[3] == 'p';
      assert w[4] == 's' && w[5] == ':' && w[6] == '/' && w[7] == '/';
      assert forall k :: 0 <= k < 8 ==> text[p + k] == w[k];
    } else {
      var w := u[..7];
      assert w == "http://";
      assert w[0] == 'h' && w[1] == 't' && w[2] == 't' && w[3] == 'p';
      assert w[4] == ':' && w[5] == '/' && w[6] == '/';
      assert forall k :: 0 <= k < 7 ==> text[p + k] == w[k];
    }
  }

  lemma MatchBracketedSound(text: string, pos: nat)
    requires pos <= |text| && MatchBracketed(text, pos).Some?
    ensures MatchBracketed(text, pos).value.start == pos && BracketedMatch(text, MatchBracketed(text, pos).value)
  {
    var h := MatchBracketed(text, pos).value;
    var u := pos + 1;
    var p := u + SchemeLength(text, u);
    var e := RunEnd(text, p, UrlInBrackets);
    assert h.urlStart == u && h.urlEnd == e;
    SchemeLengthHasScheme(text, u, e);
    forall i | u <= i < e
      ensures text[i] != '>' && text[i] != '|'
    {
      if i < p {
        SchemeChar(text, u, i);
      }
    }
  }

  /** The characters of a scheme are those of "https://". */
  lemma SchemeChar(text: string, p: nat, i: nat)
    requires SchemeLength(text, p) > 0 && p <= i < p + SchemeLength(text, p)
    ensures var c := text[i]; c == 'h' || c == 't' || c == 'p' || c == 's' || c == ':' || c == '/'
  {
    var lit := if SchemeLength(text, p) == 8 then "https://" else "http://";
    assert text[p..p + |lit|] == lit;
    assert text[i] == lit[i - p];
  }

  lemma MatchBareSound(text: string, pos: nat)
    requires pos <= |text| && MatchBare(text, pos).Some?
    ensures MatchBare(text, pos).value.start == pos && BareMatch(text, MatchBare(text, pos).value)
  {
    var h := MatchBare(text, pos).value;
    var p := pos + SchemeLength(text, pos);
    SchemeLengthHasScheme(text, pos, h.end);
    forall i | pos <= i < h.end
      ensures BareChar(text[i])
    {
      if i < p {
        SchemeChar(text, pos, i);
      }
    }
  }

  /** Every match the scanner reports at pos is a match of the pattern there. */
  lemma MatchAtSound(text: string, pos: nat)
    requires pos <= |text| && MatchAt(text, pos).Some?
    ensures MatchAt(text, pos).value.start == pos && PatternMatch(text, MatchAt(text, pos).value)
  {
    if MatchBracketed(text, pos).Some? {
      MatchBracketedSound(text, pos);
    } else {
      MatchBareSound(text, pos);
    }
  }

  /** Every match of the pattern at a position is what the scanner reports
      there: the description determines the match. */
  lemma MatchAtComplete(text: string, h: Hit)
    requires PatternMatch(text, h)
    ensures MatchAt(text, h.start) == Some(h)
  {
    if BracketedMatch(text, h) {
      BracketedComplete(text, h);
    } else {
      BareComplete(text, h);
    }
  }

  lemma BracketedComplete(text: string, h: Hit)
    requires BracketedMatch(text, h)
    ensures MatchBracketed(text, h.start) == Some(h)
  {
    if text[h.urlEnd] == '>' {
      ClosedComplete(text, h);
    } else {
      LabelledComplete(text, h);
    }
  }

  /** `<URL>` */
  lemma ClosedComplete(text: string, h: Hit)
    requires BracketedMatch(text, h) && text[h.urlEnd] == '>'
    ensures MatchBracketed(text, h.start) == Some(h)
  {
    var u := h.start + 1;
    HasSchemeLength(text, u, h.urlEnd);
    var p := u + SchemeLength(text, u);
    RunEndIsFirstStop(text, p, h.urlEnd, UrlInBrackets);
    assert h.end == h.urlEnd + 1;
  }

  /** `<URL|LABEL>` */
  lemma LabelledComplete(text: string, h: Hit)
    requires BracketedMatch(text, h) && text[h.urlEnd] != '>'
    ensures MatchBracketed(text, h.start) == Some(h)
  {
    var u := h.start + 1;
    HasSchemeLength(text, u, h.urlEnd);
    var p := u + SchemeLength(text, u);
    RunEndIsFirstStop(text, p, h.urlEnd, UrlInBrackets);
    RunEndIsFirstStop(text, h.urlEnd + 1, h.end - 1, LabelInBrackets);
    assert text[h.urlEnd] == '|';
  }

  lemma BareComplete(text: string, h: Hit)
    requires BareMatch(text, h)
    ensures MatchBracketed(text, h.start) == None && MatchBare(text, h.start) == Some(h)
  {
    HasSchemeLength(text, h.start, h.end);
    assert text[h.start] == text[h.start..h.end][0];
    SchemePrefix(text[h.start..h.end]);
    var p := h.start + SchemeLength(text, h.start);
    RunEndIsFirstStop(text, p, h.end, BareUrl);
  }

  /** The URL of a match found by the scanner starts with a scheme. */
  lemma MatchAtScheme(text: string, pos: nat)
    requires pos <= |text| && MatchAt(text, pos).Some?
    ensures var h := MatchAt(text, pos).value; h.urlStart <= |text| && SchemeLength(text, h.urlStart) > 0
  {
  }

  /** A scheme starts with "http". */
  lemma SchemeStartsHttp(text: string, p: nat)
    requires SchemeLength(text, p) > 0
    ensures StartsAt(text, p, "http")
  {
    var lit := if SchemeLength(text, p) == 8 then "https://" else "http://";
    assert text[p..p + |lit|] == lit;
    var w := text[p..p + 4];
    assert w[0] == lit[0] && w[1] == lit[1] && w[2] == lit[2] && w[3] == lit[3];
    assert w == "http";
  }

  /** A URL with a scheme starts with "http". */
  lemma SchemePrefix(u: string)
    requires HasScheme(u)
    ensures |u| > 4 && u[0] == 'h' && u[1] == 't' && u[2] == 't' && u[3] == 'p'
  {
    if |u| > 7 && u[..7] == "http://" {
      assert u[0] == u[..7][0] && u[1] == u[..7][1] && u[2] == u[..7][2] && u[3] == u[..7][3];
    } else {
      assert u[0] == u[..8][0] && u[1] == u[..8][1] && u[2] == u[..8][2] && u[3] == u[..8][3];
    }
  }

  // ---------------------------------------------------------------------
  // What `re.findall` returns
  // ---------------------------------------------------------------------

  ghost predicate Covered(hs: seq<Hit>, p: nat)
  {
    exists i :: 0 <= i < |hs| && hs[i].start <= p < hs[i].end
  }

  /** Every reported match is a match of the pattern. */
  lemma HitsSound(text: string)
    ensures forall i :: 0 <= i < |Hits(text, 0)| ==> PatternMatch(text, Hits(text, 0)[i])
  {
    var hs := Hits(text, 0);
    forall i | 0 <= i < |hs|
      ensures PatternMatch(text, hs[i])
    {
      HitsFoundAll(text, 0);
      FoundAt(text, hs, i);
      MatchAtSound(text, hs[i].start);
    }
  }

  /** Each match `re.findall` reports is the scanner's match at its start. */
  lemma {:induction false} HitsFoundAll(text: string, pos: nat)
    requires pos <= |text|
    ensures FoundAll(text, Hits(text, pos))
    decreases |text| - pos
  {
    if pos == |text| {
      HitsEnd(text);
    } else if MatchAt(text, pos).Some? {
      HitsFoundAll(text, MatchAt(text, pos).value.end);
      FoundAllStep(text, pos);
    } else {
      HitsFoundAll(text, pos + 1);
      HitsNotFound(text, pos);
    }
  }

  lemma HitsEnd(text: string)
    ensures Hits(text, |text|) == [] && FoundAll(text, [])
  {
  }

  lemma FoundAllStep(text: string, pos: nat)
    requires pos < |text| && MatchAt(text, pos).Some?
    requires FoundAll(text, Hits(text, MatchAt(text, pos).value.end))
    ensures FoundAll(text, Hits(text, pos))
  {
    var h := MatchAt(text, pos).value;
    HitsFound(text, pos);
    FoundAllCons(text, h, Hits(text, h.end));
  }

  lemma FoundAllCons(text: string, h: Hit, rest: seq<Hit>)
    requires h.start <= |text| && MatchAt(text, h.start) == Some(h) && FoundAll(text, rest)
    ensures FoundAll(text, [h] + rest)
  {
    assert ([h] + rest)[1..] == rest;
  }

  /** Each match of a list found by the scanner is what the scanner gives
      at its start. */
  lemma {:induction false} FoundAt(text: string, hs: seq<Hit>, i: nat)
    requires FoundAll(text, hs) && i < |hs|
    ensures hs[i].start <= |text| && MatchAt(text, hs[i].start) == Some(hs[i])
    decreases i
  {
    if i > 0 {
      FoundAt(text, hs[1..], i - 1);
      assert hs[1..][i - 1] == hs[i];
    }
  }

  /** Leftmost-first: every position where the pattern matches is the start
      of a reported match or lies inside one that starts earlier. */
  lemma HitsLeftmost(text: string, pos: nat, m: Hit)
    requires pos <= m.start && PatternMatch(text, m)
    ensures Covered(Hits(text, pos), m.start)
  {
    PatternMatchBounds(text, m);
    MatchAtComplete(text, m);
    ScanCovers(text, pos, m.start);
  }

  /** The search from pos covers every later position where the scanner
      finds a match. */
  lemma {:induction false} ScanCovers(text: string, pos: nat, q: nat)
    requires pos <= q < |text| && MatchAt(text, q).Some?
    ensures Covered(Hits(text, pos), q)
    decreases |text| - pos
  {
    if MatchAt(text, pos).Some? {
      if q < MatchAt(text, pos).value.end {
        CoveredByFirst(text, pos, q);
      } else {
        ScanCovers(text, MatchAt(text, pos).value.end, q);
        CoveredAfterFirst(text, pos, q);
      }
    } else {
      ScanCovers(text, pos + 1, q);
      CoveredPastMiss(text, pos, q);
    }
  }

  lemma CoveredPastMiss(text: string, pos: nat, q: nat)
    requires pos < |text| && MatchAt(text, pos).None? && Covered(Hits(text, pos + 1), q)
    ensures Covered(Hits(text, pos), q)
  {
    HitsNotFound(text, pos);
  }

  lemma CoveredByFirst(text: string, pos: nat, q: nat)
    requires pos <= q < |text| && MatchAt(text, pos).Some? && q < MatchAt(text, pos).value.end
    ensures Covered(Hits(text, pos), q)
  {
    var h := MatchAt(text, pos).value;
    HitsFound(text, pos);
    CoveredHead(h, Hits(text, h.end), q);
  }

  lemma CoveredAfterFirst(text: string, pos: nat, q: nat)
    requires pos < |text| && MatchAt(text, pos).Some?
    requires MatchAt(text, pos).value.end <= |text| && Covered(Hits(text, MatchAt(text, pos).value.end), q)
    ensures Covered(Hits(text, pos), q)
  {
    var h := MatchAt(text, pos).value;
    HitsFound(text, pos);
    CoveredLater(h, Hits(text, h.end), q);
  }

  /** A match found at pos heads the search from pos. */
  lemma HitsFound(text: string, pos: nat)
    requires pos < |text| && MatchAt(text, pos).Some?
    ensures Hits(text, pos) == [MatchAt(text, pos).value] + Hits(text, MatchAt(text, pos).value.end)
  {
  }

  /** Without a match at pos the search moves on by one. */
  lemma HitsNotFound(text: string, pos: nat)
    requires pos < |text| && MatchAt(text, pos).None?
    ensures Hits(text, pos) == Hits(text, pos + 1)
  {
  }

  lemma CoveredHead(h: Hit, rest: seq<Hit>, p: nat)
    requires h.start <= p < h.end
    ensures Covered([h] + rest, p)
  {
    assert ([h] + rest)[0] == h;
  }

  /** A position covered by later matches stays covered once an earlier
      match is put in front. */
  lemma CoveredLater(h: Hit, rest: seq<Hit>, p: nat)
    requires Covered(rest, p)
    ensures Covered([h] + rest, p)
  {
    var i :| 0 <= i < |rest| && rest[i].start <= p < rest[i].end;
    assert ([h] + rest)[i + 1] == rest[i];
  }

  lemma PatternMatchBounds(text: string, m: Hit)
    requires PatternMatch(text, m)
    ensures m.start < m.end <= |text|
  {
  }

  // ---------------------------------------------------------------------
  // What the returned URLs look like
  // ---------------------------------------------------------------------

  /** u is the URL captured by h: it begins with "http://" or "https://"
      and has more after it. A bracketed URL has no '>' and no '|', though
      it may have whitespace. A bare URL has no whitespace, '<' or '>' and
      does not start right after a '<'. */
  ghost predicate Shaped(text: string, h: Hit, u: string)
  {
    && WellFormed(text, h)
    && u == text[h.urlStart..h.urlEnd]
    && HasScheme(u)
    && (h.form == Bracketed ==> '>' !in u && '|' !in u)
    && (h.form == Bare ==> (forall c :: c in u ==> BareChar(c))
                           && (h.urlStart == 0 || text[h.urlStart - 1] != '<'))
  }

  /** Every URL `extract_urls` returns has the shape its match allows. */
  lemma UrlShapes(text: string)
    ensures var hs, us := Hits(text, 0), Urls(text);
      && |us| == |hs|
      && forall i :: 0 <= i < |us| ==> Shaped(text, hs[i], us[i])
  {
    var hs, us := Hits(text, 0), Urls(text);
    forall i | 0 <= i < |us|
      ensures Shaped(text, hs[i], us[i])
    {
      UrlShape(text, i);
    }
  }

  lemma UrlShape(text: string, i: nat)
    requires i < |Hits(text, 0)|
    ensures Shaped(text, Hits(text, 0)[i], Urls(text)[i])
  {
    HitsSound(text);
    CapturedShape(text, Hits(text, 0)[i]);
  }

  /** What a match of the pattern captures. */
  lemma CapturedShape(text: string, h: Hit)
    requires PatternMatch(text, h)
    ensures WellFormed(text, h) && Shaped(text, h, Captured(text, h))
  {
    var u := Captured(text, h);
    forall k | 0 <= k < |u|
      ensures u[k] == text[h.urlStart + k]
    {
    }
  }

  /** The URLs are non-overlapping pieces of the text, in the order in which
      they occur. */
  lemma UrlsInOrder(text: string)
    ensures var hs, us := Hits(text, 0), Urls(text);
      && |us| == |hs|
      && (forall i :: 0 <= i < |us| ==> us[i] == text[hs[i].urlStart..hs[i].urlEnd])
      && (forall i, j :: 0 <= i < j < |us| ==> hs[i].urlEnd <= hs[j].urlStart)
  {
  }

  /** A text in which "http" never occurs has no URLs. */
  lemma NoHttpNoUrls(text: string)
    ensures (forall k: nat :: !StartsAt(text, k, "http")) ==> Urls(text) == []
  {
    var hs := Hits(text, 0);
    if hs != [] {
      var h := hs[0];
      HitsFoundAll(text, 0);
      FoundAt(text, hs, 0);
      MatchAtScheme(text, h.start);
      SchemeStartsHttp(text, h.urlStart);
    }
  }

  /** A '<' with no '>' anywhere after it starts no match, and neither does
      the character after it: an unterminated `<https://...` yields nothing
      from that position, whatever the text holds before it. */
  lemma UnterminatedBracket(text: string, p: nat)
    requires p < |text| && text[p] == '<'
    requires forall i :: p < i < |text| ==> text[i] != '>'
    ensures forall i :: 0 <= i < |Hits(text, 0)| ==>
      Hits(text, 0)[i].start != p && Hits(text, 0)[i].start != p + 1
  {
    HitsSound(text);
  }

  /** Slack's `<url|label>` markup gives back the URL alone, spaces included. */
  lemma BracketedUrlMayHoldSpaces()
    ensures Urls("<https://a b|x>") == ["https://a b"]
  {
    var t := "<https://a b|x>";
    assert t[1..9] == "https://";
    assert SchemeLength(t, 1) == 8;
    RunEndIsFirstStop(t, 9, 12, UrlInBrackets);
    RunEndIsFirstStop(t, 13, 14, LabelInBrackets);
    var h := Hit(Bracketed, 0, 1, 12, 15);
    assert MatchAt(t, 0) == Some(h);
    HitsFound(t, 0);
    assert Hits(t, 0) == [h];
    assert t[1..12] == "https://a b";
  }
}
