/** What the extractors of extractors.py do with what the HTTP client, the
    HTML parser and the PDF reader give them: the choice of the content
    region, the title, the fragment filter, the page loop of a PDF, the
    whitespace normalisation and the length thresholds. Fetching, parsing
    and reading PDFs are not modelled: their results are inputs, and any
    failure among them is an input of `None`. */
module Extractors {
  import opened Wrappers
  import opened PyStr

  /** The content selectors, tried in this order (extractors.py lines 43-53). */
  const ContentSelectors: seq<string> :=
    ["article", "[role=\"main\"]", ".post-content", ".article-content", ".entry-content",
     ".content", "main", ".blog-post", ".post-body"]

  /** A fragment is kept only when longer than this (line 83). */
  const MinFragmentLength: nat := 20
  /** A page or a PDF yields content only when longer than this (lines 97 and 150). */
  const MinArticleLength: nat := 100
  /** Plain text yields content only when longer than this (line 175). */
  const MinTextLength: nat := 50
  /** Pages read from a PDF (line 139). */
  const MaxPdfPages: nat := 20

  const MarkerLine: string := "[Content truncated - PDF exceeds 20 pages]"
  /** The part appended after the 20th page (line 140). */
  const TruncationMarker: string := "\n" + MarkerLine
  const MarkerWords: seq<string> := ["[Content", "truncated", "-", "PDF", "exceeds", "20", "pages]"]

  /** An element of the parsed page, seen through what is read from it: the
      `get_text()` of each p, h1, h2, h3, h4 and li element inside it, in
      document order. */
  datatype Region = Region(fragments: seq<string>)

  /** A parsed page after its script, style, nav, footer, header, aside,
      form and iframe elements were removed. `selected` maps each content
      selector that `select_one` finds to the element it finds; `body` is
      the <body> element; `titleText` and `h1Text` are the `get_text()` of
      the first <title> and the first <h1>, when there are such elements. */
  datatype Page = Page(selected: map<string, Region>, body: Option<Region>,
                       titleText: Option<string>, h1Text: Option<string>)

  // ---------------------------------------------------------------------
  // The content region
  // ---------------------------------------------------------------------

  /** The element found by the first of `selectors` that finds one. */
  function FirstSelected(selectors: seq<string>, selected: map<string, Region>): Option<Region>
  {
    if selectors == [] then None
    else if selectors[0] in selected then Some(selected[selectors[0]])
    else FirstSelected(selectors[1..], selected)
  }

  /** `selectors[i]` finds an element and no earlier selector does. */
  predicate IsFirstFound(selectors: seq<string>, selected: map<string, Region>, i: nat)
  {
    && i < |selectors| && selectors[i] in selected
    && forall j :: 0 <= j < i ==> selectors[j] !in selected
  }

  /** The content region: the element of the first selector that finds one,
      else <body>. A found element counts even when it is empty, since an
      element is always truthy. */
  function MainContent(page: Page): Option<Region>
  {
    match FirstSelected(ContentSelectors, page.selected)
    case Some(region) => Some(region)
    case None => page.body
  }

  /** The selector loop of lines 55-62 and its fallback to <body>. */
  method SelectMainContent(page: Page) returns (main: Option<Region>)
    ensures main == MainContent(page)
  {
    main := None;
    var i := 0;
    while i < |ContentSelectors|
      invariant 0 <= i <= |ContentSelectors|
      invariant FirstSelected(ContentSelectors[i..], page.selected)
                == FirstSelected(ContentSelectors, page.selected)
      invariant main == None
    {
      var selector := ContentSelectors[i];
      main := if selector in page.selected then Some(page.selected[selector]) else None;
      if main.Some? {
        break;
      }
      assert ContentSelectors[i..][1..] == ContentSelectors[i + 1..];
      i := i + 1;
    }
    if main.None? {
      main := page.body;
    }
  }

  /** The region chosen is that of the earliest selector that finds an
      element; there is none exactly when no selector finds one. */
  lemma {:induction false} FirstSelectedIsEarliest(selectors: seq<string>, selected: map<string, Region>)
    ensures FirstSelected(selectors, selected) == None
            <==> forall i :: 0 <= i < |selectors| ==> selectors[i] !in selected
    ensures forall i: nat :: IsFirstFound(selectors, selected, i)
              ==> FirstSelected(selectors, selected) == Some(selected[selectors[i]])
    decreases |selectors|
  {
    if selectors != [] {
      FirstSelectedIsEarliest(selectors[1..], selected);
      forall i: nat | IsFirstFound(selectors, selected, i)
        ensures FirstSelected(selectors, selected) == Some(selected[selectors[i]])
      {
        if i > 0 {
          assert IsFirstFound(selectors[1..], selected, i - 1);
        }
      }
    }
  }

  /** There is no content region, and so no content, exactly when no
      selector finds an element and the page has no <body>. */
  lemma NoRegionNoContent(page: Page)
    ensures MainContent(page) == None
            <==> page.body == None
                 && forall i :: 0 <= i < |ContentSelectors| ==> ContentSelectors[i] !in page.selected
    ensures MainContent(page) == None ==> PageContent(page) == None
  {
    FirstSelectedIsEarliest(ContentSelectors, page.selected);
  }

  // ---------------------------------------------------------------------
  // The title and the fragments
  // ---------------------------------------------------------------------

  /** The title (lines 68-75): the stripped text of the first <h1>, even
      when that is empty, else that of <title>, else "". */
  function PageTitle(page: Page): (title: string)
    ensures IsStripped(title)
    ensures page.h1Text.Some? ==> title == Strip(page.h1Text.value)
    ensures page.h1Text.None? && page.titleText.Some? ==> title == Strip(page.titleText.value)
    ensures page.h1Text.None? && page.titleText.None? ==> title == []
  {
    if page.h1Text.Some? then Strip(page.h1Text.value)
    else if page.titleText.Some? then Strip(page.titleText.value)
    else ""
  }

  /** `p.get_text().strip()` for each element of the region. */
  function StrippedTexts(texts: seq<string>): (r: seq<string>)
    ensures |r| == |texts|
    ensures forall i :: 0 <= i < |texts| ==> r[i] == Strip(texts[i])
  {
    seq(|texts|, i requires 0 <= i < |texts| => Strip(texts[i]))
  }

  /** The filter of lines 82-84 over stripped texts: the non-empty ones
      longer than 20 characters, in order. */
  function LongOnly(parts: seq<string>): seq<string>
    decreases |parts|
  {
    if parts == [] then []
    else
      var t := parts[|parts| - 1];
      LongOnly(parts[..|parts| - 1]) + (if t != [] && |t| > MinFragmentLength then [t] else [])
  }

  /** The fragments kept from the texts of a region's elements. */
  function LongFragments(texts: seq<string>): seq<string>
  {
    LongOnly(StrippedTexts(texts))
  }

  /** The fragment loop of lines 78-84. */
  method CollectFragments(main: Region) returns (parts: seq<string>)
    ensures parts == LongFragments(main.fragments)
  {
    ghost var stripped := StrippedTexts(main.fragments);
    parts := [];
    for i := 0 to |main.fragments|
      invariant parts == LongOnly(stripped[..i])
    {
      var text := Strip(main.fragments[i]);
      assert text == stripped[i];
      if text != [] && |text| > MinFragmentLength {
        parts := parts + [text];
      }
      LongOnlySnoc(stripped, i);
    }
    assert stripped[..|main.fragments|] == stripped;
  }

  lemma LongOnlySnoc(parts: seq<string>, i: nat)
    requires i < |parts|
    ensures LongOnly(parts[..i + 1])
              == LongOnly(parts[..i]) + (if parts[i] != [] && |parts[i]| > MinFragmentLength then [parts[i]] else [])
  {
    assert parts[..i + 1][..i] == parts[..i];
  }

  /** The filter works element by element, keeping document order. */
  lemma {:induction false} LongOnlyAppend(a: seq<string>, b: seq<string>)
    ensures LongOnly(a + b) == LongOnly(a) + LongOnly(b)
    decreases |b|
  {
    if b == [] {
      assert a + b == a;
    } else {
      var init := b[..|b| - 1];
      assert (a + b)[..|a + b| - 1] == a + init;
      LongOnlyAppend(a, init);
    }
  }

  lemma {:induction false} LongOnlySound(parts: seq<string>, k: nat)
    requires k < |LongOnly(parts)|
    ensures |LongOnly(parts)[k]| > MinFragmentLength
    ensures exists i :: 0 <= i < |parts| && LongOnly(parts)[k] == parts[i]
    decreases |parts|
  {
    var init, last := parts[..|parts| - 1], parts[|parts| - 1];
    var kept := LongOnly(init);
    if k < |kept| {
      LongOnlySound(init, k);
      assert LongOnly(parts)[k] == kept[k];
      var i :| 0 <= i < |init| && kept[k] == init[i];
      assert parts[i] == init[i];
    } else {
      assert LongOnly(parts) == kept + [last];
      assert LongOnly(parts)[k] == last;
    }
  }

  /** Every fragment kept is the stripped text of one of the elements and
      is longer than 20 characters. */
  lemma LongFragmentsSound(texts: seq<string>, k: nat)
    requires k < |LongFragments(texts)|
    ensures |LongFragments(texts)[k]| > MinFragmentLength
    ensures exists i :: 0 <= i < |texts| && LongFragments(texts)[k] == Strip(texts[i])
  {
    var parts := StrippedTexts(texts);
    LongOnlySound(parts, k);
    var i :| 0 <= i < |parts| && LongOnly(parts)[k] == parts[i];
    assert LongFragments(texts)[k] == Strip(texts[i]);
  }

  /** No kept fragment has surrounding whitespace. */
  lemma LongFragmentsTrimmed(texts: seq<string>, k: nat)
    requires k < |LongFragments(texts)|
    ensures IsStripped(LongFragments(texts)[k])
  {
    LongFragmentsSound(texts, k);
    var i :| 0 <= i < |texts| && LongFragments(texts)[k] == Strip(texts[i]);
  }

  lemma LongOnlyKeeps(parts: seq<string>, i: nat)
    requires i < |parts| && |parts[i]| > MinFragmentLength
    ensures parts[i] in LongOnly(parts)
  {
    var pre, post := parts[..i + 1], parts[i + 1..];
    var kept := LongOnly(parts[..i]);
    LongOnlySnoc(parts, i);
    assert LongOnly(pre)[|kept|] == parts[i];
    assert parts == pre + post;
    LongOnlyAppend(pre, post);
    assert LongOnly(parts)[|kept|] == parts[i];
  }

  /** Every element whose stripped text is longer than 20 characters
      contributes that text. */
  lemma LongFragmentsComplete(texts: seq<string>)
    ensures forall i :: 0 <= i < |texts| && |Strip(texts[i])| > MinFragmentLength
              ==> Strip(texts[i]) in LongFragments(texts)
  {
    forall i | 0 <= i < |texts| && |Strip(texts[i])| > MinFragmentLength
      ensures Strip(texts[i]) in LongFragments(texts)
    {
      LongOnlyKeeps(StrippedTexts(texts), i);
    }
  }

  // ---------------------------------------------------------------------
  // The content of a page
  // ---------------------------------------------------------------------

  /** The article before normalisation (lines 86-90): the kept fragments
      joined by blank lines, headed by "# title" and a blank line when the
      title is not empty. Its words are "#" and the title's words, when
      there is a title, then those of each part in order. */
  function ArticleText(title: string, parts: seq<string>): (r: string)
    ensures Split(r) == (if title != [] then ["#"] + Split(title) else []) + SplitAll(parts)
  {
    var text := Join("\n\n", parts);
    SplitJoinParts(parts);
    if title != [] then
      TitledWords(title, text);
      "# " + title + "\n\n" + text
    else text
  }

  /** `content if len(content) > minimum else None` */
  function IfLonger(content: string, minimum: nat): (r: Option<string>)
    ensures r.Some? <==> |content| > minimum
    ensures r.Some? ==> r.value == content
  {
    if |content| > minimum then Some(content) else None
  }

  /** What `extract_from_url` returns for a page that was fetched and parsed. */
  function PageContent(page: Page): Option<string>
  {
    match MainContent(page)
    case None => None
    case Some(main) =>
      IfLonger(Normalize(ArticleText(PageTitle(page), LongFragments(main.fragments))), MinArticleLength)
  }

  /** `extract_from_url` (lines 24-104) once the page is fetched: `fetched`
      is `None` when the request, the status check or the parser failed. */
  method ExtractFromUrl(fetched: Option<Page>) returns (content: Option<string>)
    ensures fetched.None? ==> content == None
    ensures fetched.Some? ==> content == PageContent(fetched.value)
  {
    if fetched.None? {
      return None;
    }
    var page := fetched.value;
    var main := SelectMainContent(page);
    if main.None? {
      return None;
    }
    var title := PageTitle(page);
    var parts := CollectFragments(main.value);
    var text := Join("\n\n", parts);
    if title != [] {
      text := "# " + title + "\n\n" + text;
    }
    text := Normalize(text);
    content := if |text| > MinArticleLength then Some(text) else None;
  }

  /** The words of a page's content: "#" and the title's words when there
      is a title, then the words of each kept fragment in document order.
      The content is those words joined by single spaces. */
  lemma PageContentWords(page: Page)
    requires PageContent(page).Some?
    ensures MainContent(page).Some?
    ensures var c := PageContent(page).value;
      && |c| > MinArticleLength && IsNormalized(c)
      && Split(c) == (if PageTitle(page) != [] then ["#"] + Split(PageTitle(page)) else [])
                     + SplitAll(LongFragments(MainContent(page).value.fragments))
  {
    var title, parts := PageTitle(page), LongFragments(MainContent(page).value.fragments);
    var text := ArticleText(title, parts);
    NormalizeKeepsWords(text);
  }

  /** Parts joined by blank lines keep their words. */
  lemma SplitJoinParts(parts: seq<string>)
    ensures Split(Join("\n\n", parts)) == SplitAll(parts)
  {
    assert AllSpace("\n\n");
    SplitJoin("\n\n", parts);
  }

  /** The heading line contributes "#" and the title's words. */
  lemma TitledWords(title: string, body: string)
    ensures Split("# " + title + "\n\n" + body) == ["#"] + Split(title) + Split(body)
  {
    assert "# " + title + "\n\n" + body == "#" + " " + (title + "\n\n" + body);
    assert AllSpace(" ") && AllSpace("\n\n");
    SplitAroundSpace("#", " ", title + "\n\n" + body);
    SplitAroundSpace(title, "\n\n", body);
    assert NoSpace("#") && [] + "#" == "#";
    SplitFromWord("#", []);
  }

  /** A page with a title yields content that starts with "# " and the
      title with its whitespace normalised. */
  lemma PageContentStartsWithTitle(page: Page)
    requires PageContent(page).Some? && PageTitle(page) != []
    ensures var c, head := PageContent(page).value, "# " + Normalize(PageTitle(page));
      |head| <= |c| && c[..|head|] == head
  {
    var title := PageTitle(page);
    var text := ArticleText(title, LongFragments(MainContent(page).value.fragments));
    PageContentWords(page);
    NormalizeKeepsWords(text);
    assert !AllSpace(title) by {
      assert !IsSpace(title[0]);
    }
    SplitEmptyIffAllSpace(title);
    HeadedJoin(Split(title), SplitAll(LongFragments(MainContent(page).value.fragments)));
  }

  /** Words headed by "#" and a non-empty run of words join into a string
      that starts with "# " and that run joined. */
  lemma HeadedJoin(tw: seq<string>, rest: seq<string>)
    requires tw != []
    ensures var c, head := Join(" ", ["#"] + tw + rest), "# " + Join(" ", tw);
      |head| <= |c| && c[..|head|] == head
  {
    assert ["#"] + tw + rest == ["#"] + (tw + rest);
    JoinAppend(" ", ["#"], tw + rest);
    var head := "# " + Join(" ", tw);
    if rest == [] {
      assert tw + rest == tw;
    } else {
      JoinAppend(" ", tw, rest);
      assert Join(" ", ["#"] + tw + rest) == head + (" " + Join(" ", rest));
    }
  }

  // ---------------------------------------------------------------------
  // The content of a PDF
  // ---------------------------------------------------------------------

  /** The texts of the pages that yielded any, in page order (line 135). */
  function NonEmptyPages(pages: seq<string>): seq<string>
    decreases |pages|
  {
    if pages == [] then []
    else NonEmptyPages(pages[..|pages| - 1]) + (if pages[|pages| - 1] != [] then [pages[|pages| - 1]] else [])
  }

  /** The parts the page loop collects: the non-empty texts of the first 20
      pages, then the truncation marker when the loop reached the 20th
      page, which it does for a PDF of exactly 20 pages as well. */
  function PdfParts(pages: seq<string>): seq<string>
  {
    if |pages| < MaxPdfPages then NonEmptyPages(pages)
    else NonEmptyPages(pages[..MaxPdfPages]) + [TruncationMarker]
  }

  /** The page loop of lines 133-141. `pages` holds what `extract_text()`
      returns for each page, "" standing for an empty or absent text. */
  method CollectPdfParts(pages: seq<string>) returns (parts: seq<string>)
    ensures parts == PdfParts(pages)
  {
    parts := [];
    var pageNum := 0;
    while pageNum < |pages|
      invariant pageNum <= |pages| && pageNum < MaxPdfPages
      invariant parts == NonEmptyPages(pages[..pageNum])
    {
      var pageText := pages[pageNum];
      if pageText != [] {
        parts := parts + [pageText];
      }
      assert pages[..pageNum + 1][..pageNum] == pages[..pageNum];
      if pageNum >= MaxPdfPages - 1 {
        parts := parts + [TruncationMarker];
        break;
      }
      pageNum := pageNum + 1;
    }
    if pageNum == |pages| {
      assert pages[..pageNum] == pages;
    }
  }

  /** What `extract_from_pdf` returns for a PDF that was downloaded and read. */
  function PdfContent(pages: seq<string>): Option<string>
  {
    IfLonger(Normalize(Join("\n\n", PdfParts(pages))), MinArticleLength)
  }

  /** `extract_from_pdf` (lines 107-161) once the file is downloaded:
      `download` is `None` when the download, the temporary file or the PDF
      reader failed. */
  method ExtractFromPdf(download: Option<seq<string>>) returns (content: Option<string>)
    ensures download.None? ==> content == None
    ensures download.Some? ==> content == PdfContent(download.value)
  {
    if download.None? {
      return None;
    }
    var parts := CollectPdfParts(download.value);
    var text := Normalize(Join("\n\n", parts));
    content := if |text| > MinArticleLength then Some(text) else None;
  }

  /** Pages are kept page by page, in order. */
  lemma {:induction false} NonEmptyPagesAppend(a: seq<string>, b: seq<string>)
    ensures NonEmptyPages(a + b) == NonEmptyPages(a) + NonEmptyPages(b)
    decreases |b|
  {
    if b == [] {
      assert a + b == a;
    } else {
      var init := b[..|b| - 1];
      assert (a + b)[..|a + b| - 1] == a + init;
      NonEmptyPagesAppend(a, init);
    }
  }

  /** The kept texts are exactly the non-empty page texts. */
  lemma {:induction false} NonEmptyPagesMembers(pages: seq<string>)
    ensures forall t :: t in NonEmptyPages(pages) <==> t != [] && t in pages
    decreases |pages|
  {
    if pages != [] {
      var init := pages[..|pages| - 1];
      NonEmptyPagesMembers(init);
      assert pages == init + [pages[|pages| - 1]];
    }
  }

  /** The marker line is its seven words joined by single spaces. */
  lemma MarkerLineWords()
    ensures Join(" ", MarkerWords) == MarkerLine && AreWords(MarkerWords)
  {
    MarkerLineJoin();
    MarkerWordsAreWords();
  }

  lemma MarkerLineJoin()
    ensures Join(" ", MarkerWords) == MarkerLine
  {
    var w := MarkerWords;
    JoinSeven(" ", w);
    MarkerLineSpelled();
  }

  /** The marker line is its words with a space after each but the last. */
  lemma MarkerLineSpelled()
    ensures var w := MarkerWords;
      w[0] + " " + w[1] + " " + w[2] + " " + w[3] + " " + w[4] + " " + w[5] + " " + w[6] == MarkerLine
  {
  }

  /** Seven parts joined: each followed by the separator but the last. */
  lemma JoinSeven(sep: string, w: seq<string>)
    requires |w| == 7
    ensures Join(sep, w) == w[0] + sep + w[1] + sep + w[2] + sep + w[3] + sep + w[4] + sep + w[5] + sep + w[6]
  {
    assert Join(sep, w[5..]) == w[5] + sep + w[6];
    assert Join(sep, w[4..]) == w[4] + sep + (w[5] + sep + w[6]);
    assert Join(sep, w[3..]) == w[3] + sep + (w[4] + sep + (w[5] + sep + w[6]));
    assert Join(sep, w[2..]) == w[2] + sep + (w[3] + sep + (w[4] + sep + (w[5] + sep + w[6])));
    assert Join(sep, w[1..]) == w[1] + sep + (w[2] + sep + (w[3] + sep + (w[4] + sep + (w[5] + sep + w[6]))));
    assert w == w[0..];
  }

  lemma MarkerWordsAreWords()
    ensures AreWords(MarkerWords)
  {
    forall i | 0 <= i < |MarkerWords|
      ensures IsWord(MarkerWords[i])
    {
      var w := MarkerWords[i];
      forall k | 0 <= k < |w|
        ensures !IsSpace(w[k])
      {
        assert '!' <= w[k] <= '~';
      }
    }
  }

  /** The marker contributes its seven words. */
  lemma MarkerSplit()
    ensures Split(TruncationMarker) == MarkerWords
    ensures Join(" ", MarkerWords) == MarkerLine
  {
    MarkerLineWords();
    assert AllSpace("\n");
    SplitSpacePrefix("\n", MarkerLine);
    SplitJoinWords(MarkerWords);
  }

  /** The words of a PDF's content: those of the non-empty texts among the
      first 20 pages, then, for a PDF of 20 pages or more, the marker's. */
  lemma PdfContentWords(pages: seq<string>)
    requires PdfContent(pages).Some?
    ensures var c := PdfContent(pages).value;
      && |c| > MinArticleLength && IsNormalized(c)
      && Split(c) == if |pages| < MaxPdfPages then SplitAll(NonEmptyPages(pages))
                     else SplitAll(NonEmptyPages(pages[..MaxPdfPages])) + MarkerWords
  {
    var parts := PdfParts(pages);
    var text := Join("\n\n", parts);
    NormalizeKeepsWords(text);
    SplitJoinParts(parts);
    if |pages| >= MaxPdfPages {
      var kept := NonEmptyPages(pages[..MaxPdfPages]);
      SplitAllAppend(kept, [TruncationMarker]);
      MarkerSplit();
      assert SplitAll([TruncationMarker]) == Split(TruncationMarker) + SplitAll([]);
    }
  }

  /** A PDF of 20 pages or more whose first 20 pages hold no words yields
      nothing: the marker alone is shorter than the threshold. */
  lemma BlankPdfYieldsNothing(pages: seq<string>)
    requires |pages| >= MaxPdfPages && SplitAll(NonEmptyPages(pages[..MaxPdfPages])) == []
    ensures PdfContent(pages) == None
  {
    if PdfContent(pages).Some? {
      var c := PdfContent(pages).value;
      PdfContentWords(pages);
      MarkerLineWords();
      assert Split(c) == MarkerWords;
      NormalizedIsJoinOfWords(c);
    }
  }

  /** A PDF of 20 pages or more yields content ending with the marker, and
      pages after the 20th have no effect. */
  lemma LongPdfEndsWithMarker(pages: seq<string>, more: seq<string>)
    requires |pages| >= MaxPdfPages && PdfContent(pages).Some?
    ensures var c := PdfContent(pages).value;
      |MarkerLine| <= |c| && c[|c| - |MarkerLine|..] == MarkerLine
    ensures PdfContent(pages + more) == PdfContent(pages)
  {
    PdfEndsWithMarker(pages);
    PdfPartsIgnoreLaterPages(pages, more);
  }

  /** The content of a PDF of 20 pages or more ends with the marker line. */
  lemma PdfEndsWithMarker(pages: seq<string>)
    requires |pages| >= MaxPdfPages && PdfContent(pages).Some?
    ensures var c := PdfContent(pages).value;
      |MarkerLine| <= |c| && c[|c| - |MarkerLine|..] == MarkerLine
  {
    var c := PdfContent(pages).value;
    var kept := SplitAll(NonEmptyPages(pages[..MaxPdfPages]));
    assert c == Join(" ", kept + MarkerWords) by {
      var text := Join("\n\n", PdfParts(pages));
      PdfContentWords(pages);
      NormalizeKeepsWords(text);
      assert c == Join(" ", Split(text));
      MarkerSplit();
    }
    if kept == [] {
      BlankPdfYieldsNothing(pages);
      assert false;
    } else {
      EndsWithMarkerLine(kept);
    }
  }

  /** Once 20 pages are there, later pages do not change the parts. */
  lemma PdfPartsIgnoreLaterPages(pages: seq<string>, more: seq<string>)
    requires |pages| >= MaxPdfPages
    ensures PdfParts(pages + more) == PdfParts(pages)
  {
    assert (pages + more)[..MaxPdfPages] == pages[..MaxPdfPages];
  }

  /** Words followed by the marker's join into a string ending with the
      marker line. */
  lemma EndsWithMarkerLine(kept: seq<string>)
    requires kept != []
    ensures var c := Join(" ", kept + MarkerWords);
      |MarkerLine| <= |c| && c[|c| - |MarkerLine|..] == MarkerLine
  {
    MarkerLineJoin();
    JoinAppend(" ", kept, MarkerWords);
    var c := Join(" ", kept + MarkerWords);
    assert c == (Join(" ", kept) + " ") + MarkerLine;
  }

  // ---------------------------------------------------------------------
  // Plain text
  // ---------------------------------------------------------------------

  /** `extract_from_text` (lines 164-175): the empty text gives `None`;
      otherwise the normalised text when it is longer than 50 characters,
      keeping the text's words in order. */
  function ExtractFromText(text: string): (content: Option<string>)
    ensures text == [] ==> content == None
    ensures content.Some? <==> |Normalize(text)| > MinTextLength
    ensures content.Some? ==> IsNormalized(content.value) && Split(content.value) == Split(text)
  {
    NormalizeKeepsWords(text);
    if text == [] then None else IfLonger(Normalize(text), MinTextLength)
  }
}
