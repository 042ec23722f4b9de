# VertoVoice bot core in Dafny

VertoVoice is a Slack bot. It watches messages for links and PDF files,
extracts the text behind them, and asks a language model for two LinkedIn
post drafts in Zoran's voice, fixed by the system prompt. This project models the part of the bot that
decides what happens to the data, with proofs about it:

- **URL extraction from a message** (`UrlScan`). `extract_urls` runs
  `re.findall` with the pattern
  `<(https?://[^>|]+)(?:\|[^>]*)?>|(?<![<])(https?://[^\s<>]+)`. The model
  replaces the regex engine with a scanner written for this one pattern:
  leftmost-first, resuming after each match. It proves the scanner sound
  and complete against a declarative description of the pattern. It then
  proves the shapes of the URLs returned, their order and their
  non-overlap. The loop of `extract_urls` is a method proved against that
  specification.
- **Event de-duplication** (`EventDedup`). The module-level set
  `processed_events` becomes a class `EventCache` with a `set<string>`
  field. Its methods record an event id and dispatch the callback. The set
  never holds more than 1000 ids. A redelivered id is dropped unless the
  set was cleared in between. The id of a bot message is recorded before
  the message is ignored.
- **Prompt assembly and the model call** (`Drafts`). The user message of
  `generate_linkedin_drafts` embeds the first 8000 characters of the
  content. The text "  # Truncate if too long", which sits inside the
  f-string, is part of the message. The "Source URL:" line is present iff
  a non-empty URL is given. The call to the model is a function parameter.
- **Extractors** (`Extractors`). This module models what
  `extract_from_url`, `extract_from_pdf` and `extract_from_text` do with
  the results of the HTTP client, BeautifulSoup and PyPDF2. Those results
  are inputs:
  - a page's selector matches, body, title and h1;
  - the texts of a region's elements;
  - the texts of a PDF's pages.

  The model covers the choice of content region, the title precedence,
  the fragment filter and the 20-page loop with its marker. It also covers
  the whitespace normalisation `' '.join(s.split())` and the length
  thresholds.
- **Python string whitespace** (`PyStr`). This module models
  `str.isspace`, `str.split()`, `str.join`, `str.strip()` and the
  normalisation. It proves that normalising keeps the words, yields single
  spaces only, and is idempotent.

The code appends the marker "[Content truncated - PDF exceeds 20 pages]"
when the loop reaches the page with index 19. That happens for a PDF of
exactly 20 pages too, although such a PDF does not exceed 20 pages. The
model follows the code: `PdfParts` adds the marker when there are 20 pages
or more.

## Model

| member | source | states |
|---|---|---|
| PyStr.Split | extractors.py:93 | `str.split()` yields words: non-empty and free of whitespace |
| PyStr.Strip | extractors.py:82 | `str.strip()` gives a string that neither starts nor ends with whitespace |
| PyStr.StripEmptyIffAllSpace | extractors.py:82-83 | a stripped text is empty iff the text is all whitespace |
| PyStr.StripInfix | extractors.py:82 | the stripped string is the input with only whitespace removed from its two ends |
| PyStr.Normalize | extractors.py:93 | `' '.join(s.split())` is normalised (no leading or trailing whitespace, only single spaces between words); it is empty iff the input is all whitespace |
| PyStr.SplitEmptyIffAllSpace | extractors.py:93 | a string has no words iff it is all whitespace |
| PyStr.SplitAroundSpace | extractors.py:86 | a whitespace separator splits the words of the two sides apart and adds none |
| PyStr.Join | extractors.py:86 | `sep.join(parts)` begins with the first part, character for character; its words are those of the parts (SplitJoin) and joining splits over concatenation (JoinAppend) |
| PyStr.SplitJoin | extractors.py:86 | joining parts with a whitespace separator keeps each part's words, in order |
| PyStr.JoinAppend | extractors.py:86 | joining a concatenation is joining the two halves around one separator |
| PyStr.JoinWordsNormalized | extractors.py:93 | words joined by single spaces form a normalised string |
| PyStr.SplitJoinWords | extractors.py:93 | splitting words joined by single spaces gives back those words |
| PyStr.NormalizeKeepsWords | extractors.py:93 | normalisation keeps the words of the text, in order |
| PyStr.NormalizeIdempotent | extractors.py:93 | normalising twice is normalising once |
| PyStr.NormalizedIsJoinOfWords | extractors.py:93 | a normalised string is the single-space join of its own words |
| PyStr.NormalizeFixpoints | extractors.py:93 | normalisation leaves a string unchanged iff the string is normalised |
| UrlScan.RunEndIsFirstStop | app.py:33 | a character run of the pattern ends at the first character that stops it |
| UrlScan.MatchAt | app.py:33 | a match found at a position starts there and lies within the text |
| UrlScan.MatchAtSound | app.py:33 | every match the scanner reports is a match of the pattern at that position |
| UrlScan.MatchAtComplete | app.py:33 | every match of the pattern at a position is the one the scanner reports there |
| UrlScan.Hits | app.py:34 | `re.findall`'s matches are well formed, start at or after the search position, do not overlap, in left-to-right order |
| UrlScan.HitsFoundAll | app.py:34 | each match `re.findall` reports is the match the pattern gives at its start position |
| UrlScan.ScanCovers | app.py:34 | the search covers every later position where a match exists: it reports that match or one that spans the position |
| UrlScan.HitsSound | app.py:34 | every reported match is a match of the pattern |
| UrlScan.HitsLeftmost | app.py:34 | every position where the pattern matches starts a reported match or lies inside an earlier one |
| UrlScan.ExtractUrls | app.py:31-40 | the loop over the match tuples returns the captured URL of every match, in order |
| UrlScan.CapturedShape | app.py:33 | what a match of the pattern captures starts with "http://" or "https://" and has more after it; a bracketed URL has no '>' and no vertical bar; a bare URL has no whitespace, '<' or '>' and does not follow a '<' |
| UrlScan.UrlShapes | app.py:33-39 | each URL starts with "http://" or "https://" and has more after it; a bracketed URL has no '>' and no vertical bar; a bare URL has no whitespace, '<' or '>' and does not follow a '<' |
| UrlScan.UrlsInOrder | app.py:34-40 | the URLs are non-overlapping substrings of the text, in order of occurrence |
| UrlScan.NoHttpNoUrls | app.py:34-40 | a text in which "http" never occurs yields no URL |
| UrlScan.UnterminatedBracket | app.py:33 | a '<' with no '>' anywhere after it starts no match, and neither does the character right after it: an unterminated `<https://…` yields nothing from there, whatever precedes it |
| UrlScan.FindAll | app.py:34 | `re.findall` gives one tuple per match, in order; exactly one of its two groups is non-empty, the first for the bracketed alternative and the second for the bare one (GroupOfMatch ties that group to the URL) |
| UrlScan.BracketedUrlMayHoldSpaces | app.py:33 | a bracketed link with a label yields only the URL before the label's vertical bar, spaces included |
| EventDedup.EventCache.constructor | app.py:28 | the processed set starts empty |
| EventDedup.EventCache.HandleEventId | app.py:131-137 | a known id is reported as a duplicate and changes nothing; a new id is added, and the whole set is cleared when it then exceeds 1000; the bound is kept |
| EventDedup.EventCache.OnEventCallback | app.py:126-160 | the id is recorded first; a duplicate dispatches nothing; otherwise link_shared, a bot message, or a message with its files flag and extracted URLs is dispatched |
| EventDedup.RecordedBounded | app.py:133-137 | after a callback the set holds at most 1000 ids; it is emptied exactly when a new id arrives while it holds 1000; otherwise the new id is added |
| EventDedup.ReplayedBounded | app.py:133-137 | the bound holds after any run of callbacks |
| EventDedup.StaysRecorded | app.py:133 | a recorded id stays in the set until the set is cleared |
| EventDedup.RedeliveryIsDuplicate | app.py:131-132 | an id delivered again is a duplicate and leaves the set unchanged, unless the set was cleared in between |
| EventDedup.BotMessageRemembered | app.py:148-149 | a bot message with a new id dispatches no handler, yet its id is remembered unless the set was full |
| Drafts.Truncated | app.py:51 | `content[:8000]` is the longest prefix of at most 8000 characters |
| Drafts.SourceLine | app.py:53 | the "Source URL:" line is present iff a non-empty URL is given, and then carries that URL |
| Drafts.UserMessage | app.py:48-73 | the content's first min(len, 8000) characters and the source-URL line sit between the fixed opening, the text after the content and the instructions, and read back from the message |
| Drafts.DraftRequest | app.py:76-83 | the request uses model `claude-sonnet-4-20250514` and `max_tokens` 2000, passes the system prompt unchanged, and its user message reads back to the truncated content and the source-URL line |
| Drafts.ReadBackUserMessage | app.py:48-73 | the user message holds exactly the first min(len, 8000) characters of the content and the source-URL line; both can be read back from it |
| Drafts.PromptIgnoresContentPastBudget | app.py:51 | content past the first 8000 characters does not change the user message |
| Drafts.GenerateLinkedinDrafts | app.py:75-95 | drafts are the first text block of the response; an exception gives a failure carrying its message; an empty response is a failure |
| Extractors.SelectMainContent | extractors.py:55-62 | the selector loop with its body fallback yields the element of the first selector that finds one, else the body |
| Extractors.FirstSelectedIsEarliest | extractors.py:43-58 | the region chosen belongs to the earliest selector that finds an element; there is none iff no selector finds one |
| Extractors.NoRegionNoContent | extractors.py:61-65 | there is no region iff no selector finds an element and there is no body, and then the result is None |
| Extractors.PageTitle | extractors.py:68-75 | an existing h1 gives the title, even when its text is empty; without an h1 the stripped `<title>` text is used; with neither the title is ""; it has no surrounding whitespace |
| Extractors.CollectFragments | extractors.py:78-84 | the fragment loop keeps exactly what the fragment filter keeps, in document order |
| Extractors.LongOnlyAppend | extractors.py:81-84 | the length filter on the stripped texts works element by element and keeps document order |
| Extractors.LongFragmentsSound | extractors.py:82-84 | every kept fragment is the stripped text of an element and is longer than 20 characters |
| Extractors.LongFragmentsTrimmed | extractors.py:82-84 | no kept fragment starts or ends with whitespace |
| Extractors.LongFragmentsComplete | extractors.py:82-84 | every element whose stripped text is longer than 20 characters contributes it |
| Extractors.IfLonger | extractors.py:97 | the content is returned iff it is longer than the threshold |
| Extractors.ExtractFromUrl | extractors.py:24-104 | a failed fetch gives None; otherwise the result is the page's normalised content when it is longer than 100 characters |
| Extractors.ArticleText | extractors.py:86-90 | the article's words are "#" and the title's words when the title is not empty, then the words of each fragment in order |
| Extractors.PageContentWords | extractors.py:86-97 | the content is longer than 100 characters and normalised; its words are "#" and the title's words when there is a title, then the words of each kept fragment in order |
| Extractors.PageContentStartsWithTitle | extractors.py:89-93 | with a title, the content starts with "# " and the normalised title |
| Extractors.CollectPdfParts | extractors.py:133-141 | the page loop keeps the non-empty texts of the first 20 pages, in order, and adds the marker last when there are 20 pages or more |
| Extractors.ExtractFromPdf | extractors.py:107-161 | a failed download or read gives None; otherwise the result is the normalised joined parts when they are longer than 100 characters |
| Extractors.NonEmptyPagesAppend | extractors.py:133-136 | pages are kept page by page, in order |
| Extractors.NonEmptyPagesMembers | extractors.py:135-136 | the kept texts are exactly the non-empty page texts |
| Extractors.MarkerSplit | extractors.py:140 | the marker contributes its seven words |
| Extractors.PdfContentWords | extractors.py:143-150 | the content is longer than 100 characters and normalised; its words are those of the kept pages, then the marker's words for 20 pages or more |
| Extractors.BlankPdfYieldsNothing | extractors.py:139-150 | a PDF of 20 or more pages with no words in its first 20 yields None, since the marker alone is under the threshold |
| Extractors.LongPdfEndsWithMarker | extractors.py:139-141 | a PDF of 20 or more pages yields content ending with the marker line, and pages after the 20th have no effect |
| Extractors.PdfEndsWithMarker | extractors.py:139-141 | the content of a PDF of 20 or more pages ends with the marker line |
| Extractors.PdfPartsIgnoreLaterPages | extractors.py:133-141 | once 20 pages are read, later pages do not change the parts collected |
| Extractors.MarkerLineJoin | extractors.py:140 | the marker line is its seven words joined by single spaces |
| Extractors.ExtractFromText | extractors.py:164-175 | empty text gives None; otherwise the result is the normalised text, which keeps the text's words, iff it is longer than 50 characters |

## Left out

- HTTP fetching (`requests.get`, timeouts, `raise_for_status`) is not modelled. It is network I/O, so its outcome is an optional input: `None` for any failure.
- BeautifulSoup parsing, the removal of script/style/nav/footer/header/aside/form/iframe, `select_one`, `find` and `find_all` are not modelled. Their results are given as data (`Extractors.Page`, `Extractors.Region`). An element is always truthy in bs4, so a found element counts even when empty.
- PyPDF2, the temporary file and its removal are not modelled. The page texts are given as a sequence, with "" for a page whose text is empty or `None`.
- Slack `WebClient`, the Flask routes (health check, URL verification challenge), JSON handling and logging are not modelled, because they are external services and I/O.
- The Anthropic client is a function parameter. A response block without a `.text` attribute is not modelled: every block is taken to be text.
- `EventDedup.EventCache.OnEventCallback`: does not model what the dispatched handlers (`handle_link_shared`, `handle_file_shared`, `handle_urls_in_message`) do, only which of them runs and with which URLs. Those handlers are not part of this model.
- `EventDedup.EventCache.HandleEventId`: takes the id as a string. A callback without `event_id` uses Python's `None` as one more key; here that is some reserved string.
- Concurrent requests touching `processed_events` are not modelled; the cache is used sequentially.
- Exceptions raised inside the extractors are not modelled. The exception kinds collapse into a `None` result.
- prompts.py is not part of this model. The system prompt is a parameter.
- The pending-selection store, video handling and voice profiles do not exist in the code and are not modelled.
- `PyStr.IsSpace` fixes Python's `str.isspace` set of code points. Unicode data beyond that set is not modelled.
