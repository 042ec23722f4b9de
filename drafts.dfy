/** `generate_linkedin_drafts` (app.py lines 43-95): the user message built
    around the extracted content, the request sent to the model, and the
    dict returned. The system prompt comes from prompts.py and is a
    parameter here; the model call is a function given to the model. */
module Drafts {
  import opened Wrappers

  /** How many characters of the content the prompt embeds (`content[:8000]`). */
  const ContentBudget: nat := 8000

  /** Lines 48-50, up to where the content starts. */
  const Opening: string :=
    "Based on this content, create 2 different LinkedIn post drafts in Zoran's voice.\n\nSOURCE CONTENT:\n"

  /** The rest of line 51 and the blank line 52. The "# Truncate if too long"
      stands inside the f-string, so it is sent as part of the prompt. */
  const AfterContent: string := "  # Truncate if too long\n\n"

  /** Lines 53-72 after the source-URL line. "## Version B" is followed by
      two spaces. */
  const Instructions: string :=
    "\n\n---\n\nCreate 2 distinct versions:\n"
    + "- **Version A**: More insight-focused (lead with the key learning/observation)\n"
    + "- **Version B**: More engagement-focused (end with a genuine question)\n\n"
    + "For each version:\n"
    + "1. Keep it under 200 words\n"
    + "2. Use Zoran's actual language patterns\n"
    + "3. Tag relevant team members if their expertise applies\n"
    + "4. Include a relevant social proof quote only if it fits naturally (don't force it)\n\n"
    + "Format your response as:\n"
    + "## Version A\n[post content]\n\n"
    + "## Version B  \n[post content]\n"

  const Model: string := "claude-sonnet-4-20250514"
  const MaxTokens: nat := 2000

  /** `content[:8000]`: the longest prefix of at most 8000 characters. */
  function Truncated(content: string): (r: string)
    ensures |r| <= ContentBudget && |r| <= |content| && r == content[..|r|]
    ensures |r| == ContentBudget || r == content
  {
    if |content| <= ContentBudget then content else content[..ContentBudget]
  }

  /** `f"Source URL: {source_url}" if source_url else ""`. Both `None` and
      the empty string are falsy. */
  function SourceLine(sourceUrl: Option<string>): (line: string)
    ensures line != [] <==> sourceUrl.Some? && sourceUrl.value != []
    ensures line != [] ==> line == "Source URL: " + sourceUrl.value
  {
    if sourceUrl.Some? && sourceUrl.value != [] then "Source URL: " + sourceUrl.value else ""
  }

  /** `user_message` */
  function UserMessage(content: string, sourceUrl: Option<string>): (m: string)
    ensures ReadBack(m, |Truncated(content)|) == Some((Truncated(content), SourceLine(sourceUrl)))
  {
    UnwrapPieces(Opening, Truncated(content), AfterContent, SourceLine(sourceUrl), Instructions);
    Opening + Truncated(content) + AfterContent + SourceLine(sourceUrl) + Instructions
  }

  /** Reads the embedded content and the source-URL line back out of a user
      message, given how many characters of content it embeds. */
  function ReadBack(message: string, embedded: nat): Option<(string, string)>
  {
    Unwrap(message, Opening, embedded, AfterContent, Instructions)
  }

  /** The two pieces of `message` that sit between the fixed texts `a`, `b`
      and `c`, when the first of them is `n` characters long. */
  function Unwrap(message: string, a: string, n: nat, b: string, c: string): Option<(string, string)>
  {
    var head := |a| + n + |b|;
    if && head + |c| <= |message|
       && message[..|a|] == a
       && message[|a| + n..head] == b
       && message[|message| - |c|..] == c
    then Some((message[|a|..|a| + n], message[head..|message| - |c|]))
    else None
  }

  /** The request `generate_linkedin_drafts` sends (lines 76-83). */
  datatype Request = Request(model: string, maxTokens: nat, system: string, userMessage: string)

  /** What the client gives back: the texts of the response's content
      blocks, or the message of the exception it raised. */
  datatype Reply = Response(texts: seq<string>) | Raised(message: string)

  /** The returned dict: `{"success": True, "drafts": ...}` or
      `{"success": False, "error": ...}`. */
  datatype DraftResult = Generated(drafts: string) | Failed(error: string)

  /** The request: the fixed model and token budget, the system prompt
      as given, and a user message from which the embedded content and the
      source-URL line read back. */
  function DraftRequest(content: string, sourceUrl: Option<string>, systemPrompt: string): (r: Request)
    ensures r.model == "claude-sonnet-4-20250514" && r.maxTokens == 2000 && r.system == systemPrompt
    ensures ReadBack(r.userMessage, |Truncated(content)|) == Some((Truncated(content), SourceLine(sourceUrl)))
  {
    Request(Model, MaxTokens, systemPrompt, UserMessage(content, sourceUrl))
  }

  /** `generate_linkedin_drafts(content, source_url)`: one call, no retry. An
      exception becomes a failure carrying its message. Reading
      `response.content[0]` of an empty response raises inside the `try` as
      well. */
  function GenerateLinkedinDrafts(content: string, sourceUrl: Option<string>, systemPrompt: string,
                                  send: Request -> Reply): (r: DraftResult)
    ensures var reply := send(DraftRequest(content, sourceUrl, systemPrompt));
      && (r.Generated? <==> reply.Response? && reply.texts != [])
      && (r.Generated? ==> r.drafts == reply.texts[0])
      && (reply.Raised? ==> r == Failed(reply.message))
  {
    match send(DraftRequest(content, sourceUrl, systemPrompt))
    case Raised(message) => Failed(message)
    case Response(texts) =>
      if texts == [] then Failed("list index out of range") else Generated(texts[0])
  }

  // ---------------------------------------------------------------------
  // What the prompt holds
  // ---------------------------------------------------------------------

  /** The user message holds exactly the first min(|content|, 8000)
      characters of the content and the source-URL line, which is there
      iff the URL is given and not empty; both can be read back. */
  lemma ReadBackUserMessage(content: string, sourceUrl: Option<string>)
    ensures var k := if |content| <= ContentBudget then |content| else ContentBudget;
      && ReadBack(UserMessage(content, sourceUrl), k) == Some((content[..k], SourceLine(sourceUrl)))
      && |UserMessage(content, sourceUrl)|
           == |Opening| + k + |AfterContent| + |SourceLine(sourceUrl)| + |Instructions|
  {
    UnwrapPieces(Opening, Truncated(content), AfterContent, SourceLine(sourceUrl), Instructions);
  }

  /** Five concatenated pieces: the two between the fixed texts read back. */
  lemma UnwrapPieces(a: string, t: string, b: string, l: string, c: string)
    ensures |a + t + b + l + c| == |a| + |t| + |b| + |l| + |c|
    ensures Unwrap(a + t + b + l + c, a, |t|, b, c) == Some((t, l))
  {
    var m := a + t + b + l + c;
    var h := |a| + |t| + |b|;
    assert m == a + (t + (b + (l + c)));
    assert m[|a|..] == t + (b + (l + c));
    assert m[|a| + |t|..] == b + (l + c);
    assert m[h..] == l + c;
    assert m[..|a|] == a && m[|a|..|a| + |t|] == t && m[|a| + |t|..h] == b;
    assert m[h..|m| - |c|] == l && m[|m| - |c|..] == c;
  }

  /** Content past the first 8000 characters does not reach the prompt. */
  lemma PromptIgnoresContentPastBudget(c1: string, c2: string, sourceUrl: Option<string>)
    requires |c1| >= ContentBudget && |c2| >= ContentBudget
    requires c1[..ContentBudget] == c2[..ContentBudget]
    ensures UserMessage(c1, sourceUrl) == UserMessage(c2, sourceUrl)
  {
  }
}
