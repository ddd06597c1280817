/**
 * The string handling around the PDF-to-JSON endpoint: joining the page
 * texts of a PDF, truncating the document for the Gemini prompt, and
 * cleaning the code fence off Gemini's reply. PyMuPDF and Gemini are
 * parameters (oracles).
 */
module PptJson {
  import opened Wrappers
  import opened PyStr

  /**
   * `extract_text_from_pdf(path)`: the page texts joined by newlines and
   * stripped. `None` stands for a document that could not be opened or read,
   * which yields `""`.
   */
  function ExtractTextFromPdf(pages: Option<seq<string>>): (text: string)
    ensures pages.None? ==> text == ""
    ensures Trimmed(text)
    ensures pages.Some? ==> (text == "" <==> AllSpace(Join('\n', pages.value)))
  {
    match pages
    case None => ""
    case Some(ps) => Strip(Join('\n', ps))
  }

  /**
   * The page texts can be split back out of the extracted text when no page
   * contains a newline and the joined text has no whitespace at its ends.
   */
  lemma PagesRecoverable(ps: seq<string>)
    requires |ps| >= 1
    requires forall k :: 0 <= k < |ps| ==> '\n' !in ps[k]
    requires Trimmed(Join('\n', ps))
    ensures Split('\n', ExtractTextFromPdf(Some(ps))) == ps
  {
    StripTrimmed(Join('\n', ps));
    SplitJoin('\n', ps);
  }

  /** The number of characters of the document embedded in the prompt (`pdf_text[:5000]`). */
  const DocumentLimit: nat := 5000

  const PromptHead: string :=
    "\n    I want you to go through every single topic and make it one JSON key.  "
    + "\n    Then, go through every subpoint of that unit and write a **detailed description**  "
    + "\n    for each point in the \"subpoints\" section.  "
    + "\n    Next, go to the next topic (1, 2, 3, ... till the last one).  "
    + "\n    **Ensure the JSON is as detailed as possible**."
    + "\n\n    **Here is the document content:**"
    + "\n    "

  const PromptTail: string :=
    "  # Limiting input size."
    + "\n\n    **Return only valid JSON output. Do not include any extra text or explanations.**"
    + "\n    "

  /** The part of the document text that the prompt embeds. */
  function EmbeddedDocument(pdfText: string): (d: string)
    ensures |d| <= DocumentLimit && |d| <= |pdfText|
    ensures d == pdfText[..|d|]
    ensures |pdfText| <= DocumentLimit ==> d == pdfText
    ensures |pdfText| > DocumentLimit ==> |d| == DocumentLimit
  {
    Prefix(pdfText, DocumentLimit)
  }

  /** The f-string `fixed_query` of `generate_json_with_gemini`. */
  function GeminiPrompt(pdfText: string): (p: string)
    ensures |p| == |PromptHead| + |EmbeddedDocument(pdfText)| + |PromptTail|
    ensures p[|PromptHead|..|p| - |PromptTail|] == EmbeddedDocument(pdfText)
    ensures p[..|PromptHead|] == PromptHead
    ensures p[|p| - |PromptTail|..] == PromptTail
  {
    var d := EmbeddedDocument(pdfText);
    assert (PromptHead + d + PromptTail)[|PromptHead|..|PromptHead| + |d|] == d;
    assert (PromptHead + d + PromptTail)[..|PromptHead|] == PromptHead;
    assert (PromptHead + d + PromptTail)[|PromptHead| + |d|..] == PromptTail;
    PromptHead + d + PromptTail
  }

  /** Two document texts with the same first 5000 characters give the same prompt. */
  lemma PromptSeesOnlyPrefix(a: string, b: string)
    requires Prefix(a, DocumentLimit) == Prefix(b, DocumentLimit)
    ensures GeminiPrompt(a) == GeminiPrompt(b)
  {
  }

  const OpeningFence: string := "```json"
  const ClosingFence: string := "```"

  /**
   * The cleanup of Gemini's reply: strip it, drop a leading "```json"
   * (exactly 7 characters), then drop a trailing "```" (exactly 3) from what
   * is left. The result is not stripped again.
   */
  function CleanJsonReply(reply: string): (r: string)
    ensures var j := Strip(reply);
      var a := if StartsWith(j, OpeningFence) then |OpeningFence| else 0;
      var b := if EndsWith(j[a..], ClosingFence) then |ClosingFence| else 0;
      && a + b <= |j|
      && r == j[a..|j| - b]
      && |r| == |j| - a - b
    ensures !StartsWith(Strip(reply), OpeningFence) && !EndsWith(Strip(reply), ClosingFence) ==> r == Strip(reply)
  {
    var jsonOutput := Strip(reply);
    var afterOpen := if StartsWith(jsonOutput, OpeningFence) then jsonOutput[|OpeningFence|..] else jsonOutput;
    if EndsWith(afterOpen, ClosingFence) then afterOpen[..|afterOpen| - |ClosingFence|] else afterOpen
  }

  lemma CleanFenced(payload: string)
    ensures CleanJsonReply(OpeningFence + payload + ClosingFence) == payload
  {
    var m := OpeningFence + payload + ClosingFence;
    assert Trimmed(m) by {
      assert m[0] == '`' && m[|m| - 1] == '`';
    }
    StripTrimmed(m);
    assert m[..|OpeningFence|] == OpeningFence;
    var rest := m[|OpeningFence|..];
    assert rest == payload + ClosingFence;
    assert rest[|rest| - |ClosingFence|..] == ClosingFence;
    assert rest[..|rest| - |ClosingFence|] == payload;
  }

  /** Whatever whitespace surrounds it, a payload wrapped in the two fences comes back exactly. */
  lemma CleanFencedReply(lead: string, payload: string, trail: string)
    requires AllSpace(lead) && AllSpace(trail)
    ensures CleanJsonReply(lead + OpeningFence + payload + ClosingFence + trail) == payload
  {
    var m := OpeningFence + payload + ClosingFence;
    assert lead + OpeningFence + payload + ClosingFence + trail == lead + m + trail;
    assert Trimmed(m) by {
      assert m[0] == '`' && m[|m| - 1] == '`';
    }
    StripAround(lead, m, trail);
    StripTrimmed(m);
    CleanFenced(payload);
  }

  /** The cleaned reply is not stripped again: the newlines inside the fences stay. */
  lemma CleanKeepsInnerNewlines()
    ensures CleanJsonReply("```json\n{}\n```") == "\n{}\n"
  {
    assert "```json\n{}\n```" == "" + OpeningFence + "\n{}\n" + ClosingFence + "";
    CleanFencedReply("", "\n{}\n", "");
  }

  /**
   * `generate_json_with_gemini(pdf_text)`: Gemini is asked the prompt built
   * from the first 5000 characters, and its cleaned reply is returned.
   */
  function GenerateJsonWithGemini(pdfText: string, gemini: string -> string): (r: string)
    ensures |r| <= |gemini(GeminiPrompt(pdfText))|
  {
    CleanJsonReply(gemini(GeminiPrompt(pdfText)))
  }

  /** Characters of the document past the 5000th never influence the result. */
  lemma GeminiSeesOnlyPrefix(a: string, b: string, gemini: string -> string)
    requires Prefix(a, DocumentLimit) == Prefix(b, DocumentLimit)
    ensures GenerateJsonWithGemini(a, gemini) == GenerateJsonWithGemini(b, gemini)
  {
    PromptSeesOnlyPrefix(a, b);
  }
}
