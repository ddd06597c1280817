# Quiz and document helpers of aipoweredlms-backend, modelled in Dafny

The backend of this learning-management system gives a PDF library a chat
endpoint, a quiz endpoint and a PDF-to-JSON endpoint. Most of it is glue
around Gemini, a Chroma index, S3 and PyMuPDF. This project models the
deterministic logic around those services and proves what it does.

- **`parse_user_input`** turns a quiz request such as "photosynthesis easy"
  into a topic and a difficulty.
  - The difficulty is the leftmost case-insensitive occurrence of easy, medium
    or hard, capitalized. It may sit inside a longer word. It is "Medium" when
    no keyword occurs.
  - The topic is the request with every whole-word keyword deleted, then
    stripped.
- **The code-fence cleanup of a quiz reply**: `re.sub` of "```json\n" and
  "\n```", then `strip()`.
- **`generate_mcqs`**: the loop of up to three attempts. Each attempt invokes
  the quiz model, cleans the reply, decodes it and validates it.
  - A decode error or a failed validation tries again.
  - Any other exception, including `len` of an unsized value, leaves the loop.
  - The model counts the invocations.
- **`get_rag_quiz`** asks the retriever for the parsed topic. With no pages it
  gives `[]` and never invokes the model. Otherwise it runs the loop.
- **`get_rag_response`** falls back to a fixed sentence when the chain's
  answer is missing or blank.
- **`extract_text_from_pdf`** joins the page texts with newlines and strips
  them. It gives `""` when the PDF cannot be read.
- **`generate_json_with_gemini`** embeds the first 5000 characters of the
  document in a fixed prompt. It then removes a leading "```json" and a
  trailing "```" from the stripped reply.

## Modules and oracles

| file | module | what it holds |
|---|---|---|
| `wrappers.dfy` | `Wrappers` | `Option` |
| `pystr.dfy` | `PyStr` | Python `str` built-ins on `seq<char>` |
| `json.dfy` | `Json` | decoded JSON values, Python `len` and `bool` |
| `ragchat.dfy` | `RagChat` | the quiz and chat logic of `ragchat.py` |
| `pptjson.dfy` | `PptJson` | the PDF and Gemini helpers of `pptjson.py` |

Python's `str` built-ins are modelled as follows:

- `strip()` removes exactly the characters for which `str.isspace()` holds,
  Unicode ones included.
- `split`/`join` use a one-character separator.
- `s[:n]`, `startswith` and `endswith` keep their usual meaning.
- `capitalize()` (`PyStr.Capitalize`) changes the case of ASCII letters only.
- `\w` and case-insensitive matching are ASCII.

The services are parameters of the operations:

| service | parameter | meaning |
|---|---|---|
| quiz model | `invoke: (McqPrompt, nat) -> Reply` | the reply on attempt `k` |
| `json.loads` | `parse: string -> Decoded` | a value, a `JSONDecodeError`, or another exception |
| retriever | `retrieve: string -> seq<string>` | the page texts in retrieval order |
| chat chain | `chain: string -> Option<string>` | the `"answer"` entry, if there is one |
| Gemini | `gemini: string -> string` | the reply text |
| PyMuPDF | `Option<seq<string>>` | page texts, or `None` when opening or reading fails |

Three facts about the code shape the model:

- The quiz template (ragchat.py:100-129) has no `{context}` placeholder.
  `generate_mcqs` passes the retrieved text as "context" (ragchat.py:157),
  but the template drops it, so the text never reaches the model.
  - `McqPrompt` holds only the topic and the difficulty.
  - `GenerateMcqs` takes the text and ignores it.
- The topic drops every whole-word keyword (ragchat.py:148), not only the one
  that decides the difficulty. A keyword inside a longer word stays in the
  topic.
- The chat fallback is the sentence of ragchat.py:139-140, "I couldn't find
  an answer from your documents.".

One might expect "```json\n" + P + "\n```" to clean to `strip(P)` whenever
P holds neither fence pattern. For `P = "```json"` it gives "```" instead:
the closing fence's newline completes a second opening fence, which the
`re.sub` of ragchat.py:161 deletes. `RagChat.FencedPayloadNeedsGuard` proves
this input. `RagChat.FencedPayload` carries the extra premise that P does not
end with "```json".

## Model

| member | source | states |
|---|---|---|
| PyStr.Strip | aipoweredlms/quiz_api/ragchat.py:148 | The result of `strip()` neither begins nor ends with whitespace and is no longer than the input. It is empty exactly when the input is all whitespace. |
| PyStr.StripSlice | aipoweredlms/quiz_api/ragchat.py:148 | `strip()` gives the slice of the input that starts right after the leading whitespace and leaves only whitespace after it. |
| PyStr.StripAround | aipoweredlms/quiz_api/ragchat.py:148 | A trimmed string surrounded by whitespace strips to itself. |
| PyStr.SplitJoin | aipoweredlms/quiz_api/ragchat.py:184 | Splitting a join gives back the parts when no part contains the separator. |
| PyStr.JoinSplit | aipoweredlms/quiz_api/ragchat.py:184 | Joining the pieces of a split gives back the string. |
| PyStr.Prefix | aipoweredlms/quiz_api/pptjson.py:37 | `s[:n]` is the first `min(n, len(s))` characters of `s`. |
| Json.Len | aipoweredlms/quiz_api/ragchat.py:164 | `len` is defined exactly for strings, lists and dicts. On a list it is the number of items. |
| Json.SizedNonEmptyIsTruthy | aipoweredlms/quiz_api/ragchat.py:187 | A sized non-empty value passes `if not mcq_list`, and `[]` fails it. |
| RagChat.KeywordAt | aipoweredlms/quiz_api/ragchat.py:146 | The reported alternative matches at the position, ignoring case. With no report, no alternative matches there. |
| RagChat.KeywordUnique | aipoweredlms/quiz_api/ragchat.py:146 | At most one keyword matches at a position, so whichever matches is the one reported. |
| RagChat.Search | aipoweredlms/quiz_api/ragchat.py:146 | `re.search` reports the leftmost position where a keyword matches. No keyword matches before it. |
| RagChat.SearchFinds | aipoweredlms/quiz_api/ragchat.py:146 | When a keyword matches at `p` and none matches between the start and `p`, `re.search` reports `p` with that keyword. |
| RagChat.CapitalizedKeyword | aipoweredlms/quiz_api/ragchat.py:147 | `capitalize()` turns every spelling of a keyword into "Easy", "Medium" or "Hard". |
| RagChat.Difficulty | aipoweredlms/quiz_api/ragchat.py:146-147 | The difficulty is always one of "Easy", "Medium" and "Hard". |
| RagChat.DifficultyOfLeftmost | aipoweredlms/quiz_api/ragchat.py:146-147 | The leftmost keyword occurrence decides the difficulty, inside a longer word too. |
| RagChat.DifficultyDefault | aipoweredlms/quiz_api/ragchat.py:147 | Without any keyword occurrence the difficulty is "Medium". |
| RagChat.KeywordAtReports | aipoweredlms/quiz_api/ragchat.py:146 | Whenever a keyword matches at a position, the alternation reports exactly that keyword there. |
| RagChat.WholeWordAt | aipoweredlms/quiz_api/ragchat.py:148 | A whole-word match is reported exactly when a keyword matches with a `\b` boundary on both sides, and the reported keyword is that one. |
| RagChat.WholeWordsDisjoint | aipoweredlms/quiz_api/ragchat.py:148 | Two whole-word keyword occurrences never overlap. |
| RagChat.RemoveKeywords | aipoweredlms/quiz_api/ragchat.py:148 | The `re.sub` scan never lengthens the text. |
| RagChat.RemoveKeywordsKeepsUncovered | aipoweredlms/quiz_api/ragchat.py:148 | The `re.sub` scan keeps exactly the characters outside every whole-word keyword occurrence, in order. |
| RagChat.RemoveKeywordsNone | aipoweredlms/quiz_api/ragchat.py:148 | A stretch with no whole-word match passes through the scan unchanged. |
| RagChat.Topic | aipoweredlms/quiz_api/ragchat.py:148 | The topic has no leading or trailing whitespace. It is the stripped sequence of characters outside every whole-word keyword. |
| RagChat.ParseUserInput | aipoweredlms/quiz_api/ragchat.py:144-149 | The pair (topic, difficulty): the topic is trimmed and the difficulty is one of "Easy", "Medium" and "Hard". `Topic`, `Difficulty`, `TrailingLevel` and the example lemmas state its values. |
| RagChat.TrailingLevel | aipoweredlms/quiz_api/ragchat.py:144-149 | For a trimmed topic with no keyword in it, "<topic> <keyword>" parses to that topic and the keyword's difficulty. |
| RagChat.ParsePhotosynthesisEasy | aipoweredlms/quiz_api/ragchat.py:144-149 | "photosynthesis easy" parses to ("photosynthesis", "Easy"). |
| RagChat.ParseMachineLearningMedium | aipoweredlms/quiz_api/testrag.py:7 | "machine learning medium" parses to ("machine learning", "Medium"). |
| RagChat.KeywordInsideWord | aipoweredlms/quiz_api/ragchat.py:146-148 | "hardware basics" parses to ("hardware basics", "Hard"): the keyword inside a word sets the difficulty and stays in the topic. |
| RagChat.HardwareKept | aipoweredlms/quiz_api/ragchat.py:148 | "hard" at the start of "hardware" is not a whole word, so the `re.sub` scan deletes nothing from "hardware basics". |
| RagChat.HardwareIsHard | aipoweredlms/quiz_api/ragchat.py:146-147 | "hard" inside "hardware" decides the difficulty of "hardware basics". |
| RagChat.RemoveFences | aipoweredlms/quiz_api/ragchat.py:161 | The fence `re.sub` never lengthens the text. |
| RagChat.StripFences | aipoweredlms/quiz_api/ragchat.py:161 | The cleaned reply has no leading or trailing whitespace and is no longer than the reply. |
| RagChat.RemoveFencesFree | aipoweredlms/quiz_api/ragchat.py:161 | Text holding neither fence pattern passes through the fence `re.sub` unchanged. |
| RagChat.FencesAbsent | aipoweredlms/quiz_api/ragchat.py:161 | A reply with neither fence pattern comes back merely stripped. |
| RagChat.NoOpenInPayload | aipoweredlms/quiz_api/ragchat.py:161 | Inside a fenced payload that holds no opening fence and does not end with "```json", no opening fence starts before the closing fence. |
| RagChat.NoCloseInPayload | aipoweredlms/quiz_api/ragchat.py:161 | Inside a fenced payload that holds no closing fence, no closing fence starts before the final one. |
| RagChat.RemoveFencesAtClose | aipoweredlms/quiz_api/ragchat.py:161 | A closing fence at the very end of the text is deleted. |
| RagChat.RemoveFencesPayload | aipoweredlms/quiz_api/ragchat.py:161 | From inside a fenced payload on, the fence `re.sub` gives the rest of the payload and deletes the closing fence. |
| RagChat.FencedPayload | aipoweredlms/quiz_api/ragchat.py:161 | "```json\n" + P + "\n```" cleans to `strip(P)` when P holds neither pattern and does not end with "```json". |
| RagChat.FencedPayloadNeedsGuard | aipoweredlms/quiz_api/ragchat.py:161 | For P = "```json", which holds neither pattern, the fenced reply cleans to "```" and not to `strip(P)`. |
| RagChat.Classify | aipoweredlms/quiz_api/ragchat.py:155-172 | An exception from the model aborts. For a reply decoded after fence stripping: a `JSONDecodeError` retries and any other decode exception aborts. A value that is not a dict with "mcqs" retries. An unsized "mcqs" value aborts, because `len` raises. A zero-length one retries, and a sized non-empty one is accepted and returned as is. Conversely, an accepted attempt had such a dict. |
| RagChat.Attempt | aipoweredlms/quiz_api/ragchat.py:154-172 | One pass of the `try` block gives exactly the verdict `Classify` assigns to that attempt's reply, so each case of `Classify` holds for the pass. |
| RagChat.Verdicts | aipoweredlms/quiz_api/ragchat.py:153-159 | There are three attempts, and attempt `k` is judged on the `k`-th reply. |
| RagChat.RunFrom | aipoweredlms/quiz_api/ragchat.py:153-173 | The remaining attempts make at least one and at most as many invocations as remain. The result is `[]` or a sized non-empty value. |
| RagChat.McqOutcome | aipoweredlms/quiz_api/ragchat.py:151-173 | `generate_mcqs` invokes the model one to three times and returns `[]` or a sized non-empty value. |
| RagChat.DecidedAt | aipoweredlms/quiz_api/ragchat.py:153-172 | After retries up to attempt `k`, a deciding attempt `k` fixes the result after `k + 1` invocations. |
| RagChat.ExhaustedFrom | aipoweredlms/quiz_api/ragchat.py:153-173 | Retries on every remaining attempt give `[]` after one invocation each. |
| RagChat.RunShape | aipoweredlms/quiz_api/ragchat.py:153-173 | Every run over three verdicts has all verdicts before the last equal to a retry. The last one's accepted value is returned, any other verdict returns `[]`, and a last retry means all three attempts were used. |
| RagChat.McqOutcomeShape | aipoweredlms/quiz_api/ragchat.py:151-173 | Every outcome of `generate_mcqs` has that shape, stated on the replies: one to three invocations, retries before the last, and the last verdict deciding the result. |
| RagChat.SuccessPath | aipoweredlms/quiz_api/ragchat.py:153-165 | The first attempt that validates returns its "mcqs" value unchanged after exactly that many invocations. |
| RagChat.RetryExhaustion | aipoweredlms/quiz_api/ragchat.py:164-173 | Three attempts that each decode badly or fail validation return `[]` after three invocations. |
| RagChat.AbortPath | aipoweredlms/quiz_api/ragchat.py:164-173 | An unexpected exception on attempt `k` returns `[]` at once, after `k + 1` invocations. |
| RagChat.AlwaysInvalidJson | aipoweredlms/quiz_api/ragchat.py:162-169 | A model whose replies never decode is asked three times and yields `[]`. |
| RagChat.GenerateMcqs | aipoweredlms/quiz_api/ragchat.py:151-173 | The loop, running each attempt through `Attempt`, returns the result and invocation count of `McqOutcome`. It invokes the model one to three times, and every attempt before the last asked for a retry. The last attempt's verdict gives the result, and a retry there means all three attempts were used. |
| RagChat.ExtractedText | aipoweredlms/quiz_api/ragchat.py:184 | The page texts joined by single spaces in retrieval order: no pages give "", the first page's text opens the context, and a single space follows it when more pages come. |
| RagChat.ContextRecoverable | aipoweredlms/quiz_api/ragchat.py:184 | The context joins the page texts with single spaces. For at least one page and no spaces in the pages, it splits back into the pages. |
| RagChat.GetRagQuiz | aipoweredlms/quiz_api/ragchat.py:175-191 | Retrieval uses the parsed topic. An empty retrieval gives `[]` with no invocation. Otherwise the result is `generate_mcqs` on the parsed topic and difficulty. The result is always `[]` or a sized non-empty value. |
| RagChat.GetRagResponse | aipoweredlms/quiz_api/ragchat.py:135-142 | A missing or all-whitespace answer gives the fixed sentence. Any other answer is returned unchanged and unstripped. |
| PptJson.ExtractTextFromPdf | aipoweredlms/quiz_api/pptjson.py:15-23 | An unreadable PDF gives "". The text has no leading or trailing whitespace. It is empty exactly when the newline-joined pages are all whitespace. |
| PptJson.PagesRecoverable | aipoweredlms/quiz_api/pptjson.py:20-23 | Pages without newlines whose join is already trimmed split back out of the extracted text. |
| PptJson.EmbeddedDocument | aipoweredlms/quiz_api/pptjson.py:37 | The prompt embeds a prefix of the document of at most 5000 characters. A longer document is cut to exactly 5000, and a shorter one is embedded whole. |
| PptJson.GeminiPrompt | aipoweredlms/quiz_api/pptjson.py:29-40 | The prompt begins with the fixed head text and ends with the fixed tail text, and the embedded document is exactly what lies between them. |
| PptJson.PromptSeesOnlyPrefix | aipoweredlms/quiz_api/pptjson.py:37 | Documents that agree on their first 5000 characters give the same prompt. |
| PptJson.CleanJsonReply | aipoweredlms/quiz_api/pptjson.py:43-51 | For the stripped reply `j`, the result is the contiguous slice `j[a:len(j)-b]`. Here `a` is 7 exactly when `j` starts with "```json" (else 0). `b` is 3 exactly when the rest ends with "```" (else 0). A reply with neither fence comes back merely stripped. |
| PptJson.CleanFenced | aipoweredlms/quiz_api/pptjson.py:46-49 | "```json" + P + "```" cleans to exactly P. |
| PptJson.CleanFencedReply | aipoweredlms/quiz_api/pptjson.py:43-51 | A payload wrapped in both fences, with any whitespace around them, comes back exactly. |
| PptJson.CleanKeepsInnerNewlines | aipoweredlms/quiz_api/pptjson.py:43-51 | The result is not stripped again: "```json\n{}\n```" gives "\n{}\n". |
| PptJson.GenerateJsonWithGemini | aipoweredlms/quiz_api/pptjson.py:42-51 | The returned text is no longer than Gemini's reply to the prompt. |
| PptJson.GeminiSeesOnlyPrefix | aipoweredlms/quiz_api/pptjson.py:37-51 | The document's characters past the 5000th never influence the result. |

## Left out

- The module-level setup of `ragchat.py` (lines 15-133) is not modelled. It covers environment loading, S3 listing and download, temporary files, PDF loading with chunking, embeddings, the Chroma index and the construction of the models and chains. It is all I/O or library behaviour. The only part the model keeps is that the quiz template has no context placeholder.
- The quiz model, the chat chain, the retriever and Gemini are oracles, because their behaviour is foreign code.
- `json.loads` is an oracle, so the JSON grammar is not modelled. NaN and infinite numbers are not distinguished.
- `response.content if hasattr(response, "content") else str(response)` is folded into the oracle's reply text.
- An exception raised by Gemini or by `response.text` is not modelled, since it propagates out of `generate_json_with_gemini` unchanged.
- An exception inside `rag_chain.invoke` is not modelled, since `get_rag_response` does not handle it.
- An exception inside `retriever.invoke` is not modelled, since `get_rag_quiz` does not handle it.
- PyMuPDF is an oracle for the page texts.
- The `print` calls are logging only and are not modelled.
- Questions, options, answers and difficulty bands inside an MCQ are not checked. The code never checks them; the prompt only asks the model to respect them.
- `views.py`, `urls.py`, `upload.py`, `equation.py`, `summerization.py` and `testrag.py` are HTTP plumbing, SDK wrappers or a duplicate of `extract_text_from_pdf`, and are not part of this model.
- RagChat.WholeWordAt, RagChat.KeywordAt and RagChat.Topic model `\w` and `re.IGNORECASE` on ASCII only. Python's `re` also treats non-ASCII letters as word characters. Its case folding also lets "ı" (U+0131) and "İ" (U+0130) match the "i" of "medium", and "ſ" (U+017F) match the "s" of "easy", which could give a difficulty such as "Eaſy" or "Medıum".
- RagChat.Classify: every exception from the model call (`Reply.Raised`) is treated as a non-decode exception and aborts the loop. A `JSONDecodeError` raised inside `mcq_prompt.invoke` or `quiz_llm.invoke` itself, which the code would catch at ragchat.py:168 and retry, is not distinguished.
- PyStr.Join and PyStr.Split use a single-character separator, which is all the code uses.
- RagChat.FencedPayload requires that the payload does not end with "```json". Without that premise the property is false, as RagChat.FencedPayloadNeedsGuard shows.
