# Security classification servers: the text pipeline, in Dafny

This project models the string pipeline of two small HTTP servers that
classify documents with a local language model. The pipeline runs from the
caller's text to the structured reply:

- `LLM_server.py` offers `/classify` for text, `/classify-pdf` for an
  uploaded PDF, and `/generate-text`.
- `classification_server.py` offers `/classify` and `/generate-text`.

The model covers five parts and proves their properties:

- **JSON candidate extraction** (module `Extraction`). The completion is
  stripped. The candidate is the slice from the first `{` to the last `}`,
  taken only when such a `}` follows the first `{`. It is then handed to
  the JSON parser.
- **ChatML prompt assembly** (module `ChatMl`). The prompt is a system
  turn, then a user turn, then an opened assistant turn. For
  classifications the assistant turn is primed with `<|thinking|>`. The
  security-analysis user turn differs between the servers:
  - in `LLM_server.py` it is the template, a line break, then the document;
  - in `classification_server.py` it is the template immediately followed
    by the document.
- **The generation user turn** (module `Endpoints`). It is
  `Write about: …`, then an optional `Context: …` segment, then a fixed
  closing line.
- **PDF page joining and cleanup** (module `PdfExtraction`). The page loop
  is an imperative method, proved against a fold. After the loop come the
  blank-document sentinel, the removal of null characters,
  `' '.join(s.split())` and `strip()`.
- **Outcome selection for every endpoint** (modules `Endpoints`,
  `LlmServer` and `ClassificationServer`). The possible outcomes are 400,
  500, 422, the 503 fallback and success. On PDF success the reply gains
  the `pdf_metadata` object.

Python's own primitives are modelled in module `PyStr`: `isspace`, `strip`,
`find`, `rfind`, `startswith`, `endswith` and ASCII `lower`. Module
`Whitespace` holds `split`, `' '.join` and `replace('\x00', '')`. Module
`Json` holds the JSON values and dict item assignment.

Each request is modelled as an `Exchange` with three parts:

- the reply;
- whether the model was requested at all (the `get_llm_instance()` call);
- the prompt the model was given, if any.

The outside world is passed in as values:

- The model's load result is `loaded: bool`.
- One call of the model is a function `generate` from the prompt to a
  `Generation`: either the completion text, or the message of the
  exception it raised.
- `json.loads` is a function `parse` from the candidate to an optional
  JSON value. `None` stands for a decode error.
- The PDF library is a function `reader` from the uploaded bytes to a
  `PdfDocument`. This is either `Unreadable(error)`, or the list of pages,
  each holding the page's text or `None` when extracting that page raised.
- The security-analysis template is a string parameter.

Behaviour worth knowing, as the code has it:

- A PDF with no text on any page is not refused. `extract_text_from_pdf`
  returns a fixed sentence ("No text content could be extracted …"). That
  sentence neither is empty nor starts with "Failed to extract", so the
  endpoint classifies it as if it were the document
  (`LlmServer.BlankPdfReachesModel`). So a PDF without text is not answered
  with 422.
- A PDF whose only text is null characters passes the blank test inside the
  loop, yet cleans to the empty string, and is refused with 422
  (`LlmServer.NullTextPdfRejected`).
- In `/classify-pdf` a parsed value that is not an object makes the item
  assignment raise. The generic handler turns that into the 503 fallback
  (`LlmServer.PdfReply`). `/classify` returns any parsed value unchanged.
  In the program this branch is never taken: the candidate always starts
  with `{`, so a successful `json.loads` of it is always a dict. The model
  keeps the branch only because `parse` is an arbitrary function there.
- Without the echoed request, the `/generate-text` user turn does not
  determine the context. A request that itself contains
  "\n\nContext: " yields the same user turn as a shorter request with a
  context (`Endpoints.GenerationPromptAmbiguous`).

## Model

| member | source | states |
|---|---|---|
| PyStr.IsSpace | LLM_server.py:92 | Definition, no contract: the characters `str.isspace()` accepts, which `strip()` and `split()` treat as whitespace. |
| PyStr.StartsWith | LLM_server.py:347 | Definition, no contract: `str.startswith`. PyStr.StartsWithExtend and the prompt contracts use it. |
| PyStr.EndsWith | LLM_server.py:329 | Definition, no contract: `str.endswith`. LlmServer.PdfSuffixCaseInsensitive states what it accepts. |
| PyStr.AllSpaceConcat | LLM_server.py:100 | A concatenation is blank exactly when both parts are blank. |
| PyStr.Strip | LLM_server.py:282 | The result has no whitespace at either end, is no longer than the input, and is empty exactly when the input is all whitespace. |
| PyStr.StripSplit | LLM_server.py:282 | The input is a blank prefix, then the stripped text, then a blank suffix: only whitespace at the two ends is removed. |
| PyStr.StripUnique | LLM_server.py:282 | Any trimmed text padded with whitespace on both sides strips back to itself, so `strip` is determined by that shape. |
| PyStr.StripTrimmed | LLM_server.py:106 | Text with no whitespace at either end strips to itself. |
| PyStr.StripIdempotent | LLM_server.py:106 | Stripping twice equals stripping once. |
| PyStr.Find | LLM_server.py:286 | The index of the first occurrence of the character, or -1 exactly when it does not occur. |
| PyStr.RFind | LLM_server.py:287 | The index of the last occurrence of the character, or -1 exactly when it does not occur. |
| PyStr.LowerChar | LLM_server.py:329 | An ASCII capital maps to the small letter at the same place in the alphabet; every other character is unchanged. |
| PyStr.Lower | LLM_server.py:329 | Same length, and each character is lowered in place. |
| Whitespace.RemoveNulls | LLM_server.py:104 | Exactly the null characters are deleted: none remains, every other character keeps its count, and text without nulls is unchanged. With RemoveNullsAppend this fixes `replace('\x00', '')`. |
| Whitespace.RemoveNullsAppend | LLM_server.py:104 | Removing nulls from a concatenation removes them from each part. |
| Whitespace.Split | LLM_server.py:105 | Every element is a non-empty run without whitespace; text ending in a non-space yields at least one word. |
| Whitespace.JoinSpace | LLM_server.py:105 | Joining no words gives the empty string; the joined text begins with the first word's first character and ends with the last word's last character. |
| Whitespace.NormalizedAppendWord | LLM_server.py:105 | Normalized text plus a space and a word is still normalized. |
| Whitespace.JoinSpaceNormalized | LLM_server.py:105 | Words without nulls join into normalized text: single spaces between words, none at the ends. |
| Whitespace.SplitWord | LLM_server.py:105 | A single word splits into itself. |
| Whitespace.SplitSnocShared | LLM_server.py:105 | Two texts whose splits share a tail keep sharing it after the same character is appended. |
| Whitespace.SplitAtSpace | LLM_server.py:105 | Splitting text around a whitespace character concatenates the splits of the two sides. |
| Whitespace.SplitJoin | LLM_server.py:105 | Splitting the space-join of words gives back the words. |
| Whitespace.SplitBlank | LLM_server.py:105 | Splitting yields no words exactly when the text is all whitespace. |
| Whitespace.SplitNoNull | LLM_server.py:105 | Splitting null-free text yields null-free words. |
| Whitespace.JoinSplitNormalized | LLM_server.py:105 | Space-joining the split of normalized text gives the text back. |
| Whitespace.CleanIsJoin | LLM_server.py:104-106 | The final `strip()` of the cleanup changes nothing: the result is the space-join of the words, and it is normalized. |
| Whitespace.CleanOfNormalized | LLM_server.py:104-106 | Cleanup leaves normalized text unchanged. |
| Whitespace.CleanNormalized | LLM_server.py:104-106 | The cleanup yields normalized text (no null, no outer or repeated whitespace, only single spaces) and is idempotent. |
| Whitespace.NormalizedTrimmed | LLM_server.py:106 | Normalized text has no whitespace at either end. |
| Whitespace.Words | LLM_server.py:104-105 | Definition, no contract: `s.replace('\x00', '').split()`. Its meaning is carried by Whitespace.WordsAtNewline, Whitespace.WordsBlank and Whitespace.CleanIsJoin. |
| Whitespace.Clean | LLM_server.py:104-106 | Definition, no contract: the whole cleanup. Whitespace.CleanNormalized and Whitespace.CleanIsJoin state its meaning. |
| Whitespace.WordsBlank | LLM_server.py:105 | Blank text has no words. |
| Whitespace.WordsAtNewline | LLM_server.py:96 | A line break separates words: the words of `x + "\n" + y` are those of `x`, then those of `y`. |
| Whitespace.WordsTrailingNewline | LLM_server.py:96 | A trailing line break adds no word. |
| Whitespace.WordsAfterBreak | LLM_server.py:94-96 | Text that is empty or ends in a line break, followed by more text, has the words of the first part, then those of the second. |
| Json.Lookup | LLM_server.py:394 | The first-match read of an object's members, used to specify item assignment: a key is found exactly when it is among the object's keys. |
| Json.Field | LLM_server.py:394 | A member is found exactly when the value is an object holding the key. |
| Json.Put | LLM_server.py:394-399 | Item assignment: the key gets the new value, other keys keep their values, key order is kept, and a new key goes last. |
| Json.PutDistinct | LLM_server.py:394-399 | Item assignment keeps the keys distinct. |
| Extraction.ExtractCandidate | LLM_server.py:286-290 | A candidate exists exactly when some `}` follows a `{`. It starts with `{`, ends with `}`, has no `{` before it and no `}` after it. |
| Extraction.CandidateComplete | classification_server.py:182-186 | Any piece of the text with that description is exactly the extracted candidate. |
| Extraction.BraceFreePadding | classification_server.py:178-186 | Brace-free text before or after the completion does not change the candidate, nor whether there is one. |
| Extraction.StripKeepsCandidate | LLM_server.py:282-290 | Stripping the completion does not change its candidate. |
| Extraction.ResponseText | LLM_server.py:317 | Definition, no contract: `response_text` exists only when the call returned, and is then the stripped completion. Extraction.Analyze and Endpoints.FailureDetail carry its meaning. |
| Extraction.Analyze | LLM_server.py:282-296 | `response_text` is the stripped completion when the call returned. A raised call or a completion without a brace pair parses nothing; otherwise the outer candidate is parsed. |
| Extraction.AnalyzeParsed | LLM_server.py:288-292 | The analysis yields a value exactly when the description-based parse admits it, and at most one value. |
| Extraction.AnalyzeNoisyObject | classification_server.py:178-190 | An object text with brace-free commentary around it is parsed exactly as the object text alone. |
| ChatMl.Envelope | LLM_server.py:261-265 | The prompt opens with the closed system turn and ends with the opened assistant turn and its primer. |
| ChatMl.ClassificationPrompt | LLM_server.py:261-265 | Definition, no contract: the envelope primed with `<\|thinking\|>`. ChatMl.Envelope and ChatMl.ClassificationPromptInjective state its meaning. |
| ChatMl.GenerationPrompt | LLM_server.py:454-458 | Definition, no contract: the envelope with an empty primer. ChatMl.Envelope and ChatMl.UserTurnRoundTrip state its meaning. |
| ChatMl.UserTurnOf | LLM_server.py:263 | A user turn read back out of a prompt rebuilds that prompt. |
| ChatMl.UserTurnRoundTrip | classification_server.py:157-161 | The user turn is recovered exactly from the prompt: it is inserted verbatim, without escaping. |
| ChatMl.ClassificationPromptInjective | LLM_server.py:261-265 | With the same system message, different user turns give different classification prompts. |
| PdfExtraction.Contribution | LLM_server.py:92-96 | Definition, no contract: the text one page adds to the joined text. PdfExtraction.ContributionWords and PdfExtraction.ContributionBlank state its meaning. |
| PdfExtraction.JoinPrefix | LLM_server.py:88-98 | Definition, no contract: the joined text after a number of pages. PdfExtraction.JoinPrefixWords and PdfExtraction.JoinPrefixBlank state its meaning. |
| PdfExtraction.PdfText | LLM_server.py:88-115 | Definition, no contract: the result of `extract_text_from_pdf`. PdfExtraction.PdfTextOfPages and PdfExtraction.UnreadableMessage state its meaning. |
| PdfExtraction.ExtractTextFromPdf | LLM_server.py:80-115 | The page loop with its invariant, then the sentinel or the cleanup, computes the fold-based `PdfText` of the document. |
| PdfExtraction.CleanupSeparatesAtLineBreaks | LLM_server.py:96-105 | The cleanup's words ignore blank text and trailing line breaks, and split at line breaks. |
| PdfExtraction.JoinPrefixAtLineStart | LLM_server.py:92-96 | Before the last page, the joined text is empty or ends in a line break. |
| PdfExtraction.ContributionWords | LLM_server.py:92-96 | A page contributes exactly its own words. |
| PdfExtraction.ContributionBlank | LLM_server.py:92 | A page contributes blank text exactly when its extraction raised or its text is blank. |
| PdfExtraction.JoinPrefixWords | LLM_server.py:88-98 | The words of the text joined so far are the words of those pages, in page order. |
| PdfExtraction.JoinPrefixBlank | LLM_server.py:88-101 | The joined text is blank exactly when none of the pages so far holds text. |
| PdfExtraction.BlankDocumentSentinel | LLM_server.py:100-101 | A document without text on any page yields the fixed sentinel. |
| PdfExtraction.PdfTextOfPages | LLM_server.py:88-106 | A readable document yields the sentinel when no page holds text; otherwise all pages' words, in order, joined by single spaces, in normalized form. |
| PdfExtraction.UnreadableMessage | LLM_server.py:112-115 | A reader failure yields text starting with "Failed to extract". |
| PdfExtraction.PageWordsAppend | LLM_server.py:89 | The words of two runs of pages are those of each, in order. |
| PdfExtraction.PageWordsInsertEmpty | LLM_server.py:92 | Inserting a page without words anywhere leaves a document's words unchanged. |
| PdfExtraction.NoTextInsert | LLM_server.py:92 | Inserting a blank or failed page does not change whether the document holds text. |
| PdfExtraction.BlankPageIgnored | LLM_server.py:90-97 | Inserting a blank or failed page anywhere leaves the extraction result unchanged. |
| PdfExtraction.OnlyNullTextNoWords | LLM_server.py:104-105 | Pages whose text is only nulls and whitespace contribute no words. |
| PdfExtraction.NullOnlyText | LLM_server.py:92-106 | A document with some page that is not blank to the loop, but whose every page is blank once its nulls are removed, passes the blank test yet extracts to the empty string. |
| Endpoints.FailureDetail | LLM_server.py:311-319 | The 503 detail is an object with exactly the keys `classification`, `reasoning`, `raw_response`, in that order. It holds `ANALYSIS_FAILED`, the given reasoning, and the stripped completion, or "No response generated." when there was none. |
| Endpoints.ClassifyReply | LLM_server.py:286-319 | A success reply exactly when a value parses from the candidate, and the reply is that value with status 200. Otherwise 503, with the fallback detail. |
| Endpoints.Classify | LLM_server.py:250-265 | The model is always requested. Not loaded gives 500 and no prompt is sent. Loaded gives exactly one classification prompt, with the reply chosen from its completion. |
| Endpoints.ClassifyStatuses | classification_server.py:146-215 | 500 exactly when the model is not loaded; otherwise only 200 or 503. |
| Endpoints.GenerationUserPrompt | classification_server.py:233-237 | The user turn starts with "Write about: " and the request, ends with the closing line, and has the context segment right after the request exactly when a context is given. |
| Endpoints.ContextOf | LLM_server.py:447-451 | A context read back from a user turn, given the request, rebuilds that turn. |
| Endpoints.GenerationContextRoundTrip | LLM_server.py:447-451 | Given the request, the context is recovered exactly. |
| Endpoints.GenerationPromptAmbiguous | classification_server.py:233-237 | A request containing the context marker gives the same user turn as a shorter request with a context. |
| Endpoints.FallbackText | LLM_server.py:486 | Definition, no contract: the canned text around the request. Endpoints.FallbackBody and Endpoints.GenerateText state where it appears. |
| Endpoints.GenerationMembers | LLM_server.py:474-478 | The first three members of both generation bodies: exactly the keys `generatedText`, `prompt`, `success`, in order, with the given values, and no `error`. |
| Endpoints.GeneratedBody | LLM_server.py:474-478 | The success body has exactly the keys `generatedText`, `prompt`, `success`, in order. It holds the text, echoes the request, has `success: true` and no `error`. |
| Endpoints.FallbackBody | LLM_server.py:485-490 | The fallback body has exactly the keys `generatedText`, `prompt`, `success`, `error`, in order. It holds the canned text, echoes the request, has `success: false` and the exception's message. |
| Endpoints.GenerateText | classification_server.py:219-276 | 500 exactly when the model is not loaded. Otherwise always a body that echoes the request. It is exactly the success dict when the call returned, and exactly the fallback dict when it raised. It holds `success` true and the stripped completion when the call returned. When the call raised, it holds `success` false, the canned text and the error message. |
| LlmServer.CreateSecurityAnalysisPrompt | LLM_server.py:224-233 | The user turn is the template, a line break, then the document: prefix, suffix and length fix it. |
| LlmServer.ClassifyDocument | LLM_server.py:236-319 | The model is always requested. Not loaded gives 500 with the model-not-loaded detail. Otherwise a prompt is sent whose user turn is the template, a line break and the document, verbatim, and the reply is the parsed value or the 503 fallback with the text-classification reasoning. |
| LlmServer.PdfSuffixCaseInsensitive | LLM_server.py:329 | The suffix test accepts exactly the names ending in `.pdf`, in any mix of case. |
| LlmServer.HasPdfSuffix | LLM_server.py:329 | Definition, no contract: `filename.lower().endswith('.pdf')`. LlmServer.PdfSuffixCaseInsensitive states what it accepts. |
| LlmServer.Rejected | LLM_server.py:347 | Definition, no contract: the extraction results refused with 422. LlmServer.SentinelAccepted and LlmServer.UnreadablePdfRejected use it. |
| LlmServer.UploadMembers | LLM_server.py:394-398 | The first three members of the metadata: exactly the keys `filename`, `file_size_bytes`, `extracted_text_length`, in order, with the given values. |
| LlmServer.PdfMetadata | LLM_server.py:394-399 | The metadata has exactly the four keys `filename`, `file_size_bytes`, `extracted_text_length`, `extraction_successful`, in that order. It holds the file name, the upload's size in bytes, the extracted text's length, and `extraction_successful: true`. |
| LlmServer.PdfReply | LLM_server.py:382-429 | 200 exactly when the candidate parses to an object. The body is that object with `pdf_metadata` assigned: any model-supplied value is replaced and other keys stay in place. Otherwise 503 with the PDF reasoning. |
| LlmServer.ClassifyPdfDocument | LLM_server.py:322-429 | 400 with "Only PDF files are supported" exactly for a name without the `.pdf` suffix, and then the model is never requested. 500 with the model-not-loaded detail exactly when the model is not loaded. 422 with the unextractable message exactly when the extracted text is empty or starts with "Failed to extract". Otherwise the prompt carries the extracted text and the reply is chosen from the completion. |
| LlmServer.PdfPrompt | LLM_server.py:359-368 | The PDF prompt is a classification prompt whose user turn is exactly the template, a line break and the extracted text. |
| LlmServer.BlankPdfReachesModel | LLM_server.py:100-101 | A readable PDF with no text is classified: the sentinel sentence is sent to the model as the document. |
| LlmServer.SentinelAccepted | LLM_server.py:347 | The sentinel is neither empty nor starts with "Failed to extract". |
| LlmServer.UnreadablePdfRejected | LLM_server.py:347-351 | An unreadable PDF gets 422 and the model is never prompted. |
| LlmServer.NullTextPdfRejected | LLM_server.py:347-351 | Any readable PDF whose text is only null characters (and whitespace), with some page not blank to the loop, gets 422. |
| ClassificationServer.CreateSecurityAnalysisPrompt | classification_server.py:52-137 | The user turn is the template immediately followed by the document: prefix, suffix and length fix it. |
| ClassificationServer.PromptsAgreeUpToSeparator | classification_server.py:137 | This server's user turn with the template plus a line break equals the other server's. |
| ClassificationServer.ClassifyDocument | classification_server.py:140-215 | The model is always requested. Not loaded gives 500 with the model-not-loaded detail. Otherwise a prompt is sent whose user turn is the template followed by the document, verbatim, and the reply is the parsed value or the 503 fallback with the classification reasoning. |
| ClassificationServer.ClassifyAgreesWithLlmServer | classification_server.py:140-215 | Both servers answer `/classify` identically when the templates agree up to the line break. |

## Left out

- The model runtime (llama_cpp: `Llama(...)`, the completion call, and its temperature, token and stop settings) is not modelled. It is native code; one call is the `generate` parameter, and loading is the `loaded` parameter.
- PyPDF2 (`PdfReader`, `page.extract_text()`) is not modelled. It is a foreign library; its output is the `reader` parameter's `PdfDocument`.
- `json.loads` is not modelled. It is a foreign parser; it is the `parse` parameter, and JSON syntax is not checked.
- `load_security_analysis_prompt` (LLM_server.py:118-222) is not modelled. It reads the template file or falls back to a built-in text, which is file I/O; the template is a parameter. The literal template of `classification_server.py:58-137` is also a parameter, not copied into the model.
- FastAPI routing, request validation, CORS, `UploadFile.read()`, uvicorn start-up, logging through `print`/`traceback`, and `del llm` are not modelled. They are transport and memory plumbing. A failing `file.read()` (it would give 503) and a missing file name are not modelled.
- PyStr.Lower: lowers ASCII letters only, where Python's `lower()` covers all of Unicode. Only the `.pdf` suffix test uses it, and no non-ASCII character lowers to `.`, `p`, `d` or `f`.
- Exceptions other than the model call's are not modelled separately. `parse` returning `None` stands for every way the parse step fails; a raised call stands for a failure of the call or of reading its text.
- The FastAPI serialisation of replies (the status line, and JSON encoding of the body) is not modelled. A reply is the status and the JSON value.
- tmp.py is not part of this model. It is a one-off script with no logic of its own.
- Lone surrogates in Python strings are not modelled. Strings here are sequences of Unicode scalar values, and a Dafny `char` cannot be a lone surrogate, so text that `json.loads` or the model would carry with one is outside the model.
