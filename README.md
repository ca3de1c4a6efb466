# AskMyPDF decision logic, modelled in Dafny

AskMyPDF lets a user upload a PDF and ask questions about it. Answers come from a local language
model and are kept confined to the PDF's text. This project models the logic that decides what
the user gets, and proves properties of that model. It has six modules:

- `Text` stands in for the string library calls the code relies on. It covers .NET and
  JavaScript white space (they differ on U+0085 and U+FEFF), ASCII case mapping,
  `Contains`/`StartsWith`/`EndsWith`, `Trim`, and decimal printing.
- `PdfProcessing` covers text extraction. Each page's text is placed behind a
  `--- Page i ---` marker. The result is then cleaned: white-space runs are collapsed to one
  space, control characters are stripped and the ends are trimmed. The pages' texts are the
  input; the PDF library is not modelled.
- `Grounding` covers the answer generator:
  - the context window (the tail of the text, behind `"..."`);
  - the system and user prompts;
  - the model call, which is a function parameter;
  - the post-check, which replaces an answer sharing too few content words with the window by
    a fixed refusal, unless the question is about the document as a whole.
- `ChatStore` is the session store: a class over a map from ids to cache entries, with a
  two-hour sliding expiration and an explicit clock.
- `Controller` covers the controller:
  - the answer gate (refusal phrases and off-topic keywords);
  - `Upload`, `Ask` and `ClearSession` as methods over the store, with the model, the
    availability probe and the PDF parser as parameters.
- `ClientScript` covers the browser script:
  - the message formatter: inline bold and italic, a line-by-line pass building lists and
    paragraphs, then code spans;
  - the file pre-check before an upload;
  - the guard on submitting a question.

Time is an integer number of seconds. `Ask` takes two times: `now`, when the request arrives,
and `later`, when the model's answer arrives. The GUID of a new session is a parameter that must
not already be in use.

## Model

| member | source | states |
|---|---|---|
| PdfProcessing.CollapsedIsSingleSpaced | PdfChatApp/Services/PdfProcessingService.cs:65 | after `\s+` → `" "`, every white-space character left is a plain space and none is followed by another; the output starts with white space exactly when the input does |
| PdfProcessing.CollapseConcat | PdfChatApp/Services/PdfProcessingService.cs:65 | collapsing a concatenation whose first part does not end in white space collapses the two parts separately |
| PdfProcessing.CollapseRun | PdfChatApp/Services/PdfProcessingService.cs:65 | a maximal non-empty white-space run between `a` and `b` becomes exactly one space between the collapsed `a` and `b` |
| PdfProcessing.CollapseKeeps | PdfChatApp/Services/PdfProcessingService.cs:65 | collapsing keeps every non-space, non-control character in order, and adds no character but the space |
| PdfProcessing.StripKeeps | PdfChatApp/Services/PdfProcessingService.cs:67 | stripping `[\x00-\x08\x0B\x0C\x0E-\x1F]` leaves none of those characters, adds none, and keeps every other non-space character in order |
| PdfProcessing.TrimKept | PdfChatApp/Services/PdfProcessingService.cs:69 | trimming loses no non-space character |
| PdfProcessing.CleanedKept | PdfChatApp/Services/PdfProcessingService.cs:62-70 | cleaning keeps exactly the input's non-space, non-control characters, in order |
| PdfProcessing.CleanedCharacters | PdfChatApp/Services/PdfProcessingService.cs:62-70 | cleaned text holds no stripped control character, and its only white space is the plain space |
| PdfProcessing.CleanedText | PdfChatApp/Services/PdfProcessingService.cs:62-70 | cleaned text has no stripped control character, no white space but the plain space and no white space at either end; it keeps the input's kept characters in order and is never longer; it is empty exactly when the input has no kept character |
| PdfProcessing.CleaningNotIdempotent | PdfChatApp/Services/PdfProcessingService.cs:65-67 | `"a \x01 b"` cleans to `"a  b"` (a double space), and cleaning that again gives `"a b"` |
| PdfProcessing.ExtractTextFromPdf | PdfChatApp/Services/PdfProcessingService.cs:32-53 | the page loop over the string builder followed by cleaning: the page count is the number of pages, and the content is the cleaned text of every page's block in page order |
| PdfProcessing.RawKeptPages | PdfChatApp/Services/PdfProcessingService.cs:35-43 | the raw text's non-space characters are, page by page, the marker `--- Page i ---` and then that page's text |
| PdfProcessing.KeptBlock | PdfChatApp/Services/PdfProcessingService.cs:41-42 | of one iteration's two `AppendLine`s, only the marker and the page text survive |
| PdfProcessing.ExtractedTextKeepsPages | PdfChatApp/Services/PdfProcessingService.cs:35-48 | after cleaning, every page's marker and text survive in page order |
| PdfProcessing.RawTextStartsWithFirstBlock | PdfChatApp/Services/PdfProcessingService.cs:35-43 | with one page or more, the raw text starts with page 1's block |
| PdfProcessing.PageMarkerCollapsed | PdfChatApp/Services/PdfProcessingService.cs:41 | a page marker passes through the white-space collapse unchanged |
| PdfProcessing.ExtractedTextStart | PdfChatApp/Services/PdfProcessingService.cs:35-48 | with one page or more, the cleaned text starts with `--- Page 1 ---`, whatever the pages hold |
| PdfProcessing.ExtractedTextBlank | PdfChatApp/Services/PdfProcessingService.cs:35-69 | the extracted text is blank exactly when the PDF has no page |
| Grounding.WindowContext | PdfChatApp/Services/OllamaService.cs:52-54 | a context of at most 6000 characters is kept whole; a longer one becomes `"..."` and its last 6000 characters (6003 in all) |
| Grounding.WindowIsTail | PdfChatApp/Services/OllamaService.cs:52-54 | the window is the kept tail, behind `"..."` exactly when something was cut; the tail is a suffix of at most 6000 characters |
| Grounding.SystemPromptEmbedsWindow | PdfChatApp/Services/OllamaService.cs:56-79 | the system prompt holds the window verbatim between `---START OF PDF---` and `---END OF PDF---`, and the window can be read back from it by position |
| Grounding.UserPromptEmbedsQuestion | PdfChatApp/Services/OllamaService.cs:84 | the user prompt is `"User question: "`, then the question, then the fixed tail, and the question can be read back from it |
| Grounding.UserPromptInjective | PdfChatApp/Services/OllamaService.cs:84 | distinct questions give distinct user prompts |
| Grounding.SystemPromptInjective | PdfChatApp/Services/OllamaService.cs:56-79 | distinct windows give distinct system prompts |
| Grounding.RequestDeterminedByInputs | PdfChatApp/Services/OllamaService.cs:81-95 | for one model, two requests post the same `prompt` and `system` exactly when their questions and windows are equal |
| Grounding.TokensSplit | PdfChatApp/Services/OllamaService.cs:150-151 | splitting with empty entries removed: tokens of `a + sep + b` are the tokens of `a` followed by those of `b` |
| Grounding.TokensOfWord | PdfChatApp/Services/OllamaService.cs:150-151 | a non-empty run without separators is a single token |
| Grounding.TokensAreWords | PdfChatApp/Services/OllamaService.cs:150-151 | every token is non-empty and holds no separator |
| Grounding.ContentWordsOf | PdfChatApp/Services/OllamaService.cs:141-152 | every kept word is longer than 3 characters, not a stop word (ignoring case) and from the input; every such word of the input is kept; nothing is dropped exactly when all the words qualify |
| Grounding.ContentWordsConcat | PdfChatApp/Services/OllamaService.cs:141-152 | the filter of a concatenation is the filter of the first part followed by that of the second, so the input's order is kept |
| Grounding.ScoredWords | PdfChatApp/Services/OllamaService.cs:150-153 | at most 10 words are scored: the first content words of the answer in answer order, all of them when there are fewer than 10 |
| Grounding.MatchCount | PdfChatApp/Services/OllamaService.cs:154-156 | at most the number of words; equal to it exactly when every word occurs in the text (ignoring case), and zero exactly when none does |
| Grounding.MatchCountConcat | PdfChatApp/Services/OllamaService.cs:154-156 | the count over a concatenation of word lists is the sum of the counts over the parts |
| Grounding.ThresholdInIntegers | PdfChatApp/Services/OllamaService.cs:159 | `m >= Math.Max(2, n * 0.3)` holds exactly when `m >= 2 && 10m >= 3n` |
| Grounding.GroundedNeedsTwoMatches | PdfChatApp/Services/OllamaService.cs:150-159 | an answer with fewer than 2 scored words is never grounded; grounded means at least 2 matches and at least 3 in 10 |
| Grounding.EllipsisNeverMatches | PdfChatApp/Services/OllamaService.cs:154-156 | a token occurs in `"..." + t`, ignoring case, exactly when it occurs in `t` |
| Grounding.MatchCountIgnoresEllipsis | PdfChatApp/Services/OllamaService.cs:154-156 | counting tokens against the window counts the same as against the kept tail |
| Grounding.GroundedAgainstTail | PdfChatApp/Services/OllamaService.cs:122 | grounding is judged against the window; words only in the dropped head never count |
| Grounding.ContainsAny | PdfChatApp/Services/OllamaService.cs:168 | true exactly when some keyword occurs |
| Grounding.AboutIsStructural | PdfChatApp/Services/OllamaService.cs:162-169 | any question containing "about", in either case shown, counts as a question about the document |
| Grounding.RefusalAdmitsIgnorance | PdfChatApp/Services/OllamaService.cs:117-126 | the refusal sentence contains "don't have that information" |
| Grounding.PostCheckOutcome | PdfChatApp/Services/OllamaService.cs:115-130 | the result is the trimmed answer or the refusal; it differs from the trimmed answer exactly when that answer is non-empty, admits no ignorance, is not grounded in the window and the question is not structural |
| Grounding.PostCheckKeeps | PdfChatApp/Services/OllamaService.cs:115-128 | a structural question, or a trimmed answer containing "don't have that information" or "not in the PDF" in any case, keeps the trimmed answer; a blank answer becomes empty |
| Grounding.RefusalStable | PdfChatApp/Services/OllamaService.cs:117-127 | the refusal passes the post-check unchanged |
| Grounding.PostCheckIdempotent | PdfChatApp/Services/OllamaService.cs:115-130 | checking a checked answer again changes nothing |
| Grounding.GenerateResponseOutcome | PdfChatApp/Services/OllamaService.cs:45-136 | the model is asked with the question and the window, never the whole context; a failed call becomes the fixed error; an answer (a null one read as the fallback sentence) comes back trimmed or as the refusal, the refusal exactly when the post-check overrides it |
| Controller.ContainsAnyIgnoreCase | PdfChatApp/Controllers/ChatController.cs:206-208 | true exactly when the response contains one of the phrases, ignoring case |
| Controller.HasUncoveredKeyword | PdfChatApp/Controllers/ChatController.cs:213-231 | true exactly when some keyword is in the lowercased question and not in the lowercased content |
| Controller.AppropriateCases | PdfChatApp/Controllers/ChatController.cs:203-234 | a response containing any of the three phrases passes, whatever the question; otherwise it fails exactly when an off-topic keyword is in the question and not in the PDF |
| Controller.WeatherQuestionRejected | PdfChatApp/Controllers/ChatController.cs:213-229 | a question mentioning "weather" gets a non-admitting answer rejected when the PDF never mentions the weather |
| Controller.RefusalPassesGate | PdfChatApp/Controllers/ChatController.cs:168-171 | the refusal passes the gate, so the gate never alters an answer the service replaced, and gating twice is gating once |
| Controller.UploadRejection | PdfChatApp/Controllers/ChatController.cs:48-84 | the checks in order (a non-empty file, a `.pdf` name in any case, at most 52,428,800 bytes, the backend available), each failure with its own message, each message exactly when its check is the first to fail |
| Controller.UploadOutcome | PdfChatApp/Controllers/ChatController.cs:48-109 | an upload succeeds exactly when every check passes and the PDF has a page; a failure carries the first failing step's message and no session id; a success reports the page count, the file name and the new id |
| Controller.Upload | PdfChatApp/Controllers/ChatController.cs:44-120 | the response is the one above; a session holding the cleaned text, the file name and an empty history is added exactly on success, created and last active at `now` and with its sliding expiry started at `now`; no other entry changes |
| Controller.RecordAnswer | PdfChatApp/Controllers/ChatController.cs:174-189 | the gated answer is appended as the assistant's message and the history is read back; if the session expired while the model ran, nothing is appended and the history read back is empty |
| Controller.Respond | PdfChatApp/Controllers/ChatController.cs:165-199 | a failed model call yields `"An error occurred: "` and the message, and the question stays in the history; an answer is gated, appended and returned with the history |
| Controller.Converse | PdfChatApp/Controllers/ChatController.cs:156-199 | the question is appended as the user's message before the model is called; on success exactly two messages are appended (the user's raw question, then the gated answer), and the returned message is the assistant's content |
| Controller.Ask | PdfChatApp/Controllers/ChatController.cs:123-201 | errors in a fixed order (blank question, blank session id, unknown or expired session) that leave the store and the live session's history and last activity as they were (the expired entry is evicted); for a live session, the conversation above |
| Controller.ClearSession | PdfChatApp/Controllers/ChatController.cs:237-247 | reports success with the fixed message for a non-null body, and cannot touch the store |
| ChatStore.ChatSession.constructor | PdfChatApp/Models/ChatSession.cs:5-13 | a new session has the given id, text and name, an empty history, and both times set to the creation time |
| ChatStore.ChatService.TryGetValue | PdfChatApp/Services/ChatService.cs:64 | a live entry is returned and its expiration re-armed; an entry idle for 2 hours is evicted and not found |
| ChatStore.ChatService.CreateSession | PdfChatApp/Services/ChatService.cs:37-60 | a fresh session with the given text and name, an empty history and both times set to now is stored under the new id, which is returned; no other entry changes |
| ChatStore.ChatService.GetSession | PdfChatApp/Services/ChatService.cs:62-75 | a live session gets its last activity set to now and the same object is returned with its history untouched; a miss returns null; no other entry changes |
| ChatStore.ChatService.AddMessage | PdfChatApp/Services/ChatService.cs:77-96 | on a live session exactly the message is appended at the end, the last activity is set to now and the entry is stored again; on a missing or expired id nothing is appended; no other entry changes |
| ChatStore.ChatService.SessionExists | PdfChatApp/Services/ChatService.cs:98-101 | true exactly when the id is live; the expiration is re-armed and no session is modified |
| ChatStore.ChatService.CleanupOldSessions | PdfChatApp/Services/ChatService.cs:103-107 | removes nothing and changes nothing |
| ClientScript.LazyMatch | PdfChatApp/wwwroot/js/site.js:245 | a match found for `(.+?)` is at least as long as the start length and is followed by the delimiter |
| ClientScript.LazyMatchShortest | PdfChatApp/wwwroot/js/site.js:245-248 | the match is the shortest content without a line terminator that the delimiter follows, and there is none only when no such content exists |
| ClientScript.ReplaceWithoutDelimiter | PdfChatApp/wwwroot/js/site.js:245-248 | text without the delimiter is left as it is |
| ClientScript.ReplaceSpan | PdfChatApp/wwwroot/js/site.js:245-248 | a span `d + w + d`, where `w` is one line without `d`'s first character, becomes `w` between the tags, and the rest is scanned on its own |
| ClientScript.BoldBeforeItalic | PdfChatApp/wwwroot/js/site.js:245-248 | `**w**` becomes `<strong>w</strong>` and not an italic span, because bold is converted first |
| ClientScript.SplitLines | PdfChatApp/wwwroot/js/site.js:251 | splitting always yields at least one piece |
| ClientScript.SplitJoin | PdfChatApp/wwwroot/js/site.js:251 | joining the pieces with line feeds gives the text back |
| ClientScript.SplitPiecesHaveNoLineFeed | PdfChatApp/wwwroot/js/site.js:251 | no piece holds a line feed |
| ClientScript.JoinSplit | PdfChatApp/wwwroot/js/site.js:251 | pieces without line feeds, joined and split again, come back unchanged |
| ClientScript.DigitRun | PdfChatApp/wwwroot/js/site.js:268 | the leading run of digits is maximal |
| ClientScript.BulletItemShape | PdfChatApp/wwwroot/js/site.js:259-265 | a bullet line is its mark, white space and the item text, which does not start with white space and is non-empty on a trimmed line |
| ClientScript.NumberedItemShape | PdfChatApp/wwwroot/js/site.js:268-274 | a numbered line is its digits, a full stop, white space and the item text, which does not start with white space |
| ClientScript.AnyContains | PdfChatApp/wwwroot/js/site.js:297 | true exactly when some entry contains the pattern |
| ClientScript.Finish | PdfChatApp/wwwroot/js/site.js:296-299 | still in a list at the end, exactly one closing tag is appended: `</ul>` exactly when some entry contains `<ul`, else `</ol>`; otherwise nothing is appended |
| ClientScript.FormatLine | PdfChatApp/wwwroot/js/site.js:255-293 | the callback's statements on one line compute the step function of the line pass |
| ClientScript.FormatMessage | PdfChatApp/wwwroot/js/site.js:240-308 | the formatter as written (bold, italic, split, the loop, the final close, join, code spans) computes the functional formatter |
| ClientScript.ItemsShareOneList | PdfChatApp/wwwroot/js/site.js:259-275 | consecutive list lines share one list: at most one opening tag, chosen by the first line, then one item per line |
| ClientScript.StepNoLeadingBreak | PdfChatApp/wwwroot/js/site.js:287-291 | a step only appends to the entries, and never makes `<br>` the first entry |
| ClientScript.NoBreakFirst | PdfChatApp/wwwroot/js/site.js:287-291 | blank lines emit `<br>` only after some output, so the formatted answer never starts with `<br>` |
| ClientScript.ListClosedOnlyAfterNonItem | PdfChatApp/wwwroot/js/site.js:277-291 | a plain line closes the list exactly when the last entry is non-empty and holds no `<li>`; right after an item it appends the paragraph or line break inside the list |
| ClientScript.UnorderedListClosedByOl | PdfChatApp/wwwroot/js/site.js:277-283 | `"- a\nb\nc"` gives `<ul …>`, `<li>a</li>`, `<p>b</p>`, `</ol>`, `<p>c</p>`: the bulleted list is closed by the wrong tag |
| ClientScript.CorrectedListsMatched | PdfChatApp/wwwroot/js/site.js:277-299 | with the closing tag taken from the open list, every list is closed by the tag of its own kind |
| ClientScript.CorrectedFeedMatched | PdfChatApp/wwwroot/js/site.js:255-293 | the corrected pass keeps the open list recorded in its state equal to the one its entries leave open |
| ClientScript.ClientCheckAgreesWithServer | PdfChatApp/wwwroot/js/site.js:83-91 | for a non-empty file, the browser refuses as not a PDF or as too large exactly what the server would, and posts exactly what passes the server's checks up to the availability probe; an empty `.pdf` file is posted and refused by the server |
| ClientScript.SubmittedQuestion | PdfChatApp/wwwroot/js/site.js:160-161 | a request is posted exactly when the trimmed input is non-empty and there is a session id, and it carries the trimmed input |
| ClientScript.SubmittedQuestionNotBlank | PdfChatApp/wwwroot/js/site.js:160-161 | a posted question without U+0085 is not blank to the server |
| ClientScript.NextLineQuestionRefused | PdfChatApp/wwwroot/js/site.js:160-161 | a question consisting of U+0085 alone is posted by the browser, yet the server treats it as blank |

## Left out

- HTTP to the model backend is not modelled: the availability probe, `PostAsync`, JSON
  serialisation and parsing, and status codes. The backend is a function from the request to
  `Answered(response)`, `NullResponse` (a null `response` property, read as the fallback
  sentence) or `Failed`. Every exception is `Failed`.
- The request's `prompt` and `system` body fields are functions of the request's question and
  window. They are not stored as strings. `RequestDeterminedByInputs` shows that no information
  is lost by this.
- `temperature` and `top_p` are floating-point settings that are not modelled. The other
  sampling options are kept.
- The PDF library (iText) and stream copying are not modelled. The parser's output is the pages'
  texts, or `None` when it throws.
- The background sweep started with `Task.Run`, concurrency, and thread safety of the shared
  history are not modelled.
- `IMemoryCache` internals (priorities, eviction under memory pressure, and the scan on access
  that can also evict other expired entries) are not modelled. Only the map, the clock and the
  sliding two-hour timeout are kept, and the clock is not required to move forward.
- Logging is not modelled.
- `Program.cs`, the `Index` action, and the DOM, fetch, toast and timer code of the browser
  script are not modelled.
- A null `request` body in `Ask` is not modelled, nor is an exception thrown by the store.
- Controller.ClearSession: a null body, for which the source throws on `request.SessionId` and
  answers `success = false` with the exception's message, is not modelled; the request is
  always present.
- Lengths are counted in Unicode scalar values, while C# `Length`/`Substring` and JavaScript
  `length` count UTF-16 code units. For text outside the Basic Multilingual Plane (emoji,
  supplementary CJK) the 6,000-character window, the point where `"..."` cuts, and which words
  pass the `Length > 3` content-word test therefore differ from the source, and the source's
  `Substring` can split a surrogate pair, which the model cannot.
- `Environment.NewLine` is taken to be `"\n"`.
- Case mapping is ASCII only. `ToLowerInvariant`, JavaScript's `toLowerCase` and
  `OrdinalIgnoreCase` agree on ASCII, but differ elsewhere in ways the model does not follow.
- `DateTime.UtcNow` is read through two parameters. Everything in a request up to the model
  call happens at `now`: the session lookup, the user message, its `AddMessage` and the cache
  re-arm. Everything after the model answers happens at `later`: the assistant message's
  timestamp, the second `AddMessage` with its cache re-arm, and the final `GetSession`. So the
  session can expire while the model runs.
- Converting code spans only after the lines are joined is stated only through
  `FormatMessage`'s contract. No separate lemma covers a span that crosses a line.
- ClientScript.FormatMessage models the formatter as written, including the wrong closing tag
  described below. The proved list-matching property holds for the corrected pass, not for
  this method.

## Findings

| source | as written | input that shows it | evidently intended | confidence | as-written member | corrected member |
|---|---|---|---|---|---|---|
| PdfChatApp/wwwroot/js/site.js:277-283 | a list is closed mid-text with `</ul>` or `</ol>` according to whether the last entry contains `<ul`; by then that entry is a paragraph, so the result is `</ol>` | the answer `"- a\nb\nc"` gives `<ul class="formatted-list"><li>a</li><p>b</p></ol><p>c</p>` | close the list with the tag of the kind that was opened | not executed | ClientScript.UnorderedListClosedByOl | ClientScript.CorrectedListsMatched |
