/** The chat controller: the answer gate applied after generation, and the request flows for
    uploading a PDF, asking a question and clearing a session, over the session store. The model
    backend, its availability probe and the PDF parser are parameters. */
module Controller {
  import opened Text
  import opened PdfProcessing
  import opened Grounding
  import opened ChatStore

  // ---------------------------------------------------------------------------------------------
  // The answer gate

  /** Phrases that mark an answer as admitting the PDF lacks the information. */
  const GatePhrases: seq<string> := ["don't have that information", "not in the PDF", "not mentioned"]

  /** Topics the PDF is unlikely to cover. */
  const OffTopicKeywords: seq<string> := [
    "weather", "current date", "who is the president", "latest news",
    "recipe for", "how to make", "movie recommendation", "song lyrics",
    "sports score", "stock price"
  ]

  /** Whether `s` contains one of `phrases`, ignoring case. */
  function ContainsAnyIgnoreCase(s: string, phrases: seq<string>): (b: bool)
    ensures b <==> exists k :: 0 <= k < |phrases| && ContainsIgnoreCase(s, phrases[k])
    decreases |phrases|
  {
    if phrases == [] then false
    else ContainsIgnoreCase(s, phrases[0]) || ContainsAnyIgnoreCase(s, phrases[1..])
  }

  /** Whether some keyword occurs in the question but not in the content. */
  function HasUncoveredKeyword(lowerQuestion: string, lowerContent: string, keywords: seq<string>): (b: bool)
    ensures b <==> exists k :: 0 <= k < |keywords| && Contains(lowerQuestion, keywords[k]) && !Contains(lowerContent, keywords[k])
    decreases |keywords|
  {
    if keywords == [] then false
    else
      || (Contains(lowerQuestion, keywords[0]) && !Contains(lowerContent, keywords[0]))
      || HasUncoveredKeyword(lowerQuestion, lowerContent, keywords[1..])
  }

  /** `IsResponseAppropriate`: an answer admitting ignorance always passes; otherwise the answer
      fails exactly when the question mentions an off-topic keyword the PDF does not. */
  predicate IsResponseAppropriate(response: string, question: string, pdfContent: string) {
    ContainsAnyIgnoreCase(response, GatePhrases)
    || !HasUncoveredKeyword(LowerStr(question), LowerStr(pdfContent), OffTopicKeywords)
  }

  /** The gate's two clauses, spelled out. */
  lemma AppropriateCases(response: string, question: string, pdfContent: string)
    ensures (exists k :: 0 <= k < |GatePhrases| && ContainsIgnoreCase(response, GatePhrases[k]))
      ==> IsResponseAppropriate(response, question, pdfContent)
    ensures !(exists k :: 0 <= k < |GatePhrases| && ContainsIgnoreCase(response, GatePhrases[k])) ==>
      (!IsResponseAppropriate(response, question, pdfContent) <==>
        exists k :: 0 <= k < |OffTopicKeywords|
          && Contains(LowerStr(question), OffTopicKeywords[k])
          && !Contains(LowerStr(pdfContent), OffTopicKeywords[k]))
  {
  }

  /** For instance, a question about the weather gets a non-admitting answer rejected when the PDF
      never mentions the weather. */
  lemma WeatherQuestionRejected(response: string, before: string, after: string, pdfContent: string)
    requires !ContainsAnyIgnoreCase(response, GatePhrases)
    requires !Contains(LowerStr(pdfContent), "weather")
    ensures !IsResponseAppropriate(response, before + "weather" + after, pdfContent)
  {
    LowerConcat(before, "weather");
    LowerConcat(before + "weather", after);
    assert LowerStr("weather") == "weather";
    ContainsInMiddle(LowerStr(before), "weather", LowerStr(after));
    assert OffTopicKeywords[0] == "weather";
  }

  /** What the controller sends back in place of a rejected answer. */
  function Gate(response: string, question: string, pdfContent: string): string {
    if IsResponseAppropriate(response, question, pdfContent) then response else Refusal
  }

  /** The refusal passes the gate whatever the question and content; so the gate never alters
      an answer the service already replaced, and gating twice is gating once. */
  lemma RefusalPassesGate(question: string, pdfContent: string, response: string)
    ensures IsResponseAppropriate(Refusal, question, pdfContent)
    ensures Gate(Refusal, question, pdfContent) == Refusal
    ensures Gate(Gate(response, question, pdfContent), question, pdfContent) == Gate(response, question, pdfContent)
  {
    RefusalAdmitsIgnorance();
    assert GatePhrases[0] == NoInformationPhrase;
  }

  // ---------------------------------------------------------------------------------------------
  // Upload

  /** The uploaded form file: its name and its length in bytes. */
  datatype UploadedFile = UploadedFile(fileName: string, length: nat)

  datatype PdfUploadResult = PdfUploadResult(
    success: bool, message: string, error: Option<string>,
    sessionId: Option<string>, pageCount: nat, fileName: Option<string>)

  function UploadFailure(error: string): PdfUploadResult {
    PdfUploadResult(false, "", Some(error), None, 0, None)
  }

  /** 50 MB. */
  const MaxUploadBytes: nat := 50 * 1024 * 1024

  const NoFileError: string := "Please select a PDF file to upload."
  const NotPdfError: string := "Only PDF files are supported."
  const TooLargeError: string := "File size must be less than 50MB."
  const UnavailableError: string := "AI service is not available. Please ensure Ollama is running."
  const NoTextError: string := "Could not extract text from PDF. The PDF may be empty or image-based."
  const ExtractionFailure: string := "Failed to extract text from PDF. Please ensure the file is a valid PDF."
  const ErrorPrefix: string := "An error occurred: "

  /** The checks made before the PDF is read, in order; the message of the first that fails. */
  function UploadRejection(pdfFile: Option<UploadedFile>, available: bool): (r: Option<string>)
    ensures r == None <==>
      pdfFile.Some? && pdfFile.value.length > 0 && EndsWithIgnoreCase(pdfFile.value.fileName, ".pdf")
      && pdfFile.value.length <= MaxUploadBytes && available
    ensures r == Some(NoFileError) <==> pdfFile == None || pdfFile.value.length == 0
    ensures r == Some(NotPdfError) <==>
      pdfFile.Some? && pdfFile.value.length > 0 && !EndsWithIgnoreCase(pdfFile.value.fileName, ".pdf")
    ensures r == Some(TooLargeError) <==>
      pdfFile.Some? && pdfFile.value.length > 0 && EndsWithIgnoreCase(pdfFile.value.fileName, ".pdf")
      && pdfFile.value.length > MaxUploadBytes
    ensures r == Some(UnavailableError) <==>
      pdfFile.Some? && pdfFile.value.length > 0 && EndsWithIgnoreCase(pdfFile.value.fileName, ".pdf")
      && pdfFile.value.length <= MaxUploadBytes && !available
  {
    match pdfFile
    case None => Some(NoFileError)
    case Some(file) =>
      if file.length == 0 then Some(NoFileError)
      else if !EndsWithIgnoreCase(file.fileName, ".pdf") then Some(NotPdfError)
      else if file.length > MaxUploadBytes then Some(TooLargeError)
      else if !available then Some(UnavailableError)
      else None
  }

  function UploadSuccessMessage(pageCount: nat): string {
    "PDF uploaded successfully! " + NatToString(pageCount) + " pages processed."
  }

  /** What `Upload` answers, given the probe's answer, the parser's output (`None` when it throws)
      and the id a new session would get. */
  function UploadResponse(pdfFile: Option<UploadedFile>, available: bool,
                          document: Option<seq<string>>, sessionId: string): PdfUploadResult
  {
    match UploadRejection(pdfFile, available)
    case Some(error) => UploadFailure(error)
    case None =>
      match document
      case None => UploadFailure(ErrorPrefix + ExtractionFailure)
      case Some(pages) =>
        if IsNullOrWhiteSpace(CleanExtractedText(RawText(pages))) then UploadFailure(NoTextError)
        else PdfUploadResult(true, UploadSuccessMessage(|pages|), None, Some(sessionId),
                             |pages|, Some(pdfFile.value.fileName))
  }

  /** An upload succeeds exactly when every check passes and the PDF has at least one page; a
      failure carries the message of the first failing step, and a success reports the page count
      and the new session's id. */
  lemma UploadOutcome(pdfFile: Option<UploadedFile>, available: bool,
                      document: Option<seq<string>>, sessionId: string)
    ensures var r := UploadResponse(pdfFile, available, document, sessionId);
      && (r.success <==> UploadRejection(pdfFile, available) == None && document.Some? && |document.value| > 0)
      && (UploadRejection(pdfFile, available).Some? ==> r.error == UploadRejection(pdfFile, available))
      && (UploadRejection(pdfFile, available).None? && document.None? ==> r.error == Some(ErrorPrefix + ExtractionFailure))
      && (UploadRejection(pdfFile, available).None? && document == Some([]) ==> r.error == Some(NoTextError))
      && (r.success ==> r.error == None && r.sessionId == Some(sessionId) && r.pageCount == |document.value|
                        && r.fileName == Some(pdfFile.value.fileName))
      && (!r.success ==> r.error.Some? && r.sessionId == None)
  {
    if UploadRejection(pdfFile, available).None? && document.Some? {
      ExtractedTextBlank(document.value);
    }
  }

  /** `Upload`. `available` is the backend probe's answer; `document` is what the PDF parser
      gives: the pages' texts, or `None` when it throws. A session, holding the cleaned text, is
      created exactly when the upload succeeds. */
  method Upload(store: ChatService, pdfFile: Option<UploadedFile>, available: bool,
                document: Option<seq<string>>, guid: string, now: Time)
    returns (r: PdfUploadResult)
    requires store.Valid() && guid !in store.cache
    modifies store
    ensures store.Valid()
    ensures r == UploadResponse(pdfFile, available, document, guid)
    ensures !r.success ==> store.cache == old(store.cache)
    ensures r.success ==>
      && guid in store.cache && store.cache == old(store.cache)[guid := store.cache[guid]]
      && var s := store.cache[guid].session;
         && s.PdfContent == CleanExtractedText(RawText(document.value))
         && s.FileName == pdfFile.value.fileName && s.History == [] && s.CreatedAt == now
         && s.LastActivity == now && store.cache[guid].lastAccess == now
  {
    var rejection := UploadRejection(pdfFile, available);
    if rejection.Some? {
      return UploadFailure(rejection.value);
    }
    if document.None? {
      return UploadFailure(ErrorPrefix + ExtractionFailure);
    }
    var content, pageCount := ExtractTextFromPdf(document.value);
    if IsNullOrWhiteSpace(content) {
      return UploadFailure(NoTextError);
    }
    var file := pdfFile.value;
    var sessionId := store.CreateSession(content, file.fileName, pageCount, guid, now);
    r := PdfUploadResult(true, UploadSuccessMessage(pageCount), None, Some(sessionId), pageCount, Some(file.fileName));
  }

  // ---------------------------------------------------------------------------------------------
  // Ask

  datatype ChatRequest = ChatRequest(message: string, sessionId: string)

  datatype ChatResponse = ChatResponse(success: bool, message: string, error: Option<string>, history: seq<ChatMessage>)

  function AskFailure(error: string): ChatResponse {
    ChatResponse(false, "", Some(error), [])
  }

  const NoQuestionError: string := "Please enter a question."
  const NoSessionError: string := "Session expired. Please upload the PDF again."
  const UnknownSessionError: string := "Session not found. Please upload the PDF again."

  /** The outcome of a question asked in a session found live at `now`. */
  ghost predicate Conversed(store: ChatService, id: string, s: ChatSession, message: string,
                            generated: Result<string>, now: Time, later: Time,
                            oldCache: map<string, CacheEntry>, oldHistory: seq<ChatMessage>,
                            r: ChatResponse)
    reads store, s
  {
    var asked := oldHistory + [ChatMessage(User, message, now)];
    match generated
    case Err(e) =>
      && r == AskFailure(ErrorPrefix + e)
      && s.History == asked && s.LastActivity == now
      && store.cache == oldCache[id := CacheEntry(s, now)]
    case Ok(answer) =>
      var reply := Gate(answer, message, s.PdfContent);
      && r.success && r.message == reply && r.error == None
      && (later - now < SessionTimeout ==>
            && s.History == asked + [ChatMessage(Assistant, reply, later)]
            && r.history == s.History && s.LastActivity == later
            && store.cache == oldCache[id := CacheEntry(s, later)])
      && (later - now >= SessionTimeout ==>
            && s.History == asked && s.LastActivity == now && r.history == []
            && store.cache == oldCache - {id})
  }

  /** Recording the gated answer at `later`: it is appended to the session and the history is
      read back; if the session expired while the model ran, nothing is appended and the history
      read back is empty. */
  method RecordAnswer(store: ChatService, id: string, session: ChatSession, reply: string,
                      now: Time, later: Time)
    returns (history: seq<ChatMessage>)
    requires store.Valid() && id in store.cache && store.cache[id] == CacheEntry(session, now)
    modifies store, session
    ensures store.Valid()
    ensures later - now < SessionTimeout ==>
      && session.History == old(session.History) + [ChatMessage(Assistant, reply, later)]
      && history == session.History && session.LastActivity == later
      && store.cache == old(store.cache)[id := CacheEntry(session, later)]
    ensures later - now >= SessionTimeout ==>
      && session.History == old(session.History) && session.LastActivity == old(session.LastActivity)
      && history == [] && store.cache == old(store.cache) - {id}
  {
    store.AddMessage(id, ChatMessage(Assistant, reply, later), later);
    var updated := store.GetSession(id, later);
    history := if updated != null then updated.History else [];
  }

  /** The end of `Ask` once the model has been called: a failure is reported as it is (the
      question stays in the history); an answer is gated, appended to the session at `later` and
      the history is read back, which is empty if the session expired while the model ran. */
  method Respond(store: ChatService, id: string, session: ChatSession, message: string,
                 generated: Result<string>, now: Time, later: Time,
                 ghost oldCache: map<string, CacheEntry>, ghost oldHistory: seq<ChatMessage>)
    returns (r: ChatResponse)
    requires store.Valid() && store.cache == oldCache[id := CacheEntry(session, now)]
    requires session.History == oldHistory + [ChatMessage(User, message, now)]
    requires session.LastActivity == now
    modifies store, session
    ensures store.Valid()
    ensures Conversed(store, id, session, message, generated, now, later, oldCache, oldHistory, r)
  {
    if generated.Err? {
      return AskFailure(ErrorPrefix + generated.message);
    }
    var reply := Gate(generated.value, message, session.PdfContent);
    var history := RecordAnswer(store, id, session, reply, now, later);
    r := ChatResponse(true, reply, None, history);
  }

  /** The part of `Ask` after the session was found: the question is appended before the model is
      called, and stays there if the call fails. */
  method Converse(store: ChatService, id: string, session: ChatSession, message: string,
                  modelName: string, backend: GenerateRequest -> BackendReply, now: Time, later: Time)
    returns (r: ChatResponse)
    requires store.Valid() && id in store.cache && store.cache[id] == CacheEntry(session, now)
    modifies store, session
    ensures store.Valid()
    ensures Conversed(store, id, session, message,
                      GenerateResponse(message, session.PdfContent, modelName, backend),
                      now, later, old(store.cache), old(session.History), r)
  {
    store.AddMessage(id, ChatMessage(User, message, now), now);
    var generated := GenerateResponse(message, session.PdfContent, modelName, backend);
    r := Respond(store, id, session, message, generated, now, later,
                 old(store.cache), old(session.History));
  }

  /** `Ask`, received at `now`; the model's answer arrives at `later`. The errors come in a fixed
      order (blank question, blank session id, unknown or expired session) and leave every
      history as it was. */
  method Ask(store: ChatService, request: ChatRequest, modelName: string,
             backend: GenerateRequest -> BackendReply, now: Time, later: Time)
    returns (r: ChatResponse)
    requires store.Valid()
    modifies store, store.LiveSession(request.sessionId, now)
    ensures store.Valid()
    ensures IsNullOrWhiteSpace(request.message) ==>
      r == AskFailure(NoQuestionError) && store.cache == old(store.cache)
      && unchanged(store.LiveSession(request.sessionId, now))
    ensures !IsNullOrWhiteSpace(request.message) && IsNullOrWhiteSpace(request.sessionId) ==>
      r == AskFailure(NoSessionError) && store.cache == old(store.cache)
      && unchanged(store.LiveSession(request.sessionId, now))
    ensures (!IsNullOrWhiteSpace(request.message) && !IsNullOrWhiteSpace(request.sessionId)
             && !old(store.IsLive(request.sessionId, now))) ==>
      r == AskFailure(UnknownSessionError) && store.cache == old(store.cache) - {request.sessionId}
    ensures (!IsNullOrWhiteSpace(request.message) && !IsNullOrWhiteSpace(request.sessionId)
             && old(store.IsLive(request.sessionId, now))) ==>
      var s := old(store.cache[request.sessionId].session);
      Conversed(store, request.sessionId, s, request.message,
                GenerateResponse(request.message, s.PdfContent, modelName, backend),
                now, later, old(store.cache), old(s.History), r)
  {
    if IsNullOrWhiteSpace(request.message) {
      return AskFailure(NoQuestionError);
    }
    if IsNullOrWhiteSpace(request.sessionId) {
      return AskFailure(NoSessionError);
    }
    var id := request.sessionId;
    var session := store.GetSession(id, now);
    if session == null {
      return AskFailure(UnknownSessionError);
    }
    r := Converse(store, id, session, request.message, modelName, backend, now, later);
  }

  // ---------------------------------------------------------------------------------------------
  // Clear

  datatype ClearResult = ClearResult(success: bool, message: string)

  /** `ClearSession` only logs the id: it reports success and changes no session (it is given no
      right to modify the store). */
  method ClearSession(store: ChatService, request: ChatRequest) returns (r: ClearResult)
    ensures r.success && r.message == "Session cleared successfully."
  {
    r := ClearResult(true, "Session cleared successfully.");
  }
}
