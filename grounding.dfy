/** The grounding pipeline of the answer generator: the PDF text is windowed to its tail, placed
    in a fixed system prompt, the language model is asked, and an answer that shares too few
    content words with the window is replaced by a fixed refusal unless the question is about the
    document as a whole. The model itself is a parameter. */
module Grounding {
  import opened Text

  /** How many trailing characters of the PDF text the model sees. */
  const ContextWindow: nat := 6000

  /** What marks a cut context. */
  const Ellipsis: string := "..."

  /** The context the model sees: the whole text when it fits, otherwise `"..."` and the last
      `ContextWindow` characters. */
  function WindowContext(context: string): (r: string)
    ensures |context| <= ContextWindow ==> r == context
    ensures |context| > ContextWindow ==>
      (|r| == |Ellipsis| + ContextWindow && StartsWith(r, Ellipsis) && EndsWith(context, r[|Ellipsis|..]))
  {
    if |context| > ContextWindow then Ellipsis + context[|context| - ContextWindow..] else context
  }

  /** The tail of the context that the window keeps. */
  function KeptTail(context: string): string {
    if |context| > ContextWindow then context[|context| - ContextWindow..] else context
  }

  /** The window is the kept tail, behind `"..."` exactly when something was cut; the tail is a
      suffix of the context and never longer than the window size. */
  lemma WindowIsTail(context: string)
    ensures WindowContext(context) == (if |context| > ContextWindow then Ellipsis else "") + KeptTail(context)
    ensures EndsWith(context, KeptTail(context)) && |KeptTail(context)| <= ContextWindow
    ensures |KeptTail(context)| == if |context| > ContextWindow then ContextWindow else |context|
  {
  }

  // ---------------------------------------------------------------------------------------------
  // Prompts

  /** The system prompt up to the start marker. */
  const SystemPreamble: string :=
    "You are a PDF Document Assistant. Your ONLY job is to answer questions based STRICTLY on the provided PDF content.\n\n"
    + "CRITICAL RULES:\n"
    + "1. ONLY use information from the PDF content below\n"
    + "2. If the answer is NOT in the PDF, you MUST respond EXACTLY with: \"I don't have that information in the uploaded PDF document.\"\n"
    + "3. DO NOT use any external knowledge, training data, or general information\n"
    + "4. DO NOT make assumptions or provide general answers\n"
    + "5. DO NOT answer questions about topics not mentioned in the PDF\n\n"
    + "PDF DOCUMENT CONTENT:\n"

  const PdfStart: string := "---START OF PDF---\n"
  const PdfEnd: string := "\n---END OF PDF---"

  /** The system prompt after the end marker. */
  const SystemGuidelines: string :=
    "\n\nRESPONSE FORMATTING GUIDELINES:\n"
    + "- Use clear paragraphs with proper spacing\n"
    + "- Use bullet points (\U{2022}) for lists\n"
    + "- Use numbered lists (1., 2., 3.) for steps or sequences\n"
    + "- Use **bold** for emphasis on key terms\n"
    + "- Keep responses well-structured and easy to read\n"
    + "- If referencing specific sections, mention the page or section\n"
    + "- Break long responses into digestible paragraphs\n\n"
    + "Remember: If the information is not in the PDF content above, you MUST say you don't have that information. Do not make up or infer answers."

  /** The system prompt around a windowed context. */
  function SystemPrompt(window: string): string {
    SystemPreamble + PdfStart + window + PdfEnd + SystemGuidelines
  }

  /** The window as read back from a system prompt, by position. */
  function PromptWindow(system: string): Option<string> {
    var head, tail := |SystemPreamble + PdfStart|, |PdfEnd + SystemGuidelines|;
    if head + tail <= |system| then Some(system[head..|system| - tail]) else None
  }

  /** A string framed by a head and a tail: it occurs in the whole together with the inner parts
      of the frame, and is recovered by position. */
  lemma FramedRecovered(pre: string, start: string, w: string, end: string, post: string)
    ensures var whole := pre + start + w + end + post;
      && Contains(whole, start + w + end)
      && |pre + start| + |end + post| <= |whole|
      && whole[|pre + start|..|whole| - |end + post|] == w
  {
    var whole := pre + start + w + end + post;
    assert whole == pre + (start + w + end) + post;
    ContainsInMiddle(pre, start + w + end, post);
    assert whole == (pre + start) + w + (end + post);
  }

  /** The system prompt holds the window verbatim between the two markers, and the window can be
      read back from it, so distinct windows give distinct prompts. */
  lemma SystemPromptEmbedsWindow(window: string)
    ensures Contains(SystemPrompt(window), PdfStart + window + PdfEnd)
    ensures PromptWindow(SystemPrompt(window)) == Some(window)
  {
    FramedRecovered(SystemPreamble, PdfStart, window, PdfEnd, SystemGuidelines);
  }

  const UserPromptHead: string := "User question: "
  const UserPromptTail: string :=
    "\n\nProvide a well-formatted answer based ONLY on the PDF content. If not found in PDF, say you don't have that information."

  /** The prompt built from the user's question. */
  function UserPrompt(question: string): string {
    UserPromptHead + question + UserPromptTail
  }

  /** The user prompt is the question behind a fixed head and before a fixed tail, so the question
      can be read back from it. */
  lemma UserPromptEmbedsQuestion(question: string)
    ensures StartsWith(UserPrompt(question), UserPromptHead) && EndsWith(UserPrompt(question), UserPromptTail)
    ensures UserPrompt(question)[|UserPromptHead|..|UserPrompt(question)| - |UserPromptTail|] == question
  {
    var p := UserPrompt(question);
    assert p[..|UserPromptHead|] == UserPromptHead;
    assert p[|p| - |UserPromptTail|..] == UserPromptTail;
  }

  /** The integer-valued sampling options; `temperature` and `top_p` are floating-point settings
      that are not modelled. */
  datatype SamplingOptions = SamplingOptions(topK: nat, numPredict: nat, stop: seq<string>)

  /** The body posted to the model's generate endpoint, by what it is built from: the body's
      `prompt` field is `PromptField` of it and its `system` field is `SystemField` of it. */
  datatype GenerateRequest = GenerateRequest(
    model: string, question: string, window: string, stream: bool, options: SamplingOptions)

  function PromptField(request: GenerateRequest): string {
    UserPrompt(request.question)
  }

  function SystemField(request: GenerateRequest): string {
    SystemPrompt(request.window)
  }

  const StopSequences: seq<string> := ["User question:", "Human:", "Question:"]

  function BuildRequest(question: string, window: string, modelName: string): GenerateRequest {
    GenerateRequest(modelName, question, window, false, SamplingOptions(20, 800, StopSequences))
  }

  /** The posted prompt fields carry the question and the window recoverably: two requests for
      the same model send the same `prompt` and `system` exactly when the questions and the
      windows are equal. */
  lemma RequestDeterminedByInputs(q1: string, w1: string, q2: string, w2: string, modelName: string)
    ensures var r1, r2 := BuildRequest(q1, w1, modelName), BuildRequest(q2, w2, modelName);
      PromptField(r1) == PromptField(r2) && SystemField(r1) == SystemField(r2) <==> q1 == q2 && w1 == w2
  {
    UserPromptInjective(q1, q2);
    SystemPromptInjective(w1, w2);
  }

  lemma UserPromptInjective(q1: string, q2: string)
    ensures UserPrompt(q1) == UserPrompt(q2) ==> q1 == q2
  {
    UserPromptEmbedsQuestion(q1);
    UserPromptEmbedsQuestion(q2);
  }

  lemma SystemPromptInjective(w1: string, w2: string)
    ensures SystemPrompt(w1) == SystemPrompt(w2) ==> w1 == w2
  {
    SystemPromptEmbedsWindow(w1);
    SystemPromptEmbedsWindow(w2);
  }

  // ---------------------------------------------------------------------------------------------
  // Lexical overlap

  /** The characters `Split` breaks answers at. */
  predicate IsSeparator(c: char) {
    c == ' ' || c == '.' || c == ',' || c == '!' || c == '?' || c == '\n' || c == '\r'
  }

  predicate NoSeparator(s: string) {
    forall i :: 0 <= i < |s| ==> !IsSeparator(s[i])
  }

  /** The longest prefix of `s` without a separator. */
  function LeadingWord(s: string): (w: string)
    ensures |w| <= |s| && w == s[..|w|] && NoSeparator(w)
    ensures |w| < |s| ==> IsSeparator(s[|w|])
    decreases |s|
  {
    if s == [] || IsSeparator(s[0]) then [] else [s[0]] + LeadingWord(s[1..])
  }

  /** `Split(separators, StringSplitOptions.RemoveEmptyEntries)`. */
  function Tokens(s: string): seq<string>
    decreases |s|
  {
    if s == [] then []
    else if IsSeparator(s[0]) then Tokens(s[1..])
    else
      var w := LeadingWord(s);
      [w] + Tokens(s[|w|..])
  }

  /** A separator-free prefix ends where the next separator is. */
  lemma {:induction false} LeadingWordOfSplit(a: string, c: char, b: string)
    requires IsSeparator(c)
    ensures LeadingWord(a + [c] + b) == LeadingWord(a)
    decreases |a|
  {
    if a != [] && !IsSeparator(a[0]) {
      assert (a + [c] + b)[1..] == a[1..] + [c] + b;
      LeadingWordOfSplit(a[1..], c, b);
    } else if a == [] {
      assert a + [c] + b == [c] + b;
    }
  }

  lemma {:induction false} LeadingWordWhole(s: string)
    requires NoSeparator(s)
    ensures LeadingWord(s) == s
    decreases |s|
  {
    if s != [] {
      LeadingWordWhole(s[1..]);
    }
  }

  /** Splitting at a separator splits the tokens: this and `TokensOfWord` determine `Tokens`. */
  lemma {:induction false} TokensSplit(a: string, c: char, b: string)
    requires IsSeparator(c)
    ensures Tokens(a + [c] + b) == Tokens(a) + Tokens(b)
    decreases |a|
  {
    var s := a + [c] + b;
    if a == [] {
      assert s == [c] + b;
      assert s[1..] == b;
    } else if IsSeparator(a[0]) {
      assert s[1..] == a[1..] + [c] + b;
      TokensSplit(a[1..], c, b);
    } else {
      var w := LeadingWord(a);
      LeadingWordOfSplit(a, c, b);
      assert |w| >= 1;
      assert s[|w|..] == a[|w|..] + [c] + b;
      TokensSplit(a[|w|..], c, b);
    }
  }

  /** A non-empty separator-free string is a single token. */
  lemma TokensOfWord(s: string)
    requires s != [] && NoSeparator(s)
    ensures Tokens(s) == [s]
  {
    LeadingWordWhole(s);
    assert s[|s|..] == [];
  }

  /** Every token is non-empty and holds no separator. */
  lemma {:induction false} TokensAreWords(s: string)
    ensures forall k :: 0 <= k < |Tokens(s)| ==> Tokens(s)[k] != [] && NoSeparator(Tokens(s)[k])
    decreases |s|
  {
    if s != [] {
      if IsSeparator(s[0]) {
        TokensAreWords(s[1..]);
      } else {
        var w := LeadingWord(s);
        TokensAreWords(s[|w|..]);
      }
    }
  }

  /** The words the service treats as noise, compared ignoring case. */
  const StopWords: set<string> := {
    "the", "is", "at", "which", "on", "a", "an", "and", "or", "but", "in", "with", "to", "for",
    "of", "as", "by", "from", "this", "that", "these", "those", "it", "be", "are", "was", "were",
    "been", "being", "have", "has", "had", "do", "does", "did", "will", "would", "should", "could",
    "may", "might", "can", "must", "shall", "i", "you", "he", "she", "we", "they", "what", "when",
    "where", "why", "how", "document", "pdf", "information", "uploaded"
  }

  predicate IsStopWord(w: string) {
    LowerStr(w) in StopWords
  }

  predicate IsContentWord(w: string) {
    |w| > 3 && !IsStopWord(w)
  }

  /** The content words among `ws`, in order. */
  function ContentWordsOf(ws: seq<string>): (r: seq<string>)
    ensures |r| <= |ws|
    ensures forall k :: 0 <= k < |r| ==> IsContentWord(r[k]) && r[k] in ws
    ensures forall i :: 0 <= i < |ws| && IsContentWord(ws[i]) ==> ws[i] in r
    ensures |r| == |ws| <==> forall i :: 0 <= i < |ws| ==> IsContentWord(ws[i])
    decreases |ws|
  {
    if ws == [] then []
    else
      assert forall i :: 1 <= i < |ws| ==> ws[i] == ws[1..][i - 1];
      (if IsContentWord(ws[0]) then [ws[0]] else []) + ContentWordsOf(ws[1..])
  }

  /** Filtering a concatenation filters each part and keeps their order. */
  lemma {:induction false} ContentWordsConcat(a: seq<string>, b: seq<string>)
    ensures ContentWordsOf(a + b) == ContentWordsOf(a) + ContentWordsOf(b)
    decreases |a|
  {
    if a == [] {
      assert a + b == b;
    } else {
      var h := if IsContentWord(a[0]) then [a[0]] else [];
      assert (a + b)[0] == a[0];
      assert (a + b)[1..] == a[1..] + b;
      calc {
        ContentWordsOf(a + b);
        h + ContentWordsOf(a[1..] + b);
        { ContentWordsConcat(a[1..], b); }
        h + (ContentWordsOf(a[1..]) + ContentWordsOf(b));
        (h + ContentWordsOf(a[1..])) + ContentWordsOf(b);
      }
    }
  }

  /** The answer words the scorer checks: the first ten content words of the answer, in order. */
  function ScoredWords(answer: string): (r: seq<string>)
    ensures |r| <= 10
    ensures |r| <= |ContentWordsOf(Tokens(answer))| && r == ContentWordsOf(Tokens(answer))[..|r|]
    ensures |r| < 10 ==> r == ContentWordsOf(Tokens(answer))
    ensures forall k :: 0 <= k < |r| ==> IsContentWord(r[k]) && r[k] in Tokens(answer)
  {
    var all := ContentWordsOf(Tokens(answer));
    if |all| > 10 then all[..10] else all
  }

  /** How many of `words` occur in `text`, ignoring case. */
  function MatchCount(words: seq<string>, text: string): (m: nat)
    ensures m <= |words|
    ensures m == |words| <==> forall k :: 0 <= k < |words| ==> ContainsIgnoreCase(text, words[k])
    ensures m == 0 <==> forall k :: 0 <= k < |words| ==> !ContainsIgnoreCase(text, words[k])
    decreases |words|
  {
    if words == [] then 0
    else
      assert forall k :: 1 <= k < |words| ==> words[k] == words[1..][k - 1];
      (if ContainsIgnoreCase(text, words[0]) then 1 else 0) + MatchCount(words[1..], text)
  }

  /** The count over a concatenation is the sum of the counts over the parts. */
  lemma {:induction false} MatchCountConcat(a: seq<string>, b: seq<string>, text: string)
    ensures MatchCount(a + b, text) == MatchCount(a, text) + MatchCount(b, text)
    decreases |a|
  {
    if a == [] {
      assert a + b == b;
    } else {
      assert (a + b)[0] == a[0];
      assert (a + b)[1..] == a[1..] + b;
      MatchCountConcat(a[1..], b, text);
    }
  }

  /** `matchCount >= Math.Max(2, n * 0.3)` over the reals. For n up to 10 the double product
      rounds to the nearest value with no integer between it and the exact product, so the
      comparison with the integer match count is the same. */
  predicate MeetsThreshold(matchCount: nat, n: nat) {
    var scaled := (n as real) * 0.3;
    (matchCount as real) >= (if 2.0 >= scaled then 2.0 else scaled)
  }

  /** The threshold in integers. */
  lemma ThresholdInIntegers(matchCount: nat, n: nat)
    ensures MeetsThreshold(matchCount, n) <==> matchCount >= 2 && 10 * matchCount >= 3 * n
  {
  }

  /** `ContainsRelevantTerms`: at least two of the scored words occur in the text, and at least
      three in ten. */
  predicate ContainsRelevantTerms(answer: string, pdfContent: string) {
    var words := ScoredWords(answer);
    MeetsThreshold(MatchCount(words, pdfContent), |words|)
  }

  /** An answer with fewer than two scored words is never grounded, and a grounded answer has at
      least two scored words occurring in the text and at least three in ten. */
  lemma GroundedNeedsTwoMatches(answer: string, pdfContent: string)
    ensures |ScoredWords(answer)| < 2 ==> !ContainsRelevantTerms(answer, pdfContent)
    ensures ContainsRelevantTerms(answer, pdfContent) <==>
      var m := MatchCount(ScoredWords(answer), pdfContent);
      m >= 2 && 10 * m >= 3 * |ScoredWords(answer)|
  {
    ThresholdInIntegers(MatchCount(ScoredWords(answer), pdfContent), |ScoredWords(answer)|);
  }

  /** No character lowers to a full stop but the full stop itself. */
  lemma LowerDot(c: char)
    ensures Lower(c) == '.' <==> c == '.'
  {
  }

  /** A word without a full stop occurs in `"..." + t` exactly when it occurs in `t`, ignoring
      case: the ellipsis never supplies a match. */
  lemma {:induction false} EllipsisNeverMatches(t: string, w: string)
    requires w != [] && NoSeparator(w)
    ensures ContainsIgnoreCase(Ellipsis + t, w) <==> ContainsIgnoreCase(t, w)
  {
    var lw := LowerStr(w);
    LowerConcat(Ellipsis, t);
    assert !IsSeparator(w[0]);
    LowerDot(w[0]);
    DotsNeverStartMatch(LowerStr(Ellipsis), LowerStr(t), lw);
    ContainsAfterPrefix(LowerStr(Ellipsis), LowerStr(t), lw);
  }

  /** An occurrence in `d + s` of a word not starting with a full stop, where `d` is all full
      stops, lies within `s`. */
  lemma DotsNeverStartMatch(d: string, s: string, w: string)
    requires forall k :: 0 <= k < |d| ==> d[k] == '.'
    requires w != [] && w[0] != '.'
    ensures Contains(d + s, w) ==> Contains(s, w)
  {
    if Contains(d + s, w) {
      var u := d + s;
      var i := ContainsIndex(u, w);
      assert u[i] == w[0];
      assert i >= |d|;
      assert u[i..i + |w|] == s[i - |d|..i - |d| + |w|];
      ContainsAt(s, w, i - |d|);
    }
  }

  /** An occurrence in `s` is one in `d + s`. */
  lemma ContainsAfterPrefix(d: string, s: string, w: string)
    ensures Contains(s, w) ==> Contains(d + s, w)
  {
    if Contains(s, w) {
      var i := ContainsIndex(s, w);
      assert (d + s)[i + |d|..i + |d| + |w|] == s[i..i + |w|];
      ContainsAt(d + s, w, i + |d|);
    }
  }

  /** So counting matches against the window counts only words occurring in the kept tail; words
      only in the dropped head never count. */
  lemma {:induction false} MatchCountIgnoresEllipsis(words: seq<string>, t: string)
    requires forall k :: 0 <= k < |words| ==> words[k] != [] && NoSeparator(words[k])
    ensures MatchCount(words, Ellipsis + t) == MatchCount(words, t)
    decreases |words|
  {
    if words != [] {
      EllipsisNeverMatches(t, words[0]);
      MatchCountIgnoresEllipsis(words[1..], t);
    }
  }

  /** Scoring against the window is scoring against the kept tail of the context. */
  lemma GroundedAgainstTail(answer: string, context: string)
    ensures ContainsRelevantTerms(answer, WindowContext(context)) <==> ContainsRelevantTerms(answer, KeptTail(context))
  {
    var words := ScoredWords(answer);
    TokensAreWords(answer);
    assert forall k :: 0 <= k < |words| ==> words[k] != [] && NoSeparator(words[k]) by {
      forall k | 0 <= k < |words|
        ensures words[k] != [] && NoSeparator(words[k])
      {
        var j :| 0 <= j < |Tokens(answer)| && Tokens(answer)[j] == words[k];
      }
    }
    WindowIsTail(context);
    if |context| > ContextWindow {
      MatchCountIgnoresEllipsis(words, KeptTail(context));
    }
  }

  // ---------------------------------------------------------------------------------------------
  // Structural questions

  const StructureKeywords: seq<string> := [
    "summarize", "summary", "about", "topic", "main point",
    "overview", "describe", "explain the document", "what is this document"
  ]

  /** Whether `s` contains one of `keywords`. */
  function ContainsAny(s: string, keywords: seq<string>): (b: bool)
    ensures b <==> exists k :: 0 <= k < |keywords| && Contains(s, keywords[k])
    decreases |keywords|
  {
    if keywords == [] then false
    else Contains(s, keywords[0]) || ContainsAny(s, keywords[1..])
  }

  /** `IsQuestionAboutPdfStructure`. */
  predicate IsQuestionAboutPdfStructure(question: string) {
    ContainsAny(LowerStr(question), StructureKeywords)
  }

  /** For instance, any question with "about" in it, in any case, counts as structural. */
  lemma AboutIsStructural(before: string, after: string)
    ensures IsQuestionAboutPdfStructure(before + "About" + after)
    ensures IsQuestionAboutPdfStructure(before + "about" + after)
  {
    LowerConcat(before, "About");
    LowerConcat(before + "About", after);
    LowerConcat(before, "about");
    LowerConcat(before + "about", after);
    assert LowerStr("About") == "about";
    assert LowerStr("about") == "about";
    ContainsInMiddle(LowerStr(before), "about", LowerStr(after));
    assert StructureKeywords[2] == "about";
  }

  // ---------------------------------------------------------------------------------------------
  // The post-check and the whole call

  /** The sentence that replaces an ungrounded answer. */
  const Refusal: string := "I " + NoInformationPhrase + " in the uploaded PDF document."

  const NoInformationPhrase: string := "don't have that information"
  const NotInPdfPhrase: string := "not in the PDF"

  /** Whether the answer already admits that the PDF lacks the information. */
  predicate AdmitsIgnorance(answer: string) {
    ContainsIgnoreCase(answer, NoInformationPhrase) || ContainsIgnoreCase(answer, NotInPdfPhrase)
  }

  /** When the post-check replaces an answer. */
  predicate Overridden(question: string, window: string, answer: string) {
    answer != [] && !AdmitsIgnorance(answer)
    && !ContainsRelevantTerms(answer, window) && !IsQuestionAboutPdfStructure(question)
  }

  /** The answer after trimming and the grounding check. */
  function PostCheck(question: string, window: string, rawAnswer: string): string {
    var answer := Trim(DotNet, rawAnswer);
    if Overridden(question, window, answer) then Refusal else answer
  }

  /** The refusal admits ignorance, so it is never itself overridden. */
  lemma RefusalAdmitsIgnorance()
    ensures AdmitsIgnorance(Refusal)
  {
    var a, b := "I ", " in the uploaded PDF document.";
    LowerConcat(a, NoInformationPhrase);
    LowerConcat(a + NoInformationPhrase, b);
    assert LowerStr(NoInformationPhrase) == NoInformationPhrase;
    ContainsInMiddle(LowerStr(a), NoInformationPhrase, LowerStr(b));
  }

  /** The post-check returns the trimmed answer or the refusal; it returns something other than
      the trimmed answer exactly when the answer is non-empty, does not admit ignorance, is not
      grounded in the window and the question is not structural. */
  lemma PostCheckOutcome(question: string, window: string, rawAnswer: string)
    ensures var r := PostCheck(question, window, rawAnswer);
      && (r == Trim(DotNet, rawAnswer) || r == Refusal)
      && (r != Trim(DotNet, rawAnswer) <==> Overridden(question, window, Trim(DotNet, rawAnswer)))
  {
    RefusalAdmitsIgnorance();
  }

  /** Structural questions and answers admitting ignorance are never overridden, and an empty
      answer stays empty. */
  lemma PostCheckKeeps(question: string, window: string, rawAnswer: string)
    ensures IsQuestionAboutPdfStructure(question) ==> PostCheck(question, window, rawAnswer) == Trim(DotNet, rawAnswer)
    ensures AdmitsIgnorance(Trim(DotNet, rawAnswer)) ==> PostCheck(question, window, rawAnswer) == Trim(DotNet, rawAnswer)
    ensures AllSpace(DotNet, rawAnswer) ==> PostCheck(question, window, rawAnswer) == []
  {
    TrimShape(DotNet, rawAnswer);
  }

  /** Trimming a string without white space at its ends changes nothing. */
  lemma TrimOfTrimmed(s: string)
    requires s != [] ==> !IsDotNetWhiteSpace(s[0]) && !IsDotNetWhiteSpace(s[|s| - 1])
    ensures Trim(DotNet, s) == s
  {
  }

  lemma RefusalTrimmed()
    ensures Trim(DotNet, Refusal) == Refusal
  {
    var tail := " in the uploaded PDF document.";
    assert Refusal == "I " + NoInformationPhrase + tail;
    assert Refusal[0] == 'I';
    assert Refusal[|Refusal| - 1] == tail[|tail| - 1] == '.';
    TrimOfTrimmed(Refusal);
  }

  /** The refusal is returned as it is, whatever the question and the window. */
  lemma RefusalStable(question: string, window: string)
    ensures PostCheck(question, window, Refusal) == Refusal
  {
    RefusalTrimmed();
    RefusalAdmitsIgnorance();
  }

  /** What the post-check returns is returned unchanged by a second check. */
  lemma CheckedAnswerStable(question: string, window: string, answer: string)
    requires Trim(DotNet, answer) == answer && !Overridden(question, window, answer)
    ensures PostCheck(question, window, answer) == answer
  {
  }

  /** Checking an already checked answer changes nothing. */
  lemma PostCheckIdempotent(question: string, window: string, rawAnswer: string)
    ensures PostCheck(question, window, PostCheck(question, window, rawAnswer)) == PostCheck(question, window, rawAnswer)
  {
    var t := Trim(DotNet, rawAnswer);
    if Overridden(question, window, t) {
      RefusalStable(question, window);
    } else {
      TrimShape(DotNet, rawAnswer);
      TrimOfTrimmed(t);
      CheckedAnswerStable(question, window, t);
    }
  }

  /** What the model endpoint gives back: the `response` property of the reply, a null
      `response` property, or a failure (an unreachable server, an error status, a body that is
      not the expected JSON). */
  datatype BackendReply = Answered(response: string) | NullResponse | Failed

  datatype Result<T> = Ok(value: T) | Err(message: string)

  /** The answer used when the response property is null. */
  const NullResponseAnswer: string := "I encountered an error processing your request."

  /** The message of the exception every failure becomes. */
  const GenerationFailure: string := "Failed to generate response. Please ensure Ollama is running."

  /** `GenerateResponseAsync`, with the model call as the parameter `backend`. */
  function GenerateResponse(question: string, context: string, modelName: string,
                            backend: GenerateRequest -> BackendReply): Result<string>
  {
    var window := WindowContext(context);
    match backend(BuildRequest(question, window, modelName))
    case Failed => Err(GenerationFailure)
    case NullResponse => Ok(PostCheck(question, window, NullResponseAnswer))
    case Answered(response) => Ok(PostCheck(question, window, response))
  }

  /** The model is asked with the question and the window of the context, never the whole
      context; a failure becomes the fixed error, and an answer (a null one read as
      `NullResponseAnswer`) comes back trimmed or as the refusal, the refusal exactly when the
      trimmed answer is overridden against the window. */
  lemma GenerateResponseOutcome(question: string, context: string, modelName: string,
                                backend: GenerateRequest -> BackendReply)
    ensures var reply := backend(BuildRequest(question, WindowContext(context), modelName));
      var r := GenerateResponse(question, context, modelName, backend);
      && (reply.Failed? <==> r == Err(GenerationFailure))
      && (!reply.Failed? ==>
            var answer := Trim(DotNet, if reply.Answered? then reply.response else NullResponseAnswer);
            && r.Ok?
            && (r.value == answer || r.value == Refusal)
            && (r.value != answer <==> Overridden(question, WindowContext(context), answer)))
  {
    var reply := backend(BuildRequest(question, WindowContext(context), modelName));
    if reply.Answered? {
      PostCheckOutcome(question, WindowContext(context), reply.response);
    } else if reply.NullResponse? {
      PostCheckOutcome(question, WindowContext(context), NullResponseAnswer);
    }
  }
}
