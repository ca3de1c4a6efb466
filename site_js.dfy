/** The browser script: the formatter that turns an assistant answer into HTML (inline markup,
    then a line-by-line pass that builds lists and paragraphs, then code spans), the check made on
    a file before it is uploaded and the guard on submitting a question. The DOM, `fetch`, toasts
    and timers are not modelled. */
module ClientScript {
  import opened Text
  import opened Controller

  // ---------------------------------------------------------------------------------------------
  // Inline markup: `s.replace(/D(.+?)D/g, open + "$1" + close)`

  predicate NoTerminator(s: string) {
    forall i :: 0 <= i < |s| ==> !IsLineTerminator(s[i])
  }

  /** The lazy `(.+?)` followed by `d`, tried with `k` characters first and then more: the first
      length at which `d` follows, unless a line terminator, which `.` does not match, comes
      first. */
  function LazyMatch(s: string, d: string, k: nat): (r: Option<nat>)
    requires k >= 1
    ensures r.Some? ==> k <= r.value <= |s| && StartsWith(s[r.value..], d)
    decreases |s| - k
  {
    if k > |s| || IsLineTerminator(s[k - 1]) then None
    else if StartsWith(s[k..], d) then Some(k)
    else LazyMatch(s, d, k + 1)
  }

  /** `LazyMatch` finds the shortest terminator-free content that `d` follows, and reports none
      only when no such content exists. */
  lemma {:induction false} LazyMatchShortest(s: string, d: string, k: nat)
    requires k >= 1 && (k <= |s| + 1 ==> NoTerminator(s[..k - 1]))
    ensures LazyMatch(s, d, k).Some? ==>
      var n := LazyMatch(s, d, k).value;
      && NoTerminator(s[..n])
      && forall j :: k <= j < n ==> !StartsWith(s[j..], d)
    ensures LazyMatch(s, d, k).None? ==>
      forall n :: k <= n <= |s| && NoTerminator(s[..n]) ==> !StartsWith(s[n..], d)
    decreases |s| - k
  {
    if k > |s| {
    } else if IsLineTerminator(s[k - 1]) {
      forall n | k <= n <= |s|
        ensures !NoTerminator(s[..n])
      {
        assert s[..n][k - 1] == s[k - 1];
      }
    } else if !StartsWith(s[k..], d) {
      assert NoTerminator(s[..k]) by {
        forall i | 0 <= i < k
          ensures !IsLineTerminator(s[..k][i])
        {
          if i < k - 1 {
            assert s[..k][i] == s[..k - 1][i];
          }
        }
      }
      LazyMatchShortest(s, d, k + 1);
    } else {
      assert NoTerminator(s[..k]) by {
        forall i | 0 <= i < k
          ensures !IsLineTerminator(s[..k][i])
        {
          if i < k - 1 {
            assert s[..k][i] == s[..k - 1][i];
          }
        }
      }
    }
  }

  /** A global replacement of `d(.+?)d`: scanning left to right, each match is replaced by its
      content between `open` and `close`, and the scan resumes after the match. */
  function ReplaceDelimited(s: string, d: string, open: string, close: string): string
    requires d != []
    decreases |s|
  {
    if s == [] then []
    else if StartsWith(s, d) && LazyMatch(s[|d|..], d, 1).Some? then
      var n := LazyMatch(s[|d|..], d, 1).value;
      open + s[|d|..|d| + n] + close + ReplaceDelimited(s[|d| + n + |d|..], d, open, close)
    else [s[0]] + ReplaceDelimited(s[1..], d, open, close)
  }

  /** Text without the delimiter is left as it is. */
  lemma {:induction false} ReplaceWithoutDelimiter(s: string, d: string, open: string, close: string)
    requires d != [] && !Contains(s, d)
    ensures ReplaceDelimited(s, d, open, close) == s
    decreases |s|
  {
    if s != [] {
      ReplaceWithoutDelimiter(s[1..], d, open, close);
    }
  }

  /** The lazy match in `w + d + t` ends right after `w` when `w` is one line without the
      delimiter's first character. */
  lemma LazyMatchSpan(w: string, t: string, d: string)
    requires d != [] && w != [] && NoTerminator(w) && forall i :: 0 <= i < |w| ==> w[i] != d[0]
    ensures LazyMatch(w + d + t, d, 1) == Some(|w|)
  {
    var u := w + d + t;
    assert NoTerminator(u[..0]);
    LazyMatchShortest(u, d, 1);
    assert StartsWith(u[|w|..], d) by {
      assert u[|w|..][..|d|] == d;
    }
    assert NoTerminator(u[..|w|]) by {
      assert u[..|w|] == w;
    }
    assert forall j :: 0 <= j < |w| ==> !StartsWith(u[j..], d) by {
      forall j | 0 <= j < |w|
        ensures !StartsWith(u[j..], d)
      {
        assert u[j..][0] == w[j];
      }
    }
  }

  /** A span `d + w + d` whose content is one line without the delimiter's first character is
      replaced by its content between the tags, and the rest is scanned on its own. */
  lemma ReplaceSpan(w: string, t: string, d: string, open: string, close: string)
    requires d != [] && w != [] && NoTerminator(w) && forall i :: 0 <= i < |w| ==> w[i] != d[0]
    ensures ReplaceDelimited(d + w + d + t, d, open, close) == open + w + close + ReplaceDelimited(t, d, open, close)
  {
    SpanSlices(d, w, t);
    LazyMatchSpan(w, t, d);
    ReplaceAtMatch(d + w + d + t, d, |w|, open, close);
  }

  /** The parts of `d + w + d + t`, by position. */
  lemma SpanSlices(d: string, w: string, t: string)
    ensures var s := d + w + d + t;
      && StartsWith(s, d) && s[|d|..] == w + d + t
      && s[|d|..|d| + |w|] == w && s[|d| + |w| + |d|..] == t
  {
    var s := d + w + d + t;
    assert s[..|d|] == d;
  }

  /** Where a delimiter starts the text and the lazy match after it ends after `n` characters, the
      match is replaced and the scan resumes after it. */
  lemma ReplaceAtMatch(s: string, d: string, n: nat, open: string, close: string)
    requires d != [] && StartsWith(s, d) && LazyMatch(s[|d|..], d, 1) == Some(n)
    ensures |d| + n + |d| <= |s|
    ensures ReplaceDelimited(s, d, open, close)
      == open + s[|d|..|d| + n] + close + ReplaceDelimited(s[|d| + n + |d|..], d, open, close)
  {
    assert StartsWith(s[|d|..][n..], d);
  }

  /** A string that lacks one of the characters of `t` does not contain `t`. */
  lemma {:induction false} MissingCharNotContained(s: string, t: string, k: nat)
    requires k < |t| && forall i :: 0 <= i < |s| ==> s[i] != t[k]
    ensures !Contains(s, t)
    decreases |s|
  {
    if |t| <= |s| {
      assert s[..|t|][k] == s[k];
    }
    if s != [] {
      assert forall i :: 0 <= i < |s[1..]| ==> s[1..][i] == s[i + 1];
      MissingCharNotContained(s[1..], t, k);
    }
  }

  function Bold(s: string): string {
    ReplaceDelimited(s, "**", "<strong>", "</strong>")
  }

  function Italic(s: string): string {
    ReplaceDelimited(s, "*", "<em>", "</em>")
  }

  /** Bold first, then italic. */
  function InlineMarkup(s: string): string {
    Italic(Bold(s))
  }

  /** Because bold is converted before italic, `**w**` becomes bold and not an italic span around
      a stray asterisk. */
  lemma BoldBeforeItalic(w: string)
    requires w != [] && NoTerminator(w) && forall i :: 0 <= i < |w| ==> w[i] != '*'
    ensures InlineMarkup("**" + w + "**") == "<strong>" + w + "</strong>"
  {
    var b := "<strong>" + w + "</strong>";
    assert "**" + w + "**" == "**" + w + "**" + [];
    ReplaceSpan(w, [], "**", "<strong>", "</strong>");
    assert b + [] == b;
    assert forall i :: 0 <= i < |b| ==> b[i] != '*';
    MissingCharNotContained(b, "*", 0);
    ReplaceWithoutDelimiter(b, "*", "<em>", "</em>");
  }

  // ---------------------------------------------------------------------------------------------
  // Lines: `split('\n')` and `join('')`

  /** `s.split('\n')`: the pieces between line feeds; there is always at least one. */
  function SplitLines(s: string): (r: seq<string>)
    ensures |r| >= 1
    decreases |s|
  {
    if s == [] then [""]
    else if s[0] == '\n' then [""] + SplitLines(s[1..])
    else
      var rest := SplitLines(s[1..]);
      [[s[0]] + rest[0]] + rest[1..]
  }

  /** The pieces joined back with line feeds. */
  function JoinLines(lines: seq<string>): string
    decreases |lines|
  {
    if lines == [] then ""
    else if |lines| == 1 then lines[0]
    else lines[0] + "\n" + JoinLines(lines[1..])
  }

  predicate NoLineFeed(s: string) {
    forall i :: 0 <= i < |s| ==> s[i] != '\n'
  }

  /** How splitting proceeds past a line feed and past any other character. */
  lemma SplitLinesCons(c: char, t: string)
    ensures c == '\n' ==> SplitLines([c] + t) == [""] + SplitLines(t)
    ensures c != '\n' ==>
      SplitLines([c] + t) == [[c] + SplitLines(t)[0]] + SplitLines(t)[1..]
  {
    assert ([c] + t)[1..] == t;
  }

  /** How joining proceeds for a first piece that is empty or starts with a character. */
  lemma JoinLinesCons(c: char, lines: seq<string>)
    requires |lines| >= 1
    ensures JoinLines([""] + lines) == "\n" + JoinLines(lines)
    ensures JoinLines([[c] + lines[0]] + lines[1..]) == [c] + JoinLines(lines)
  {
    JoinEmptyFirst(lines);
    JoinPrefixFirst([c], lines);
  }

  lemma JoinEmptyFirst(lines: seq<string>)
    requires |lines| >= 1
    ensures JoinLines([""] + lines) == "\n" + JoinLines(lines)
  {
    assert ([""] + lines)[1..] == lines;
  }

  /** A join is the first piece followed by what comes after it, whatever that first piece is. */
  lemma JoinAfterFirst(lines: seq<string>) returns (after: string)
    requires |lines| >= 1
    ensures JoinLines(lines) == lines[0] + after
    ensures forall p: string :: JoinLines([p] + lines[1..]) == p + after
  {
    after := if |lines| == 1 then "" else "\n" + JoinLines(lines[1..]);
    forall p: string
      ensures JoinLines([p] + lines[1..]) == p + after
    {
      var m := [p] + lines[1..];
      assert m[0] == p && m[1..] == lines[1..];
      if |lines| == 1 {
        assert p + after == p;
      }
    }
    if |lines| == 1 {
      assert lines[0] + after == lines[0];
    }
  }

  lemma JoinPrefixFirst(p: string, lines: seq<string>)
    requires |lines| >= 1
    ensures JoinLines([p + lines[0]] + lines[1..]) == p + JoinLines(lines)
  {
    var after := JoinAfterFirst(lines);
    assert (p + lines[0]) + after == p + (lines[0] + after);
  }

  /** Splitting then joining gives the text back. */
  lemma {:induction false} SplitJoin(s: string)
    ensures JoinLines(SplitLines(s)) == s
    decreases |s|
  {
    if s != [] {
      SplitJoin(s[1..]);
      SplitLinesCons(s[0], s[1..]);
      JoinLinesCons(s[0], SplitLines(s[1..]));
      assert s == [s[0]] + s[1..];
    }
  }

  /** No piece holds a line feed. */
  lemma {:induction false} SplitPiecesHaveNoLineFeed(s: string)
    ensures forall k :: 0 <= k < |SplitLines(s)| ==> NoLineFeed(SplitLines(s)[k])
    decreases |s|
  {
    if s != [] {
      SplitPiecesHaveNoLineFeed(s[1..]);
      var rest, r := SplitLines(s[1..]), SplitLines(s);
      if s[0] != '\n' {
        forall k | 0 <= k < |r|
          ensures NoLineFeed(r[k])
        {
          if k == 0 {
            assert r[0] == [s[0]] + rest[0];
            assert NoLineFeed(rest[0]);
          } else {
            assert r[k] == rest[k];
          }
        }
      } else {
        assert forall k :: 1 <= k < |r| ==> r[k] == rest[k - 1];
      }
    }
  }

  /** Conversely, joining pieces without line feeds and splitting gives the pieces back. */
  lemma {:induction false} JoinSplit(lines: seq<string>)
    requires |lines| >= 1 && forall k :: 0 <= k < |lines| ==> NoLineFeed(lines[k])
    ensures SplitLines(JoinLines(lines)) == lines
    decreases |lines|, |lines[0]|
  {
    var h := lines[0];
    if h == [] {
      if |lines| > 1 {
        var rest := lines[1..];
        assert forall k :: 0 <= k < |rest| ==> rest[k] == lines[k + 1];
        JoinSplit(rest);
        JoinLinesCons(' ', rest);
        SplitLinesCons('\n', JoinLines(rest));
        assert lines == [""] + rest;
      }
    } else {
      var tail := [h[1..]] + lines[1..];
      assert NoLineFeed(h[1..]) by {
        assert forall i :: 0 <= i < |h[1..]| ==> h[1..][i] == h[i + 1];
      }
      assert forall k :: 1 <= k < |tail| ==> tail[k] == lines[k];
      JoinSplit(tail);
      JoinLinesCons(h[0], tail);
      SplitLinesCons(h[0], JoinLines(tail));
      assert [h[0]] + tail[0] == h;
      assert [[h[0]] + tail[0]] + tail[1..] == lines;
    }
  }

  /** `formattedLines.join('')`. */
  function Concat(entries: seq<string>): string
    decreases |entries|
  {
    if entries == [] then "" else Concat(entries[..|entries| - 1]) + entries[|entries| - 1]
  }

  // ---------------------------------------------------------------------------------------------
  // List items

  /** The characters of `[•\-\*]`. */
  predicate IsBulletMark(c: char) {
    c == '\U{2022}' || c == '-' || c == '*'
  }

  /** A trimmed line matching `^[•\-\*]\s+`. */
  predicate IsBulletItem(t: string) {
    |t| >= 2 && IsBulletMark(t[0]) && IsSpace(JavaScript, t[1])
  }

  /** The number of leading ASCII digits (`\d` in JavaScript). */
  function DigitRun(t: string): (k: nat)
    ensures k <= |t| && (forall i :: 0 <= i < k ==> IsDigit(t[i])) && (k < |t| ==> !IsDigit(t[k]))
    decreases |t|
  {
    if t != [] && IsDigit(t[0]) then 1 + DigitRun(t[1..]) else 0
  }

  /** A trimmed line matching `^\d+\.\s+`: since `.` is not a digit, the greedy `\d+` ends exactly
      where the full stop is. */
  predicate IsNumberedItem(t: string) {
    var k := DigitRun(t);
    k >= 1 && k + 2 <= |t| && t[k] == '.' && IsSpace(JavaScript, t[k + 1])
  }

  /** `replace(/^[•\-\*]\s+/, '')`: the mark and the white space after it removed. */
  function BulletText(t: string): string
    requires IsBulletItem(t)
  {
    SkipSpace(JavaScript, t[1..])
  }

  /** `replace(/^\d+\.\s+/, '')`. */
  function NumberedText(t: string): string
    requires IsNumberedItem(t)
  {
    SkipSpace(JavaScript, t[DigitRun(t) + 1..])
  }

  /** Removing the white space that starts at `m`: what is left is a proper suffix that does
      not start with white space, and only white space was removed. */
  lemma SkipFrom(t: string, m: nat)
    requires m < |t| && IsSpace(JavaScript, t[m])
    ensures var text := SkipSpace(JavaScript, t[m..]);
      && |text| < |t| - m && t[|t| - |text|..] == text
      && AllSpace(JavaScript, t[m..|t| - |text|])
      && (text == [] || !IsSpace(JavaScript, text[0]))
  {
    var u := t[m..];
    var text := SkipSpace(JavaScript, u);
    SkipSpaceShape(JavaScript, u);
    assert text == SkipSpace(JavaScript, u[1..]);
    assert u[..|u| - |text|] == t[m..|t| - |text|];
    assert t[|t| - |text|..] == u[|u| - |text|..];
  }

  /** A bullet item is its mark, a non-empty run of white space and the item text, which does not
      start with white space; on a trimmed line the text is not empty. */
  lemma BulletItemShape(t: string)
    requires IsBulletItem(t)
    ensures var text := BulletText(t);
      && |text| < |t| - 1 && t[|t| - |text|..] == text
      && AllSpace(JavaScript, t[1..|t| - |text|])
      && (text == [] || !IsSpace(JavaScript, text[0]))
    ensures t == Trim(JavaScript, t) ==> BulletText(t) != []
  {
    SkipFrom(t, 1);
    var text := BulletText(t);
    var j := |t| - |text| - 2;
    assert t[1..|t| - |text|][j] == t[j + 1];
    if t == Trim(JavaScript, t) {
      TrimShape(JavaScript, t);
      assert !IsSpace(JavaScript, t[|t| - 1]);
    }
  }

  /** A numbered item is its digits, a full stop, a non-empty run of white space and the item
      text, which does not start with white space. */
  lemma NumberedItemShape(t: string)
    requires IsNumberedItem(t)
    ensures var k, text := DigitRun(t), NumberedText(t);
      && |text| < |t| - k - 1 && t[|t| - |text|..] == text
      && t[k] == '.' && AllSpace(JavaScript, t[k + 1..|t| - |text|])
      && (text == [] || !IsSpace(JavaScript, text[0]))
  {
    var k := DigitRun(t);
    assert NumberedText(t) == SkipSpace(JavaScript, t[k + 1..]);
    SkipFrom(t, k + 1);
  }

  // ---------------------------------------------------------------------------------------------
  // The line pass

  const UlOpen: string := "<ul class=\"formatted-list\">"
  const OlOpen: string := "<ol class=\"formatted-list\">"
  const UlClose: string := "</ul>"
  const OlClose: string := "</ol>"
  const LineBreak: string := "<br>"

  function ListItem(text: string): string {
    "<li>" + text + "</li>"
  }

  function Paragraph(text: string): string {
    "<p>" + text + "</p>"
  }

  /** `formattedLines` and `inList`. */
  datatype FormatterState = FormatterState(entries: seq<string>, inList: bool)

  const Initial: FormatterState := FormatterState([], false)

  /** The closing tag pushed mid-text: a list is closed only if the last entry is non-empty and
      holds no `<li>`, and the tag is chosen by whether that entry holds `<ul`. */
  function CloseBeforeText(st: FormatterState): FormatterState {
    if st.inList && st.entries != [] then
      var last := st.entries[|st.entries| - 1];
      if last != "" && !Contains(last, "<li>") then
        FormatterState(st.entries + [if Contains(last, "<ul") then UlClose else OlClose], false)
      else st
    else st
  }

  /** One line of the `forEach`. */
  function Step(st: FormatterState, line: string): FormatterState {
    var t := Trim(JavaScript, line);
    if IsBulletItem(t) then
      FormatterState((if st.inList then st.entries else st.entries + [UlOpen]) + [ListItem(BulletText(t))], true)
    else if IsNumberedItem(t) then
      FormatterState((if st.inList then st.entries else st.entries + [OlOpen]) + [ListItem(NumberedText(t))], true)
    else
      var c := CloseBeforeText(st);
      if t != [] then FormatterState(c.entries + [Paragraph(t)], c.inList)
      else if c.entries != [] then FormatterState(c.entries + [LineBreak], c.inList)
      else c
  }

  /** The pass over `lines` from state `st`. */
  function Feed(st: FormatterState, lines: seq<string>): FormatterState
    decreases |lines|
  {
    if lines == [] then st else Step(Feed(st, lines[..|lines| - 1]), lines[|lines| - 1])
  }

  /** Whether some entry contains `pattern` (`formattedLines.some(line => line.includes(...))`). */
  function AnyContains(entries: seq<string>, pattern: string): (r: bool)
    ensures r <==> exists i :: 0 <= i < |entries| && Contains(entries[i], pattern)
    decreases |entries|
  {
    if entries == [] then false
    else Contains(entries[|entries| - 1], pattern) || AnyContains(entries[..|entries| - 1], pattern)
  }

  /** After the pass, a list still open gets exactly one closing tag: `</ul>` when any entry at
      all holds `<ul`, else `</ol>`; nothing else is added. */
  function Finish(st: FormatterState): (r: seq<string>)
    ensures |r| == |st.entries| + (if st.inList then 1 else 0) && r[..|st.entries|] == st.entries
    ensures st.inList ==>
      && (r[|r| - 1] == UlClose || r[|r| - 1] == OlClose)
      && (r[|r| - 1] == UlClose <==> exists i :: 0 <= i < |st.entries| && Contains(st.entries[i], "<ul"))
  {
    if st.inList then st.entries + [if AnyContains(st.entries, "<ul") then UlClose else OlClose]
    else st.entries
  }

  /** The entries produced for the lines of an answer. */
  function FormatLines(lines: seq<string>): seq<string> {
    Finish(Feed(Initial, lines))
  }

  /** `formatMessageContent`. */
  function FormatMessageContent(content: string): string {
    ReplaceDelimited(Concat(FormatLines(SplitLines(InlineMarkup(content)))), "`", "<code>", "</code>")
  }

  /** The body of the `forEach` callback: one line added to the entries built so far. */
  method FormatLine(entries: seq<string>, inList: bool, line: string)
    returns (formattedLines: seq<string>, nowInList: bool)
    ensures FormatterState(formattedLines, nowInList) == Step(FormatterState(entries, inList), line)
  {
    formattedLines, nowInList := entries, inList;
    var trimmedLine := Trim(JavaScript, line);
    if IsBulletItem(trimmedLine) {
      if !nowInList {
        formattedLines := formattedLines + [UlOpen];
        nowInList := true;
      }
      formattedLines := formattedLines + [ListItem(BulletText(trimmedLine))];
    } else if IsNumberedItem(trimmedLine) {
      if !nowInList {
        formattedLines := formattedLines + [OlOpen];
        nowInList := true;
      }
      formattedLines := formattedLines + [ListItem(NumberedText(trimmedLine))];
    } else {
      if nowInList && formattedLines != [] {
        var lastListStart := formattedLines[|formattedLines| - 1];
        if lastListStart != "" && !Contains(lastListStart, "<li>") {
          formattedLines := formattedLines + [if Contains(lastListStart, "<ul") then UlClose else OlClose];
          nowInList := false;
        }
      }
      if trimmedLine != "" {
        formattedLines := formattedLines + [Paragraph(trimmedLine)];
      } else if formattedLines != [] {
        formattedLines := formattedLines + [LineBreak];
      }
    }
  }

  /** `formatMessageContent` as the browser runs it: the two inline replacements, the loop over
      the lines, the final closing tag, the join and the code replacement. */
  method FormatMessage(content: string) returns (formatted: string)
    ensures formatted == FormatMessageContent(content)
  {
    formatted := Bold(content);
    formatted := Italic(formatted);
    var lines := SplitLines(formatted);
    var inList := false;
    var formattedLines: seq<string> := [];
    var i := 0;
    while i < |lines|
      invariant 0 <= i <= |lines|
      invariant FormatterState(formattedLines, inList) == Feed(Initial, lines[..i])
    {
      formattedLines, inList := FormatLine(formattedLines, inList, lines[i]);
      assert lines[..i + 1][..i] == lines[..i];
      i := i + 1;
    }
    assert lines[..|lines|] == lines;
    if inList {
      var hasUl := AnyContains(formattedLines, "<ul");
      formattedLines := formattedLines + [if hasUl then UlClose else OlClose];
    }
    formatted := Concat(formattedLines);
    formatted := ReplaceDelimited(formatted, "`", "<code>", "</code>");
  }

  // ---------------------------------------------------------------------------------------------
  // Properties of the line pass

  /** The marker of a list line, which opens a list of its kind. */
  predicate IsListLine(line: string) {
    var t := Trim(JavaScript, line);
    IsBulletItem(t) || IsNumberedItem(t)
  }

  function OpeningTag(line: string): string {
    if IsBulletItem(Trim(JavaScript, line)) then UlOpen else OlOpen
  }

  function ItemEntry(line: string): string
    requires IsListLine(line)
  {
    var t := Trim(JavaScript, line);
    ListItem(if IsBulletItem(t) then BulletText(t) else NumberedText(t))
  }

  function ItemEntries(lines: seq<string>): seq<string>
    requires forall k :: 0 <= k < |lines| ==> IsListLine(lines[k])
    decreases |lines|
  {
    if lines == [] then [] else ItemEntries(lines[..|lines| - 1]) + [ItemEntry(lines[|lines| - 1])]
  }

  /** Consecutive list lines share one list: an opening tag is pushed only for the first of them
      and only when no list is open, and then one item per line, whatever their kinds. */
  lemma {:induction false} ItemsShareOneList(st: FormatterState, lines: seq<string>)
    requires |lines| >= 1 && forall k :: 0 <= k < |lines| ==> IsListLine(lines[k])
    ensures Feed(st, lines) ==
      FormatterState(st.entries + (if st.inList then [] else [OpeningTag(lines[0])]) + ItemEntries(lines), true)
    decreases |lines|
  {
    var n := |lines|;
    var front, last := lines[..n - 1], lines[n - 1];
    var open := if st.inList then [] else [OpeningTag(lines[0])];
    if n == 1 {
      assert front == [];
      assert ItemEntries(lines) == [ItemEntry(last)];
      ItemStep(st, last);
    } else {
      assert forall k :: 0 <= k < |front| ==> front[k] == lines[k];
      ItemsShareOneList(st, front);
      assert front[0] == lines[0];
      var before := st.entries + open + ItemEntries(front);
      assert Feed(st, front) == FormatterState(before, true);
      ItemStep(FormatterState(before, true), last);
      assert ItemEntries(lines) == ItemEntries(front) + [ItemEntry(last)];
      assert before + [] + [ItemEntry(last)] == st.entries + open + ItemEntries(lines);
    }
  }

  /** One list line: an opening tag only when no list is open, then its item. */
  lemma ItemStep(st: FormatterState, line: string)
    requires IsListLine(line)
    ensures Step(st, line) ==
      FormatterState(st.entries + (if st.inList then [] else [OpeningTag(line)]) + [ItemEntry(line)], true)
  {
  }

  /** Pushing an entry never makes a line break the first entry. */
  predicate NoLeadingBreak(entries: seq<string>) {
    entries == [] || entries[0] != LineBreak
  }

  lemma StepNoLeadingBreak(st: FormatterState, line: string)
    requires NoLeadingBreak(st.entries)
    ensures NoLeadingBreak(Step(st, line).entries)
    ensures |Step(st, line).entries| >= |st.entries| && Step(st, line).entries[..|st.entries|] == st.entries
  {
    var r := Step(st, line);
    if st.entries != [] {
      assert r.entries[0] == r.entries[..|st.entries|][0];
    }
  }

  /** A blank line becomes a line break only after some output: the formatted answer never starts
      with `<br>`. */
  lemma {:induction false} NoBreakFirst(lines: seq<string>)
    ensures NoLeadingBreak(Feed(Initial, lines).entries)
    ensures NoLeadingBreak(FormatLines(lines))
    decreases |lines|
  {
    if lines != [] {
      NoBreakFirst(lines[..|lines| - 1]);
      StepNoLeadingBreak(Feed(Initial, lines[..|lines| - 1]), lines[|lines| - 1]);
    }
    var st := Feed(Initial, lines);
    if st.entries != [] {
      assert FormatLines(lines)[0] == FormatLines(lines)[..|st.entries|][0];
    }
  }

  /** Right after an item a plain line does not close the list: the paragraph or line break goes
      inside it. A list is closed mid-text exactly when the last entry is non-empty and holds no
      `<li>`. */
  lemma ListClosedOnlyAfterNonItem(st: FormatterState, line: string)
    requires st.inList && st.entries != [] && !IsListLine(line)
    ensures var last := st.entries[|st.entries| - 1];
      !Step(st, line).inList <==> last != "" && !Contains(last, "<li>")
    ensures (exists text :: st.entries[|st.entries| - 1] == ListItem(text)) ==>
      var t := Trim(JavaScript, line);
      && Step(st, line).inList
      && Step(st, line).entries == st.entries + [if t == [] then LineBreak else Paragraph(t)]
  {
    var last := st.entries[|st.entries| - 1];
    if text :| last == ListItem(text) {
      assert last[..4] == "<li>";
      ContainsAt(last, "<li>", 0);
    }
  }

  // ---------------------------------------------------------------------------------------------
  // List tags: the closing tag chosen from the wrong entry

  datatype ListKind = Unordered | Ordered

  function OpenTag(k: ListKind): string {
    if k == Unordered then UlOpen else OlOpen
  }

  function CloseTag(k: ListKind): string {
    if k == Unordered then UlClose else OlClose
  }

  predicate IsListTag(e: string) {
    e == UlOpen || e == OlOpen || e == UlClose || e == OlClose
  }

  /** The list left open after `entries`, as `Some(open)`, or `None` once a closing tag does not
      match the open list (or an opening tag comes while one is open). */
  function OpenListAfter(entries: seq<string>): Option<Option<ListKind>>
    decreases |entries|
  {
    if entries == [] then Some(None)
    else
      var e := entries[|entries| - 1];
      match OpenListAfter(entries[..|entries| - 1])
      case None => None
      case Some(open) =>
        if e == UlOpen || e == OlOpen then
          (if open == None then Some(Some(if e == UlOpen then Unordered else Ordered)) else None)
        else if e == UlClose || e == OlClose then
          (if open == Some(if e == UlClose then Unordered else Ordered) then Some(None) else None)
        else Some(open)
  }

  /** Every list opened is closed, by the tag of its own kind. */
  predicate ListsMatched(entries: seq<string>) {
    OpenListAfter(entries) == Some(None)
  }

  /** Items, paragraphs and line breaks are not list tags. */
  lemma ContentIsNotTag(text: string)
    ensures !IsListTag(ListItem(text)) && !IsListTag(Paragraph(text)) && !IsListTag(LineBreak)
  {
    assert ListItem(text)[1] == 'l' && Paragraph(text)[1] == 'p';
    assert UlOpen[1] == 'u' && OlOpen[1] == 'o' && UlClose[1] == '/' && OlClose[1] == '/';
  }

  /** As written, a bulleted list followed by two plain lines is closed by `</ol>`: the second
      plain line closes it, and the tag is chosen by whether the paragraph before holds `<ul`. */
  lemma UnorderedListClosedByOl()
    ensures FormatLines(["- a", "b", "c"]) == [UlOpen, ListItem("a"), Paragraph("b"), OlClose, Paragraph("c")]
    ensures !ListsMatched(FormatLines(["- a", "b", "c"]))
  {
    FormatThreeLines();
    ClosedByWrongTag(ListItem("a"), Paragraph("b"), Paragraph("c"));
  }

  lemma FormatThreeLines()
    ensures FormatLines(["- a", "b", "c"]) == [UlOpen, ListItem("a"), Paragraph("b"), OlClose, Paragraph("c")]
  {
    var lines := ["- a", "b", "c"];
    assert lines[..2][..1] == lines[..1] && lines[..1] == ["- a"] && lines[..2] == ["- a", "b"];
    var s1 := FormatterState([UlOpen, ListItem("a")], true);
    var s2 := FormatterState(s1.entries + [Paragraph("b")], true);
    FirstBulletOpensList();
    assert Feed(Initial, lines[..1]) == s1;
    PlainLineKeepsListOpen();
    assert Feed(Initial, lines[..2]) == s2;
    PlainLineClosesWithOl(s2.entries);
  }

  /** An unordered list closed by `</ol>` is not matched, whatever the entries around it. */
  lemma ClosedByWrongTag(item: string, p1: string, p2: string)
    requires !IsListTag(item) && !IsListTag(p1) && !IsListTag(p2)
    ensures !ListsMatched([UlOpen, item, p1, OlClose, p2])
  {
    var e := [UlOpen, item, p1, OlClose, p2];
    assert UlOpen != OlOpen && UlOpen != UlClose && UlOpen != OlClose && OlClose != UlOpen && OlClose != OlOpen;
    OpenListAfterPush([], UlOpen);
    OpenListAfterPush(e[..1], item);
    OpenListAfterPush(e[..2], p1);
    OpenListAfterPush(e[..3], OlClose);
    OpenListAfterPush(e[..4], p2);
    assert [] + [UlOpen] == e[..1] && e[..1] + [item] == e[..2] && e[..2] + [p1] == e[..3];
    assert e[..3] + [OlClose] == e[..4] && e[..4] + [p2] == e;
  }

  lemma FirstBulletOpensList()
    ensures Step(Initial, "- a") == FormatterState([UlOpen, ListItem("a")], true)
  {
    assert Trim(JavaScript, "- a") == "- a";
    assert IsBulletItem("- a");
    assert BulletText("- a") == "a";
  }

  lemma PlainLineKeepsListOpen()
    ensures Step(FormatterState([UlOpen, ListItem("a")], true), "b")
         == FormatterState([UlOpen, ListItem("a"), Paragraph("b")], true)
  {
    assert Trim(JavaScript, "b") == "b";
    assert !IsListLine("b");
    ListClosedOnlyAfterNonItem(FormatterState([UlOpen, ListItem("a")], true), "b");
  }

  lemma PlainLineClosesWithOl(entries: seq<string>)
    requires entries != [] && entries[|entries| - 1] == Paragraph("b")
    ensures Step(FormatterState(entries, true), "c") == FormatterState(entries + [OlClose, Paragraph("c")], false)
  {
    ParagraphHasNoListTag();
    PlainLine();
  }

  lemma ParagraphHasNoListTag()
    ensures !Contains(Paragraph("b"), "<li>") && !Contains(Paragraph("b"), "<ul")
  {
    var p := Paragraph("b");
    assert p == ['<', 'p', '>', 'b', '<', '/', 'p', '>'];
    MissingCharNotContained(p, "<li>", 1);
    MissingCharNotContained(p, "<ul", 1);
  }

  lemma PlainLine()
    ensures Trim(JavaScript, "c") == "c" && !IsBulletItem("c") && !IsNumberedItem("c")
  {
  }

  /** The formatter with the closing tag taken from the list that is open. */
  datatype CorrectedState = CorrectedState(entries: seq<string>, open: Option<ListKind>)

  function CorrectedStep(st: CorrectedState, line: string): CorrectedState {
    var t := Trim(JavaScript, line);
    if IsBulletItem(t) || IsNumberedItem(t) then
      var kind := if IsBulletItem(t) then Unordered else Ordered;
      var text := if IsBulletItem(t) then BulletText(t) else NumberedText(t);
      if st.open == None then CorrectedState(st.entries + [OpenTag(kind)] + [ListItem(text)], Some(kind))
      else CorrectedState(st.entries + [ListItem(text)], st.open)
    else
      var c :=
        if st.open != None && st.entries != [] && st.entries[|st.entries| - 1] != ""
           && !Contains(st.entries[|st.entries| - 1], "<li>")
        then CorrectedState(st.entries + [CloseTag(st.open.value)], None)
        else st;
      if t != [] then CorrectedState(c.entries + [Paragraph(t)], c.open)
      else if c.entries != [] then CorrectedState(c.entries + [LineBreak], c.open)
      else c
  }

  function CorrectedFeed(lines: seq<string>): CorrectedState
    decreases |lines|
  {
    if lines == [] then CorrectedState([], None)
    else CorrectedStep(CorrectedFeed(lines[..|lines| - 1]), lines[|lines| - 1])
  }

  function CorrectedFormatLines(lines: seq<string>): seq<string> {
    var st := CorrectedFeed(lines);
    if st.open.Some? then st.entries + [CloseTag(st.open.value)] else st.entries
  }

  lemma OpenListAfterPush(entries: seq<string>, e: string)
    ensures OpenListAfter(entries + [e]) ==
      match OpenListAfter(entries)
      case None => None
      case Some(open) =>
        if e == UlOpen || e == OlOpen then
          (if open == None then Some(Some(if e == UlOpen then Unordered else Ordered)) else None)
        else if e == UlClose || e == OlClose then
          (if open == Some(if e == UlClose then Unordered else Ordered) then Some(None) else None)
        else Some(open)
  {
    assert (entries + [e])[..|entries|] == entries;
  }

  lemma PushContent(entries: seq<string>, e: string)
    requires !IsListTag(e)
    ensures OpenListAfter(entries + [e]) == OpenListAfter(entries)
  {
    OpenListAfterPush(entries, e);
  }

  lemma PushTag(entries: seq<string>, k: ListKind, opening: bool)
    requires OpenListAfter(entries) == Some(if opening then None else Some(k))
    ensures OpenListAfter(entries + [if opening then OpenTag(k) else CloseTag(k)]) ==
      Some(if opening then Some(k) else None)
  {
    OpenListAfterPush(entries, if opening then OpenTag(k) else CloseTag(k));
  }

  lemma CorrectedStepMatched(st: CorrectedState, line: string)
    requires OpenListAfter(st.entries) == Some(st.open)
    ensures OpenListAfter(CorrectedStep(st, line).entries) == Some(CorrectedStep(st, line).open)
  {
    var t := Trim(JavaScript, line);
    ContentIsNotTag(t);
    if IsBulletItem(t) || IsNumberedItem(t) {
      var kind := if IsBulletItem(t) then Unordered else Ordered;
      var text := if IsBulletItem(t) then BulletText(t) else NumberedText(t);
      ContentIsNotTag(text);
      if st.open == None {
        PushTag(st.entries, kind, true);
        PushContent(st.entries + [OpenTag(kind)], ListItem(text));
      } else {
        PushContent(st.entries, ListItem(text));
      }
    } else {
      var c :=
        if st.open != None && st.entries != [] && st.entries[|st.entries| - 1] != ""
           && !Contains(st.entries[|st.entries| - 1], "<li>")
        then CorrectedState(st.entries + [CloseTag(st.open.value)], None)
        else st;
      if c != st {
        PushTag(st.entries, st.open.value, false);
      }
      PushContent(c.entries, Paragraph(t));
      PushContent(c.entries, LineBreak);
    }
  }

  lemma {:induction false} CorrectedFeedMatched(lines: seq<string>)
    ensures OpenListAfter(CorrectedFeed(lines).entries) == Some(CorrectedFeed(lines).open)
    decreases |lines|
  {
    if lines != [] {
      CorrectedFeedMatched(lines[..|lines| - 1]);
      CorrectedStepMatched(CorrectedFeed(lines[..|lines| - 1]), lines[|lines| - 1]);
    }
  }

  /** With the closing tag taken from the open list, every list is closed by its own tag. */
  lemma CorrectedListsMatched(lines: seq<string>)
    ensures ListsMatched(CorrectedFormatLines(lines))
  {
    var st := CorrectedFeed(lines);
    CorrectedFeedMatched(lines);
    if st.open.Some? {
      PushTag(st.entries, st.open.value, false);
    }
  }

  // ---------------------------------------------------------------------------------------------
  // The upload pre-check in `handleFileUpload`

  const ClientMaxBytes: nat := 50 * 1024 * 1024

  datatype UploadDecision = NoFileChosen | NotPdfRejected | TooLargeRejected | Sent

  /** No file does nothing; a name whose lower-case form does not end in `.pdf` is refused, then a
      size above 50 MB; otherwise the file is posted. */
  function ClientUploadCheck(file: Option<UploadedFile>): UploadDecision {
    match file
    case None => NoFileChosen
    case Some(f) =>
      if !EndsWith(LowerStr(f.fileName), ".pdf") then NotPdfRejected
      else if f.length > ClientMaxBytes then TooLargeRejected
      else Sent
  }

  /** The browser refuses exactly the files the server would refuse as not a PDF or too large, so
      a non-empty file it posts passes the server's checks up to the availability probe; an empty
      file named `.pdf` is posted and refused by the server. */
  lemma ClientCheckAgreesWithServer(f: UploadedFile, available: bool)
    ensures f.length > 0 ==>
      (ClientUploadCheck(Some(f)) == NotPdfRejected <==> UploadRejection(Some(f), available) == Some(NotPdfError))
    ensures f.length > 0 ==>
      (ClientUploadCheck(Some(f)) == TooLargeRejected <==> UploadRejection(Some(f), available) == Some(TooLargeError))
    ensures f.length > 0 ==> (ClientUploadCheck(Some(f)) == Sent <==> UploadRejection(Some(f), true) == None)
    ensures f.length == 0 && ClientUploadCheck(Some(f)) == Sent ==>
      UploadRejection(Some(f), available) == Some(NoFileError)
  {
    assert LowerStr(".pdf") == ".pdf";
    assert ClientMaxBytes == MaxUploadBytes;
  }

  // ---------------------------------------------------------------------------------------------
  // The submit guard in `handleChatSubmit`

  /** The request posted for the input box's value and the current session id: the value trimmed
      (JavaScript white space), and nothing when it is blank or there is no session. */
  function SubmittedQuestion(input: Option<string>, sessionId: Option<string>): (r: Option<ChatRequest>)
    ensures r.Some? <==>
      input.Some? && !AllSpace(JavaScript, input.value) && sessionId.Some? && sessionId.value != []
    ensures r.Some? ==> r.value == ChatRequest(Trim(JavaScript, input.value), sessionId.value)
  {
    if input.None? then None
    else
      var message := Trim(JavaScript, input.value);
      TrimShape(JavaScript, input.value);
      if message == [] || sessionId.None? || sessionId.value == [] then None
      else Some(ChatRequest(message, sessionId.value))
  }

  /** A question the browser posts is not blank to the server either, unless it holds U+0085,
      which .NET counts as white space and JavaScript does not. */
  lemma SubmittedQuestionNotBlank(input: string, sessionId: string)
    requires SubmittedQuestion(Some(input), Some(sessionId)).Some?
    requires forall i :: 0 <= i < |input| ==> input[i] != '\U{0085}'
    ensures !IsNullOrWhiteSpace(SubmittedQuestion(Some(input), Some(sessionId)).value.message)
  {
    var t := Trim(JavaScript, input);
    TrimShape(JavaScript, input);
    var i := TrimSlice(JavaScript, input);
    assert t[0] == input[i];
  }

  /** A question of only U+0085 is posted by the browser and refused by the server as blank. */
  lemma NextLineQuestionRefused(sessionId: string)
    requires sessionId != []
    ensures SubmittedQuestion(Some("\U{0085}"), Some(sessionId)) == Some(ChatRequest("\U{0085}", sessionId))
    ensures IsNullOrWhiteSpace("\U{0085}")
  {
    assert !IsSpace(JavaScript, "\U{0085}"[0]);
    assert Trim(JavaScript, "\U{0085}") == "\U{0085}";
  }
}
