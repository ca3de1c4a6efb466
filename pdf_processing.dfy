/** Text extraction from an uploaded PDF: the page texts are joined behind page markers and the
    result is normalised (white-space runs collapsed, control characters stripped, ends trimmed).
    The PDF library is not modelled: the pages' texts are the input. */
module PdfProcessing {
  import opened Text

  /** `Environment.NewLine`, as `StringBuilder.AppendLine` writes it (on Linux). */
  const NewLine: string := "\n"

  /** The characters of `[\x00-\x08\x0B\x0C\x0E-\x1F]`, the second replacement's pattern. */
  predicate IsStrippedControl(c: char) {
    '\0' <= c <= '\U{8}' || c == '\U{B}' || c == '\U{C}' || '\U{E}' <= c <= '\U{1F}'
  }

  /** Characters that cleaning neither collapses nor strips. */
  predicate IsKept(c: char) {
    !IsDotNetWhiteSpace(c) && !IsStrippedControl(c)
  }

  /** The kept characters of `s`, in order. */
  function Kept(s: string): string
    decreases |s|
  {
    if s == [] then [] else (if IsKept(s[0]) then [s[0]] else []) + Kept(s[1..])
  }

  lemma {:induction false} KeptConcat(a: string, b: string)
    ensures Kept(a + b) == Kept(a) + Kept(b)
    decreases |a|
  {
    if a != [] {
      var h := if IsKept(a[0]) then [a[0]] else [];
      assert (a + b)[0] == a[0];
      assert (a + b)[1..] == a[1..] + b;
      calc {
        Kept(a + b);
        h + Kept(a[1..] + b);
        { KeptConcat(a[1..], b); }
        h + (Kept(a[1..]) + Kept(b));
        (h + Kept(a[1..])) + Kept(b);
        Kept(a) + Kept(b);
      }
    } else {
      assert a + b == b;
    }
  }

  lemma {:induction false} KeptOfSpace(s: string)
    requires AllSpace(DotNet, s)
    ensures Kept(s) == []
    decreases |s|
  {
    if s != [] {
      KeptOfSpace(s[1..]);
    }
  }

  lemma {:induction false} KeptEmpty(s: string)
    ensures Kept(s) == [] <==> forall i :: 0 <= i < |s| ==> !IsKept(s[i])
    decreases |s|
  {
    if s != [] {
      KeptEmpty(s[1..]);
      assert forall i :: 1 <= i < |s| ==> s[i] == s[1..][i - 1];
    }
  }

  /** `Regex.Replace(text, @"\s+", " ")`: each maximal run of white space becomes one space. */
  function CollapseWhiteSpace(s: string): (r: string)
    ensures |r| <= |s|
    decreases |s|
  {
    if s == [] then []
    else if IsDotNetWhiteSpace(s[0]) then " " + CollapseWhiteSpace(SkipSpace(DotNet, s))
    else [s[0]] + CollapseWhiteSpace(s[1..])
  }

  /** Every white-space character is a plain space, and no two white-space characters are adjacent. */
  predicate SingleSpaced(r: string) {
    forall i :: 0 <= i < |r| && IsDotNetWhiteSpace(r[i]) ==> r[i] == ' ' && (i + 1 < |r| ==> !IsDotNetWhiteSpace(r[i + 1]))
  }

  lemma SingleSpacedCons(c: char, x: string)
    requires SingleSpaced(x)
    requires IsDotNetWhiteSpace(c) ==> c == ' ' && (x == [] || !IsDotNetWhiteSpace(x[0]))
    ensures SingleSpaced([c] + x)
  {
    var r := [c] + x;
    forall i | 0 <= i < |r| && IsDotNetWhiteSpace(r[i])
      ensures r[i] == ' ' && (i + 1 < |r| ==> !IsDotNetWhiteSpace(r[i + 1]))
    {
      if i > 0 {
        assert r[i] == x[i - 1];
        if i + 1 < |r| { assert r[i + 1] == x[i]; }
      }
    }
  }

  /** Collapsing leaves every white-space run as a single plain space, and starts with white space
      exactly when its input does. */
  lemma {:induction false} CollapsedIsSingleSpaced(s: string)
    ensures SingleSpaced(CollapseWhiteSpace(s))
    ensures s != [] ==> CollapseWhiteSpace(s) != [] && (IsDotNetWhiteSpace(CollapseWhiteSpace(s)[0]) <==> IsDotNetWhiteSpace(s[0]))
    decreases |s|
  {
    if s != [] {
      if IsDotNetWhiteSpace(s[0]) {
        var rest := SkipSpace(DotNet, s);
        SkipSpaceShape(DotNet, s);
        CollapsedIsSingleSpaced(rest);
        SingleSpacedCons(' ', CollapseWhiteSpace(rest));
      } else {
        CollapsedIsSingleSpaced(s[1..]);
        SingleSpacedCons(s[0], CollapseWhiteSpace(s[1..]));
      }
    }
  }

  /** Collapsing works piece by piece when the first piece does not end inside a white-space run. */
  lemma {:induction false} CollapseConcat(a: string, x: string)
    requires a == [] || !IsDotNetWhiteSpace(a[|a| - 1])
    ensures CollapseWhiteSpace(a + x) == CollapseWhiteSpace(a) + CollapseWhiteSpace(x)
    decreases |a|
  {
    if a == [] {
      assert a + x == x;
    } else if IsDotNetWhiteSpace(a[0]) {
      SkipSpaceConcat(DotNet, a, x);
      var rest := SkipSpace(DotNet, a);
      assert (a + x)[0] == a[0];
      CollapseConcat(rest, x);
    } else {
      assert (a + x)[0] == a[0];
      assert (a + x)[1..] == a[1..] + x;
      CollapseConcat(a[1..], x);
    }
  }

  /** Each maximal white-space run becomes exactly one space: with `w` a non-empty run of white
      space that nothing white touches, collapsing `a + w + b` collapses `a` and `b` and puts one
      space between them. */
  lemma CollapseRun(a: string, w: string, b: string)
    requires w != [] && AllSpace(DotNet, w)
    requires a == [] || !IsDotNetWhiteSpace(a[|a| - 1])
    requires b == [] || !IsDotNetWhiteSpace(b[0])
    ensures CollapseWhiteSpace(a + w + b) == CollapseWhiteSpace(a) + " " + CollapseWhiteSpace(b)
  {
    assert a + w + b == a + (w + b);
    CollapseConcat(a, w + b);
    assert (w + b)[0] == w[0];
    SkipSpaceRun(DotNet, w, b);
  }

  /** Collapsing keeps every kept character, in order, and introduces no character but the space. */
  lemma {:induction false} CollapseKeeps(s: string)
    ensures Kept(CollapseWhiteSpace(s)) == Kept(s)
    ensures forall c :: c in CollapseWhiteSpace(s) ==> c == ' ' || c in s
    decreases |s|
  {
    if s != [] {
      if IsDotNetWhiteSpace(s[0]) {
        var rest := SkipSpace(DotNet, s);
        SkipSpaceShape(DotNet, s);
        var w := s[..|s| - |rest|];
        CollapseKeeps(rest);
        KeptOfSpace(w);
        assert w + rest == s;
        KeptConcat(w, rest);
        KeptConcat(" ", CollapseWhiteSpace(rest));
        assert forall c :: c in rest ==> c in s;
      } else {
        CollapseKeeps(s[1..]);
        assert s == [s[0]] + s[1..];
        KeptConcat([s[0]], s[1..]);
        KeptConcat([s[0]], CollapseWhiteSpace(s[1..]));
      }
    }
  }

  /** `Regex.Replace(text, @"[\x00-\x08\x0B\x0C\x0E-\x1F]", "")`. */
  function StripControl(s: string): (r: string)
    ensures |r| <= |s|
    decreases |s|
  {
    if s == [] then [] else (if IsStrippedControl(s[0]) then [] else [s[0]]) + StripControl(s[1..])
  }

  /** Stripping removes exactly the control characters: no other character is lost or added. */
  lemma {:induction false} StripKeeps(s: string)
    ensures forall i :: 0 <= i < |StripControl(s)| ==> !IsStrippedControl(StripControl(s)[i])
    ensures forall c :: c in StripControl(s) ==> c in s
    ensures Kept(StripControl(s)) == Kept(s)
    decreases |s|
  {
    if s != [] {
      StripKeeps(s[1..]);
      var h := if IsStrippedControl(s[0]) then [] else [s[0]];
      assert s == [s[0]] + s[1..];
      KeptConcat([s[0]], s[1..]);
      KeptConcat(h, StripControl(s[1..]));
      assert forall c :: c in s[1..] ==> c in s;
      var r := StripControl(s);
      assert forall i :: |h| <= i < |r| ==> r[i] == StripControl(s[1..])[i - |h|];
    }
  }

  /** `CleanExtractedText`: collapse white space, strip control characters, trim. */
  function CleanExtractedText(text: string): string {
    Trim(DotNet, StripControl(CollapseWhiteSpace(text)))
  }

  /** The characters cleaning leaves: no stripped control character, and no white space but the
      plain space. */
  lemma CleanedCharacters(text: string)
    ensures var r := CleanExtractedText(text);
      forall i :: 0 <= i < |r| ==> !IsStrippedControl(r[i]) && (IsDotNetWhiteSpace(r[i]) ==> r[i] == ' ')
  {
    var c := CollapseWhiteSpace(text);
    var s := StripControl(c);
    var r := CleanExtractedText(text);
    CollapsedIsSingleSpaced(text);
    StripKeeps(c);
    var k := TrimSlice(DotNet, s);
    forall i | 0 <= i < |r|
      ensures !IsStrippedControl(r[i]) && (IsDotNetWhiteSpace(r[i]) ==> r[i] == ' ')
    {
      assert r[i] == s[k + i];
      assert s[k + i] in c;
    }
  }

  /** Cleaning keeps the kept characters of its input, in order, and nothing else of them. */
  lemma CleanedKept(text: string)
    ensures Kept(CleanExtractedText(text)) == Kept(text)
  {
    var c := CollapseWhiteSpace(text);
    CollapseKeeps(text);
    StripKeeps(c);
    TrimKept(StripControl(c));
  }

  /** Trimming removes only white space, which `Kept` ignores. */
  lemma TrimKept(s: string)
    ensures Kept(Trim(DotNet, s)) == Kept(s)
  {
    var r := Trim(DotNet, s);
    var k := TrimSlice(DotNet, s);
    var pre, post := s[..k], s[k + |r|..];
    assert s == pre + r + post;
    KeptOfSpace(pre);
    KeptOfSpace(post);
    calc {
      Kept(s);
      { KeptConcat(pre + r, post); }
      Kept(pre + r) + Kept(post);
      { KeptConcat(pre, r); }
      Kept(pre) + Kept(r) + Kept(post);
      Kept(r);
    }
  }

  /** What cleaning guarantees: the only white space left is the plain space, no stripped control
      character is left, nothing white is left at either end, the kept characters are exactly
      those of the input in their order, and the text never grows. In particular the result is
      empty exactly when the input has no kept character (for one, when it is all white space). */
  lemma CleanedText(text: string)
    ensures var r := CleanExtractedText(text);
      && (forall i :: 0 <= i < |r| ==> !IsStrippedControl(r[i]))
      && (forall i :: 0 <= i < |r| && IsDotNetWhiteSpace(r[i]) ==> r[i] == ' ')
      && (r != [] ==> !IsDotNetWhiteSpace(r[0]) && !IsDotNetWhiteSpace(r[|r| - 1]))
      && Kept(r) == Kept(text)
      && |r| <= |text|
      && (r == [] <==> forall i :: 0 <= i < |text| ==> !IsKept(text[i]))
  {
    var r := CleanExtractedText(text);
    CleanedCharacters(text);
    CleanedKept(text);
    TrimShape(DotNet, StripControl(CollapseWhiteSpace(text)));
    KeptEmpty(r);
    KeptEmpty(text);
    if r != [] {
      assert IsKept(r[0]);
    }
  }

  /** Cleaning is not idempotent: a stripped control character between two spaces leaves a double
      space (`"a \x01 b"` becomes `"a  b"`), which a second cleaning collapses. */
  lemma CleaningNotIdempotent(x: char, ctl: char, y: char)
    requires IsKept(x) && IsKept(y) && IsStrippedControl(ctl) && !IsDotNetWhiteSpace(ctl)
    ensures CleanExtractedText([x, ' ', ctl, ' ', y]) == [x, ' ', ' ', y]
    ensures CleanExtractedText([x, ' ', ' ', y]) == [x, ' ', y]
  {
    var s, d, e := [x, ' ', ctl, ' ', y], [x, ' ', ' ', y], [x, ' ', y];
    calc {
      CleanExtractedText(s);
      Trim(DotNet, StripControl(CollapseWhiteSpace(s)));
      { CollapseKeepsSpacedControl(x, ctl, y); }
      Trim(DotNet, StripControl(s));
      { StripLeavesDoubleSpace(x, ctl, y); }
      Trim(DotNet, d);
      { TrimKeepsDoubleSpaced(x, y); }
      d;
    }
    calc {
      CleanExtractedText(d);
      Trim(DotNet, StripControl(CollapseWhiteSpace(d)));
      { CollapseMergesDoubleSpace(x, y); }
      Trim(DotNet, StripControl(e));
      { StripKeepsSpaced(x, y); }
      Trim(DotNet, e);
      { TrimKeepsSpaced(x, y); }
      e;
    }
  }

  lemma CollapseKeepsSpacedControl(x: char, ctl: char, y: char)
    requires IsKept(x) && IsKept(y) && IsStrippedControl(ctl) && !IsDotNetWhiteSpace(ctl)
    ensures CollapseWhiteSpace([x, ' ', ctl, ' ', y]) == [x, ' ', ctl, ' ', y]
  {
    var s := [x, ' ', ctl, ' ', y];
    assert IsCollapsed(s);
    assert s + [] == s;
    CollapseKeepsCollapsedPrefix(s, []);
  }
  lemma StripLeavesDoubleSpace(x: char, ctl: char, y: char)
    requires IsKept(x) && IsKept(y) && IsStrippedControl(ctl) && !IsDotNetWhiteSpace(ctl)
    ensures StripControl([x, ' ', ctl, ' ', y]) == [x, ' ', ' ', y]
  {
    var s := [x, ' ', ctl, ' ', y];
    assert s == [x, ' '] + ([ctl] + [' ', y]);
    StripKeepsCleanPrefix([x, ' '], [ctl] + [' ', y]);
    assert [' ', y] + [] == [' ', y];
    StripKeepsCleanPrefix([' ', y], []);
    assert ([ctl] + [' ', y])[1..] == [' ', y];
  }
  lemma TrimKeepsDoubleSpaced(x: char, y: char)
    requires IsKept(x) && IsKept(y)
    ensures Trim(DotNet, [x, ' ', ' ', y]) == [x, ' ', ' ', y]
  {
  }
  lemma SkipOne(c: char, t: string)
    requires IsDotNetWhiteSpace(c)
    ensures SkipSpace(DotNet, [c] + t) == SkipSpace(DotNet, t)
  {
    assert ([c] + t)[1..] == t;
  }
  lemma SkipTwo(y: char)
    requires !IsDotNetWhiteSpace(y)
    ensures SkipSpace(DotNet, [' ', ' ', y]) == [y]
  {
    assert [' ', ' ', y] == [' '] + [' ', y];
    assert [' ', y] == [' '] + [y];
    SkipOne(' ', [' ', y]);
    SkipOne(' ', [y]);
  }
  lemma CollapseMergesDoubleSpace(x: char, y: char)
    requires IsKept(x) && IsKept(y)
    ensures CollapseWhiteSpace([x, ' ', ' ', y]) == [x, ' ', y]
  {
    var d := [x, ' ', ' ', y];
    assert d == [x] + [' ', ' ', y];
    assert IsCollapsed([x]);
    CollapseKeepsCollapsedPrefix([x], [' ', ' ', y]);
    SkipTwo(y);
    assert CollapseWhiteSpace([y]) == [y];
  }
  lemma StripKeepsSpaced(x: char, y: char)
    requires IsKept(x) && IsKept(y)
    ensures StripControl([x, ' ', y]) == [x, ' ', y]
  {
    var e := [x, ' ', y];
    assert e + [] == e;
    StripKeepsCleanPrefix(e, []);
  }
  lemma TrimKeepsSpaced(x: char, y: char)
    requires IsKept(x) && IsKept(y)
    ensures Trim(DotNet, [x, ' ', y]) == [x, ' ', y]
  {
  }

  /** A string that collapsing leaves alone and never merges with what follows: every white-space
      character is a plain space followed by a non-white character. */
  predicate IsCollapsed(p: string) {
    forall i :: 0 <= i < |p| && IsDotNetWhiteSpace(p[i]) ==> p[i] == ' ' && i + 1 < |p| && !IsDotNetWhiteSpace(p[i + 1])
  }

  lemma CollapsedTail(p: string)
    requires p != [] && IsCollapsed(p)
    ensures IsCollapsed(p[1..])
  {
    var q := p[1..];
    forall i | 0 <= i < |q| && IsDotNetWhiteSpace(q[i])
      ensures q[i] == ' ' && i + 1 < |q| && !IsDotNetWhiteSpace(q[i + 1])
    {
      assert q[i] == p[i + 1];
    }
  }

  /** A first character that is not white space, or a single space before one that is not, is
      kept as it is. */
  lemma CollapseStep(u: string)
    requires u != [] && (!IsDotNetWhiteSpace(u[0]) || (u[0] == ' ' && |u| > 1 && !IsDotNetWhiteSpace(u[1])))
    ensures CollapseWhiteSpace(u) == [u[0]] + CollapseWhiteSpace(u[1..])
  {
    if IsDotNetWhiteSpace(u[0]) {
      assert SkipSpace(DotNet, u) == SkipSpace(DotNet, u[1..]) == u[1..];
    }
  }

  lemma {:induction false} CollapseKeepsCollapsedPrefix(p: string, t: string)
    requires IsCollapsed(p)
    ensures CollapseWhiteSpace(p + t) == p + CollapseWhiteSpace(t)
    decreases |p|
  {
    if p == [] {
      assert p + t == t;
    } else {
      var q, u := p[1..], p + t;
      CollapsedTail(p);
      CollapseKeepsCollapsedPrefix(q, t);
      assert u[0] == p[0] && u[1..] == q + t;
      assert |p| > 1 ==> u[1] == p[1];
      CollapseStep(u);
      assert p == [p[0]] + q;
    }
  }

  lemma {:induction false} StripKeepsCleanPrefix(p: string, t: string)
    requires forall i :: 0 <= i < |p| ==> !IsStrippedControl(p[i])
    ensures StripControl(p + t) == p + StripControl(t)
    decreases |p|
  {
    if p != [] {
      assert (p + t)[1..] == p[1..] + t;
      StripKeepsCleanPrefix(p[1..], t);
    } else {
      assert p + t == t;
    }
  }

  lemma {:induction false} TrimEndKeepsPrefix(p: string, s: string)
    requires p != [] && !IsDotNetWhiteSpace(p[|p| - 1])
    ensures TrimEnd(DotNet, p + s) == p + TrimEnd(DotNet, s)
    decreases |s|
  {
    if s != [] {
      assert (p + s)[..|p + s| - 1] == p + s[..|s| - 1];
      TrimEndKeepsPrefix(p, s[..|s| - 1]);
    }
  }

  /** The marker written before each page. */
  function PageMarker(i: nat): string {
    "--- Page " + NatToString(i) + " ---"
  }

  /** What one iteration of the page loop appends:
      `AppendLine($"\n--- Page {i} ---\n")` then `AppendLine(pageText)`. */
  function PageBlock(i: nat, pageText: string): string {
    "\n" + PageMarker(i) + "\n" + NewLine + pageText + NewLine
  }

  /** The raw extracted text: for i = 1..n in order, page i's block. */
  function RawText(pages: seq<string>): string
    decreases |pages|
  {
    if pages == [] then "" else RawText(pages[..|pages| - 1]) + PageBlock(|pages|, pages[|pages| - 1])
  }

  /** The kept characters of the raw text: each page's marker, then the page's own kept characters. */
  function KeptPages(pages: seq<string>): string
    decreases |pages|
  {
    if pages == [] then "" else KeptPages(pages[..|pages| - 1]) + Kept(PageMarker(|pages|)) + Kept(pages[|pages| - 1])
  }

  /** `ExtractTextFromPdfAsync` after the PDF library has produced the page texts: the page loop
      over a string builder, then cleaning. */
  method ExtractTextFromPdf(pages: seq<string>) returns (content: string, pageCount: nat)
    ensures pageCount == |pages|
    ensures content == CleanExtractedText(RawText(pages))
  {
    pageCount := |pages|;
    var textBuilder := "";
    for i := 1 to pageCount + 1
      invariant textBuilder == RawText(pages[..i - 1])
    {
      var pageText := pages[i - 1];
      textBuilder := textBuilder + ("\n" + PageMarker(i) + "\n") + NewLine;
      textBuilder := textBuilder + pageText + NewLine;
      assert pages[..i][..i - 1] == pages[..i - 1];
    }
    assert pages[..pageCount] == pages;
    content := CleanExtractedText(textBuilder);
  }

  /** Cleaning loses no page content: what survives, white space and control characters aside,
      is every page's marker followed by that page's text, in page order. */
  lemma {:induction false} ExtractedTextKeepsPages(pages: seq<string>)
    ensures Kept(CleanExtractedText(RawText(pages))) == KeptPages(pages)
    decreases |pages|
  {
    CleanedText(RawText(pages));
    RawKeptPages(pages);
  }

  lemma {:induction false} RawKeptPages(pages: seq<string>)
    ensures Kept(RawText(pages)) == KeptPages(pages)
    decreases |pages|
  {
    if pages != [] {
      var n := |pages|;
      RawKeptPages(pages[..n - 1]);
      KeptConcat(RawText(pages[..n - 1]), PageBlock(n, pages[n - 1]));
      KeptBlock(n, pages[n - 1]);
    }
  }

  /** Of a page block, the marker and the page text survive. */
  lemma KeptBlock(n: nat, p: string)
    ensures Kept(PageBlock(n, p)) == Kept(PageMarker(n)) + Kept(p)
  {
    var m, tail := PageMarker(n), "\n" + NewLine + (p + NewLine);
    calc {
      Kept(PageBlock(n, p));
      { assert PageBlock(n, p) == "\n" + (m + tail); }
      Kept("\n" + (m + tail));
      { KeptConcat("\n", m + tail); KeptLineBreak(); }
      Kept(m + tail);
      { KeptConcat(m, tail); KeptLineBreaks(p); }
      Kept(m) + Kept(p);
    }
  }

  lemma KeptLineBreak()
    ensures Kept("\n") == [] && Kept(NewLine) == []
  {
  }

  lemma KeptLineBreaks(p: string)
    ensures Kept("\n" + NewLine + (p + NewLine)) == Kept(p)
  {
    KeptLineBreak();
    KeptConcat("\n", NewLine);
    KeptConcat("\n" + NewLine, p + NewLine);
    KeptConcat(p, NewLine);
  }

  lemma {:induction false} RawTextStartsWithFirstBlock(pages: seq<string>)
    requires |pages| >= 1
    ensures StartsWith(RawText(pages), PageBlock(1, pages[0]))
    decreases |pages|
  {
    if |pages| > 1 {
      RawTextStartsWithFirstBlock(pages[..|pages| - 1]);
      assert pages[..|pages| - 1][0] == pages[0];
    } else {
      assert pages[..0] == [];
    }
  }

  lemma CollapsedConcat(a: string, b: string)
    requires IsCollapsed(a) && IsCollapsed(b)
    ensures IsCollapsed(a + b)
  {
    forall i | 0 <= i < |a + b| && IsDotNetWhiteSpace((a + b)[i])
      ensures (a + b)[i] == ' ' && i + 1 < |a + b| && !IsDotNetWhiteSpace((a + b)[i + 1])
    {
      if i < |a| {
        assert (a + b)[i] == a[i];
        assert (a + b)[i + 1] == a[i + 1];
      } else {
        assert (a + b)[i] == b[i - |a|];
      }
    }
  }

  lemma SpaceDigitsCollapsed(d: string)
    requires d != [] && forall i :: 0 <= i < |d| ==> IsDigit(d[i])
    ensures IsCollapsed(" " + d)
  {
    var s := " " + d;
    forall i | 0 <= i < |s| && IsDotNetWhiteSpace(s[i])
      ensures s[i] == ' ' && i + 1 < |s| && !IsDotNetWhiteSpace(s[i + 1])
    {
      assert forall k :: 1 <= k < |s| ==> s[k] == d[k - 1] && IsDigit(d[k - 1]);
    }
  }

  /** Page markers pass through collapsing unchanged. */
  lemma PageMarkerCollapsed(i: nat)
    ensures IsCollapsed(PageMarker(i))
  {
    var d := NatToString(i);
    var a, b, c := "---", " Page", " ---";
    MarkerPiecesCollapsed();
    SpaceDigitsCollapsed(d);
    CollapsedConcat(a, b);
    CollapsedConcat(a + b, " " + d);
    CollapsedConcat(a + b + (" " + d), c);
    PageMarkerPieces(i);
  }

  lemma MarkerPiecesCollapsed()
    ensures IsCollapsed("---") && IsCollapsed(" Page") && IsCollapsed(" ---")
  {
  }

  lemma PageMarkerPieces(i: nat)
    ensures PageMarker(i) == "---" + " Page" + (" " + NatToString(i)) + " ---"
  {
  }

  /** Page markers start and end with a dash and hold no control character. */
  lemma PageMarkerEnds(i: nat)
    ensures PageMarker(i)[0] == '-' && PageMarker(i)[|PageMarker(i)| - 1] == '-'
    ensures forall k :: 0 <= k < |PageMarker(i)| ==> !IsStrippedControl(PageMarker(i)[k])
  {
    var d := NatToString(i);
    var m := PageMarker(i);
    assert forall k :: 0 <= k < |m| ==> m[k] in "--- Page " || m[k] in d || m[k] in " ---";
  }

  /** The raw text opens with a line break and the first page's marker. */
  lemma RawTextOpening(pages: seq<string>) returns (t: string)
    requires |pages| >= 1
    ensures RawText(pages) == "\n" + PageMarker(1) + t
  {
    var raw := RawText(pages);
    var m := PageMarker(1);
    RawTextStartsWithFirstBlock(pages);
    var block := PageBlock(1, pages[0]);
    assert block == "\n" + m + ("\n" + NewLine + pages[0] + NewLine);
    t := raw[1 + |m|..];
    assert raw[..|block|] == block;
    assert raw[..1 + |m|] == block[..1 + |m|] == "\n" + m;
    assert raw == raw[..1 + |m|] + t;
  }

  /** Collapsing the raw text turns its opening line break into a space and keeps the marker. */
  lemma CollapseOpening(m: string, t: string)
    requires IsCollapsed(m) && m != [] && m[0] == '-'
    ensures CollapseWhiteSpace("\n" + m + t) == " " + m + CollapseWhiteSpace(t)
  {
    var s := "\n" + m + t;
    assert s == ['\n'] + (m + t);
    SkipOne('\n', m + t);
    assert SkipSpace(DotNet, m + t) == m + t;
    CollapseKeepsCollapsedPrefix(m, t);
  }

  /** Trimming drops the space before the marker and keeps the marker. */
  lemma TrimOpening(m: string, s: string)
    requires m != [] && m[0] == '-' && m[|m| - 1] == '-'
    ensures Trim(DotNet, " " + m + s) == m + TrimEnd(DotNet, s)
  {
    assert " " + m + s == [' '] + (m + s);
    SkipOne(' ', m + s);
    assert SkipSpace(DotNet, m + s) == m + s;
    TrimEndKeepsPrefix(m, s);
  }

  /** A PDF with at least one page yields text that starts with the first page's marker, whatever
      its pages contain. */
  lemma ExtractedTextStart(pages: seq<string>)
    requires |pages| >= 1
    ensures StartsWith(CleanExtractedText(RawText(pages)), PageMarker(1))
  {
    PageMarkerCollapsed(1);
    PageMarkerEnds(1);
    var t := RawTextOpening(pages);
    CleanedOpening(PageMarker(1), t);
  }

  /** Cleaning a text that opens with a line break and a marker-shaped string keeps that string
      at its start. */
  lemma CleanedOpening(m: string, t: string)
    requires IsCollapsed(m) && m != [] && m[0] == '-' && m[|m| - 1] == '-'
    requires forall k :: 0 <= k < |m| ==> !IsStrippedControl(m[k])
    ensures StartsWith(CleanExtractedText("\n" + m + t), m)
  {
    var c := CollapseWhiteSpace(t);
    var s := StripControl(c);
    assert forall k :: 0 <= k < |" " + m| ==> !IsStrippedControl((" " + m)[k]) by {
      assert forall k :: 1 <= k < |" " + m| ==> (" " + m)[k] == m[k - 1];
    }
    calc {
      CleanExtractedText("\n" + m + t);
      Trim(DotNet, StripControl(CollapseWhiteSpace("\n" + m + t)));
      { CollapseOpening(m, t); }
      Trim(DotNet, StripControl(" " + m + c));
      { StripKeepsCleanPrefix(" " + m, c); }
      Trim(DotNet, " " + m + s);
      { TrimOpening(m, s); }
      m + TrimEnd(DotNet, s);
    }
  }

  /** So the extracted text is blank exactly when the PDF has no pages. */
  lemma ExtractedTextBlank(pages: seq<string>)
    ensures IsNullOrWhiteSpace(CleanExtractedText(RawText(pages))) <==> |pages| == 0
  {
    if |pages| >= 1 {
      ExtractedTextStart(pages);
      PageMarkerEnds(1);
      var r := CleanExtractedText(RawText(pages));
      assert r[0] == PageMarker(1)[0] == '-';
    } else {
      assert RawText(pages) == "";
    }
  }
}
