/** The parts of the .NET and JavaScript string libraries that the modelled code relies on:
    character classes, ASCII case mapping, substring tests, trimming and decimal formatting. */
module Text {

  datatype Option<+T> = None | Some(value: T)

  /** The two runtimes the application runs on: the server (.NET) and the browser (JavaScript).
      They disagree on what counts as white space. */
  datatype Runtime = DotNet | JavaScript

  /** .NET `char.IsWhiteSpace`, which is also the class `\s` of .NET regular expressions:
      U+0009..U+000D, U+0085 and the Unicode separator categories Zs, Zl and Zp. */
  predicate IsDotNetWhiteSpace(c: char) {
    || '\t' <= c <= '\r'
    || c == ' '
    || c == '\U{0085}'
    || c == '\U{00A0}'
    || c == '\U{1680}'
    || '\U{2000}' <= c <= '\U{200A}'
    || c == '\U{2028}' || c == '\U{2029}'
    || c == '\U{202F}' || c == '\U{205F}' || c == '\U{3000}'
  }

  /** JavaScript `\s`, which is also what `String.prototype.trim` removes: the same set as .NET's
      except that it includes U+FEFF and leaves out U+0085. */
  predicate IsJsWhiteSpace(c: char) {
    (IsDotNetWhiteSpace(c) && c != '\U{0085}') || c == '\U{FEFF}'
  }

  predicate IsSpace(rt: Runtime, c: char) {
    match rt
    case DotNet => IsDotNetWhiteSpace(c)
    case JavaScript => IsJsWhiteSpace(c)
  }

  predicate AllSpace(rt: Runtime, s: string) {
    forall i :: 0 <= i < |s| ==> IsSpace(rt, s[i])
  }

  /** .NET `string.IsNullOrWhiteSpace` (a null string is represented by the empty one). */
  predicate IsNullOrWhiteSpace(s: string) {
    AllSpace(DotNet, s)
  }

  /** The characters JavaScript's `.` does not match. */
  predicate IsLineTerminator(c: char) {
    c == '\n' || c == '\r' || c == '\U{2028}' || c == '\U{2029}'
  }

  predicate IsDigit(c: char) {
    '0' <= c <= '9'
  }

  /** Case mapping, restricted to ASCII letters. */
  function Lower(c: char): char {
    if 'A' <= c <= 'Z' then (c as int - 'A' as int + 'a' as int) as char else c
  }

  /** `ToLowerInvariant` / `toLowerCase`, character by character. */
  function LowerStr(s: string): string {
    seq(|s|, i requires 0 <= i < |s| => Lower(s[i]))
  }

  lemma LowerConcat(a: string, b: string)
    ensures LowerStr(a + b) == LowerStr(a) + LowerStr(b)
  {
  }

  predicate StartsWith(s: string, prefix: string) {
    |prefix| <= |s| && s[..|prefix|] == prefix
  }

  predicate EndsWith(s: string, suffix: string) {
    |suffix| <= |s| && s[|s| - |suffix|..] == suffix
  }

  /** `string.Contains` / `includes`: some position of `s` starts an occurrence of `t`. */
  predicate Contains(s: string, t: string)
    decreases |s|
  {
    StartsWith(s, t) || (|s| > 0 && Contains(s[1..], t))
  }

  /** `Contains` with `StringComparison.OrdinalIgnoreCase`. */
  predicate ContainsIgnoreCase(s: string, t: string) {
    Contains(LowerStr(s), LowerStr(t))
  }

  /** `EndsWith` with `StringComparison.OrdinalIgnoreCase`. */
  predicate EndsWithIgnoreCase(s: string, t: string) {
    EndsWith(LowerStr(s), LowerStr(t))
  }

  /** An occurrence at any position is found. */
  lemma {:induction false} ContainsAt(s: string, t: string, i: nat)
    requires i + |t| <= |s| && s[i..i + |t|] == t
    ensures Contains(s, t)
  {
    if i > 0 {
      assert s[1..][i - 1..i - 1 + |t|] == t;
      ContainsAt(s[1..], t, i - 1);
    }
  }

  /** Conversely, a found substring occurs at some position. */
  lemma {:induction false} ContainsIndex(s: string, t: string) returns (i: nat)
    requires Contains(s, t)
    ensures i + |t| <= |s| && s[i..i + |t|] == t
    decreases |s|
  {
    if StartsWith(s, t) {
      i := 0;
    } else {
      var j := ContainsIndex(s[1..], t);
      assert s[1..][j..j + |t|] == s[j + 1..j + 1 + |t|];
      i := j + 1;
    }
  }

  /** A substring of the middle part is a substring of the whole. */
  lemma ContainsInMiddle(a: string, t: string, b: string)
    ensures Contains(a + t + b, t)
  {
    assert (a + t + b)[|a|..|a| + |t|] == t;
    ContainsAt(a + t + b, t, |a|);
  }

  /** Leading white space removed: `TrimStart`. */
  function SkipSpace(rt: Runtime, s: string): (r: string)
    ensures |r| <= |s|
    decreases |s|
  {
    if s != [] && IsSpace(rt, s[0]) then SkipSpace(rt, s[1..]) else s
  }

  /** `SkipSpace` keeps a suffix, drops only white space, and stops at a non-space character. */
  lemma {:induction false} SkipSpaceShape(rt: Runtime, s: string)
    ensures var r := SkipSpace(rt, s);
      && r == s[|s| - |r|..]
      && AllSpace(rt, s[..|s| - |r|])
      && (r == [] || !IsSpace(rt, r[0]))
    decreases |s|
  {
    if s != [] && IsSpace(rt, s[0]) {
      SkipSpaceShape(rt, s[1..]);
      var r := SkipSpace(rt, s);
      assert s[..|s| - |r|] == [s[0]] + s[1..][..|s| - 1 - |r|];
    }
  }

  /** Skipping leading white space stops inside `a` when `a` ends in a non-space character, so
      whatever follows `a` is kept whole. */
  lemma {:induction false} SkipSpaceConcat(rt: Runtime, a: string, x: string)
    requires a != [] && !IsSpace(rt, a[|a| - 1])
    ensures SkipSpace(rt, a + x) == SkipSpace(rt, a) + x
    ensures SkipSpace(rt, a) != [] && SkipSpace(rt, a)[|SkipSpace(rt, a)| - 1] == a[|a| - 1]
    decreases |a|
  {
    if IsSpace(rt, a[0]) {
      assert (a + x)[1..] == a[1..] + x;
      SkipSpaceConcat(rt, a[1..], x);
    }
  }

  /** A white-space run followed by a non-space character (or by nothing) is skipped whole. */
  lemma {:induction false} SkipSpaceRun(rt: Runtime, w: string, b: string)
    requires AllSpace(rt, w)
    requires b == [] || !IsSpace(rt, b[0])
    ensures SkipSpace(rt, w + b) == b
    decreases |w|
  {
    if w == [] {
      assert w + b == b;
    } else {
      assert (w + b)[0] == w[0];
      assert (w + b)[1..] == w[1..] + b;
      SkipSpaceRun(rt, w[1..], b);
    }
  }

  /** Trailing white space removed: `TrimEnd`. */
  function TrimEnd(rt: Runtime, s: string): (r: string)
    ensures |r| <= |s|
    decreases |s|
  {
    if s != [] && IsSpace(rt, s[|s| - 1]) then TrimEnd(rt, s[..|s| - 1]) else s
  }

  /** `TrimEnd` keeps a prefix, drops only white space, and stops at a non-space character. */
  lemma {:induction false} TrimEndShape(rt: Runtime, s: string)
    ensures var r := TrimEnd(rt, s);
      && r == s[..|r|]
      && AllSpace(rt, s[|r|..])
      && (r == [] || !IsSpace(rt, r[|r| - 1]))
    decreases |s|
  {
    if s != [] && IsSpace(rt, s[|s| - 1]) {
      var p := s[..|s| - 1];
      TrimEndShape(rt, p);
      var r := TrimEnd(rt, s);
      assert s[|r|..] == p[|r|..] + [s[|s| - 1]];
      assert p[..|r|] == s[..|r|];
    }
  }

  /** `string.Trim` (.NET) and `String.prototype.trim` (JavaScript). */
  function Trim(rt: Runtime, s: string): string {
    TrimEnd(rt, SkipSpace(rt, s))
  }

  /** Trimming yields the empty string exactly for all-white-space input, and otherwise a string
      that starts and ends with a non-space character. */
  lemma TrimShape(rt: Runtime, s: string)
    ensures Trim(rt, s) == [] <==> AllSpace(rt, s)
    ensures Trim(rt, s) != [] ==> !IsSpace(rt, Trim(rt, s)[0]) && !IsSpace(rt, Trim(rt, s)[|Trim(rt, s)| - 1])
  {
    var a := SkipSpace(rt, s);
    var r := TrimEnd(rt, a);
    SkipSpaceShape(rt, s);
    TrimEndShape(rt, a);
    assert a != [] ==> a[0] == s[|s| - |a|];
    assert r != [] ==> r[0] == a[0];
    if r == [] {
      assert a[|r|..] == a;
      assert s[..|s| - |a|] == s;
    }
  }

  /** What trimming keeps is a slice of the input with only white space around it. */
  lemma TrimSlice(rt: Runtime, s: string) returns (i: nat)
    ensures i + |Trim(rt, s)| <= |s| && Trim(rt, s) == s[i..i + |Trim(rt, s)|]
    ensures AllSpace(rt, s[..i]) && AllSpace(rt, s[i + |Trim(rt, s)|..])
  {
    var a := SkipSpace(rt, s);
    var r := TrimEnd(rt, a);
    SkipSpaceShape(rt, s);
    TrimEndShape(rt, a);
    i := |s| - |a|;
    assert a == s[i..];
    assert r == s[i..i + |r|];
    assert s[i + |r|..] == a[|r|..];
  }

  /** The decimal digits of a natural number, as C# string interpolation prints an `int`. */
  function NatToString(n: nat): (r: string)
    ensures |r| >= 1
    ensures forall i :: 0 <= i < |r| ==> IsDigit(r[i])
    decreases n
  {
    if n < 10 then [('0' as int + n) as char]
    else NatToString(n / 10) + [('0' as int + n % 10) as char]
  }

  /** Reading decimal digits back as a number. */
  function DigitsValue(s: string): nat
    requires forall i :: 0 <= i < |s| ==> IsDigit(s[i])
    decreases |s|
  {
    if s == [] then 0
    else
      assert IsDigit(s[|s| - 1]);
      DigitsValue(s[..|s| - 1]) * 10 + (s[|s| - 1] as int - '0' as int)
  }

  /** The printed digits of `n` denote `n`. */
  lemma {:induction false} NatToStringRoundTrip(n: nat)
    ensures DigitsValue(NatToString(n)) == n
    decreases n
  {
    var r := NatToString(n);
    if n >= 10 {
      NatToStringRoundTrip(n / 10);
      assert r[..|r| - 1] == NatToString(n / 10);
    }
  }
}
