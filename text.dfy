module Wrappers {
  /** The conventional optional value. */
  datatype Option<+T> = None | Some(value: T)
}

/**
 * Character classes and string primitives shared by the formatter and the
 * extractors: the JavaScript and Python whitespace sets, ASCII case folding,
 * literal search (`indexOf`/`includes`/`in`), single replacement
 * (`replace` with a string pattern), trimming, splitting and decimal numerals.
 */
module Text {
  import opened Wrappers

  /** The characters JavaScript's `\s` matches and `String.prototype.trim` removes
      (WhiteSpace and LineTerminator of ECMAScript). */
  predicate IsJsSpace(c: char) {
    c == '\t' || c == '\n' || c == '\U{B}' || c == '\U{C}' || c == '\r' || c == ' '
    || c == '\U{A0}' || c == '\U{1680}' || ('\U{2000}' <= c <= '\U{200A}')
    || c == '\U{2028}' || c == '\U{2029}' || c == '\U{202F}' || c == '\U{205F}'
    || c == '\U{3000}' || c == '\U{FEFF}'
  }

  /** ECMAScript LineTerminator: where `^` and `$` match in multiline mode and `.` stops. */
  predicate IsLineTerminator(c: char) {
    c == '\n' || c == '\r' || c == '\U{2028}' || c == '\U{2029}'
  }

  /** The characters Python's `str.isspace` accepts: what `str.strip()` removes and
      what `\s` matches in a `str` pattern. */
  predicate IsPySpace(c: char) {
    ('\t' <= c <= '\r') || ('\U{1C}' <= c <= '\U{1F}') || c == ' ' || c == '\U{85}'
    || c == '\U{A0}' || c == '\U{1680}' || ('\U{2000}' <= c <= '\U{200A}')
    || c == '\U{2028}' || c == '\U{2029}' || c == '\U{202F}' || c == '\U{205F}'
    || c == '\U{3000}'
  }

  /** `\d` in both languages' ASCII reading. */
  predicate IsDigit(c: char) {
    '0' <= c <= '9'
  }

  /** ASCII lower-casing; non-ASCII characters are left alone. */
  function AsciiLower(c: char): char {
    if 'A' <= c <= 'Z' then (c as int + 32) as char else c
  }

  /** `toLowerCase()` / `lower()`, approximated by ASCII lower-casing. */
  function Lower(s: string): string {
    seq(|s|, i requires 0 <= i < |s| => AsciiLower(s[i]))
  }

  /** `lit` occurs in `s` at index `i`. */
  predicate StartsWithAt(s: string, i: nat, lit: string) {
    i + |lit| <= |s| && s[i..i + |lit|] == lit
  }

  predicate StartsWith(s: string, lit: string) {
    StartsWithAt(s, 0, lit)
  }

  /** `lit` occurs at `i` when ASCII letters are compared without regard to case:
      how a regular expression with the `i` flag matches a literal made of ASCII
      characters (JavaScript's non-Unicode case canonicalisation never maps a
      non-ASCII character onto an ASCII one). */
  predicate StartsWithAtCI(s: string, i: nat, lit: string) {
    i + |lit| <= |s| && EqualCI(s[i..i + |lit|], lit)
  }

  /** Equal up to ASCII case. */
  predicate EqualCI(a: string, b: string) {
    |a| == |b| && forall k :: 0 <= k < |a| ==> AsciiLower(a[k]) == AsciiLower(b[k])
  }

  /** The first index at or after `from` where `lit` occurs. */
  function IndexOfFrom(s: string, lit: string, from: nat): (r: Option<nat>)
    ensures r.Some? ==> from <= r.value && StartsWithAt(s, r.value, lit)
    ensures r.Some? ==> forall j :: from <= j < r.value ==> !StartsWithAt(s, j, lit)
    ensures r.None? ==> forall j :: from <= j ==> !StartsWithAt(s, j, lit)
    decreases |s| - from
  {
    if from + |lit| > |s| then None
    else if s[from..from + |lit|] == lit then Some(from)
    else IndexOfFrom(s, lit, from + 1)
  }

  /** `s.indexOf(lit)`, with "not found" as `None`. */
  function IndexOf(s: string, lit: string): Option<nat> {
    IndexOfFrom(s, lit, 0)
  }

  /** `s.includes(lit)` / `lit in s`. */
  predicate Contains(s: string, lit: string) {
    IndexOf(s, lit).Some?
  }

  /** Two neighbouring characters form a two-character literal. */
  lemma PairAt(s: string, i: nat, a: char, b: char)
    requires i + 2 <= |s| && s[i] == a && s[i + 1] == b
    ensures StartsWithAt(s, i, [a, b])
  {
    assert s[i..i + 2] == [a, b];
  }

  /** An occurrence inside a window of the text is an occurrence in the window. */
  lemma StartsWithAtWindow(s: string, a: nat, b: nat, j: nat, lit: string)
    requires a <= j && j + |lit| <= b <= |s| && StartsWithAt(s, j, lit)
    ensures StartsWithAt(s[a..b], j - a, lit)
  {
    var w := s[a..b];
    forall k | 0 <= k < |lit|
      ensures w[j - a + k] == lit[k]
    {
      assert w[j - a + k] == s[j + k];
      assert s[j..j + |lit|][k] == s[j + k];
    }
    assert w[j - a..j - a + |lit|] == lit;
  }

  lemma ContainsAt(s: string, lit: string, i: nat)
    requires StartsWithAt(s, i, lit)
    ensures Contains(s, lit)
  {
  }

  /** The first index at or after `from` where `lit` occurs up to ASCII case. */
  function IndexOfCIFrom(s: string, lit: string, from: nat): (r: Option<nat>)
    ensures r.Some? ==> from <= r.value && StartsWithAtCI(s, r.value, lit)
    ensures r.Some? ==> forall j :: from <= j < r.value ==> !StartsWithAtCI(s, j, lit)
    ensures r.None? ==> forall j :: from <= j ==> !StartsWithAtCI(s, j, lit)
    decreases |s| - from
  {
    if from + |lit| > |s| then None
    else if StartsWithAtCI(s, from, lit) then Some(from)
    else IndexOfCIFrom(s, lit, from + 1)
  }

  /** `lit` occurs in `s` up to ASCII case: a literal in a pattern with the `i` flag. */
  predicate ContainsCI(s: string, lit: string) {
    IndexOfCIFrom(s, lit, 0).Some?
  }

  /** `s.replace(pat, rep)` with a string pattern: only the first occurrence is replaced. */
  function ReplaceFirst(s: string, pat: string, rep: string): (r: string)
    ensures !Contains(s, pat) ==> r == s
  {
    match IndexOf(s, pat)
    case None => s
    case Some(i) => s[..i] + rep + s[i + |pat|..]
  }

  /** With the first occurrence of `pat` at `i`, exactly that span is replaced. */
  lemma ReplaceFirstAt(s: string, pat: string, rep: string, i: nat)
    requires StartsWithAt(s, i, pat) && forall j :: 0 <= j < i ==> !StartsWithAt(s, j, pat)
    ensures ReplaceFirst(s, pat, rep) == s[..i] + rep + s[i + |pat|..]
  {
    var r := IndexOf(s, pat);
    assert r.Some? && r.value == i;
  }

  /** Deleting the first occurrence of `pat`, found at `i`. */
  lemma DeleteFirst(s: string, pat: string, i: nat)
    requires StartsWithAt(s, i, pat) && forall j :: 0 <= j < i ==> !StartsWithAt(s, j, pat)
    ensures ReplaceFirst(s, pat, "") == s[..i] + s[i + |pat|..]
  {
    ReplaceFirstAt(s, pat, "", i);
    assert s[..i] + "" == s[..i];
  }

  /** The two white-space sets that trimming removes. */
  datatype Blank = JsBlank | PyBlank

  predicate IsBlank(b: Blank, c: char) {
    match b
    case JsBlank => IsJsSpace(c)
    case PyBlank => IsPySpace(c)
  }

  /** The length of the leading run of white space of set `b`. */
  function LeadingBlanks(s: string, b: Blank): (n: nat)
    ensures n <= |s|
    ensures forall i :: 0 <= i < n ==> IsBlank(b, s[i])
    ensures n < |s| ==> !IsBlank(b, s[n])
  {
    if s != [] && IsBlank(b, s[0]) then 1 + LeadingBlanks(s[1..], b) else 0
  }

  /** The length of the trailing run of white space of set `b`. */
  function TrailingBlanks(s: string, b: Blank): (n: nat)
    ensures n <= |s|
    ensures forall i :: |s| - n <= i < |s| ==> IsBlank(b, s[i])
    ensures n < |s| ==> !IsBlank(b, s[|s| - n - 1])
  {
    if s != [] && IsBlank(b, s[|s| - 1]) then 1 + TrailingBlanks(s[..|s| - 1], b) else 0
  }

  /** Removes the leading white space of set `b`. */
  function TrimStartBy(s: string, b: Blank): string {
    s[LeadingBlanks(s, b)..]
  }

  /** Removes the trailing white space of set `b`. */
  function TrimEndBy(s: string, b: Blank): string {
    s[..|s| - TrailingBlanks(s, b)]
  }

  /** JavaScript `trim()`. */
  function JsTrim(s: string): string {
    TrimEndBy(TrimStartBy(s, JsBlank), JsBlank)
  }

  /** Trimming keeps a contiguous part of the text. */
  lemma TrimWindow(s: string, b: Blank) returns (a: nat)
    ensures var t := TrimEndBy(TrimStartBy(s, b), b); a + |t| <= |s| && t == s[a..a + |t|]
  {
    var u := TrimStartBy(s, b);
    a := |s| - |u|;
    var t := TrimEndBy(u, b);
    assert |u| <= |s| && u == s[a..];
    assert |t| <= |u| && t == u[..|t|];
    forall k | 0 <= k < |t|
      ensures t[k] == s[a + k]
    {
      assert t[k] == u[k];
    }
    assert t == s[a..a + |t|];
  }

  lemma JsTrimWindow(s: string) returns (a: nat)
    ensures a + |JsTrim(s)| <= |s| && JsTrim(s) == s[a..a + |JsTrim(s)|]
  {
    a := TrimWindow(s, JsBlank);
  }

  /** No newline in `s` is directly followed by another: `s` holds no blank line. */
  predicate NoBlankLine(s: string) {
    forall k :: 0 <= k < |s| - 1 ==> !(s[k] == '\n' && s[k + 1] == '\n')
  }

  lemma NoBlankLineNotContains(s: string)
    requires NoBlankLine(s)
    ensures !Contains(s, "\n\n")
  {
    forall j: nat | j + 2 <= |s|
      ensures !StartsWithAt(s, j, "\n\n")
    {
      assert s[j..j + 2][0] == s[j] && s[j..j + 2][1] == s[j + 1];
    }
  }

  lemma NoBlankLineTrim(s: string)
    requires NoBlankLine(s)
    ensures NoBlankLine(JsTrim(s))
  {
    var a := JsTrimWindow(s);
    var t := JsTrim(s);
    forall k | 0 <= k < |t| - 1
      ensures !(t[k] == '\n' && t[k + 1] == '\n')
    {
      assert t[k] == s[a + k] && t[k + 1] == s[a + k + 1];
    }
  }

  /** A text that starts and ends with a character other than white space is its own trim. */
  lemma JsTrimNoop(s: string)
    requires s != [] && !IsJsSpace(s[0]) && !IsJsSpace(s[|s| - 1])
    ensures JsTrim(s) == s
  {
    assert TrimStartBy(s, JsBlank) == s;
  }

  /** Trimming a text that starts with a character other than white space
      removes only a trailing run: the result is a non-empty prefix. */
  lemma TrimKeepsFirst(m: string)
    requires m != [] && !IsJsSpace(m[0])
    ensures var t := JsTrim(m); t != [] && t <= m && t[0] == m[0]
  {
    assert TrimStartBy(m, JsBlank) == m;
  }

  /** Python `str.strip()` with no argument. */
  function PyStrip(s: string): string {
    TrimEndBy(TrimStartBy(s, PyBlank), PyBlank)
  }

  /** Concatenates `parts` with `sep` between neighbours (`sep.join(parts)`, `parts.join(sep)`). */
  function Join(parts: seq<string>, sep: string): string {
    if parts == [] then []
    else if |parts| == 1 then parts[0]
    else parts[0] + sep + Join(parts[1..], sep)
  }

  /** `s.split(sep)` for a one-character separator, in both languages: the pieces
      between separators, an empty piece at either end when `s` starts or ends
      with `sep`, and `[""]` for the empty string. */
  function Split(s: string, sep: char): (parts: seq<string>)
    ensures |parts| >= 1
    ensures forall k, j :: 0 <= k < |parts| && 0 <= j < |parts[k]| ==> parts[k][j] != sep
    ensures Join(parts, [sep]) == s
    decreases |s|
  {
    match IndexOf(s, [sep])
    case None =>
      forall j | 0 <= j < |s| ensures s[j] != sep {
        assert !StartsWithAt(s, j, [sep]);
        assert s[j..j + 1] == [s[j]];
      }
      [s]
    case Some(i) =>
      forall j | 0 <= j < i ensures s[j] != sep {
        assert !StartsWithAt(s, j, [sep]);
        assert s[j..j + 1] == [s[j]];
      }
      var rest := Split(s[i + 1..], sep);
      assert s == s[..i] + [sep] + s[i + 1..];
      [s[..i]] + rest
  }

  /** The first piece ends at the first separator. */
  lemma SplitAt(s: string, sep: char, i: nat)
    requires i < |s| && s[i] == sep && forall j :: 0 <= j < i ==> s[j] != sep
    ensures Split(s, sep) == [s[..i]] + Split(s[i + 1..], sep)
  {
    assert StartsWithAt(s, i, [sep]) by {
      assert s[i..i + 1] == [sep];
    }
    forall j | 0 <= j < i
      ensures !StartsWithAt(s, j, [sep])
    {
      assert s[j..j + 1][0] == s[j];
    }
  }

  /** Without a separator there is one piece. */
  lemma SplitNone(s: string, sep: char)
    requires forall j :: 0 <= j < |s| ==> s[j] != sep
    ensures Split(s, sep) == [s]
  {
    forall j: nat | j + 1 <= |s|
      ensures !StartsWithAt(s, j, [sep])
    {
      assert s[j..j + 1][0] == s[j];
    }
  }

  /** The decimal numeral of `n` (`String(n)` / template interpolation of a number). */
  function NatToString(n: nat): (r: string)
    ensures |r| >= 1 && forall i :: 0 <= i < |r| ==> IsDigit(r[i])
    ensures |r| > 1 ==> r[0] != '0'
  {
    if n < 10 then [('0' as int + n) as char]
    else NatToString(n / 10) + [('0' as int + n % 10) as char]
  }

  /** The number a string of decimal digits denotes. */
  function DigitsValue(d: string): nat
    requires forall i :: 0 <= i < |d| ==> IsDigit(d[i])
  {
    if d == [] then 0
    else
      var last := d[|d| - 1];
      assert IsDigit(last);
      10 * DigitsValue(d[..|d| - 1]) + (last as int - '0' as int)
  }

  /** Reading the numeral back gives the number: numbering is unambiguous. */
  lemma {:induction false} NatToStringRoundTrip(n: nat)
    ensures DigitsValue(NatToString(n)) == n
  {
    if n >= 10 {
      NatToStringRoundTrip(n / 10);
      var r := NatToString(n);
      assert r[..|r| - 1] == NatToString(n / 10);
    }
  }

  /** Distinct numbers get distinct numerals. */
  lemma NatToStringInjective(m: nat, n: nat)
    requires NatToString(m) == NatToString(n)
    ensures m == n
  {
    NatToStringRoundTrip(m);
    NatToStringRoundTrip(n);
  }

  /** Concatenation is associative; stated once so that callers need not
      compare long concatenations element by element. */
  lemma ConcatAssoc<T>(a: seq<T>, b: seq<T>, c: seq<T>)
    ensures (a + b) + c == a + (b + c)
  {
  }

  /** A text starts with each of its leading parts. */
  lemma PrefixOfConcat(a: string, b: string)
    ensures StartsWith(a + b, a)
  {
    assert (a + b)[0..|a|] == a;
  }
}
