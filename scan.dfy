/**
 * Building blocks for the regular expressions of the formatter, each written
 * as an explicit scanner over a string and a position: a greedy run of a
 * character class, a phrase of words separated by `\s+` and compared without
 * regard to ASCII case, and the end of the current line.
 */
module Scan {
  import opened Wrappers
  import opened Text

  /** The character classes the patterns repeat greedily. */
  datatype CharClass =
    | Space              // `\s`
    | Digit              // `\d`
    | NotNewline         // `[^\n]`
    | NotLineTerminator  // `.`
    | NotCloseParen      // `[^)]`
    | NotColon           // `[^:]`
    | NotHash            // `[^#]`
    | NotColonOrNewline  // `[^:\n]`
    | UrlChar            // `[^\s)\]"]`
    | PyUrlChar          // `[^\s\)\]"]` in a Python `str` pattern
    | NotSpace           // `[^\s]`
    | PySpace            // `\s` in a Python `str` pattern

  predicate Accepts(cls: CharClass, c: char) {
    match cls
    case Space => IsJsSpace(c)
    case Digit => IsDigit(c)
    case NotNewline => c != '\n'
    case NotLineTerminator => !IsLineTerminator(c)
    case NotCloseParen => c != ')'
    case NotColon => c != ':'
    case NotHash => c != '#'
    case NotColonOrNewline => c != ':' && c != '\n'
    case UrlChar => !IsJsSpace(c) && c != ')' && c != ']' && c != '"'
    case PyUrlChar => !IsPySpace(c) && c != ')' && c != ']' && c != '"'
    case NotSpace => !IsJsSpace(c)
    case PySpace => IsPySpace(c)
  }

  /** The end of the longest run of characters of class `cls` that starts at `i`
      (a greedy `[...]*`). */
  function SkipWhile(s: string, i: nat, cls: CharClass): (j: nat)
    requires i <= |s|
    ensures i <= j <= |s|
    ensures forall k :: i <= k < j ==> Accepts(cls, s[k])
    ensures j < |s| ==> !Accepts(cls, s[j])
    decreases |s| - i
  {
    if i < |s| && Accepts(cls, s[i]) then SkipWhile(s, i + 1, cls) else i
  }

  /** The index of the first `\n` at or after `i`, or `|s|`: where a `[^\n]*` run stops. */
  function LineEnd(s: string, i: nat): (j: nat)
    requires i <= |s|
    ensures i <= j <= |s|
    ensures forall k :: i <= k < j ==> s[k] != '\n'
    ensures j < |s| ==> s[j] == '\n'
  {
    SkipWhile(s, i, NotNewline)
  }

  /** `^` of a multiline regular expression: the start of the text or just after a line terminator. */
  predicate AtLineStart(s: string, i: nat) {
    i == 0 || (i <= |s| && IsLineTerminator(s[i - 1]))
  }

  /** `$` of a multiline regular expression: the end of the text or just before a line terminator. */
  predicate AtLineEnd(s: string, i: nat) {
    i == |s| || (i < |s| && IsLineTerminator(s[i]))
  }

  /** The words of a phrase that a pattern joins with `\s+`. */
  type Phrase = seq<string>

  /** Every word is non-empty and starts with a character that is not white
      space, so the `\s+` before it stops where the word begins. */
  predicate ValidPhrase(words: seq<string>) {
    words != [] && forall k :: 0 <= k < |words| ==> words[k] != [] && !IsJsSpace(words[k][0])
  }

  /** The end of the phrase `words[0]\s+words[1]\s+...` matched at `i` with the
      `i` flag, if it matches there. */
  function PhraseAt(s: string, i: nat, words: Phrase): (r: Option<nat>)
    ensures r.Some? ==> i <= r.value <= |s|
    ensures r.Some? && words != [] ==> i + |words[0]| <= r.value
    decreases |words|
  {
    if words == [] then (if i <= |s| then Some(i) else None)
    else if !StartsWithAtCI(s, i, words[0]) then None
    else if |words| == 1 then Some(i + |words[0]|)
    else
      var p := i + |words[0]|;
      var q := SkipWhile(s, p, Space);
      if q == p then None else PhraseAt(s, q, words[1..])
  }

  /** Equal windows have equal sub-windows. */
  lemma SubWindow(s: string, i: nat, t: string, j: nat, n: nat, a: nat, b: nat)
    requires i + n <= |s| && j + n <= |t| && s[i..i + n] == t[j..j + n]
    requires a <= b <= n
    ensures s[i + a..i + b] == t[j + a..j + b]
  {
    var x, y, w := s[i + a..i + b], t[j + a..j + b], s[i..i + n];
    forall k | 0 <= k < |x| ensures x[k] == y[k] {
      assert x[k] == w[a + k];
    }
  }

  /** The part `s[a..b]` of a window, placed where it lands in the other text. */
  lemma WindowAt(s: string, i: nat, e: nat, t: string, j: nat, a: nat, b: nat)
    requires i <= a <= b <= e <= |s| && j + (e - i) <= |t| && s[i..e] == t[j..j + (e - i)]
    ensures j + (a - i) + (b - a) <= |t| && s[a..b] == t[j + (a - i)..j + (a - i) + (b - a)]
  {
    SubWindow(s, i, t, j, e - i, a - i, b - i);
  }

  /** The tail of a window from `a` on, placed where it lands in the other text. */
  lemma WindowTail(s: string, i: nat, e: nat, t: string, j: nat, a: nat, a': nat)
    requires i <= a <= e <= |s| && j + (e - i) <= |t| && s[i..e] == t[j..j + (e - i)]
    requires a' == j + (a - i)
    ensures a' + (e - a) <= |t| && s[a..a + (e - a)] == t[a'..a' + (e - a)]
  {
    SubWindow(s, i, t, j, e - i, a - i, e - i);
  }

  lemma {:induction false} SkipWhileLocal(s: string, i: nat, t: string, j: nat, n: nat, cls: CharClass)
    requires i + n <= |s| && j + n <= |t| && s[i..i + n] == t[j..j + n]
    requires SkipWhile(s, i, cls) < i + n
    ensures SkipWhile(t, j, cls) == j + (SkipWhile(s, i, cls) - i)
    decreases n
  {
    assert s[i] == s[i..i + n][0] && t[j] == t[j..j + n][0];
    if Accepts(cls, s[i]) {
      SubWindow(s, i, t, j, n, 1, n);
      SkipWhileLocal(s, i + 1, t, j + 1, n - 1, cls);
    }
  }

  /** The phrase matches at `i` and ends at `e`. */
  predicate PhraseEndsAt(s: string, i: nat, words: Phrase, e: nat) {
    PhraseAt(s, i, words).Some? && PhraseAt(s, i, words).value == e
  }

  /** A phrase match reads only the characters it spans: the same characters
      elsewhere match the same way. */
  lemma {:induction false} PhraseAtLocal(s: string, i: nat, t: string, j: nat, words: Phrase, e: nat)
    requires ValidPhrase(words)
    requires PhraseEndsAt(s, i, words, e)
    requires j + (e - i) <= |t| && s[i..e] == t[j..j + (e - i)]
    ensures PhraseEndsAt(t, j, words, j + (e - i))
    decreases |words|
  {
    SubWindow(s, i, t, j, e - i, 0, |words[0]|);
    assert StartsWithAtCI(t, j, words[0]);
    if |words| > 1 {
      assert ValidPhrase(words[1..]) by {
        assert forall k :: 0 <= k < |words[1..]| ==> words[1..][k] == words[k + 1];
      }
      MultiWordLocal(s, i, t, j, words, e);
    }
  }

  lemma {:induction false} MultiWordLocal(s: string, i: nat, t: string, j: nat, words: Phrase, e: nat)
    requires ValidPhrase(words) && |words| > 1 && ValidPhrase(words[1..])
    requires PhraseEndsAt(s, i, words, e)
    requires j + (e - i) <= |t| && s[i..e] == t[j..j + (e - i)]
    requires StartsWithAtCI(t, j, words[0])
    ensures PhraseEndsAt(t, j, words, j + (e - i))
    decreases |words|, 0
  {
    var w := |words[0]|;
    var p := i + w;
    var q := PhraseAtUnfold(s, i, words);
    var rest: Phrase := words[1..];
    assert q < e by {
      assert rest[0] != [];
    }
    var n := e - p;
    var p' := j + w;
    WindowTail(s, i, e, t, j, p, p');
    assert s[p..p + n] == t[p'..p' + n];
    assert SkipWhile(s, p, Space) == q && q < p + n;
    SkipWhileLocal(s, p, t, p', n, Space);
    var q' := SkipWhile(t, p', Space);
    assert q' == p' + (q - p);
    assert q' == j + (q - i);
    WindowTail(s, i, e, t, j, q, q');
    PhraseAtLocal(s, q, t, q', rest, e);
    assert q' != p' && p' <= |t|;
    PhraseAtStep(t, j, words, q');
  }

  /** A multi-word phrase that matches: its first word, then white space up to
      `q`, then the rest of the phrase from `q`. */
  lemma PhraseAtUnfold(s: string, i: nat, words: Phrase) returns (q: nat)
    requires |words| > 1 && PhraseAt(s, i, words).Some?
    ensures i + |words[0]| < q <= |s| && q == SkipWhile(s, i + |words[0]|, Space)
    ensures PhraseAt(s, q, words[1..]) == PhraseAt(s, i, words)
  {
    q := SkipWhile(s, i + |words[0]|, Space);
  }

  /** One step of a multi-word phrase: the first word, white space, then the rest. */
  lemma PhraseAtStep(s: string, i: nat, words: Phrase, q: nat)
    requires |words| > 1 && StartsWithAtCI(s, i, words[0])
    requires i + |words[0]| <= |s| && q == SkipWhile(s, i + |words[0]|, Space) && q != i + |words[0]|
    ensures PhraseAt(s, i, words) == PhraseAt(s, q, words[1..])
  {
  }

  /** Some phrase of `stops` matches at `k`. */
  predicate AnyPhraseAt(s: string, k: nat, stops: seq<Phrase>) {
    exists p :: 0 <= p < |stops| && PhraseAt(s, k, stops[p]).Some?
  }

  /** Where a lazy `[\s\S]*?` that starts at `k` and is followed by the
      lookahead `(?=stop1|stop2|...|$)` ends: the first position at or after `k`
      where some stop phrase matches, or the end of the text. */
  function NextStop(s: string, k: nat, stops: seq<Phrase>): (r: nat)
    requires k <= |s|
    ensures k <= r <= |s|
    ensures r < |s| ==> AnyPhraseAt(s, r, stops)
    ensures forall j :: k <= j < r ==> !AnyPhraseAt(s, j, stops)
    decreases |s| - k
  {
    if k == |s| || AnyPhraseAt(s, k, stops) then k else NextStop(s, k + 1, stops)
  }

  /** The end of the first occurrence of `lit` at or after `from`: where a lazy
      `[\s\S]*?` followed by the literal `lit` stops. */
  function EndAfter(s: string, lit: string, from: nat): (r: Option<nat>)
    ensures r.Some? ==> from + |lit| <= r.value <= |s| && StartsWithAt(s, r.value - |lit|, lit)
    ensures r.None? ==> forall j :: from <= j ==> !StartsWithAt(s, j, lit)
  {
    match IndexOfFrom(s, lit, from)
    case None => None
    case Some(k) => Some(k + |lit|)
  }

  /** A chain `lit1[\s\S]*?lit2[\s\S]*?...` of lazy gaps and literals started at
      `from` (the first literal also after a lazy gap). Taking the first
      occurrence of each literal is what the backtracking matcher does: if the
      rest of the chain fails after the first occurrence, it fails after every
      later one as well. */
  function ChainEnd(s: string, from: nat, lits: seq<string>): (r: Option<nat>)
    ensures r.Some? ==> from <= r.value <= |s|
    decreases |lits|
  {
    if lits == [] then (if from <= |s| then Some(from) else None)
    else
      match EndAfter(s, lits[0], from)
      case None => None
      case Some(k) => ChainEnd(s, k, lits[1..])
  }

  /** The largest `k` with `p <= k <= h` at which a multiline `$` holds: where a
      greedy `[^#]*$` started at `p` stops when `h` is the first `#` at or after `p`. */
  function LastLineEndIn(s: string, p: nat, h: nat): (r: Option<nat>)
    requires p <= h <= |s|
    ensures r.Some? ==> p <= r.value <= h && AtLineEnd(s, r.value)
    ensures r.Some? ==> forall k :: r.value < k <= h ==> !AtLineEnd(s, k)
    ensures r.None? ==> forall k :: p <= k <= h ==> !AtLineEnd(s, k)
    decreases h
  {
    if AtLineEnd(s, h) then Some(h)
    else if h == p then None
    else LastLineEndIn(s, p, h - 1)
  }
}
