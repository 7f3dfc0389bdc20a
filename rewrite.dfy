/**
 * The three rewriting passes that follow the forecast-summary extraction:
 * plain subheadings are promoted to markdown headers, the plain lines under a
 * heading that ends with a colon become bullet points, and citation markers
 * become links to the numbered sources. Each is a global replacement, written
 * as a table of hits over the text (see module Replace).
 */
module Rewrite {
  import opened Wrappers
  import opened Text
  import opened Scan
  import opened Replace

  // ---------------------------------------------------------------------------
  // Subheadings
  // ---------------------------------------------------------------------------

  const MarketGaps: string := "Market gaps and white space opportunities:"
  const CompetitiveAdvantages: string := "Competitive advantages and challenges:"

  /** The subheadings that are promoted, in the order of the passes. */
  const Subheadings: seq<string> := [MarketGaps, CompetitiveAdvantages]

  /** A subheading literal: it starts with an ASCII letter and ends with a colon. */
  predicate PlainSubheading(lit: string) {
    |lit| >= 2 && ('a' <= AsciiLower(lit[0]) <= 'z') && lit[|lit| - 1] == ':'
  }

  /** The replacement callback: a match that does not already start with `###`
      after trimming becomes a level-three header. */
  function PromoteMatch(m: string): string {
    if !StartsWith(JsTrim(m), "###") then "### " + JsTrim(m) else m
  }

  /** What a pass does at index `i`: it matches exactly where a line starts
      with the literal, up to ASCII case, and then puts the header marker in
      front of the matched text. */
  predicate HitSpec(lit: string, s: string, i: nat, h: Option<Hit>) {
    && (h.Some? <==> AtLineStart(s, i) && StartsWithAtCI(s, i, lit))
    && (h.Some? ==> h.value.end == i + |lit| <= |s| && h.value.text == "### " + s[i..i + |lit|])
  }

  /** The hit of the pattern `^lit` with the flags `gim` at `i`, replaced by
      what the callback makes of the matched text. */
  function SubheadingHitAt(lit: string, s: string, i: nat): (r: Option<Hit>)
    requires PlainSubheading(lit) && i < |s|
    ensures HitSpec(lit, s, i, r)
  {
    if AtLineStart(s, i) && StartsWithAtCI(s, i, lit) then
      var m := s[i..i + |lit|];
      PromoteAddsHeader(lit, m);
      Some(Hit(i + |lit|, PromoteMatch(m)))
    else None
  }

  /** The hits of a subheading pass at the first `n` indices. */
  function SubheadingHitsUpTo(lit: string, s: string, n: nat): (hits: seq<Option<Hit>>)
    requires PlainSubheading(lit) && n <= |s|
    ensures |hits| == n
  {
    if n == 0 then [] else SubheadingHitsUpTo(lit, s, n - 1) + [SubheadingHitAt(lit, s, n - 1)]
  }

  lemma {:induction false} SubheadingHitsUpToSpec(lit: string, s: string, n: nat)
    requires PlainSubheading(lit) && n <= |s|
    ensures forall i :: 0 <= i < n ==> HitSpec(lit, s, i, SubheadingHitsUpTo(lit, s, n)[i])
  {
    if n > 0 {
      var prev := SubheadingHitsUpTo(lit, s, n - 1);
      var hits := SubheadingHitsUpTo(lit, s, n);
      SubheadingHitsUpToSpec(lit, s, n - 1);
      forall i | 0 <= i < n ensures HitSpec(lit, s, i, hits[i]) {
        if i < n - 1 {
          assert hits[i] == prev[i];
        } else {
          assert hits[i] == SubheadingHitAt(lit, s, i);
        }
      }
    }
  }

  /** The hits of one subheading pass over the whole text. */
  function SubheadingHits(lit: string, s: string): (hits: seq<Option<Hit>>)
    requires PlainSubheading(lit)
    ensures ValidHits(s, hits)
  {
    SubheadingHitsUpToSpec(lit, s, |s|);
    SubheadingHitsUpTo(lit, s, |s|)
  }

  /** Every index of a pass behaves as `HitSpec` says. */
  lemma SubheadingHitsSpec(lit: string, s: string)
    requires PlainSubheading(lit)
    ensures forall i :: 0 <= i < |s| ==> HitSpec(lit, s, i, SubheadingHits(lit, s)[i])
  {
    SubheadingHitsUpToSpec(lit, s, |s|);
  }

  /** One subheading pass. */
  function PromoteSubheading(lit: string, s: string): string
    requires PlainSubheading(lit)
  {
    ReplaceFrom(s, SubheadingHits(lit, s), 0)
  }

  /** The guard of the callback never holds for these subheadings: a match
      starts with a letter and ends with a colon, so trimming leaves it alone
      and it does not start with `###`. Every match gains the header marker. */
  lemma PromoteAddsHeader(lit: string, m: string)
    requires PlainSubheading(lit) && EqualCI(m, lit)
    ensures PromoteMatch(m) == "### " + m
  {
    assert AsciiLower(m[0]) == AsciiLower(lit[0]);
    assert 'a' <= AsciiLower(m[0]) <= 'z';
    assert !IsJsSpace(m[0]) && m[0] != '#';
    assert AsciiLower(m[|m| - 1]) == ':';
    assert m[|m| - 1] == ':';
    assert TrimStartBy(m, JsBlank) == m;
    assert TrimEndBy(m, JsBlank) == m;
  }

  lemma SubheadingsPlain()
    ensures PlainSubheading(MarketGaps) && PlainSubheading(CompetitiveAdvantages)
  {
  }

  /** Each hit of a subheading pass inserts the header marker in front of the
      matched text, so a pass changes the text exactly when some line starts
      with the subheading. */
  lemma PromoteUnchangedIff(lit: string, s: string)
    requires PlainSubheading(lit)
    ensures PromoteSubheading(lit, s) == s <==>
              forall i :: 0 <= i < |s| ==> !(AtLineStart(s, i) && StartsWithAtCI(s, i, lit))
  {
    var hits := SubheadingHits(lit, s);
    SubheadingHitsSpec(lit, s);
    forall i | 0 <= i < |s|
      ensures hits[i].Some? <==> AtLineStart(s, i) && StartsWithAtCI(s, i, lit)
      ensures hits[i].Some? ==> |hits[i].value.text| > hits[i].value.end - i
    {
      assert HitSpec(lit, s, i, hits[i]);
    }
    UnchangedIffNoHits(s, hits);
  }

  /** Before the first line that starts with the subheading nothing matches,
      and that line's match gets the header marker. */
  lemma FirstSubheadingHit(lit: string, s: string, j: nat)
    requires PlainSubheading(lit) && j < |s| && AtLineStart(s, j) && StartsWithAtCI(s, j, lit)
    requires forall i :: 0 <= i < j ==> !(AtLineStart(s, i) && StartsWithAtCI(s, i, lit))
    ensures forall i :: 0 <= i < j ==> SubheadingHits(lit, s)[i].None?
    ensures SubheadingHits(lit, s)[j].Some?
    ensures SubheadingHits(lit, s)[j].value.end == j + |lit| <= |s|
    ensures SubheadingHits(lit, s)[j].value.text == "### " + s[j..j + |lit|]
  {
    var hits := SubheadingHits(lit, s);
    SubheadingHitsSpec(lit, s);
    forall i | 0 <= i < j ensures hits[i].None? {
      assert HitSpec(lit, s, i, hits[i]);
    }
    assert HitSpec(lit, s, j, hits[j]);
  }

  lemma FirstHitReplaced(lit: string, s: string, j: nat)
    requires PlainSubheading(lit) && j < |s| && AtLineStart(s, j) && StartsWithAtCI(s, j, lit)
    requires forall i :: 0 <= i < j ==> !(AtLineStart(s, i) && StartsWithAtCI(s, i, lit))
    ensures ReplaceFrom(s, SubheadingHits(lit, s), 0) ==
              s[..j] + ("### " + s[j..j + |lit|]) + ReplaceFrom(s, SubheadingHits(lit, s), j + |lit|)
  {
    var hits := SubheadingHits(lit, s);
    var t := "### " + s[j..j + |lit|];
    var e := j + |lit|;
    FirstSubheadingHit(lit, s, j);
    ReplaceFirstText(s, hits, j, t, e);
  }

  /** The text before the first line that starts with the subheading is kept,
      that line gets the header marker, and the pass resumes after the match. */
  lemma PromoteFirst(lit: string, s: string, j: nat)
    requires PlainSubheading(lit) && j < |s| && AtLineStart(s, j) && StartsWithAtCI(s, j, lit)
    requires forall i :: 0 <= i < j ==> !(AtLineStart(s, i) && StartsWithAtCI(s, i, lit))
    ensures PromoteSubheading(lit, s) ==
              s[..j] + ("### " + s[j..j + |lit|]) + ReplaceFrom(s, SubheadingHits(lit, s), j + |lit|)
  {
    FirstHitReplaced(lit, s, j);
  }

  /** The passes for `lits`, one after the other in order. */
  function PromoteAll(lits: seq<string>, s: string): string
    requires forall k :: 0 <= k < |lits| ==> PlainSubheading(lits[k])
    decreases |lits|
  {
    if lits == [] then s
    else PromoteSubheading(lits[|lits| - 1], PromoteAll(lits[..|lits| - 1], s))
  }

  /** Passes whose subheadings start no line of the text leave it unchanged. */
  lemma {:induction false} PromoteAllUnchanged(lits: seq<string>, s: string)
    requires forall k :: 0 <= k < |lits| ==> PlainSubheading(lits[k])
    requires forall k, i :: 0 <= k < |lits| && 0 <= i < |s| ==> !(AtLineStart(s, i) && StartsWithAtCI(s, i, lits[k]))
    ensures PromoteAll(lits, s) == s
    decreases |lits|
  {
    if lits != [] {
      var init, last := lits[..|lits| - 1], lits[|lits| - 1];
      PromoteAllUnchanged(init, s);
      PromoteUnchangedIff(last, s);
    }
  }

  /** The subheading passes, one per subheading in order. */
  method PromoteSubheadings(s0: string) returns (s: string)
    ensures s == PromoteAll(Subheadings, s0)
    ensures s == PromoteSubheading(CompetitiveAdvantages, PromoteSubheading(MarketGaps, s0))
    ensures (forall i :: 0 <= i < |s0| ==> !(AtLineStart(s0, i) && StartsWithAtCI(s0, i, MarketGaps))) &&
            (forall i :: 0 <= i < |s0| ==> !(AtLineStart(s0, i) && StartsWithAtCI(s0, i, CompetitiveAdvantages)))
            ==> s == s0
  {
    SubheadingsPlain();
    s := s0;
    for i := 0 to |Subheadings|
      invariant s == PromoteAll(Subheadings[..i], s0)
    {
      assert Subheadings[..i + 1][..i] == Subheadings[..i];
      s := PromoteSubheading(Subheadings[i], s);
    }
    assert Subheadings[..|Subheadings|] == Subheadings;
    assert Subheadings[..1] == [MarketGaps];
    assert Subheadings[..0] == [];
    PromoteUnchangedIff(MarketGaps, s0);
    PromoteUnchangedIff(CompetitiveAdvantages, s0);
  }

  // ---------------------------------------------------------------------------
  // Bullet points
  // ---------------------------------------------------------------------------

  /** The first character of a content line, `[^\n-*#]`. Inside the brackets
      the dash forms the range from U+000A to U+002A (which holds the space,
      the quotes and `*`), so the characters excluded are that range and `#`;
      the dash itself is admitted. */
  predicate ContentStart(c: char) {
    !('\n' <= c <= '*') && c != '#'
  }

  /** One iteration of `[^\n-*#].*\n?` from `p`: the end of the line, past its
      newline when it has one. */
  function ContentLineEnd(s: string, p: nat): (e: nat)
    requires p < |s| && ContentStart(s[p])
    ensures p < e <= |s|
    ensures forall k :: p <= k < e - 1 ==> s[k] != '\n'
  {
    var q := SkipWhile(s, p + 1, NotLineTerminator);
    if q < |s| && s[q] == '\n' then q + 1 else q
  }

  /** The end of the greedy repetition of content lines from `p` (`p` itself
      when no line starts there). */
  function ContentEnd(s: string, p: nat): (e: nat)
    requires p <= |s|
    ensures p <= e <= |s|
    ensures e > p <==> p < |s| && ContentStart(s[p])
    decreases |s| - p
  {
    if p < |s| && ContentStart(s[p]) then ContentEnd(s, ContentLineEnd(s, p)) else p
  }

  /** A match of the bullet pattern: where the heading's colon is and where the content ends. */
  datatype BulletMatch = BulletMatch(colon: nat, end: nat)

  /** The match once the heading's colon is at `c`: the colon, a newline, then
      at least one content line. */
  function FromColon(s: string, c: nat): (r: Option<BulletMatch>)
    ensures r.Some? ==> r.value.colon == c && c + 2 < r.value.end <= |s|
    ensures r.Some? ==> s[c] == ':' && s[c + 1] == '\n' && r.value.end == ContentEnd(s, c + 2)
  {
    if c + 2 < |s| && s[c] == ':' && s[c + 1] == '\n' && ContentStart(s[c + 2]) then
      Some(BulletMatch(c, ContentEnd(s, c + 2)))
    else None
  }

  /** The match at `i` that takes the optional `###\s+`. The greedy `\s+` may
      give back white space, but every choice that leaves no newline between
      it and the heading text stops `[^:\n]+` at the same place, so the
      heading ends at the first colon or newline after the white space; when
      that is at once a colon, the `\s+` must give back one character other
      than a newline. */
  function MarkedMatch(s: string, i: nat): (r: Option<BulletMatch>)
    requires i <= |s|
    ensures r.Some? ==> i + 4 < r.value.colon + 1 && r.value.colon + 2 < r.value.end <= |s|
    ensures r.Some? ==> var c := r.value.colon;
              s[c] == ':' && s[c + 1] == '\n' && r.value.end == ContentEnd(s, c + 2)
  {
    if !StartsWithAt(s, i, "###") then None
    else
      var r := SkipWhile(s, i + 3, Space);
      var c := SkipWhile(s, r, NotColonOrNewline);
      if r > i + 3 && (c > r || (r >= i + 5 && s[r - 1] != '\n')) then FromColon(s, c) else None
  }

  /** The match at `i` without the header marker. */
  function PlainMatch(s: string, i: nat): (r: Option<BulletMatch>)
    requires i <= |s|
    ensures r.Some? ==> i < r.value.colon && r.value.colon + 2 < r.value.end <= |s|
    ensures r.Some? ==> var c := r.value.colon;
              s[c] == ':' && s[c + 1] == '\n' && r.value.end == ContentEnd(s, c + 2)
  {
    var c := SkipWhile(s, i, NotColonOrNewline);
    if c > i then FromColon(s, c) else None
  }

  /** The match of `((?:###\s+)?[^:\n]+:)\n((?:[^\n-*#].*\n?)+)` at `i`: first
      with the header marker, then without it. */
  function BulletMatchAt(s: string, i: nat): (r: Option<BulletMatch>)
    requires i <= |s|
    ensures r.Some? ==> i < r.value.colon && r.value.colon + 2 < r.value.end <= |s|
    ensures r.Some? ==> var c := r.value.colon;
              s[c] == ':' && s[c + 1] == '\n' && r.value.end == ContentEnd(s, c + 2)
  {
    if MarkedMatch(s, i).Some? then MarkedMatch(s, i) else PlainMatch(s, i)
  }

  /** A content line the callback keeps: not blank and not already a bullet once trimmed. */
  predicate KeptLine(line: string) {
    var t := JsTrim(line);
    t != [] && !StartsWith(t, "-") && !StartsWith(t, "*")
  }

  /** `lines.filter(...)` with the test of `KeptLine`. */
  function KeptLines(lines: seq<string>): (r: seq<string>)
    ensures |r| <= |lines|
    ensures forall k :: 0 <= k < |r| ==> KeptLine(r[k]) && r[k] in lines
    ensures forall l :: l in lines && KeptLine(l) ==> l in r
  {
    if lines == [] then []
    else (if KeptLine(lines[0]) then [lines[0]] else []) + KeptLines(lines[1..])
  }

  /** The lines kept of a single line: itself exactly when it is kept. */
  lemma KeptLinesOne(line: string)
    ensures KeptLines([line]) == if KeptLine(line) then [line] else []
  {
    assert [line][1..] == [];
  }

  /** The filter distributes over concatenation: the kept lines stay in
      order, each as often as it occurs. */
  lemma {:induction false} KeptLinesConcat(a: seq<string>, b: seq<string>)
    ensures KeptLines(a + b) == KeptLines(a) + KeptLines(b)
    decreases |a|
  {
    if a == [] {
      assert a + b == b;
    } else {
      assert (a + b)[0] == a[0];
      assert (a + b)[1..] == a[1..] + b;
      KeptLinesConcat(a[1..], b);
      ConcatAssoc(if KeptLine(a[0]) then [a[0]] else [], KeptLines(a[1..]), KeptLines(b));
    }
  }

  /** Each line trimmed and marked as a bullet. */
  function Bullets(lines: seq<string>): (r: seq<string>)
    ensures |r| == |lines|
    ensures forall k :: 0 <= k < |lines| ==> r[k] == "- " + JsTrim(lines[k])
  {
    seq(|lines|, k requires 0 <= k < |lines| => "- " + JsTrim(lines[k]))
  }

  /** The replacement callback, given the heading, the content and the whole match. */
  function BulletText(heading: string, content: string, whole: string): string {
    var trimmed := JsTrim(content);
    if Contains(trimmed, "\n\n") || StartsWith(trimmed, "-") || StartsWith(trimmed, "*") || StartsWith(trimmed, "#") then whole
    else
      var lines := KeptLines(Split(content, '\n'));
      if |lines| > 1 then heading + "\n" + Join(Bullets(lines), "\n") + "\n" else whole
  }

  /** The hit of the bullet pattern at `i`, with the text the callback returns for it. */
  function BulletHitAt(s: string, i: nat): (r: Option<Hit>)
    requires i < |s|
    ensures r.Some? <==> BulletMatchAt(s, i).Some?
    ensures r.Some? ==> i < r.value.end <= |s|
    ensures r.Some? ==>
              var bm := BulletMatchAt(s, i).value;
              r.value.end == bm.end &&
              r.value.text == BulletText(s[i..bm.colon + 1], s[bm.colon + 2..bm.end], s[i..bm.end])
  {
    match BulletMatchAt(s, i)
    case None => None
    case Some(bm) => Some(Hit(bm.end, BulletText(s[i..bm.colon + 1], s[bm.colon + 2..bm.end], s[i..bm.end])))
  }

  /** The hits of the bullet pattern with the flag `g`. */
  function BulletHits(s: string): (hits: seq<Option<Hit>>)
    ensures ValidHits(s, hits)
    ensures forall i :: 0 <= i < |s| ==> hits[i] == BulletHitAt(s, i)
  {
    seq(|s|, i requires 0 <= i < |s| => BulletHitAt(s, i))
  }

  /** The bullet pass. */
  function Bulletize(s: string): string {
    ReplaceFrom(s, BulletHits(s), 0)
  }

  /** Content that trims to a leading marker is copied. */
  predicate MarkerLed(t: string) {
    StartsWith(t, "-") || StartsWith(t, "*") || StartsWith(t, "#")
  }

  /** What the callback makes of a match at `i`: a heading with two or more
      kept lines becomes the heading, then one bullet `- ` + trimmed line per
      kept line in order, each on its own line; content that starts with a
      marker once trimmed, or that has fewer than two kept lines, is copied. */
  lemma BulletHitText(s: string, i: nat)
    requires i < |s| && BulletMatchAt(s, i).Some?
    ensures BulletHitAt(s, i).Some? && BulletHitAt(s, i).value.end == BulletMatchAt(s, i).value.end
    ensures var bm := BulletMatchAt(s, i).value;
            var content := s[bm.colon + 2..bm.end];
            var lines := KeptLines(Split(content, '\n'));
            (MarkerLed(JsTrim(content)) || |lines| <= 1) ==> BulletHitAt(s, i).value.text == s[i..bm.end]
    ensures var bm := BulletMatchAt(s, i).value;
            var content := s[bm.colon + 2..bm.end];
            var lines := KeptLines(Split(content, '\n'));
            !MarkerLed(JsTrim(content)) && |lines| > 1 ==>
              BulletHitAt(s, i).value.text == s[i..bm.colon + 1] + "\n" + Join(Bullets(lines), "\n") + "\n"
  {
    BlankLineTestNeverHolds(s, i);
  }

  /** The bullet pass keeps the text before its first match, puts the
      callback's text in place of that match and goes on after it. */
  lemma BulletizeFirst(s: string, j: nat)
    requires j < |s| && BulletMatchAt(s, j).Some?
    requires forall i :: 0 <= i < j ==> BulletMatchAt(s, i).None?
    ensures Bulletize(s) == s[..j] + BulletHitAt(s, j).value.text + ReplaceFrom(s, BulletHits(s), BulletMatchAt(s, j).value.end)
  {
    var hits := BulletHits(s);
    ReplaceFirstText(s, hits, j, hits[j].value.text, hits[j].value.end);
  }

  /** No character of `s` is a newline. */
  predicate OneLine(s: string) {
    forall k :: 0 <= k < |s| ==> s[k] != '\n'
  }

  /** Three lines joined by newlines split back into those lines. */
  lemma SplitThreeLines(a: string, m: string, c: string)
    requires OneLine(a) && OneLine(m) && OneLine(c)
    ensures Split(a + "\n" + m + "\n" + c, '\n') == [a, m, c]
  {
    var s := a + "\n" + m + "\n" + c;
    var r := m + "\n" + c;
    SplitAt(s, '\n', |a|);
    assert s[..|a|] == a;
    assert s[|a| + 1..] == r;
    SplitAt(r, '\n', |m|);
    assert r[..|m|] == m;
    assert r[|m| + 1..] == c;
    SplitNone(c, '\n');
  }

  /** Three lines, the second and third non-empty, contain no blank line. */
  lemma ThreeLinesNoBlankLine(a: string, m: string, c: string)
    requires OneLine(a) && OneLine(m) && OneLine(c) && m != [] && c != []
    ensures NoBlankLine(a + "\n" + m + "\n" + c)
  {
    var s := a + "\n" + m + "\n" + c;
    var n2 := |a| + 1 + |m|;
    forall k | 0 <= k < |s| - 1 ensures !(s[k] == '\n' && s[k + 1] == '\n') {
      if k < |a| {
        assert s[k] == a[k];
      } else if k == |a| {
        assert s[k + 1] == m[0];
      } else if k < n2 {
        assert s[k] == m[k - |a| - 1];
      } else if k == n2 {
        assert s[k + 1] == c[0];
      } else {
        assert s[k] == c[k - n2 - 1];
      }
    }
  }

  lemma DashOneLine(b: string)
    requires OneLine(b)
    ensures OneLine("-" + b)
  {
    var m := "-" + b;
    forall k | 0 <= k < |m| ensures m[k] != '\n' {
      if k > 0 { assert m[k] == b[k - 1]; }
    }
  }

  /** Of the lines `a`, `-b` and `c` the filter keeps `a` and `c`. */
  lemma DashLineFiltered(a: string, b: string, c: string)
    requires OneLine(a) && OneLine(b) && OneLine(c) && KeptLine(a) && KeptLine(c)
    ensures KeptLines(Split(a + "\n" + ("-" + b) + "\n" + c, '\n')) == [a, c]
  {
    DashOneLine(b);
    DashNotKept(b);
    SplitThreeLines(a, "-" + b, c);
    KeptMiddleDropped(a, "-" + b, c);
  }

  /** A line that starts with `-` is not kept. */
  lemma DashNotKept(b: string)
    ensures !KeptLine("-" + b)
  {
    TrimKeepsFirst("-" + b);
  }

  lemma KeptMiddleDropped(x: string, y: string, z: string)
    requires KeptLine(x) && !KeptLine(y) && KeptLine(z)
    ensures KeptLines([x, y, z]) == [x, z]
  {
    assert [x, y, z][1..] == [y, z];
    assert [y, z][1..] == [z];
    assert [z][1..] == [];
  }

  /** Content over `a`, `-b` and `c` that opens with a plain character passes
      both of the callback's guards. */
  lemma DashContentPlain(a: string, b: string, c: string)
    requires OneLine(a) && OneLine(b) && OneLine(c)
    requires a != [] && !IsJsSpace(a[0]) && a[0] != '#' && KeptLine(a) && c != []
    ensures var content := a + "\n" + ("-" + b) + "\n" + c;
            !MarkerLed(JsTrim(content)) && !Contains(JsTrim(content), "\n\n")
  {
    var m := "-" + b;
    var content := a + "\n" + m + "\n" + c;
    DashOneLine(b);
    TrimKeepsFirst(a);
    TrimKeepsFirst(content);
    assert content[0] == a[0];
    ThreeLinesNoBlankLine(a, m, c);
    NoBlankLineTrim(content);
    NoBlankLineNotContains(JsTrim(content));
  }

  /** A content line that starts with `-` is admitted by the pattern (the dash
      is outside the excluded range) but then dropped by the callback's filter:
      a heading over `a`, `-b` and `c` comes out with two bullets, for `a` and
      `c`, and `-b` is gone. */
  lemma DashLineDropped(heading: string, a: string, b: string, c: string, whole: string)
    requires OneLine(a) && OneLine(b) && OneLine(c)
    requires a != [] && !IsJsSpace(a[0]) && a[0] != '#' && KeptLine(a) && KeptLine(c)
    ensures ContentStart('-')
    ensures BulletText(heading, a + "\n" + ("-" + b) + "\n" + c, whole) ==
              heading + "\n" + (("- " + JsTrim(a)) + "\n" + ("- " + JsTrim(c))) + "\n"
  {
    assert c != [] by { assert JsTrim(c) != []; }
    DashLineFiltered(a, b, c);
    DashContentPlain(a, b, c);
    TwoBullets(a, c);
  }

  /** Two kept lines give two bullets on consecutive lines. */
  lemma TwoBullets(a: string, c: string)
    ensures Join(Bullets([a, c]), "\n") == ("- " + JsTrim(a)) + "\n" + ("- " + JsTrim(c))
  {
    var bl := Bullets([a, c]);
    assert bl == ["- " + JsTrim(a), "- " + JsTrim(c)];
    assert bl[1..] == ["- " + JsTrim(c)];
  }

  /** Inside the content no newline is followed by another: each line begins
      with a character other than a newline. */
  lemma {:induction false} ContentNoBlankLine(s: string, p: nat, k: nat)
    requires p <= k && p <= |s| && k + 1 < ContentEnd(s, p)
    ensures !(s[k] == '\n' && s[k + 1] == '\n')
    decreases |s| - p
  {
    var e1 := ContentLineEnd(s, p);
    if k == e1 - 1 {
      assert ContentEnd(s, e1) > e1;
    } else if k > e1 - 1 {
      ContentNoBlankLine(s, e1, k);
    }
  }

  /** Trimmed content holds no blank line. */
  lemma TrimmedContentNoBlankLine(s: string, p: nat)
    requires p <= |s|
    ensures !Contains(JsTrim(s[p..ContentEnd(s, p)]), "\n\n")
  {
    var e := ContentEnd(s, p);
    var x := s[p..e];
    forall k | 0 <= k < |x| - 1
      ensures !(x[k] == '\n' && x[k + 1] == '\n')
    {
      ContentNoBlankLine(s, p, p + k);
    }
    NoBlankLineTrim(x);
    NoBlankLineNotContains(JsTrim(x));
  }

  /** The test for a blank line in the trimmed content never holds: the
      content of a match cannot contain one, so the match is never left alone
      as "multi-paragraph". */
  lemma BlankLineTestNeverHolds(s: string, i: nat)
    requires i < |s| && BulletMatchAt(s, i).Some?
    ensures var bm := BulletMatchAt(s, i).value;
            !Contains(JsTrim(s[bm.colon + 2..bm.end]), "\n\n")
  {
    TrimmedContentNoBlankLine(s, BulletMatchAt(s, i).value.colon + 2);
  }

  /** Every match has a colon at the end of a line. */
  lemma MatchNeedsColon(s: string, i: nat)
    requires i < |s| && BulletMatchAt(s, i).Some?
    ensures Contains(s, ":\n")
  {
    var c := BulletMatchAt(s, i).value.colon;
    PairAt(s, c, ':', '\n');
    ContainsAt(s, ":\n", c);
  }

  /** Text without a colon at the end of a line is left unchanged by the bullet pass. */
  lemma BulletizeNeedsColon(s: string)
    requires !Contains(s, ":\n")
    ensures Bulletize(s) == s
  {
    var hits := BulletHits(s);
    forall i | 0 <= i < |s|
      ensures hits[i].None?
    {
      if BulletMatchAt(s, i).Some? {
        MatchNeedsColon(s, i);
      }
    }
    ReplaceNoHits(s, hits, 0);
  }
}
