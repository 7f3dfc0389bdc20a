/**
 * The extraction of the forecast summary from the research summary. Each
 * pattern is a head phrase, then a lazy run up to an optional middle phrase,
 * then a lazy run that stops where a look-ahead for one of the stop phrases
 * (or the end of the text) holds. The patterns carry only the `i` flag, so a
 * non-global `match` returns the leftmost match and `$` is the end of the text.
 * The trimmed match becomes the forecast summary and the matched text is then
 * removed once with `replace(match[0], '')`.
 */
module ForecastSummary {
  import opened Wrappers
  import opened Text
  import opened Scan

  /** A head phrase, a middle phrase (empty when the pattern has none) and the
      stop phrases of the closing look-ahead. */
  datatype SummaryPattern = SummaryPattern(head: Phrase, middle: Phrase, stops: seq<Phrase>)

  /** Where a match starts and where it ends. */
  datatype Span = Span(start: nat, end: nat)

  const StopsLong: seq<Phrase> :=
    [["key", "milestones"], ["strategic", "implications"], ["strategic", "recommendations"], ["##"]]
  const StopsShort: seq<Phrase> := [["key", "milestones"], ["strategic"], ["##"]]
  const FiveYearHead: Phrase := ["summary", "of", "the", "5-year", "forecast"]
  const DetailedHead: Phrase := ["detailed", "discussion", "of", "growth", "assumptions"]

  /** The four forecast-summary patterns, in the order they are tried. */
  const SummaryPatterns: seq<SummaryPattern> := [
    SummaryPattern(FiveYearHead, DetailedHead, StopsLong),
    SummaryPattern(FiveYearHead, [], StopsLong),
    SummaryPattern(["summary", "of", "the", "forecast"], [], StopsShort),
    SummaryPattern(["5-year", "revenue", "forecast"], [], StopsShort)
  ]

  /** The pattern of the separate detailed-discussion pass. */
  const DetailedPattern: SummaryPattern := SummaryPattern(DetailedHead, [], StopsShort)

  /** Every word of the patterns is non-empty and starts with a character that is not white space. */
  predicate ValidPattern(p: SummaryPattern) {
    ValidPhrase(p.head) && (p.middle == [] || ValidPhrase(p.middle))
  }

  /** The first place at or after `m` where `words` matches: a lazy run followed by the phrase. */
  function PhraseSearch(s: string, m: nat, words: Phrase): (r: Option<Span>)
    requires m <= |s|
    ensures r.Some? ==> m <= r.value.start <= r.value.end <= |s| && PhraseEndsAt(s, r.value.start, words, r.value.end)
    ensures r.Some? ==> forall k :: m <= k < r.value.start ==> PhraseAt(s, k, words).None?
    ensures r.None? ==> forall k :: m <= k <= |s| ==> PhraseAt(s, k, words).None?
    decreases |s| - m
  {
    match PhraseAt(s, m, words)
    case Some(e) => Some(Span(m, e))
    case None => if m == |s| then None else PhraseSearch(s, m + 1, words)
  }

  /** Where a match of `p` that starts at `i` ends, if one does. */
  function MatchAt(p: SummaryPattern, s: string, i: nat): (r: Option<nat>)
    requires i <= |s|
    ensures r.Some? ==> i <= r.value <= |s|
  {
    match PhraseAt(s, i, p.head)
    case None => None
    case Some(h) =>
      match PhraseSearch(s, h, p.middle)
      case None => None
      case Some(mid) => Some(NextStop(s, mid.end, p.stops))
  }

  /** `s.match(p)`: the leftmost match at or after `i`. */
  function Find(p: SummaryPattern, s: string, i: nat): (r: Option<Span>)
    requires i <= |s|
    ensures r.Some? ==> i <= r.value.start <= r.value.end <= |s|
    ensures r.Some? ==> MatchAt(p, s, r.value.start).Some? && MatchAt(p, s, r.value.start).value == r.value.end
    ensures r.Some? ==> forall k :: i <= k < r.value.start ==> MatchAt(p, s, k).None?
    ensures r.None? ==> forall k :: i <= k <= |s| ==> MatchAt(p, s, k).None?
    decreases |s| - i
  {
    match MatchAt(p, s, i)
    case Some(e) => Some(Span(i, e))
    case None => if i == |s| then None else Find(p, s, i + 1)
  }

  /** The first pattern of `pats` that matches `s`, with its index and its match. */
  function FirstPatternMatch(pats: seq<SummaryPattern>, s: string): (r: Option<(nat, Span)>)
    ensures r.Some? ==> r.value.0 < |pats| && Find(pats[r.value.0], s, 0) == Some(r.value.1)
    ensures r.Some? ==> forall k :: 0 <= k < r.value.0 ==> Find(pats[k], s, 0).None?
    ensures r.None? ==> forall k :: 0 <= k < |pats| ==> Find(pats[k], s, 0).None?
    decreases |pats|
  {
    if pats == [] then None
    else
      match Find(pats[0], s, 0)
      case Some(sp) => Some((0, sp))
      case None =>
        match FirstPatternMatch(pats[1..], s)
        case None => None
        case Some(r) => Some((r.0 + 1, r.1))
  }

  /** A phrase search also succeeds from any earlier point. */
  lemma {:induction false} PhraseSearchFinds(s: string, m: nat, words: Phrase, k: nat)
    requires m <= k <= |s| && PhraseAt(s, k, words).Some?
    ensures PhraseSearch(s, m, words).Some?
    decreases k - m
  {
    if PhraseAt(s, m, words).None? {
      PhraseSearchFinds(s, m + 1, words, k);
    }
  }

  /** The parts of a match: the head phrase ends at `h`, and the middle phrase
      lies between `h` and the end of the match. */
  lemma MatchAtParts(p: SummaryPattern, s: string, i: nat) returns (h: nat, mid: Span)
    requires i <= |s| && MatchAt(p, s, i).Some?
    ensures PhraseEndsAt(s, i, p.head, h)
    ensures h <= mid.start <= mid.end <= MatchAt(p, s, i).value
    ensures PhraseEndsAt(s, mid.start, p.middle, mid.end)
  {
    h := PhraseAt(s, i, p.head).value;
    mid := PhraseSearch(s, h, p.middle).value;
  }

  /** A head phrase followed, anywhere later, by the middle phrase is a match. */
  lemma MatchAtFrom(p: SummaryPattern, s: string, j: nat, hj: nat, k: nat)
    requires j <= |s| && PhraseEndsAt(s, j, p.head, hj)
    requires hj <= k <= |s| && PhraseAt(s, k, p.middle).Some?
    ensures MatchAt(p, s, j).Some?
  {
    PhraseSearchFinds(s, hj, p.middle, k);
  }

  /** The matched text, wherever it occurs, is again a match of the pattern. */
  lemma MatchRecurs(p: SummaryPattern, s: string, i: nat, e: nat, j: nat)
    requires ValidPattern(p)
    requires i <= e <= |s| && MatchAt(p, s, i).Some? && MatchAt(p, s, i).value == e
    requires j + (e - i) <= |s| && s[i..e] == s[j..j + (e - i)]
    ensures MatchAt(p, s, j).Some?
  {
    var h, mid := MatchAtParts(p, s, i);
    WindowAt(s, i, e, s, j, i, h);
    PhraseAtLocal(s, i, s, j, p.head, h);
    var hj := j + (h - i);
    if p.middle == [] {
      MatchAtFrom(p, s, j, hj, hj);
    } else {
      var k := MiddleRecurs(p.middle, s, i, e, j, mid);
      MatchAtFrom(p, s, j, hj, k);
    }
  }

  /** The middle phrase inside a window recurs at the same offset in a copy of the window. */
  lemma MiddleRecurs(words: Phrase, s: string, i: nat, e: nat, j: nat, mid: Span) returns (k: nat)
    requires ValidPhrase(words)
    requires i <= mid.start <= mid.end <= e <= |s| && PhraseEndsAt(s, mid.start, words, mid.end)
    requires j + (e - i) <= |s| && s[i..e] == s[j..j + (e - i)]
    ensures k == j + (mid.start - i) && k <= |s| && PhraseAt(s, k, words).Some?
  {
    k := j + (mid.start - i);
    WindowAt(s, i, e, s, j, mid.start, mid.end);
    PhraseAtLocal(s, mid.start, s, k, words, mid.end);
  }

  /** The matched text does not occur before the first match: an earlier
      occurrence would be an earlier match. */
  lemma NoEarlierCopy(p: SummaryPattern, s: string, a: nat, e: nat)
    requires ValidPattern(p) && a <= e <= |s|
    requires MatchAt(p, s, a).Some? && MatchAt(p, s, a).value == e
    requires forall k :: 0 <= k < a ==> MatchAt(p, s, k).None?
    ensures forall j :: 0 <= j < a ==> !StartsWithAt(s, j, s[a..e])
  {
    forall j | 0 <= j < a
      ensures !StartsWithAt(s, j, s[a..e])
    {
      if StartsWithAt(s, j, s[a..e]) {
        MatchRecurs(p, s, a, e, j);
      }
    }
  }

  /** `replace(match[0], '')` removes the match itself. */
  lemma RemoveMatch(p: SummaryPattern, s: string)
    requires ValidPattern(p) && Find(p, s, 0).Some?
    ensures var sp := Find(p, s, 0).value;
            ReplaceFirst(s, s[sp.start..sp.end], "") == s[..sp.start] + s[sp.end..]
  {
    var sp := Find(p, s, 0).value;
    NoEarlierCopy(p, s, sp.start, sp.end);
    DeleteSpan(s, sp.start, sp.end);
  }

  /** Deleting the first occurrence of the text of a span that has no earlier copy. */
  lemma DeleteSpan(s: string, a: nat, e: nat)
    requires a <= e <= |s|
    requires forall j :: 0 <= j < a ==> !StartsWithAt(s, j, s[a..e])
    ensures ReplaceFirst(s, s[a..e], "") == s[..a] + s[e..]
  {
    var pat := s[a..e];
    assert StartsWithAt(s, a, pat);
    DeleteFirst(s, pat, a);
    assert a + |pat| == e;
  }

  /** The text with the span cut out. */
  function Cut(s: string, sp: Span): (r: string)
    requires sp.start <= sp.end <= |s|
    ensures |r| == |s| - (sp.end - sp.start)
  {
    s[..sp.start] + s[sp.end..]
  }

  /** Every pattern the extraction uses is well formed. */
  lemma PatternsValid()
    ensures ValidPattern(SummaryPatterns[0]) && ValidPattern(SummaryPatterns[1])
    ensures ValidPattern(SummaryPatterns[2]) && ValidPattern(SummaryPatterns[3])
    ensures ValidPattern(DetailedPattern)
  {
    HeadsValid();
  }

  lemma HeadsValid()
    ensures ValidPhrase(FiveYearHead) && ValidPhrase(DetailedHead)
    ensures ValidPhrase(["summary", "of", "the", "forecast"]) && ValidPhrase(["5-year", "revenue", "forecast"])
  {
  }

  /** A character equal up to ASCII case to one that is not white space is not white space either. */
  lemma NotSpaceCI(c: char, d: char)
    requires AsciiLower(c) == AsciiLower(d) && !IsJsSpace(d)
    ensures !IsJsSpace(c)
  {
  }

  /** A match begins with the first letter of its head phrase, so it is not blank:
      trimming keeps its first character and drops only trailing white space. */
  lemma MatchNotBlank(p: SummaryPattern, s: string, sp: Span)
    requires ValidPattern(p) && sp.start <= sp.end <= |s|
    requires MatchAt(p, s, sp.start).Some? && MatchAt(p, s, sp.start).value == sp.end
    ensures var t := JsTrim(s[sp.start..sp.end]);
            t != [] && t <= s[sp.start..sp.end] && !IsJsSpace(t[0])
  {
    var h, mid := MatchAtParts(p, s, sp.start);
    var w := p.head[0];
    assert EqualCI(s[sp.start..sp.start + |w|], w);
    assert AsciiLower(s[sp.start]) == AsciiLower(w[0]) by {
      assert s[sp.start..sp.start + |w|][0] == s[sp.start];
    }
    NotSpaceCI(s[sp.start], w[0]);
    var m := s[sp.start..sp.end];
    assert m[0] == s[sp.start];
    TrimKeepsFirst(m);
  }

  /**
   * The extraction of the forecast summary. The patterns are tried in order
   * and the first that matches wins: its trimmed match is the forecast summary
   * and the match is cut out of the summary. When that leaves the forecast
   * summary without the words "Detailed discussion", a detailed-discussion
   * section found in what remains is appended after a blank line and cut out
   * in turn. The forecast summary is empty exactly when no pattern matches.
   */
  method ExtractForecastSummary(summary0: string) returns (summary: string, forecastSummary: string)
    ensures FirstPatternMatch(SummaryPatterns, summary0).None? ==> summary == summary0 && forecastSummary == ""
    ensures FirstPatternMatch(SummaryPatterns, summary0).Some? ==>
              var sp := FirstPatternMatch(SummaryPatterns, summary0).value.1;
              var fs1 := JsTrim(summary0[sp.start..sp.end]);
              fs1 != [] && fs1 <= summary0[sp.start..sp.end] &&
              DetailedPassed(Cut(summary0, sp), fs1, summary, forecastSummary)
    ensures forecastSummary == "" <==> FirstPatternMatch(SummaryPatterns, summary0).None?
    ensures |summary| <= |summary0|
  {
    PatternsValid();
    var s1, fs1 := SummaryPass(SummaryPatterns, summary0);
    summary, forecastSummary := DetailedPass(s1, fs1);
  }

  /** The outcome of the detailed-discussion pass on the summary `s1` and the
      non-empty forecast summary `fs1`. */
  predicate DetailedPassed(s1: string, fs1: string, summary: string, forecastSummary: string) {
    if !Contains(fs1, "Detailed discussion") && Find(DetailedPattern, s1, 0).Some? then
      var dp := Find(DetailedPattern, s1, 0).value;
      summary == Cut(s1, dp) && forecastSummary == fs1 + "\n\n" + JsTrim(s1[dp.start..dp.end])
    else
      summary == s1 && forecastSummary == fs1
  }

  /** Every pattern of `pats` is well formed. */
  predicate ValidPatterns(pats: seq<SummaryPattern>) {
    forall k :: 0 <= k < |pats| ==> ValidPattern(pats[k])
  }

  /** The loop over the patterns, stopping at the first that matches. */
  method SummaryPass(pats: seq<SummaryPattern>, summary0: string) returns (summary: string, forecastSummary: string)
    requires ValidPatterns(pats)
    ensures FirstPatternMatch(pats, summary0).None? ==> summary == summary0 && forecastSummary == ""
    ensures FirstPatternMatch(pats, summary0).Some? ==>
              var sp := FirstPatternMatch(pats, summary0).value.1;
              summary == Cut(summary0, sp) && forecastSummary == JsTrim(summary0[sp.start..sp.end]) &&
              forecastSummary != [] && forecastSummary <= summary0[sp.start..sp.end]
  {
    summary, forecastSummary := summary0, "";
    var i := 0;
    while i < |pats|
      invariant i <= |pats|
      invariant forall k :: 0 <= k < i ==> Find(pats[k], summary0, 0).None?
      invariant summary == summary0 && forecastSummary == ""
    {
      var found := Find(pats[i], summary, 0);
      if found.Some? {
        var sp := found.value;
        var m := summary[sp.start..sp.end];
        forecastSummary := JsTrim(m);
        RemoveMatch(pats[i], summary);
        MatchNotBlank(pats[i], summary, sp);
        FirstPatternAt(pats, summary0, i);
        summary := ReplaceFirst(summary, m, "");
        break;
      }
      i := i + 1;
    }
  }

  /** The detailed-discussion pass. */
  method DetailedPass(summary1: string, fs1: string) returns (summary: string, forecastSummary: string)
    ensures fs1 == "" ==> summary == summary1 && forecastSummary == ""
    ensures fs1 != "" ==> DetailedPassed(summary1, fs1, summary, forecastSummary) && forecastSummary != ""
    ensures |summary| <= |summary1|
  {
    summary, forecastSummary := summary1, fs1;
    if forecastSummary != "" && !Contains(forecastSummary, "Detailed discussion") {
      var found := Find(DetailedPattern, summary, 0);
      if found.Some? {
        var dp := found.value;
        var m := summary[dp.start..dp.end];
        forecastSummary := forecastSummary + "\n\n" + JsTrim(m);
        PatternsValid();
        RemoveMatch(DetailedPattern, summary);
        summary := ReplaceFirst(summary, m, "");
      }
    }
  }

  /** When every earlier pattern fails and pattern `i` matches, pattern `i` is the first match. */
  lemma {:induction false} FirstPatternAt(pats: seq<SummaryPattern>, s: string, i: nat)
    requires i < |pats| && Find(pats[i], s, 0).Some?
    requires forall k :: 0 <= k < i ==> Find(pats[k], s, 0).None?
    ensures FirstPatternMatch(pats, s).Some? && FirstPatternMatch(pats, s).value.0 == i
    ensures FirstPatternMatch(pats, s).value.1 == Find(pats[i], s, 0).value
    decreases i
  {
    if i > 0 {
      assert Find(pats[0], s, 0).None?;
      FirstPatternAt(pats[1..], s, i - 1);
    }
  }
}
