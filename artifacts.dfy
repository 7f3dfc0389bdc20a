/**
 * The clean-up stages of the formatter that delete text from the summary:
 * code fences, forecast JSON objects and their markers, trailing source
 * sections and citation lines. Each stage is a regular expression applied
 * with a global `replace(..., '')`; here each is a matcher that says where a
 * match starting at a given index ends, and `Strip` is the left-to-right scan
 * a global replacement performs: at each index try a match; on success drop
 * it and go on at its end, otherwise keep the character and go on at the next
 * index. Every match is non-empty, so the scan never stalls.
 */
module Artifacts {
  import opened Wrappers
  import opened Text
  import opened Scan
  import opened Replace

  /** The shape of a source-section heading: `#`s, optional white space, then
      (optionally) a books emoji and white space, then `Sources`, then
      (optionally) white space, an optional `&`, white space and `Citation`
      with an optional `s`. */
  datatype SourcesHeading = SourcesHeading(hashes: string, emoji: bool, citations: bool)

  /** The artifacts removed from the summary, in the order of the stages. */
  datatype Artifact =
    | JsonFence           // a fence opened by three backquotes and `json` (any case), up to the next closing fence
    | AnyFence            // any fence opened by three backquotes, up to the next closing fence
    | TitleSeriesObject   // `{`, then `"title"`, then `"series"`, then `}`
    | ChartDataMarker     // `CHART DATA (...)` with an optional colon, any case
    | ForecastJsonMarker  // `Forecast JSON` and everything up to and including the next colon
    | FiveYearJsonSection // `5-Year Forecast (JSON)` up to the forecast summary, a `##` or the end
    | TitleFirstObject    // `{`, white space, `"title"`, then `"series"`, then `}`
    | SourcesSection(heading: SourcesHeading) // a heading and everything after it up to the last line end before a `#`
    | CitationBlock       // a run of `[n] ... http(s)://...` lines, with the line break before it
    | CitationLine        // a single `[n] ... http(s)://...` line

  const BOOKS: char := '\U{1F4DA}'

  const ChartData: Phrase := ["chart", "data"]
  const ForecastJson: Phrase := ["forecast", "json"]
  const FiveYearForecast: Phrase := ["5-year", "forecast"]
  /** Where the `5-Year Forecast (JSON)` section ends (besides the end of the text). */
  const FiveYearStops: seq<Phrase> := [["summary", "of", "the", "5-year"], ["##"]]

  /** The end of the heading part of a source-section pattern matched at `i`. */
  function HeadingEnd(h: SourcesHeading, s: string, i: nat): (r: Option<nat>)
    ensures r.Some? ==> i + |h.hashes| + 7 <= r.value <= |s|
  {
    if !StartsWithAt(s, i, h.hashes) then None
    else
      var p := SkipWhile(s, i + |h.hashes|, Space);
      var p' := if !h.emoji then p
                else if p < |s| && s[p] == BOOKS then SkipWhile(s, p + 1, Space)
                else |s| + 1;
      if p' > |s| || !StartsWithAtCI(s, p', "sources") then None
      else if !h.citations then Some(p' + 7)
      else
        var q := SkipWhile(s, p' + 7, Space);
        var q' := if q < |s| && s[q] == '&' then SkipWhile(s, q + 1, Space) else q;
        // the optional `s` of `Citations?` is absorbed by the `[^#]*` that follows
        if StartsWithAtCI(s, q', "citation") then Some(q' + 8) else None
  }

  /** `[n]` at `p` (one or more digits in brackets) on a line that contains
      `http://` or `https://` (any case) after the closing bracket. */
  predicate IsCitationLine(s: string, p: nat) {
    p < |s| && s[p] == '[' &&
    var d := SkipWhile(s, p + 1, Digit);
    d > p + 1 && d < |s| && s[d] == ']' && HasUrl(s, d + 1, LineEnd(s, p))
  }

  /** `https?://` (any case) occurs within `s[a..b]`. */
  predicate HasUrl(s: string, a: nat, b: nat) {
    a <= b <= |s| && (ContainsCI(s[a..b], "http://") || ContainsCI(s[a..b], "https://"))
  }

  /** Where a block of consecutive citation lines that starts at `p` ends. After
      each line the matcher tries another citation line; failing that, the
      look-ahead for a blank line, a line not starting with `[` or the end holds
      just past the line break exactly when a line end follows it, and otherwise
      holds at the line break itself, which is then kept. */
  function BlockEnd(s: string, p: nat): (r: nat)
    requires IsCitationLine(s, p)
    ensures p < r <= |s|
    ensures LineEnd(s, p) <= r
    ensures r == |s| || s[r] == '\n' || s[r - 1] == '\n'
    decreases |s| - p
  {
    var le := LineEnd(s, p);
    assert le != p by { assert s[p] == '['; }
    assert le < |s| ==> s[le] == '\n';
    if le == |s| then |s|
    else if IsCitationLine(s, le + 1) then BlockEnd(s, le + 1)
    else if AtLineEnd(s, le + 1) then le + 1
    else le
  }

  /** `CHART\s+DATA\s*\([^)]*\):?` with the `i` flag. */
  function ChartDataEnd(s: string, i: nat): (r: Option<nat>)
    ensures r.Some? ==> i < r.value <= |s|
  {
    match PhraseAt(s, i, ChartData)
    case None => None
    case Some(e) =>
      var p := SkipWhile(s, e, Space);
      if p < |s| && s[p] == '(' then
        var c := SkipWhile(s, p + 1, NotCloseParen);
        if c == |s| then None
        else if c + 1 < |s| && s[c + 1] == ':' then Some(c + 2)
        else Some(c + 1)
      else None
  }

  /** `Forecast\s+JSON[^:]*:?` with the `i` flag: the run may cross lines and,
      with no colon left, reaches the end of the text. */
  function ForecastJsonEnd(s: string, i: nat): (r: Option<nat>)
    ensures r.Some? ==> i < r.value <= |s|
  {
    match PhraseAt(s, i, ForecastJson)
    case None => None
    case Some(e) =>
      var c := SkipWhile(s, e, NotColon);
      Some(if c < |s| then c + 1 else c)
  }

  /** `5-Year\s+Forecast\s*\(JSON\)` with the `i` flag, then a lazy run up to
      the look-ahead for the forecast summary heading, `##` or the end (no `m`
      flag, so only the end of the text). */
  function FiveYearSectionEnd(s: string, i: nat): (r: Option<nat>)
    ensures r.Some? ==> i < r.value <= |s|
  {
    match PhraseAt(s, i, FiveYearForecast)
    case None => None
    case Some(e) =>
      var p := SkipWhile(s, e, Space);
      if StartsWithAtCI(s, p, "(json)") then Some(NextStop(s, p + 6, FiveYearStops)) else None
  }

  /** `{\s*"title"` followed by the lazy chain to `"series"` and `}`. */
  function TitleFirstEnd(s: string, i: nat): (r: Option<nat>)
    requires i < |s|
    ensures r.Some? ==> i < r.value <= |s|
  {
    if s[i] != '{' then None
    else
      var p := SkipWhile(s, i + 1, Space);
      if StartsWithAt(s, p, "\"title\"") then ChainEnd(s, p + 7, ["\"series\"", "}"]) else None
  }

  /** A source-section heading followed by `[^#]*$` with the `m` flag: the
      match runs to the last line end before the next `#` (or the end). */
  function SourcesSectionEnd(h: SourcesHeading, s: string, i: nat): (r: Option<nat>)
    ensures r.Some? ==> i < r.value <= |s|
  {
    match HeadingEnd(h, s, i)
    case None => None
    case Some(p) => LastLineEndIn(s, p, SkipWhile(s, p, NotHash))
  }

  /** The citation-block pattern, whose match starts either at a line start or
      at the line break before a citation line. */
  function CitationBlockEnd(s: string, i: nat): (r: Option<nat>)
    requires i < |s|
    ensures r.Some? ==> i < r.value <= |s|
  {
    if AtLineStart(s, i) && IsCitationLine(s, i) then Some(BlockEnd(s, i))
    else if s[i] == '\n' && IsCitationLine(s, i + 1) then Some(BlockEnd(s, i + 1))
    else None
  }

  /** One citation line at a line start, with its line break. */
  function CitationLineEnd(s: string, i: nat): (r: Option<nat>)
    ensures r.Some? ==> i < r.value <= |s|
    ensures r.Some? <==> AtLineStart(s, i) && IsCitationLine(s, i)
    ensures r.Some? ==> (r.value == |s| || s[r.value - 1] == '\n') &&
                        forall k :: i <= k < r.value - 1 ==> s[k] != '\n'
  {
    if AtLineStart(s, i) && IsCitationLine(s, i) then
      var le := LineEnd(s, i);
      Some(if le < |s| then le + 1 else le)
    else None
  }

  /** Where a match of artifact `a` that starts at `i` ends, if one does. */
  function MatchEnd(a: Artifact, s: string, i: nat): (r: Option<nat>)
    requires i < |s|
    ensures r.Some? ==> i < r.value <= |s|
  {
    match a
    case JsonFence =>
      if StartsWithAtCI(s, i, "```json") then EndAfter(s, "```", i + 7) else None
    case AnyFence =>
      if StartsWithAt(s, i, "```") then EndAfter(s, "```", i + 3) else None
    case TitleSeriesObject =>
      if s[i] == '{' then ChainEnd(s, i + 1, ["\"title\"", "\"series\"", "}"]) else None
    case ChartDataMarker => ChartDataEnd(s, i)
    case ForecastJsonMarker => ForecastJsonEnd(s, i)
    case FiveYearJsonSection => FiveYearSectionEnd(s, i)
    case TitleFirstObject => TitleFirstEnd(s, i)
    case SourcesSection(h) => SourcesSectionEnd(h, s, i)
    case CitationBlock => CitationBlockEnd(s, i)
    case CitationLine => CitationLineEnd(s, i)
  }

  /** The table of matches of `a` in `s`, each replaced by nothing. */
  function Hits(a: Artifact, s: string): (hits: seq<Option<Hit>>)
    ensures ValidHits(s, hits)
    ensures forall i :: 0 <= i < |s| ==> (hits[i].Some? <==> MatchEnd(a, s, i).Some?)
    ensures forall i :: 0 <= i < |s| && hits[i].Some? ==>
              hits[i].value.end == MatchEnd(a, s, i).value && hits[i].value.text == []
  {
    seq(|s|, i requires 0 <= i < |s| =>
      match MatchEnd(a, s, i)
      case None => None
      case Some(e) => Some(Hit(e, [])))
  }

  /** `s.replace(/.../g, '')` for the pattern of `a`. */
  function Strip(a: Artifact, s: string): string {
    ReplaceFrom(s, Hits(a, s), 0)
  }

  /** A stage keeps the text before its first match, deletes that match
      whole, and goes on after it; when nothing matches later, the rest is kept. */
  lemma StripCutsFirstMatch(a: Artifact, s: string, j: nat)
    requires j < |s| && MatchEnd(a, s, j).Some?
    requires forall i :: 0 <= i < j ==> MatchEnd(a, s, i).None?
    ensures var e := MatchEnd(a, s, j).value;
            Strip(a, s) == s[..j] + ReplaceFrom(s, Hits(a, s), e)
    ensures var e := MatchEnd(a, s, j).value;
            (forall i :: e <= i < |s| ==> MatchEnd(a, s, i).None?) ==> Strip(a, s) == s[..j] + s[e..]
  {
    var hits := Hits(a, s);
    var e := MatchEnd(a, s, j).value;
    forall i | 0 <= i < j ensures hits[i].None? {
      assert MatchEnd(a, s, i).None?;
    }
    CutFirstHit(s, hits, j, e);
    if forall i :: e <= i < |s| ==> MatchEnd(a, s, i).None? {
      forall i | e <= i < |s| ensures hits[i].None? {
        assert MatchEnd(a, s, i).None?;
      }
    }
  }

  /** No match of `a` starts anywhere in `s`. */
  predicate NoMatch(a: Artifact, s: string) {
    forall i :: 0 <= i < |s| ==> MatchEnd(a, s, i).None?
  }

  /** The stages of lines 42-52, 56-60 and 65-68, in the order they run. */
  const ArtifactStages: seq<Artifact> :=
    [JsonFence, AnyFence, TitleSeriesObject, ChartDataMarker, ForecastJsonMarker,
     FiveYearJsonSection, TitleFirstObject]
  const SourceStages: seq<Artifact> :=
    [SourcesSection(SourcesHeading("##", true, false)),
     SourcesSection(SourcesHeading("##", false, true)),
     SourcesSection(SourcesHeading("##", false, false)),
     SourcesSection(SourcesHeading("###", false, true)),
     SourcesSection(SourcesHeading("###", false, false))]
  const CitationStages: seq<Artifact> := [CitationBlock, CitationLine]

  /** The stages applied one after the other. */
  function StripAll(stages: seq<Artifact>, s: string): string
    decreases |stages|
  {
    if stages == [] then s else StripAll(stages[1..], Strip(stages[0], s))
  }

  /** A stage never lengthens the text, and leaves it alone exactly when its
      pattern matches nowhere. */
  lemma StripUnchangedIff(a: Artifact, s: string)
    ensures |Strip(a, s)| <= |s|
    ensures Strip(a, s) == s <==> NoMatch(a, s)
  {
    var hits := Hits(a, s);
    DeleteShrinks(s, hits, 0);
    if NoMatch(a, s) {
      ReplaceNoHits(s, hits, 0);
    } else {
      var j :| 0 <= j < |s| && MatchEnd(a, s, j).Some?;
      assert hits[j].Some?;
    }
  }

  /** The stages together never lengthen the text. */
  lemma {:induction false} StripAllShrinks(stages: seq<Artifact>, s: string)
    ensures |StripAll(stages, s)| <= |s|
    decreases |stages|
  {
    if stages != [] {
      StripUnchangedIff(stages[0], s);
      StripAllShrinks(stages[1..], Strip(stages[0], s));
    }
  }

  /** Text in which no stage finds a match passes through all of them unchanged. */
  lemma {:induction false} StripAllUnchanged(stages: seq<Artifact>, s: string)
    requires forall k :: 0 <= k < |stages| ==> NoMatch(stages[k], s)
    ensures StripAll(stages, s) == s
    decreases |stages|
  {
    if stages != [] {
      StripUnchangedIff(stages[0], s);
      assert forall k :: 0 <= k < |stages[1..]| ==> stages[1..][k] == stages[k + 1];
      StripAllUnchanged(stages[1..], s);
    }
  }
}
