/**
 * `formatResearchResponse`: the research payload turned into one markdown
 * document (a fixed banner, the cleaned summary, an optional forecast block
 * and an optional numbered source list) plus the forecast summary taken out
 * of the summary text. The summary goes through the clean-up stages, the
 * forecast-summary extraction, the subheading, bullet and citation passes,
 * in that order; the competitor list of the payload is never read.
 */
module Formatter {
  import opened Wrappers
  import opened Text
  import opened Scan
  import opened Replace
  import Artifacts
  import ForecastSummary
  import Rewrite
  import Links
  import Sources
  import Dedup

  /** One point of the forecast series; the value is only carried, never computed with. */
  datatype ForecastPoint = ForecastPoint(year: int, value: real)

  datatype Forecast = Forecast(title: string, unit: string, series: seq<ForecastPoint>, scenarios: Option<seq<string>>)

  /** The payload of the research endpoint. */
  datatype ResearchResponse = ResearchResponse(summary: string, competitors: seq<string>, forecast: Forecast, sources: seq<string>)

  /** What the payload schema guarantees: whole years, values of at least
      zero and at least one point in the series. The formatter does not rely
      on it. */
  predicate ValidResponse(data: ResearchResponse) {
    |data.forecast.series| >= 1 &&
    forall k :: 0 <= k < |data.forecast.series| ==> data.forecast.series[k].value >= 0.0
  }

  const Banner: string := "\U{1F4CA} **Market Research Analysis**\n\n"
  const SummaryHeading: string := "## \U{1F4DD} Summary\n\n"
  const ForecastHeading: string := "## \U{1F4C8} Market Forecast\n\n"
  const ChartNote: string := "*See the interactive chart below for visualization.*\n\n"
  const SourcesTitle: string := "## \U{1F4DA} Sources & Citations\n\n"

  // ---------------------------------------------------------------------------
  // Forecast title

  /** `CHART\s+DATA[^:]*:?\s*` with the `i` flag at `i`: where the match ends.
      Everything after the phrase is optional and greedy, so the phrase alone decides. */
  function ChartLabelEnd(s: string, i: nat): (r: Option<nat>)
    ensures r.Some? <==> PhraseAt(s, i, ["CHART", "DATA"]).Some?
    ensures r.Some? ==> i < r.value <= |s|
  {
    match PhraseAt(s, i, ["CHART", "DATA"])
    case None => None
    case Some(p) =>
      var c := SkipWhile(s, p, NotColon);
      var q := if c < |s| then c + 1 else c;
      Some(SkipWhile(s, q, Space))
  }

  /** `\{[\s\S]*?\}` at `i`: a `{` up to the first `}` after it. */
  function BraceGroupEnd(s: string, i: nat): (r: Option<nat>)
    requires i < |s|
    ensures r.Some? ==> i < r.value <= |s|
    ensures r.Some? <==> s[i] == '{' && exists j :: i < j < |s| && s[j] == '}'
  {
    if s[i] != '{' then None
    else
      var r := EndAfter(s, "}", i + 1);
      if r.None? then
        forall j | i < j < |s| ensures s[j] != '}' {
          assert !StartsWithAt(s, j, "}");
          assert s[j..j + 1][0] == s[j];
        }
        r
      else
        var j := r.value - 1;
        assert s[j..j + 1][0] == s[j];
        r
  }

  /** The hits of the chart-label pattern, each replaced by nothing. */
  function ChartLabelHits(s: string): (hits: seq<Option<Hit>>)
    ensures ValidHits(s, hits)
    ensures forall i :: 0 <= i < |s| ==> (hits[i].Some? <==> ChartLabelEnd(s, i).Some?)
    ensures forall i :: 0 <= i < |s| && hits[i].Some? ==>
              hits[i].value.end == ChartLabelEnd(s, i).value && hits[i].value.text == []
  {
    seq(|s|, i requires 0 <= i < |s| =>
      match ChartLabelEnd(s, i)
      case None => None
      case Some(e) => Some(Hit(e, [])))
  }

  /** The hits of the brace-group pattern, each replaced by nothing. */
  function BraceHits(s: string): (hits: seq<Option<Hit>>)
    ensures ValidHits(s, hits)
    ensures forall i :: 0 <= i < |s| ==> (hits[i].Some? <==> BraceGroupEnd(s, i).Some?)
    ensures forall i :: 0 <= i < |s| && hits[i].Some? ==> hits[i].value.text == []
  {
    seq(|s|, i requires 0 <= i < |s| =>
      match BraceGroupEnd(s, i)
      case None => None
      case Some(e) => Some(Hit(e, [])))
  }

  function StripChartLabels(s: string): string {
    ReplaceFrom(s, ChartLabelHits(s), 0)
  }

  function StripBraceGroups(s: string): string {
    ReplaceFrom(s, BraceHits(s), 0)
  }

  /** The forecast title with its chart labels removed, then its brace groups. */
  function CleanTitle(title: string): string {
    StripBraceGroups(StripChartLabels(title))
  }

  /** The chart pass keeps the title before its first chart label, drops that
      label whole (phrase, description, colon and spaces) and goes on after it;
      a title that opens with a label loses all of it. */
  lemma ChartLabelFirstDropped(t: string, j: nat)
    requires j < |t| && ChartLabelEnd(t, j).Some?
    requires forall i :: 0 <= i < j ==> ChartLabelEnd(t, i).None?
    ensures var e := ChartLabelEnd(t, j).value;
            StripChartLabels(t) == t[..j] + ReplaceFrom(t, ChartLabelHits(t), e)
    ensures var e := ChartLabelEnd(t, j).value;
            (forall i :: e <= i < |t| ==> ChartLabelEnd(t, i).None?) ==> StripChartLabels(t) == t[..j] + t[e..]
  {
    var hits := ChartLabelHits(t);
    var e := ChartLabelEnd(t, j).value;
    forall i | 0 <= i < j ensures hits[i].None? {
      assert ChartLabelEnd(t, i).None?;
    }
    CutFirstHit(t, hits, j, e);
    if forall i :: e <= i < |t| ==> ChartLabelEnd(t, i).None? {
      forall i | e <= i < |t| ensures hits[i].None? {
        assert ChartLabelEnd(t, i).None?;
      }
    }
  }

  /** A character that differs from the literal's, apart from ASCII case, rules a match out. */
  lemma MismatchCI(s: string, i: nat, lit: string, k: nat)
    requires k < |lit| && i + k < |s|
    requires AsciiLower(s[i + k]) != AsciiLower(lit[k])
    ensures !StartsWithAtCI(s, i, lit)
  {
    if i + |lit| <= |s| {
      assert s[i..i + |lit|][k] == s[i + k];
    }
  }

  const SplicedTitle: string := "CHA" + "CHART DATA:" + "RT DATA"

  /** A title whose only chart label is `b`, between `a` and `c`, comes out as `a + c`. */
  lemma CutOnlyLabel(a: string, b: string, c: string)
    requires |a| < |a + b + c| && ChartLabelEnd(a + b + c, |a|).Some?
    requires ChartLabelEnd(a + b + c, |a|).value == |a| + |b|
    requires forall i :: 0 <= i < |a + b + c| && i != |a| ==> ChartLabelEnd(a + b + c, i).None?
    ensures StripChartLabels(a + b + c) == a + c
  {
    var t := a + b + c;
    ChartLabelFirstDropped(t, |a|);
    assert t[..|a|] == a;
    assert t[|a| + |b|..] == c;
  }

  /** The only chart label of `SplicedTitle` is `CHART DATA:` at index 3. */
  lemma SplicedTitleLabel()
    ensures ChartLabelEnd(SplicedTitle, 3).Some? && ChartLabelEnd(SplicedTitle, 3).value == 14
  {
    var t := SplicedTitle;
    assert StartsWithAtCI(t, 3, "CHART") by { assert t[3..8] == "CHART"; }
    assert SkipWhile(t, 8, Space) == 9 by { assert t[8] == ' ' && t[9] == 'D'; }
    assert StartsWithAtCI(t, 9, "DATA") by { assert t[9..13] == "DATA"; }
    assert PhraseAt(t, 3, ["CHART", "DATA"]) == Some(13);
    assert SkipWhile(t, 13, NotColon) == 13 by { assert t[13] == ':'; }
    assert SkipWhile(t, 14, Space) == 14 by { assert t[14] == 'R'; }
  }

  lemma SplicedTitleNoOtherLabel()
    ensures forall i :: 0 <= i < |SplicedTitle| && i != 3 ==> ChartLabelEnd(SplicedTitle, i).None?
  {
    var t := SplicedTitle;
    forall i | 0 <= i < |t| && i != 3 ensures ChartLabelEnd(t, i).None? {
      if i == 0 {
        MismatchCI(t, 0, "CHART", 3);
      } else if i < 3 {
        MismatchCI(t, i, "CHART", 0);
      } else if i + 5 <= |t| {
        MismatchCI(t, i, "CHART", 0);
      }
    }
  }

  /** `CHART DATA` is itself a chart label. */
  lemma BareLabel()
    ensures ChartLabelEnd("CHART DATA", 0).Some?
  {
    var u := "CHART DATA";
    assert StartsWithAtCI(u, 0, "CHART") by { assert u[0..5] == "CHART"; }
    assert SkipWhile(u, 5, Space) == 6 by { assert u[5] == ' ' && u[6] == 'D'; }
    assert StartsWithAtCI(u, 6, "DATA") by { assert u[6..10] == "DATA"; }
  }

  /** The chart pass cuts `CHART DATA:` out of `SplicedTitle`, leaving `CHART DATA`. */
  lemma SplicedTitleStripped()
    ensures StripChartLabels(SplicedTitle) == "CHART DATA"
  {
    SplicedTitleLabel();
    SplicedTitleNoOtherLabel();
    CutOnlyLabel("CHA", "CHART DATA:", "RT DATA");
    assert "CHA" + "RT DATA" == "CHART DATA";
  }

  /** One pass can splice a new label together: cutting the label out of
      `CHACHART DATA:RT DATA` leaves `CHART DATA`, which the pass does not revisit. */
  lemma ChartLabelSplice()
    ensures StripChartLabels(SplicedTitle) == "CHART DATA"
    ensures ChartLabelEnd(StripChartLabels(SplicedTitle), 0).Some?
  {
    SplicedTitleStripped();
    BareLabel();
  }

  /** No `{` is followed, anywhere later, by a `}`. */
  predicate NoBraceGroup(t: string) {
    forall a, b :: 0 <= a < b < |t| ==> !(t[a] == '{' && t[b] == '}')
  }

  /** After the brace pass no `{ ... }` group is left: a `{` is only kept when
      no `}` follows it, and deleting text adds no `}`. */
  lemma {:induction false} BraceGroupsGoneFrom(s: string, k: nat)
    requires k <= |s|
    ensures NoBraceGroup(ReplaceFrom(s, BraceHits(s), k))
    decreases |s| - k
  {
    var hits := BraceHits(s);
    if k < |s| {
      match hits[k]
      case Some(h) =>
        BraceGroupsGoneFrom(s, h.end);
      case None =>
        BraceGroupsGoneFrom(s, k + 1);
        var rest := ReplaceFrom(s, hits, k + 1);
        ReplaceAtCopy(s, hits, k);
        if s[k] == '{' {
          DeleteKeepsAbsent(s, hits, k + 1, '}');
        }
        var t := [s[k]] + rest;
        forall a, b | 0 <= a < b < |t|
          ensures !(t[a] == '{' && t[b] == '}')
        {
          assert t[b] == rest[b - 1];
          if a > 0 {
            assert t[a] == rest[a - 1];
          }
        }
    } else {
      assert ReplaceFrom(s, hits, k) == [];
    }
  }

  /** The cleaned title holds no `{ ... }` group. */
  lemma CleanTitleNoBraceGroup(title: string)
    ensures NoBraceGroup(CleanTitle(title))
  {
    BraceGroupsGoneFrom(StripChartLabels(title), 0);
  }

  /** Cleaning never lengthens a title and leaves alone one in which neither
      pattern matches. */
  lemma CleanTitleShrinks(title: string)
    ensures |CleanTitle(title)| <= |title|
    ensures (forall i :: 0 <= i < |title| ==> ChartLabelEnd(title, i).None? && title[i] != '{') ==> CleanTitle(title) == title
  {
    var t1 := StripChartLabels(title);
    DeleteShrinks(title, ChartLabelHits(title), 0);
    DeleteShrinks(t1, BraceHits(t1), 0);
    if forall i :: 0 <= i < |title| ==> ChartLabelEnd(title, i).None? && title[i] != '{' {
      ReplaceNoHits(title, ChartLabelHits(title), 0);
      ReplaceNoHits(title, BraceHits(title), 0);
    }
  }

  // ---------------------------------------------------------------------------
  // The sections of the document

  /** The bold title line of the forecast block, with its unit. */
  function TitleLine(f: Forecast): string {
    "**" + CleanTitle(f.title) + "** (" + f.unit + ")\n\n"
  }

  /** The forecast block: present exactly when the series has a point. */
  function ForecastSection(f: Forecast): (r: string)
    ensures r != [] <==> |f.series| > 0
  {
    if |f.series| > 0 then ForecastHeading + TitleLine(f) + ChartNote else []
  }

  /** The source block: the heading, the numbered unique sources, a blank line. */
  function SourcesSection(sources: seq<string>): string {
    if |sources| > 0 then
      var unique := Dedup.DedupBy(sources, Sources.SourceKey);
      if |unique| > 0 then SourcesTitle + Sources.SourceList(unique) + "\n" else []
    else []
  }

  /** The source block appears exactly when the payload has a source; the
      second emptiness test never fails once the first has passed. */
  lemma SourcesSectionIff(sources: seq<string>)
    ensures SourcesSection(sources) != [] <==> sources != []
    ensures sources != [] ==>
              SourcesSection(sources) == SourcesTitle + Sources.SourceList(Dedup.DedupBy(sources, Sources.SourceKey)) + "\n"
  {
    Dedup.DedupLength(sources, Sources.SourceKey);
  }

  /** A validated payload always gets a forecast block. */
  lemma ValidResponseHasForecast(data: ResearchResponse)
    requires ValidResponse(data)
    ensures ForecastSection(data.forecast) != []
  {
  }

  /** The clean-up stages, the three groups one after the other. */
  function Cleaned(s: string): string {
    Artifacts.StripAll(Artifacts.CitationStages,
      Artifacts.StripAll(Artifacts.SourceStages, Artifacts.StripAll(Artifacts.ArtifactStages, s)))
  }

  /** The rewriting passes that follow the extraction. */
  function Rewritten(s: string): string {
    Rewrite.SubheadingsPlain();
    Links.Linkify(Rewrite.Bulletize(
      Rewrite.PromoteSubheading(Rewrite.CompetitiveAdvantages, Rewrite.PromoteSubheading(Rewrite.MarketGaps, s))))
  }

  /** `summary` and `forecastSummary` are what the extraction makes of `s`. */
  predicate ExtractedFrom(s: string, summary: string, forecastSummary: string) {
    && (ForecastSummary.FirstPatternMatch(ForecastSummary.SummaryPatterns, s).None? ==> summary == s && forecastSummary == "")
    && (ForecastSummary.FirstPatternMatch(ForecastSummary.SummaryPatterns, s).Some? ==>
          var sp := ForecastSummary.FirstPatternMatch(ForecastSummary.SummaryPatterns, s).value.1;
          var fs1 := JsTrim(s[sp.start..sp.end]);
          fs1 != [] && ForecastSummary.DetailedPassed(ForecastSummary.Cut(s, sp), fs1, summary, forecastSummary))
  }

  /** Appends the forecast block (lines 143-151). */
  method AppendForecast(formatted0: string, forecast: Forecast) returns (formatted: string)
    ensures formatted == formatted0 + ForecastSection(forecast)
  {
    formatted := formatted0;
    if |forecast.series| > 0 {
      formatted := formatted + ForecastHeading;
      var forecastTitle := forecast.title;
      forecastTitle := StripChartLabels(forecastTitle);
      forecastTitle := StripBraceGroups(forecastTitle);
      var line := "**" + forecastTitle + "** (" + forecast.unit + ")\n\n";
      formatted := formatted + line;
      formatted := formatted + ChartNote;
      assert line == TitleLine(forecast);
      ConcatAssoc(formatted0, ForecastHeading, line);
      ConcatAssoc(formatted0, ForecastHeading + line, ChartNote);
    } else {
      assert formatted0 + ForecastSection(forecast) == formatted0 + [];
    }
  }

  /** Appends the de-duplicated, numbered source list (lines 154-207). */
  method AppendSources(formatted0: string, sources: seq<string>) returns (formatted: string)
    ensures formatted == formatted0 + SourcesSection(sources)
  {
    formatted := formatted0;
    if |sources| > 0 {
      var unique := Sources.DedupeSources(sources);
      if |unique| > 0 {
        ghost var list := Sources.SourceList(unique);
        formatted := formatted + SourcesTitle;
        formatted := Sources.AppendSourceItems(formatted, unique);
        formatted := formatted + "\n";
        ConcatAssoc(formatted0, SourcesTitle, list);
        ConcatAssoc(formatted0, SourcesTitle + list, "\n");
      } else {
        // the inner emptiness test cannot fail: a non-empty list keeps its first entry
        assert false;
      }
    } else {
      assert formatted0 + SourcesSection(sources) == formatted0 + [];
    }
  }

  /** The document built from a rewritten summary and the payload's forecast and sources. */
  function Document(summary: string, f: Forecast, sources: seq<string>): string {
    Banner + SummaryHeading + Rewritten(summary) + "\n\n" + ForecastSection(f) + SourcesSection(sources)
  }

  /** The whole formatter. The document is the banner, the summary after all
      its passes and a blank line, the forecast block and the source block;
      the forecast summary is what the extraction took out, whatever the
      forecast series holds. */
  method FormatResearchResponse(data: ResearchResponse) returns (formatted: string, forecastSummary: string)
    ensures exists summary :: ExtractedFrom(Cleaned(data.summary), summary, forecastSummary) &&
              formatted == Document(summary, data.forecast, data.sources)
    ensures forecastSummary == "" <==>
              ForecastSummary.FirstPatternMatch(ForecastSummary.SummaryPatterns, Cleaned(data.summary)).None?
  {
    formatted := Banner;
    formatted := formatted + SummaryHeading;
    var summary := data.summary;
    summary := Artifacts.StripAll(Artifacts.ArtifactStages, summary);   // lines 42-52
    summary := Artifacts.StripAll(Artifacts.SourceStages, summary);     // lines 56-60
    summary := Artifacts.StripAll(Artifacts.CitationStages, summary);   // lines 65-68
    ghost var cleaned := summary;
    summary, forecastSummary := ForecastSummary.ExtractForecastSummary(summary);
    ghost var extracted := summary;
    summary := Rewrite.PromoteSubheadings(summary);
    summary := Rewrite.Bulletize(summary);
    summary := Links.Linkify(summary);
    formatted := formatted + summary + "\n\n";
    formatted := AppendForecast(formatted, data.forecast);
    formatted := AppendSources(formatted, data.sources);
    assert cleaned == Cleaned(data.summary);
    assert summary == Rewritten(extracted);
    assert ExtractedFrom(cleaned, extracted, forecastSummary);
    assert formatted == Document(extracted, data.forecast, data.sources);
  }

  /** The document always opens with the banner and the summary heading. */
  lemma DocumentOpening(summary: string, f: Forecast, sources: seq<string>)
    ensures StartsWith(Document(summary, f, sources), Banner + SummaryHeading)
  {
    var h := Banner + SummaryHeading;
    var x := Rewritten(summary);
    var fs := ForecastSection(f);
    var ss := SourcesSection(sources);
    ConcatAssoc(h, x, "\n\n");
    ConcatAssoc(h, x + "\n\n", fs);
    ConcatAssoc(h, x + "\n\n" + fs, ss);
    PrefixOfConcat(h, x + "\n\n" + fs + ss);
  }
}
