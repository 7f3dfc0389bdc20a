/**
 * The backend's text extractors: the forecast JSON object inside the model's
 * answer, the competitor names of a competitive analysis, and the source list
 * of a research answer. JSON decoding itself is a parameter.
 */
module Extractors {
  import opened Wrappers
  import opened Text
  import opened Scan
  import opened Urls
  import Dedup

  /** Python's `xs[:n]`. */
  function Take<T>(xs: seq<T>, n: nat): (r: seq<T>)
    ensures |r| == if |xs| <= n then |xs| else n
    ensures r <= xs
  {
    if |xs| <= n then xs else xs[..n]
  }

  /** No character of `s` is `c`. */
  predicate Free(s: string, c: char) {
    forall j :: 0 <= j < |s| ==> s[j] != c
  }

  /** Stripping only removes characters. */
  lemma StripKeepsFree(s: string, c: char)
    requires Free(s, c)
    ensures Free(PyStrip(s), c)
  {
    var t := TrimStartBy(s, PyBlank);
    var u := TrimEndBy(t, PyBlank);
    forall j | 0 <= j < |u| ensures u[j] != c {
      assert u[j] == t[j] == s[|s| - |t| + j];
    }
  }

  // ---------------------------------------------------------------------------
  // Sources (lines 109-125)

  const MaxSources: nat := 10
  const FallbackSource: string := "Various market research sources"

  /** A line the citation fallback keeps: it mentions a source or a citation
      (the ASCII letters compared in lower case), or it opens with `[` once stripped. */
  predicate CitationLike(line: string) {
    Contains(Lower(line), "source") || Contains(Lower(line), "citation") || StartsWith(PyStrip(line), "[")
  }

  /** The stripped citation-like lines, in order. */
  function CitationLines(lines: seq<string>): (r: seq<string>)
    ensures |r| <= |lines|
    ensures r == [] <==> forall j :: 0 <= j < |lines| ==> !CitationLike(lines[j])
  {
    if lines == [] then []
    else
      var init := lines[..|lines| - 1];
      var last := lines[|lines| - 1];
      assert forall j :: 0 <= j < |init| ==> init[j] == lines[j];
      if CitationLike(last) then CitationLines(init) + [PyStrip(last)] else CitationLines(init)
  }

  /** The fallback list of a single line: its stripped form exactly when it is citation-like. */
  lemma CitationLinesOne(line: string)
    ensures CitationLines([line]) == if CitationLike(line) then [PyStrip(line)] else []
  {
    assert [line][..0] == [];
  }

  lemma CitationLinesSnoc(lines: seq<string>, line: string)
    ensures CitationLines(lines + [line]) == CitationLines(lines) + if CitationLike(line) then [PyStrip(line)] else []
  {
    assert (lines + [line])[..|lines|] == lines;
  }

  /** Filtering distributes over concatenation: every citation-like line is
      kept, in line order, once per occurrence. */
  lemma {:induction false} CitationLinesConcat(a: seq<string>, b: seq<string>)
    ensures CitationLines(a + b) == CitationLines(a) + CitationLines(b)
    decreases |b|
  {
    if b == [] {
      assert a + b == a;
    } else {
      var b', last := b[..|b| - 1], b[|b| - 1];
      assert b == b' + [last];
      assert a + b == (a + b') + [last];
      CitationLinesSnoc(a + b', last);
      CitationLinesSnoc(b', last);
      CitationLinesConcat(a, b');
      ConcatAssoc(CitationLines(a), CitationLines(b'), if CitationLike(last) then [PyStrip(last)] else []);
    }
  }

  /** `x` is a stripped citation-like line of `lines`. */
  predicate CitedLine(x: string, lines: seq<string>) {
    exists j :: 0 <= j < |lines| && CitationLike(lines[j]) && x == PyStrip(lines[j])
  }

  /** Every entry of `xs` is a stripped citation-like line of `lines`. */
  predicate CitedFrom(xs: seq<string>, lines: seq<string>) {
    forall k :: 0 <= k < |xs| ==> CitedLine(xs[k], lines)
  }

  /** Every entry of the fallback list is a stripped citation-like line. */
  lemma {:induction false} CitationLinesFrom(lines: seq<string>)
    ensures CitedFrom(CitationLines(lines), lines)
  {
    if lines != [] {
      var init := lines[..|lines| - 1];
      var last := |lines| - 1;
      CitationLinesFrom(init);
      var r := CitationLines(lines);
      var p := CitationLines(init);
      if CitationLike(lines[last]) {
        assert r == p + [PyStrip(lines[last])];
      } else {
        assert r == p;
      }
      forall k | 0 <= k < |r|
        ensures CitedLine(r[k], lines)
      {
        if k < |p| {
          assert CitedLine(p[k], init);
          var j :| 0 <= j < |init| && CitationLike(init[j]) && p[k] == PyStrip(init[j]);
          assert lines[j] == init[j];
          assert r[k] == p[k];
          assert CitationLike(lines[j]) && r[k] == PyStrip(lines[j]);
        } else {
          assert CitationLike(lines[last]) && r[k] == PyStrip(lines[last]);
        }
      }
    } else {
      assert CitationLines(lines) == [];
    }
  }

  lemma CitedFromTake(xs: seq<string>, lines: seq<string>, n: nat)
    requires CitedFrom(xs, lines)
    ensures CitedFrom(Take(xs, n), lines)
  {
    var r := Take(xs, n);
    forall k | 0 <= k < |r| ensures CitedLine(r[k], lines) {
      assert r[k] == xs[k];
    }
  }

  /** What the extractor returns: the first ten URLs; without any URL the
      first ten citation-like lines; without those either, one placeholder. */
  function SourcesFrom(text: string): (r: seq<string>)
    ensures 1 <= |r| <= MaxSources
    ensures FindUrls(text, 0, PyUrlChar) == [] && CitationLines(Split(text, '\n')) == [] ==> r == [FallbackSource]
  {
    var urls := FindUrls(text, 0, PyUrlChar);
    if urls != [] then Take(urls, MaxSources)
    else
      var cited := CitationLines(Split(text, '\n'));
      if cited != [] then Take(cited, MaxSources) else [FallbackSource]
  }

  method ExtractSources(text: string) returns (sources: seq<string>)
    ensures sources == SourcesFrom(text)
  {
    var urls := FindUrls(text, 0, PyUrlChar);
    sources := Take(urls, MaxSources);
    if sources == [] {
      var lines := Split(text, '\n');
      for i := 0 to |lines|
        invariant sources == CitationLines(lines[..i])
      {
        assert lines[..i + 1][..i] == lines[..i];
        if CitationLike(lines[i]) {
          sources := sources + [PyStrip(lines[i])];
        }
      }
      assert lines[..|lines|] == lines;
    }
    sources := if sources != [] then Take(sources, MaxSources) else [FallbackSource];
  }

  /** When the text holds a URL the list is made of URLs only, the first of
      them the leftmost match. */
  lemma SourcesUrlsFirst(text: string)
    requires FirstUrl(text, 0, PyUrlChar).Some?
    ensures SourcesFrom(text) == Take(FindUrls(text, 0, PyUrlChar), MaxSources)
    ensures forall k :: 0 <= k < |SourcesFrom(text)| ==> IsUrl(SourcesFrom(text)[k], PyUrlChar)
    ensures var j := FirstUrl(text, 0, PyUrlChar).value;
            SourcesFrom(text)[0] == text[j..UrlAt(text, j, PyUrlChar).value]
  {
    FindUrlsFirst(text, 0, PyUrlChar);
    var urls := FindUrls(text, 0, PyUrlChar);
    var r := SourcesFrom(text);
    forall k | 0 <= k < |r| ensures IsUrl(r[k], PyUrlChar) {
      assert r[k] == urls[k];
    }
  }

  /** Without a URL the list is the citation-like lines, or the placeholder
      alone when there is none. */
  lemma SourcesWithoutUrls(text: string)
    requires FirstUrl(text, 0, PyUrlChar).None?
    ensures var cited := CitationLines(Split(text, '\n'));
            SourcesFrom(text) == if cited != [] then Take(cited, MaxSources) else [FallbackSource]
  {
    FindUrlsFirst(text, 0, PyUrlChar);
  }

  /** Without a URL every entry is a stripped citation-like line of the text,
      unless there is none; the placeholder is then the only entry. */
  lemma SourcesCiteLines(text: string)
    requires FirstUrl(text, 0, PyUrlChar).None?
    ensures var lines := Split(text, '\n');
            (forall j :: 0 <= j < |lines| ==> !CitationLike(lines[j])) ==> SourcesFrom(text) == [FallbackSource]
    ensures var lines := Split(text, '\n');
            (exists j :: 0 <= j < |lines| && CitationLike(lines[j])) ==> CitedFrom(SourcesFrom(text), lines)
  {
    SourcesWithoutUrls(text);
    var lines := Split(text, '\n');
    CitationLinesFrom(lines);
    CitedFromTake(CitationLines(lines), lines, MaxSources);
  }

  // ---------------------------------------------------------------------------
  // Competitors (lines 84-106)

  const MaxCompetitors: nat := 10

  /** A table row the extractor reads: it has a `|` and is neither the header
      row (mentioning `Name`) nor the rule row (with `---`). */
  predicate TableRow(line: string) {
    Contains(line, "|") && !Contains(line, "Name") && !Contains(line, "---")
  }

  /** A bullet line: once stripped it opens with `-` or `*`. */
  predicate BulletLine(line: string) {
    StartsWith(PyStrip(line), "-") || StartsWith(PyStrip(line), "*")
  }

  /** The stripped pieces, with the empty ones left out. */
  function NonEmptyStripped(parts: seq<string>): (r: seq<string>)
    ensures |r| <= |parts|
    ensures forall k :: 0 <= k < |r| ==> r[k] != []
  {
    if parts == [] then []
    else
      var init := NonEmptyStripped(parts[..|parts| - 1]);
      var last := PyStrip(parts[|parts| - 1]);
      if last != [] then init + [last] else init
  }

  /** The cells of a single piece: its stripped form unless that is empty. */
  lemma NonEmptyStrippedOne(part: string)
    ensures NonEmptyStripped([part]) == if PyStrip(part) != [] then [PyStrip(part)] else []
  {
    assert [part][..0] == [];
  }

  /** The cell a single piece gives: its stripped form unless that is empty. */
  function CellOf(part: string): seq<string> {
    if PyStrip(part) != [] then [PyStrip(part)] else []
  }

  lemma NonEmptyStrippedSnoc(parts: seq<string>, part: string)
    ensures NonEmptyStripped(parts + [part]) == NonEmptyStripped(parts) + CellOf(part)
  {
    assert (parts + [part])[..|parts|] == parts;
  }

  /** The cells are the non-empty stripped pieces, in order: taking cells
      distributes over concatenation. */
  lemma {:induction false} NonEmptyStrippedConcat(a: seq<string>, b: seq<string>)
    ensures NonEmptyStripped(a + b) == NonEmptyStripped(a) + NonEmptyStripped(b)
    decreases |b|
  {
    if b == [] {
      assert a + b == a;
    } else {
      var b', last := b[..|b| - 1], b[|b| - 1];
      assert b == b' + [last];
      assert a + b == (a + b') + [last];
      NonEmptyStrippedSnoc(a + b', last);
      NonEmptyStrippedSnoc(b', last);
      NonEmptyStrippedConcat(a, b');
      ConcatAssoc(NonEmptyStripped(a), NonEmptyStripped(b'), CellOf(last));
    }
  }

  /** A character no piece holds is in no stripped piece. */
  lemma {:induction false} NonEmptyStrippedFree(parts: seq<string>, c: char)
    requires forall k :: 0 <= k < |parts| ==> Free(parts[k], c)
    ensures forall k :: 0 <= k < |NonEmptyStripped(parts)| ==> Free(NonEmptyStripped(parts)[k], c)
  {
    if parts != [] {
      NonEmptyStrippedFree(parts[..|parts| - 1], c);
      StripKeepsFree(parts[|parts| - 1], c);
    }
  }

  /** The non-empty cells of a table row. */
  function Cells(line: string): seq<string> {
    NonEmptyStripped(Split(line, '|'))
  }

  /** `lstrip('-*')`: the leading bullet marks removed. */
  function StripMarks(s: string): (r: string)
    ensures |r| <= |s| && r == s[|s| - |r|..]
    ensures r != [] ==> r[0] != '-' && r[0] != '*'
    ensures forall k :: 0 <= k < |s| - |r| ==> s[k] == '-' || s[k] == '*'
  {
    if s != [] && (s[0] == '-' || s[0] == '*') then StripMarks(s[1..]) else s
  }

  /** The name of a bullet line: the stripped text after the marks, up to the first `:`. */
  function BulletName(line: string): string {
    PyStrip(Split(PyStrip(StripMarks(PyStrip(line))), ':')[0])
  }

  /** The name a single line contributes, if any. A line with `|` that is a
      header or rule row is still tried as a bullet. */
  function CandidateName(line: string): Option<string> {
    if TableRow(line) then
      var parts := Cells(line);
      if |parts| > 0 && |parts[0]| > 2 then Some(parts[0]) else None
    else if BulletLine(line) then
      var name := BulletName(line);
      if 2 < |name| < 50 then Some(name) else None
    else None
  }

  /** Every name is longer than two characters; a table name holds no `|`,
      and a bullet name is shorter than fifty characters and holds no `:`. */
  lemma CandidateShape(line: string)
    requires CandidateName(line).Some?
    ensures |CandidateName(line).value| > 2
    ensures TableRow(line) ==> Free(CandidateName(line).value, '|')
    ensures !TableRow(line) ==> BulletLine(line) && |CandidateName(line).value| < 50 && Free(CandidateName(line).value, ':')
  {
    if TableRow(line) {
      var parts := Split(line, '|');
      forall k | 0 <= k < |parts| ensures Free(parts[k], '|') {
      }
      NonEmptyStrippedFree(parts, '|');
    } else {
      var u := PyStrip(StripMarks(PyStrip(line)));
      StripKeepsFree(Split(u, ':')[0], ':');
    }
  }

  /** The names of the lines, in order. */
  function Candidates(lines: seq<string>): (r: seq<string>)
    ensures |r| <= |lines|
  {
    if lines == [] then []
    else
      var init := Candidates(lines[..|lines| - 1]);
      match CandidateName(lines[|lines| - 1])
      case Some(name) => init + [name]
      case None => init
  }

  /** The candidates of a single line: its name, if it has one. */
  lemma CandidatesOne(line: string)
    ensures Candidates([line]) == NameOf(line)
  {
    assert [line][..0] == [];
  }

  /** The names a single line contributes: none or one. */
  function NameOf(line: string): seq<string> {
    match CandidateName(line) case Some(name) => [name] case None => []
  }

  lemma CandidatesSnoc(lines: seq<string>, line: string)
    ensures Candidates(lines + [line]) == Candidates(lines) + NameOf(line)
  {
    assert (lines + [line])[..|lines|] == lines;
  }

  /** Collecting names distributes over concatenation: every line's name is
      kept, in line order, once per line. */
  lemma {:induction false} CandidatesConcat(a: seq<string>, b: seq<string>)
    ensures Candidates(a + b) == Candidates(a) + Candidates(b)
    decreases |b|
  {
    if b == [] {
      assert a + b == a;
    } else {
      var b', last := b[..|b| - 1], b[|b| - 1];
      assert b == b' + [last];
      assert a + b == (a + b') + [last];
      CandidatesSnoc(a + b', last);
      CandidatesSnoc(b', last);
      CandidatesConcat(a, b');
      ConcatAssoc(Candidates(a), Candidates(b'), NameOf(last));
    }
  }

  /** `x` is the name one of `lines` contributes. */
  predicate NamedLine(x: string, lines: seq<string>) {
    exists j :: 0 <= j < |lines| && CandidateName(lines[j]).Some? && CandidateName(lines[j]).value == x
  }

  /** Every entry of `xs` is the name one of `lines` contributes. */
  predicate NamedIn(xs: seq<string>, lines: seq<string>) {
    forall k :: 0 <= k < |xs| ==> NamedLine(xs[k], lines)
  }

  /** Every candidate is the name of one of the lines. */
  lemma {:induction false} CandidatesFrom(lines: seq<string>)
    ensures NamedIn(Candidates(lines), lines)
  {
    if lines != [] {
      var init := lines[..|lines| - 1];
      var last := |lines| - 1;
      CandidatesFrom(init);
      var r := Candidates(lines);
      var p := Candidates(init);
      assert r == (if CandidateName(lines[last]).Some? then p + [CandidateName(lines[last]).value] else p);
      forall k | 0 <= k < |r|
        ensures NamedLine(r[k], lines)
      {
        if k < |p| {
          assert NamedLine(p[k], init);
          var j :| 0 <= j < |init| && CandidateName(init[j]).Some? && CandidateName(init[j]).value == p[k];
          assert lines[j] == init[j];
          assert r[k] == p[k];
          assert CandidateName(lines[j]).Some? && CandidateName(lines[j]).value == r[k];
        } else {
          assert CandidateName(lines[last]).Some? && CandidateName(lines[last]).value == r[k];
        }
      }
    } else {
      assert Candidates(lines) == [];
    }
  }

  lemma NamedInSubset(xs: seq<string>, ys: seq<string>, lines: seq<string>)
    requires NamedIn(ys, lines)
    requires forall k :: 0 <= k < |xs| ==> xs[k] in ys
    ensures NamedIn(xs, lines)
  {
    forall k | 0 <= k < |xs| ensures NamedLine(xs[k], lines) {
      var m :| 0 <= m < |ys| && ys[m] == xs[k];
      assert NamedLine(ys[m], lines);
    }
  }

  /** A name some line contributes is longer than two characters. */
  lemma NamedInLong(xs: seq<string>, lines: seq<string>)
    requires NamedIn(xs, lines)
    ensures forall k :: 0 <= k < |xs| ==> |xs[k]| > 2
  {
    forall k | 0 <= k < |xs| ensures |xs[k]| > 2 {
      assert NamedLine(xs[k], lines);
      var j :| 0 <= j < |lines| && CandidateName(lines[j]).Some? && CandidateName(lines[j]).value == xs[k];
      CandidateShape(lines[j]);
    }
  }

  /** The key of `dict.fromkeys`: the name itself. It is a named function so
      that the de-duplication lemmas, which are stated for any key, can be
      applied to it and their conclusions read back (`Itself(d[i])`). */
  function Itself(s: string): string {
    s
  }

  /** What the extractor returns: the distinct names in order of first
      appearance, at most ten of them. */
  function CompetitorsFrom(text: string): (r: seq<string>)
    ensures |r| <= MaxCompetitors
  {
    Take(Dedup.DedupBy(Candidates(Split(text, '\n')), Itself), MaxCompetitors)
  }

  method ExtractCompetitors(text: string) returns (competitors: seq<string>)
    ensures competitors == CompetitorsFrom(text)
  {
    var found: seq<string> := [];
    var lines := Split(text, '\n');
    for i := 0 to |lines|
      invariant found == Candidates(lines[..i])
    {
      assert lines[..i + 1][..i] == lines[..i];
      var line := lines[i];
      match CandidateName(line)
      case Some(name) =>
        found := found + [name];
      case None =>
    }
    assert lines[..|lines|] == lines;
    competitors := Take(Dedup.DedupBy(found, Itself), MaxCompetitors);
  }

  /** No name is reported twice. */
  lemma CompetitorsDistinct(text: string)
    ensures forall i, j :: 0 <= i < j < |CompetitorsFrom(text)| ==> CompetitorsFrom(text)[i] != CompetitorsFrom(text)[j]
  {
    var cands := Candidates(Split(text, '\n'));
    var d := Dedup.DedupBy(cands, Itself);
    var r := CompetitorsFrom(text);
    assert r == Take(d, MaxCompetitors);
    Dedup.DedupDistinctKeys(cands, Itself);
    forall i, j | 0 <= i < j < |r| ensures r[i] != r[j] {
      assert r[i] == d[i] && r[j] == d[j];
      assert Itself(d[i]) != Itself(d[j]);
    }
  }

  /** De-duplication keeps only elements of its input. */
  lemma DedupFromInput(xs: seq<string>)
    ensures forall k :: 0 <= k < |Dedup.DedupBy(xs, Itself)| ==> Dedup.DedupBy(xs, Itself)[k] in xs
  {
    var d := Dedup.DedupBy(xs, Itself);
    Dedup.DedupKeepsEveryKey(xs, Itself);
    forall k | 0 <= k < |d| ensures d[k] in xs {
      assert Itself(d[k]) in Dedup.KeySet(d, Itself);
      var m :| 0 <= m < |xs| && Itself(xs[m]) == Itself(d[k]);
    }
  }

  /** Each reported name is the name of a line of the text, longer than two characters. */
  lemma CompetitorsFromLines(text: string)
    ensures NamedIn(CompetitorsFrom(text), Split(text, '\n'))
    ensures forall k :: 0 <= k < |CompetitorsFrom(text)| ==> |CompetitorsFrom(text)[k]| > 2
  {
    var lines := Split(text, '\n');
    var cands := Candidates(lines);
    var d := Dedup.DedupBy(cands, Itself);
    var r := CompetitorsFrom(text);
    CandidatesFrom(lines);
    DedupFromInput(cands);
    NamedInSubset(d, cands, lines);
    assert r == Take(d, MaxCompetitors);
    forall k | 0 <= k < |r| ensures r[k] in d {
      assert r[k] == d[k];
    }
    NamedInSubset(r, d, lines);
    NamedInLong(r, lines);
  }

  /** The names come in the order of their first appearance among the
      candidates, each taken where its name first occurs. */
  lemma CompetitorsInOrder(text: string)
    ensures exists idx :: Dedup.FirstOccurrenceEmbedding(CompetitorsFrom(text), Candidates(Split(text, '\n')), Itself, idx)
  {
    var cands := Candidates(Split(text, '\n'));
    var d := Dedup.DedupBy(cands, Itself);
    var r := CompetitorsFrom(text);
    assert r == Take(d, MaxCompetitors);
    Dedup.DedupFirstOccurrences(cands, Itself);
    var idx :| Dedup.FirstOccurrenceEmbedding(d, cands, Itself, idx);
    var idx' := idx[..|r|];
    forall j | 0 <= j < |idx'| ensures idx'[j] < |cands| && cands[idx'[j]] == r[j] {
      assert r[j] == d[j];
    }
    assert Dedup.FirstOccurrenceEmbedding(r, cands, Itself, idx');
  }

  /** With at most ten distinct candidate names none is lost: every name found is reported. */
  lemma CompetitorsComplete(text: string)
    requires |Dedup.DedupBy(Candidates(Split(text, '\n')), Itself)| <= MaxCompetitors
    ensures forall k :: 0 <= k < |Candidates(Split(text, '\n'))| ==> Candidates(Split(text, '\n'))[k] in CompetitorsFrom(text)
  {
    var cands := Candidates(Split(text, '\n'));
    var d := Dedup.DedupBy(cands, Itself);
    Dedup.DedupLength(cands, Itself);
    Dedup.DedupKeepsEveryKey(cands, Itself);
    forall k | 0 <= k < |cands| ensures cands[k] in CompetitorsFrom(text) {
      assert Itself(cands[k]) in Dedup.KeySet(cands, Itself);
      var m :| 0 <= m < |d| && Itself(d[m]) == Itself(cands[k]);
      assert CompetitorsFrom(text)[m] == d[m];
    }
  }

  // ---------------------------------------------------------------------------
  // Forecast JSON (lines 53-81)

  datatype Json =
    | JNull
    | JBool(b: bool)
    | JNumber(n: real)
    | JString(str: string)
    | JArray(items: seq<Json>)
    | JObject(members: seq<(string, Json)>)

  /** The structure returned when no candidate decodes. */
  const DefaultForecast: Json := JObject([
    ("title", JString("Market Forecast")),
    ("unit", JString("USD")),
    ("series", JArray([])),
    ("scenarios", JArray([]))])

  /** A candidate object: the text from `start` up to `end`. */
  datatype Group = Group(start: nat, end: nat)

  /** ```` ```(?:json)?\s* ```` followed by `{` at `i`: the index of the `{`.
      The `\s*` is followed by `{` and the optional `json` by `\s*` then `{`,
      so the greedy choices are the only ones that can succeed. */
  function FenceOpen(s: string, i: nat): (r: Option<nat>)
    ensures r.Some? ==> StartsWithAt(s, i, "```") && i + 3 <= r.value < |s| && s[r.value] == '{'
  {
    if !StartsWithAt(s, i, "```") then None
    else
      var p := if StartsWithAt(s, i + 3, "json") then i + 7 else i + 3;
      var b := SkipWhile(s, p, PySpace);
      if b < |s| && s[b] == '{' then Some(b) else None
  }

  /** A `}` at `e` followed by `\s*` and a closing fence. */
  predicate FenceCloseAt(s: string, e: nat) {
    e < |s| && s[e] == '}' && StartsWithAt(s, SkipWhile(s, e + 1, PySpace), "```")
  }

  /** The lazy `[\s\S]*?\}`: the first `}` at or after `k` that a closing fence follows. */
  function FenceClose(s: string, k: nat): (r: Option<nat>)
    ensures r.Some? ==> k <= r.value && FenceCloseAt(s, r.value)
    ensures r.Some? ==> forall e :: k <= e < r.value ==> !FenceCloseAt(s, e)
    ensures r.None? ==> forall e :: k <= e ==> !FenceCloseAt(s, e)
    decreases |s| - k
  {
    if k >= |s| then None
    else if FenceCloseAt(s, k) then Some(k)
    else FenceClose(s, k + 1)
  }

  /** The captured object of a fenced match starting at `i`. */
  function FencedAt(s: string, i: nat): (r: Option<Group>)
    ensures r.Some? ==> r.value.start < r.value.end <= |s| && s[r.value.start] == '{' && s[r.value.end - 1] == '}'
  {
    match FenceOpen(s, i)
    case None => None
    case Some(b) =>
      match FenceClose(s, b + 1)
      case None => None
      case Some(e) => Some(Group(b, e + 1))
  }

  /** The first index at or after `from` where `bs` holds. */
  function FirstTrue(bs: seq<bool>, from: nat): (r: Option<nat>)
    ensures r.Some? ==> from <= r.value < |bs| && bs[r.value]
    ensures r.Some? ==> forall i :: from <= i < r.value ==> !bs[i]
    ensures r.None? ==> forall i :: from <= i < |bs| ==> !bs[i]
    decreases |bs| - from
  {
    if from >= |bs| then None
    else if bs[from] then Some(from)
    else FirstTrue(bs, from + 1)
  }

  /** Where a fenced match starts, index by index. */
  function FencedStarts(s: string): (bs: seq<bool>)
    ensures |bs| == |s| && forall i :: 0 <= i < |s| ==> (bs[i] <==> FencedAt(s, i).Some?)
  {
    seq(|s|, i requires 0 <= i < |s| => FencedAt(s, i).Some?)
  }

  /** Where the leftmost fenced match at or after `from` starts (the first of `re.findall`). */
  function FirstFenced(s: string, from: nat): (r: Option<nat>)
    ensures r.Some? ==> from <= r.value < |s| && FencedAt(s, r.value).Some?
    ensures r.Some? ==> forall i :: from <= i < r.value ==> FencedAt(s, i).None?
    ensures r.None? ==> forall i :: from <= i < |s| ==> FencedAt(s, i).None?
  {
    FirstTrue(FencedStarts(s), from)
  }

  /** `\{[\s\S]*?"series"[\s\S]*?\}` at `i`: a `{`, the first `"series"` after
      it and the first `}` after that. */
  function RawAt(s: string, i: nat): (r: Option<Group>)
    ensures r.Some? ==> r.value.start == i && i < r.value.end <= |s| && s[i] == '{' && s[r.value.end - 1] == '}'
  {
    if i >= |s| || s[i] != '{' then None
    else
      match EndAfter(s, "\"series\"", i + 1)
      case None => None
      case Some(k) =>
        match EndAfter(s, "}", k)
        case None => None
        case Some(e) =>
          assert s[e - 1] == s[e - 1..e][0];
          Some(Group(i, e))
  }

  /** Where a raw match starts, index by index. */
  function RawStarts(s: string): (bs: seq<bool>)
    ensures |bs| == |s| && forall i :: 0 <= i < |s| ==> (bs[i] <==> RawAt(s, i).Some?)
  {
    seq(|s|, i requires 0 <= i < |s| => RawAt(s, i).Some?)
  }

  /** Where the leftmost raw match at or after `from` starts. */
  function FirstRaw(s: string, from: nat): (r: Option<nat>)
    ensures r.Some? ==> from <= r.value < |s| && RawAt(s, r.value).Some?
    ensures r.Some? ==> forall i :: from <= i < r.value ==> RawAt(s, i).None?
    ensures r.None? ==> forall i :: from <= i < |s| ==> RawAt(s, i).None?
  {
    FirstTrue(RawStarts(s), from)
  }

  /** The text of the first raw match holds `"series"` after its opening brace. */
  lemma RawHoldsSeries(s: string, i: nat)
    requires RawAt(s, i).Some?
    ensures Contains(s[i + 1..RawAt(s, i).value.end], "\"series\"")
  {
    var lit := "\"series\"";
    var e := RawAt(s, i).value.end;
    var k := EndAfter(s, lit, i + 1).value;
    assert EndAfter(s, "}", k).Some? && EndAfter(s, "}", k).value == e;
    var q := k - |lit|;
    StartsWithAtWindow(s, i + 1, e, q, lit);
    ContainsAt(s[i + 1..e], lit, q - (i + 1));
  }

  /** A braced stretch of `s`: from a `{` up to and including a `}`. */
  predicate Braced(s: string, g: Group) {
    g.start < g.end <= |s| && s[g.start] == '{' && s[g.end - 1] == '}'
  }

  /** A candidate object: the first fenced capture for `fenced`, else the first raw match. */
  function Candidate(s: string, fenced: bool): (r: Option<Group>)
    ensures r.Some? ==> Braced(s, r.value)
  {
    if fenced then
      match FirstFenced(s, 0)
      case None => None
      case Some(i) => FencedAt(s, i)
    else
      match FirstRaw(s, 0)
      case None => None
      case Some(i) => RawAt(s, i)
  }

  /** `loads` read the braced text `s[a..b]` as `v`. */
  predicate DecodedAt(s: string, loads: string -> Option<Json>, a: nat, b: nat, v: Json) {
    a < b <= |s| && s[a] == '{' && s[b - 1] == '}' && loads(s[a..b]).Some? && loads(s[a..b]).value == v
  }

  /** `json.loads` of a candidate, `None` when there is none or it does not decode. */
  function Decoded(s: string, g: Option<Group>, loads: string -> Option<Json>): (r: Option<Json>)
    requires g.Some? ==> Braced(s, g.value)
    ensures r.Some? ==> g.Some? && DecodedAt(s, loads, g.value.start, g.value.end, r.value)
    ensures g.None? ==> r.None?
  {
    match g
    case None => None
    case Some(c) => loads(s[c.start..c.end])
  }

  /** `extract_json_from_text` with `json.loads` as `loads` (`None` when it
      raises): the fenced object if it decodes, else the raw object containing
      `"series"` if that decodes, else the default structure. */
  function ExtractJson(text: string, loads: string -> Option<Json>): (r: Json)
    ensures r == DefaultForecast || exists a, b :: DecodedAt(text, loads, a, b, r)
  {
    var f := Decoded(text, Candidate(text, true), loads);
    if f.Some? then f.value
    else
      var w := Decoded(text, Candidate(text, false), loads);
      if w.Some? then w.value else DefaultForecast
  }

  /** Text without a `{` yields the default structure, whatever the decoder. */
  lemma NoBraceDefault(text: string, loads: string -> Option<Json>)
    requires Free(text, '{')
    ensures ExtractJson(text, loads) == DefaultForecast
  {
  }

  /** A fenced object that decodes wins over any raw object. */
  lemma FencedWins(text: string, loads: string -> Option<Json>, v: Json)
    requires FirstFenced(text, 0).Some?
    requires var g := FencedAt(text, FirstFenced(text, 0).value).value; loads(text[g.start..g.end]) == Some(v)
    ensures ExtractJson(text, loads) == v
  {
  }

  /** When the fenced candidate is missing or does not decode, the first raw
      match is decoded, and it holds `"series"`. */
  lemma RawFallback(text: string, loads: string -> Option<Json>, v: Json)
    requires Decoded(text, Candidate(text, true), loads).None?
    requires FirstRaw(text, 0).Some?
    requires var g := RawAt(text, FirstRaw(text, 0).value).value; loads(text[g.start..g.end]) == Some(v)
    ensures ExtractJson(text, loads) == v
    ensures var i := FirstRaw(text, 0).value; Contains(text[i + 1..RawAt(text, i).value.end], "\"series\"")
  {
    RawHoldsSeries(text, FirstRaw(text, 0).value);
  }

  /** A decoder that rejects everything leaves the default structure. */
  lemma RejectingDecoderDefault(text: string, loads: string -> Option<Json>)
    requires forall t :: loads(t).None?
    ensures ExtractJson(text, loads) == DefaultForecast
  {
  }

  /** When neither the fenced nor the raw candidate decodes, whatever the
      decoder, the default structure is returned. */
  lemma BothRejectedDefault(text: string, loads: string -> Option<Json>)
    requires Decoded(text, Candidate(text, true), loads).None?
    requires Decoded(text, Candidate(text, false), loads).None?
    ensures ExtractJson(text, loads) == DefaultForecast
  {
  }
}
