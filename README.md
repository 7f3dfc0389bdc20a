# Research response formatting and text extraction

This project models the text-processing core of a market-research assistant.
A startup idea goes to a research crew. Its free-text answer is mined on the
server for a forecast JSON object, competitor names and sources. The browser
then turns the research payload into one markdown document.

- **Formatter** (`formatResearchResponse`). The summary passes through these
  stages, in order:
  1. clean-up stages that delete code fences, forecast JSON, chart markers,
     trailing source sections and citation lines;
  2. extraction of the forecast-summary section (to be shown below the chart);
  3. promotion of two plain subheadings to `###` headers;
  4. turning plain lines under a heading into bullets;
  5. turning citation markers `[n]` into links `[[n]](#source-n)`.

  The document is a banner, the summary, an optional forecast block with a
  cleaned title, and an optional numbered source list. The source list is
  de-duplicated by a normalised URL key. The formatter never reads the
  payload's competitor list.
- **Extractors** (`extract_json_from_text`, `extract_competitors_from_text`,
  `extract_sources_from_text`). They take the fenced or raw JSON object, the
  table and bullet names, and the URLs or citation-like lines. `json.loads`
  is a parameter.

How the model is built:

- Every regular expression is written as an explicit scanner: a function that
  says where a match starting at a given index ends.
- A global `replace` is a table of hits over the original text (module
  `Replace`). The scan at a hit emits the replacement and resumes at the
  match's end. Anywhere else it copies one character.
- Lazy runs (`[\s\S]*?X`) stop at the first occurrence. Greedy runs are
  `SkipWhile`. Look-aheads are `NextStop`. Multiline `^`/`$` are
  `AtLineStart`/`AtLineEnd` over the ECMAScript line terminators.
- The `i` flag compares ASCII letters without regard to case.
- JavaScript `\s`/`trim()` and Python `\s`/`strip()` are modelled as two
  different, exactly written character sets.
- Where the source updates variables step by step, the model is a method with
  a loop:
  - the forecast-pattern loop;
  - the seen-set de-duplication;
  - the numbered `forEach`;
  - the two subheading passes;
  - the backend line loops.

  Each such method is proved equal to a specification function. The
  properties are lemmas about that function.

Files, one module each:

- `text.dfy`: `Wrappers` and `Text` (character sets, search, trim, split, numerals).
- `scan.dfy`: `Scan` (regex building blocks).
- `replace.dfy`: `Replace` (global replacement).
- `dedup.dfy`: `Dedup` (first-occurrence de-duplication).
- `artifacts.dfy`: `Artifacts` (clean-up stages).
- `forecast_summary.dfy`: `ForecastSummary`.
- `rewrite.dfy`: `Rewrite` (subheadings and bullets).
- `links.dfy`: `Links` (citation links).
- `urls.dfy`: `Urls`.
- `sources.dfy`: `Sources` (source key, de-duplication and the numbered list).
- `formatter.dfy`: `Formatter` (the payload and the whole formatter).
- `extractors.dfy`: `Extractors` (the three backend functions).

Rows whose member has no `ensures` of its own name the definition that
models the cited lines; the lemmas named in their third column carry its
meaning.

One behaviour of the code is worth knowing when reading the title lemmas.
The title pass of page.tsx:147 makes a single left-to-right scan. Cutting a
label out can join its two neighbours into a new `CHART DATA` phrase, which
the scan does not revisit: `CHACHART DATA:RT DATA` becomes `CHART DATA`
(Formatter.ChartLabelSplice). So the model does not claim that no chart
label survives cleaning.

## Model

| member | source | states |
|---|---|---|
| Replace.ReplaceFrom | frontend/app/research/page.tsx:42-139 | Global `replace` as a scan over a table of hits found in the original text: at a hit its replacement is emitted and the scan resumes at the match's end; elsewhere one character is copied. Meaning given by Replace.ReplaceFirstText and the pass lemmas below |
| Replace.ReplaceFirstText | frontend/app/research/page.tsx:42-139 | When the first hit is at `j`, the result is the text before `j`, that hit's replacement, then the scan resumed at the hit's end |
| Artifacts.MatchEnd | frontend/app/research/page.tsx:42-68 | A match of each clean-up pattern ends strictly after where it starts and within the text (a bound only; each pattern's lazy, greedy and look-ahead choices are in the matcher it dispatches to) |
| Artifacts.HeadingEnd | frontend/app/research/page.tsx:56-60 | A source-section heading (hashes, optional books emoji, `Sources`, optional `& Citation`) ends at least the hashes and `Sources` past its start |
| Artifacts.BlockEnd | frontend/app/research/page.tsx:65 | A run of consecutive `[n] ... http(s)://` lines ends at or after the end of its first line, within the text, and at the end of the text, at a line break or just after one |
| Artifacts.CitationLineEnd | frontend/app/research/page.tsx:68 | A citation line matches exactly at a line start holding `[digits]` and a URL later on that line; the match covers that whole line and its line break if it has one, and no other line break |
| Artifacts.Strip | frontend/app/research/page.tsx:42-68 | One clean-up stage: the pattern's matches deleted by the global scan. Meaning given by Artifacts.StripCutsFirstMatch and Artifacts.StripUnchangedIff |
| Artifacts.StripCutsFirstMatch | frontend/app/research/page.tsx:42-68 | A stage keeps the text before its first match, deletes that match whole and goes on after it; when nothing matches later, the rest is kept verbatim |
| Artifacts.StripAll | frontend/app/research/page.tsx:42-68 | The stages applied one after the other in source order. Meaning given by Artifacts.StripAllShrinks and Artifacts.StripAllUnchanged |
| Artifacts.StripUnchangedIff | frontend/app/research/page.tsx:42-68 | A stage never lengthens the summary, and leaves it unchanged exactly when its pattern matches nowhere |
| Artifacts.StripAllShrinks | frontend/app/research/page.tsx:42-68 | The stages run one after the other never lengthen the summary |
| Artifacts.StripAllUnchanged | frontend/app/research/page.tsx:42-68 | A summary in which no stage matches passes through all stages unchanged |
| ForecastSummary.PhraseSearch | frontend/app/research/page.tsx:75 | The lazy run up to the middle phrase stops at its first occurrence: found there, and nowhere earlier; none means no occurrence at all |
| ForecastSummary.MatchAt | frontend/app/research/page.tsx:75-78 | A forecast-summary pattern tried at `i` ends within the text, never before `i` |
| ForecastSummary.Find | frontend/app/research/page.tsx:82 | `summary.match(pattern)` is the leftmost match: it matches at its start, ends where that match ends, no earlier index matches, and none means no index matches |
| ForecastSummary.FirstPatternMatch | frontend/app/research/page.tsx:81-89 | The loop's winner is the first pattern that matches; every earlier one fails; none means every pattern fails |
| ForecastSummary.NoEarlierCopy | frontend/app/research/page.tsx:82-86 | The matched text does not occur before the leftmost match, because an earlier copy would itself be a match |
| ForecastSummary.RemoveMatch | frontend/app/research/page.tsx:86 | `summary.replace(match[0], '')` removes exactly the matched span, even though it searches for the text |
| ForecastSummary.MatchNotBlank | frontend/app/research/page.tsx:84 | The trimmed match is non-empty, a prefix of the match, and starts with a character that is not white space |
| ForecastSummary.SummaryPass | frontend/app/research/page.tsx:81-89 | After the loop, the forecast summary is the trimmed match of the first matching pattern and the summary has that match cut out; with no match, both are untouched |
| ForecastSummary.DetailedPass | frontend/app/research/page.tsx:92-98 | When the forecast summary lacks "Detailed discussion" and the detailed-discussion pattern matches, its trimmed match is appended after a blank line and cut out; otherwise nothing changes; the summary never grows |
| ForecastSummary.ExtractForecastSummary | frontend/app/research/page.tsx:72-98 | The whole extraction: the outcome of both passes in terms of the first matching pattern; the forecast summary is empty exactly when no pattern matches; the summary never grows |
| ForecastSummary.FirstPatternAt | frontend/app/research/page.tsx:81-89 | When every earlier pattern fails and pattern `i` matches, the loop stops at `i` with its match |
| Rewrite.PromoteSubheading | frontend/app/research/page.tsx:107-114 | One subheading pass: every line-start occurrence of the subheading gets `### ` in front. Meaning given by Rewrite.SubheadingHitsSpec, Rewrite.PromoteFirst and Rewrite.PromoteUnchangedIff |
| Rewrite.PromoteAddsHeader | frontend/app/research/page.tsx:108-113 | For a match of either subheading, the callback's "already a header" test fails, so it returns `### ` followed by the match |
| Rewrite.SubheadingHitsSpec | frontend/app/research/page.tsx:103-108 | A pass has a hit exactly where a line starts with the subheading (ASCII case ignored); the hit spans the subheading and is replaced by `### ` + the matched text |
| Rewrite.PromoteUnchangedIff | frontend/app/research/page.tsx:107-115 | A subheading pass changes the summary exactly when some line starts with the subheading |
| Rewrite.PromoteFirst | frontend/app/research/page.tsx:107-115 | Text before the first line that starts with the subheading is kept; that line gets the header marker; the scan resumes after the match |
| Rewrite.PromoteAllUnchanged | frontend/app/research/page.tsx:102-115 | Passes whose subheadings start no line leave the summary unchanged |
| Rewrite.PromoteSubheadings | frontend/app/research/page.tsx:102-115 | The loop runs the two passes in order, and a summary in which neither subheading starts a line is returned unchanged |
| Rewrite.ContentEnd | frontend/app/research/page.tsx:120 | The greedy repetition of content lines ends within the text, and it is non-empty exactly when the first character may start a content line (not U+000A..U+002A, not `#`) |
| Rewrite.BulletMatchAt | frontend/app/research/page.tsx:120 | A bullet match has a heading ending in a colon, then a newline, then content running to the end of the content lines |
| Rewrite.MarkedMatch | frontend/app/research/page.tsx:120 | The branch with `###\s+`: the colon lies past the marker and its white space, and the match ends with the content lines |
| Rewrite.KeptLines | frontend/app/research/page.tsx:128 | Every kept line passes the filter (non-blank, and not starting with `-` or `*` once trimmed) and comes from the input; every input line that passes is kept |
| Rewrite.KeptLinesConcat | frontend/app/research/page.tsx:128 | The filter distributes over concatenation; with Rewrite.KeptLinesOne this keeps every passing line, in order, once per occurrence |
| Rewrite.BulletText | frontend/app/research/page.tsx:120-134 | The replacement callback. Meaning given by Rewrite.BulletHitText |
| Rewrite.BulletHitText | frontend/app/research/page.tsx:120-134 | For a match, content that starts with `-`, `*` or `#` once trimmed, or that keeps at most one line, is copied as matched; otherwise the heading is followed by one `- ` + trimmed line per kept line, in order, on lines of their own, and a final newline |
| Rewrite.Bulletize | frontend/app/research/page.tsx:120-134 | The bullet pass. Meaning given by Rewrite.BulletizeFirst, Rewrite.BulletHitText and Rewrite.BulletizeNeedsColon |
| Rewrite.BulletizeFirst | frontend/app/research/page.tsx:120-134 | The pass keeps the text before its first match, puts the callback's text for that match in its place, and goes on after the match |
| Rewrite.DashLineDropped | frontend/app/research/page.tsx:120-130 | The pattern admits a content line starting with `-`, and the callback's filter then drops it: a heading over lines `a`, `-b`, `c` becomes the heading with bullets for `a` and `c` only |
| Rewrite.BlankLineTestNeverHolds | frontend/app/research/page.tsx:122-123 | The trimmed content of a match never contains a blank line, so the "multi-paragraph" test never holds |
| Rewrite.BulletizeNeedsColon | frontend/app/research/page.tsx:120 | A summary without a colon at the end of a line is left unchanged by the bullet pass |
| Links.MarkerAt | frontend/app/research/page.tsx:137 | Where `\[(\d+)\]` matches at `i` and where its `]` is. Meaning given by Links.MarkerDigits and Links.LinkHitShape |
| Links.MarkerDigits | frontend/app/research/page.tsx:137 | Everything between the brackets of a match is a digit; without a match at a `[`, every later `]` has a non-digit before it |
| Links.LinkHitAt | frontend/app/research/page.tsx:137-139 | The hit of the citation pass at `i`. Meaning given by Links.LinkHitShape |
| Links.LinkHitShape | frontend/app/research/page.tsx:137-139 | The citation pass has a hit at `i` exactly when `[`, a non-empty digit run and `]` start there; the hit spans that `[n]` and its text is `[` + the matched `[n]` + `](#source-` + the digits + `)` |
| Links.Linkify | frontend/app/research/page.tsx:137-139 | The citation pass. Meaning given by Links.LinkifyRoundTrip and Links.LinkifyUnchangedIff |
| Links.Unlinkify | frontend/app/research/page.tsx:137-139 | The inverse reading: every `[[n]](#source-n)` turned back into `[n]`, left to right |
| Links.AnchorDigits | frontend/app/research/page.tsx:138 | A recognised link starts the text and carries a non-empty run of digits |
| Links.LinkifyRoundTrip | frontend/app/research/page.tsx:137-139 | Reading the links back gives the summary the citation pass started from: the pass changes nothing but the citations |
| Links.LinkifyUnchangedIff | frontend/app/research/page.tsx:137-139 | The citation pass never shortens the summary, and changes it exactly when it holds a citation |
| Urls.SchemeEnd | frontend/app/research/page.tsx:168 | `https?://` matches exactly when `http://` or `https://` starts there; the body begins 7 or 8 characters later |
| Urls.UrlAt | frontend/app/research/page.tsx:168 | A URL match is the scheme plus the longest non-empty run of the body class; the character after it is not in the class |
| Urls.FirstUrl | frontend/app/research/page.tsx:195 | The first URL match: it matches there, nowhere earlier, and none means nowhere |
| Urls.UrlAtIsUrl | backend/api/app/main.py:114-115 | The text of a URL match is itself a URL of the same class |
| Urls.FindUrls | backend/api/app/main.py:114-115 | Every string `re.findall` returns for the URL pattern is a URL; which URLs, in which order, is given by Urls.FindUrlsFirst and Urls.FindUrlsNext |
| Urls.FindUrlsNext | backend/api/app/main.py:114-115 | `findall` reports the leftmost match from where it stands, then resumes at that match's end: every non-overlapping match, in order of appearance |
| Urls.FindUrlsFirst | backend/api/app/main.py:115-119 | `findall` returns nothing exactly when the pattern matches nowhere, and its first result is the leftmost match |
| Sources.LinkTargetAt | frontend/app/research/page.tsx:164 | `\]\(([^\)]+)\)` at `i`: `](`, a non-empty run without `)`, and the closing `)` |
| Sources.FirstLinkTarget | frontend/app/research/page.tsx:164 | The leftmost link-target match, with none earlier |
| Sources.SourceUrl | frontend/app/research/page.tsx:161-170 | The URL of an entry, in all three cases: the first link target when it contains `](`; else the first URL when it contains `http`; else the entry itself (also when the match fails) |
| Sources.StripTrailingPunct | frontend/app/research/page.tsx:173 | The result is a prefix without trailing punctuation, and only punctuation was removed |
| Sources.SourceKey | frontend/app/research/page.tsx:161-173 | The dedup key: the entry's URL, lower-cased, without its trailing punctuation. Meaning given by the four lemmas below |
| Sources.SourceKeyNormalised | frontend/app/research/page.tsx:173 | A dedup key has no upper-case ASCII letter and does not end in punctuation |
| Sources.KeyIgnoresCaseAndPunct | frontend/app/research/page.tsx:168-173 | Two bare URLs that differ in ASCII case and a trailing `.` get the same key |
| Sources.MarkdownLinkSameKey | frontend/app/research/page.tsx:161-173 | A markdown link `[t](u)` and the bare URL `u` get the same key |
| Sources.BareUrlItself | frontend/app/research/page.tsx:166-169 | A bare URL stands for itself |
| Sources.DedupeSources | frontend/app/research/page.tsx:156-179 | The seen-set loop returns the first-occurrence dedup by key: keys pairwise distinct, every input key kept, no longer than the input, and empty exactly when the input is |
| Sources.SourceItem | frontend/app/research/page.tsx:184-204 | An item starts with its number and `. ` and ends with a newline |
| Sources.ItemText | frontend/app/research/page.tsx:187-203 | An entry starting with `http` becomes `[s](s)`; an entry holding `[` and `](` is kept as it is |
| Sources.UrlItemText | frontend/app/research/page.tsx:197-199 | A link to a non-empty URL always has a non-empty label (the exact label is Sources.EmbeddedUrlLabel) |
| Sources.NoEarlierUrlCopy | frontend/app/research/page.tsx:195-198 | The text of the first URL match occurs nowhere before the match, so `replace(url, '')` cuts the match itself |
| Sources.UrlItemLabel | frontend/app/research/page.tsx:198-199 | When the URL first occurs at `j`, the label is the rest of the entry around that occurrence, trimmed, or the URL when the rest trims to nothing |
| Sources.EmbeddedUrlLabel | frontend/app/research/page.tsx:194-199 | Any other entry with a URL `source[j..e]` is rendered as `[rest-or-url](url)`, where `rest` is `source[..j] + source[e..]` trimmed |
| Sources.EmbeddedUrlItem | frontend/app/research/page.tsx:194-199 | Such an entry's link target is its first URL match, which is a URL, and the label is non-empty |
| Sources.PlainItem | frontend/app/research/page.tsx:200-202 | An entry with neither a URL nor a markdown link is shown as it is |
| Sources.SourceList | frontend/app/research/page.tsx:183-205 | The items of the unique sources, numbered from 1 in order. Meaning given by Sources.SourceListStep and Sources.SourceListStartsWithFirst |
| Sources.SourceListStep | frontend/app/research/page.tsx:183-205 | Numbering one more entry appends its item, numbered after the others |
| Sources.SourceListStartsWithFirst | frontend/app/research/page.tsx:183-189 | The list starts with the first entry, numbered 1 |
| Sources.AppendSourceItems | frontend/app/research/page.tsx:183-205 | The `forEach` appends exactly the numbered list of the unique sources |
| Dedup.DedupBy | frontend/app/research/page.tsx:156-179 | First-occurrence de-duplication under a key, shared by the source list and `dict.fromkeys`. Meaning given by the five lemmas below |
| Dedup.DedupStep | frontend/app/research/page.tsx:175-178 | One loop step: the seen keys gain the entry's key, and the entry is kept exactly when its key is new |
| Dedup.DedupKeepsEveryKey | frontend/app/research/page.tsx:156-179 | De-duplication keeps every key of the input |
| Dedup.DedupDistinctKeys | backend/api/app/main.py:106 | No two kept elements share a key |
| Dedup.DedupFirstOccurrences | backend/api/app/main.py:106 | The kept elements appear in input order, each at the first position bearing its key |
| Dedup.DedupLength | frontend/app/research/page.tsx:181 | De-duplication never lengthens the list and gives an empty list only for an empty input |
| Text.IndexOfFrom | frontend/app/research/page.tsx:162 | `includes`/`indexOf`: the first occurrence at or after `from`; none earlier; none means nowhere |
| Text.ReplaceFirst | frontend/app/research/page.tsx:198 | `replace` with a string pattern is the identity when the pattern is absent; what it does otherwise is given by Text.ReplaceFirstAt |
| Text.ReplaceFirstAt | frontend/app/research/page.tsx:198 | When the pattern first occurs at `i`, `replace` swaps exactly that span for the replacement and keeps the rest |
| Text.DeleteFirst | frontend/app/research/page.tsx:86 | Deleting the first occurrence, known to be at `i`, cuts out exactly that span |
| Text.LeadingBlanks | frontend/app/research/page.tsx:84 | The leading run that trimming removes is all white space and stops before a character that is not |
| Text.TrailingBlanks | frontend/app/research/page.tsx:84 | The trailing run that trimming removes is all white space and stops after a character that is not |
| Text.JsTrim | frontend/app/research/page.tsx:84 | JavaScript `trim()`. Meaning given by Text.LeadingBlanks, Text.TrailingBlanks and Text.TrimWindow |
| Text.PyStrip | backend/api/app/main.py:96 | Python `strip()`. Meaning given by Text.LeadingBlanks, Text.TrailingBlanks and Text.TrimWindow |
| Text.TrimWindow | backend/api/app/main.py:96 | Trimming keeps a contiguous stretch of the text |
| Text.NoBlankLineTrim | frontend/app/research/page.tsx:122 | Trimming a text without a blank line leaves none |
| Text.JsTrimNoop | frontend/app/research/page.tsx:110 | A text that starts and ends with non-space characters is its own trim |
| Text.Split | backend/api/app/main.py:90 | `split` on one character: at least one piece, no piece holds the separator, and joining the pieces with it gives the text back |
| Text.NatToString | frontend/app/research/page.tsx:184-189 | The source number is a non-empty decimal numeral without a leading zero |
| Text.NatToStringRoundTrip | frontend/app/research/page.tsx:184-189 | Reading the numeral back gives the number |
| Text.NatToStringInjective | frontend/app/research/page.tsx:184-189 | Distinct source numbers get distinct numerals |
| Formatter.ChartLabelEnd | frontend/app/research/page.tsx:147 | `CHART\s+DATA[^:]*:?\s*` matches exactly where the phrase does, and the match is non-empty |
| Formatter.BraceGroupEnd | frontend/app/research/page.tsx:148 | `\{[\s\S]*?\}` matches at `i` exactly when `{` is there and some `}` follows |
| Formatter.StripChartLabels | frontend/app/research/page.tsx:147 | The chart-label pass over the title. Meaning given by Formatter.ChartLabelFirstDropped and Formatter.ChartLabelSplice |
| Formatter.StripBraceGroups | frontend/app/research/page.tsx:148 | The brace-group pass over the title. Meaning given by Formatter.CleanTitleNoBraceGroup |
| Formatter.CleanTitle | frontend/app/research/page.tsx:146-148 | Both title passes in source order. Meaning given by Formatter.CleanTitleNoBraceGroup and Formatter.CleanTitleShrinks |
| Formatter.ChartLabelFirstDropped | frontend/app/research/page.tsx:147 | The title before its first chart label is kept, that label is dropped whole (phrase, description, colon and spaces), and the pass goes on after it; with no later label the rest is kept verbatim |
| Formatter.CutOnlyLabel | frontend/app/research/page.tsx:147 | A title whose only chart label is `b`, between `a` and `c`, comes out of the pass as `a + c` |
| Formatter.ChartLabelSplice | frontend/app/research/page.tsx:147 | One pass can splice a new label together: `CHACHART DATA:RT DATA` becomes `CHART DATA`, itself a chart label |
| Formatter.CleanTitleNoBraceGroup | frontend/app/research/page.tsx:146-148 | The cleaned title holds no `{` that is followed later by a `}` |
| Formatter.CleanTitleShrinks | frontend/app/research/page.tsx:146-148 | Cleaning never lengthens the title, and leaves alone a title in which neither pattern matches |
| Formatter.ForecastSection | frontend/app/research/page.tsx:143-151 | The forecast block is present exactly when the series has a point |
| Formatter.AppendForecast | frontend/app/research/page.tsx:143-151 | Appends the heading, the bold cleaned title with its unit, and the chart note, when the series is non-empty |
| Formatter.SourcesSectionIff | frontend/app/research/page.tsx:154-208 | The source block appears exactly when the payload has a source; it is the heading, the numbered de-duplicated list and a blank line; the inner emptiness test never fails |
| Formatter.AppendSources | frontend/app/research/page.tsx:154-208 | Appends exactly the source block |
| Formatter.ValidResponseHasForecast | frontend/app/lib/schemas.ts:10-27 | A payload that satisfies the schema (at least one point) always gets a forecast block |
| Formatter.Cleaned | frontend/app/research/page.tsx:42-68 | The three groups of clean-up stages, in source order. Meaning given by the Artifacts lemmas |
| Formatter.Rewritten | frontend/app/research/page.tsx:102-139 | The subheading, bullet and citation passes, in source order. Meaning given by the Rewrite and Links lemmas |
| Formatter.Document | frontend/app/research/page.tsx:35-207 | The banner, the summary heading, the rewritten summary, a blank line, the forecast block and the source block. Meaning given by Formatter.DocumentOpening, Formatter.ForecastSection and Formatter.SourcesSectionIff |
| Formatter.FormatResearchResponse | frontend/app/research/page.tsx:34-211 | The document is the banner, the summary heading, the summary after clean-up, extraction, subheadings, bullets and links, a blank line, the forecast block and the source block; the forecast summary is empty exactly when no forecast-summary pattern matches the cleaned summary |
| Formatter.DocumentOpening | frontend/app/research/page.tsx:35-38 | The document always opens with the banner and the summary heading |
| Extractors.Take | backend/api/app/main.py:116 | `xs[:n]` is the prefix of `xs` of length `n`, or all of `xs` when it is shorter |
| Extractors.CitationLines | backend/api/app/main.py:120-123 | The citation fallback is never longer than the lines, and is empty exactly when no line is citation-like |
| Extractors.CitationLinesConcat | backend/api/app/main.py:120-123 | The fallback distributes over concatenation; with Extractors.CitationLinesOne every citation-like line is kept, stripped, in line order, once per occurrence |
| Extractors.CitationLinesFrom | backend/api/app/main.py:120-123 | Every fallback entry is a stripped citation-like line of the text |
| Extractors.SourcesFrom | backend/api/app/main.py:109-125 | The result has between one and ten entries, and is the placeholder alone when there is neither a URL nor a citation-like line |
| Extractors.ExtractSources | backend/api/app/main.py:109-125 | The imperative extractor returns exactly the sources of the specification |
| Extractors.SourcesUrlsFirst | backend/api/app/main.py:113-116 | With a URL in the text the result is the first ten entries of `findall`, all of them URLs, the first being the leftmost match; with Urls.FindUrlsNext these are the first ten non-overlapping matches in order of appearance |
| Extractors.SourcesWithoutUrls | backend/api/app/main.py:118-125 | Without a URL the result is the first ten entries of the citation fallback (every citation-like line, in order, by Extractors.CitationLinesConcat), or the placeholder when it is empty |
| Extractors.SourcesCiteLines | backend/api/app/main.py:118-125 | Without a URL every entry is a stripped citation-like line if there is one; otherwise the placeholder is the only entry |
| Extractors.NonEmptyStripped | backend/api/app/main.py:96 | The table cells are non-empty, and there are no more of them than pieces |
| Extractors.NonEmptyStrippedConcat | backend/api/app/main.py:96 | Taking cells distributes over concatenation; with Extractors.NonEmptyStrippedOne the cells are the stripped pieces that are non-empty, in order |
| Extractors.Cells | backend/api/app/main.py:96 | The non-empty stripped pieces of a row split at the bar character |
| Extractors.StripMarks | backend/api/app/main.py:101 | `lstrip('-*')` leaves a suffix that does not start with a mark, and everything it removed is `-` or `*` |
| Extractors.BulletName | backend/api/app/main.py:101 | The stripped text after the marks, up to the first `:`, stripped again. Meaning given by Extractors.CandidateShape |
| Extractors.CandidateName | backend/api/app/main.py:94-103 | The name one line contributes: the first cell of a table row longer than two characters, else the name of a bullet line between three and forty-nine characters long. Meaning given by Extractors.CandidateShape |
| Extractors.CandidateShape | backend/api/app/main.py:94-103 | Every name is longer than two characters; a table name holds no bar character; a bullet name comes from a bullet line, is shorter than fifty characters and holds no `:` |
| Extractors.Candidates | backend/api/app/main.py:92-103 | The names the lines contribute, never more than there are lines. Meaning given by Extractors.CandidatesConcat and Extractors.CandidatesFrom |
| Extractors.CandidatesConcat | backend/api/app/main.py:92-103 | Collecting names distributes over concatenation; with Extractors.CandidatesOne every line's name is collected, in line order, once per line |
| Extractors.CandidatesFrom | backend/api/app/main.py:92-103 | Every candidate is the name that one of the lines contributes |
| Extractors.CompetitorsFrom | backend/api/app/main.py:106 | At most ten names are returned |
| Extractors.ExtractCompetitors | backend/api/app/main.py:84-106 | The imperative extractor returns exactly the competitors of the specification |
| Extractors.CompetitorsDistinct | backend/api/app/main.py:106 | No name is reported twice |
| Extractors.CompetitorsFromLines | backend/api/app/main.py:92-106 | Each reported name is the name of a line of the text, longer than two characters |
| Extractors.CompetitorsInOrder | backend/api/app/main.py:106 | The names come in the order of the candidates, each taken at the first candidate position bearing it; candidates are in line order by Extractors.CandidatesConcat |
| Extractors.CompetitorsComplete | backend/api/app/main.py:106 | With at most ten distinct candidate names, every name found is reported |
| Extractors.FenceOpen | backend/api/app/main.py:56 | An opening fence, the optional `json` and white space lead to a `{` |
| Extractors.FenceClose | backend/api/app/main.py:56 | The lazy capture ends at the first `}` followed by white space and a closing fence |
| Extractors.FencedAt | backend/api/app/main.py:56 | The captured object of a fenced match runs from a `{` to a `}` |
| Extractors.FirstFenced | backend/api/app/main.py:57-61 | `matches[0]` comes from the leftmost fenced match: it matches there, nowhere earlier, and none means nowhere |
| Extractors.RawAt | backend/api/app/main.py:66 | A raw match starts at `{` and ends with the first `}` after the first `"series"` |
| Extractors.FirstRaw | backend/api/app/main.py:67-71 | The leftmost raw match, none earlier, none means nowhere |
| Extractors.RawHoldsSeries | backend/api/app/main.py:66 | The text of a raw match contains `"series"` after its opening brace |
| Extractors.Candidate | backend/api/app/main.py:56-71 | Each candidate object runs from a `{` to a `}` |
| Extractors.Decoded | backend/api/app/main.py:59-73 | A decoded candidate is the decoder's value for a braced stretch of the text; no candidate means no value |
| Extractors.ExtractJson | backend/api/app/main.py:53-81 | The result is either the default structure or the decoder's value for some braced stretch of the text |
| Extractors.FencedWins | backend/api/app/main.py:59-61 | A fenced object that decodes wins over any raw object |
| Extractors.RawFallback | backend/api/app/main.py:65-73 | When the fenced candidate is missing or fails to decode and a raw match decodes, its value is returned, and its text holds `"series"` |
| Extractors.BothRejectedDefault | backend/api/app/main.py:59-81 | When neither candidate decodes, whatever the decoder, the default structure is returned |
| Extractors.NoBraceDefault | backend/api/app/main.py:75-81 | Text without a `{` yields the default structure, whatever the decoder |
| Extractors.RejectingDecoderDefault | backend/api/app/main.py:60-81 | A decoder that rejects everything leaves the default structure |

## Left out

- Layout: everything in `frontend/app/research/page.tsx` outside lines 34-211 (the React page, markdown rendering, chart and request handling) is not part of this model. So are the other endpoints and the crew set-up in `backend/api/app/main.py`.
- Conversions: `json.loads` is the parameter `loads: string -> Option<Json>`, and `None` stands for `JSONDecodeError`. Forecast values are `real` and are only carried, never computed with.
- The payload's `forecast` is always present. The JavaScript guards `data.forecast &&` and `data.sources &&` test for a missing field, which the typed payload cannot have.
- Characters: strings are sequences of Unicode scalar values, while JavaScript strings are UTF-16 code units. No pattern of the core can split a surrogate pair, so match extents agree.
- Case: `toLowerCase()`, `lower()` and the `i` flag are ASCII case folding. For the `i` flag this is exact, because JavaScript's non-Unicode matching never maps a non-ASCII character onto an ASCII one. It is also exact for the backend's `'source'`/`'citation'` tests. For the source-dedup key (Sources.SourceKey) non-ASCII letters keep their case.
- Rewrite.PromoteSubheading: it is defined only for subheading literals that start with an ASCII letter and end with a colon. Both literals the formatter uses are such literals (Rewrite.SubheadingsPlain).
- Bullets, as written: the first character of a content line is `[^\n-*#]`. Its dash forms a character range, so the range U+000A..U+002A (including space and `*`) and `#` are excluded and `-` is admitted. The model follows this reading; a later content line that starts with `-` is then dropped by the callback's filter (Rewrite.DashLineDropped, stated for symbolic lines rather than a literal text).
- Python `\s` and `str.strip()` are taken to be the same set (the characters `str.isspace` accepts). JavaScript `\s` and `trim()` are the ECMAScript WhiteSpace and LineTerminator set.
- Two tests that can never change the outcome are modelled but proved dead:
  - the "multi-paragraph" `\n\n` test of the bullet callback (Rewrite.BlankLineTestNeverHolds);
  - the inner `uniqueSources.length > 0` test (Formatter.SourcesSectionIff).
