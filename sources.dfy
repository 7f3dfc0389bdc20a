/**
 * The source list of the formatter: the key under which two entries count as
 * the same source (the link target or the first URL, lower-cased, without
 * trailing punctuation), the de-duplication loop over a seen-set, and the
 * numbered markdown list the unique entries are rendered into.
 */
module Sources {
  import opened Wrappers
  import opened Text
  import opened Scan
  import opened Dedup
  import opened Urls

  /** `\]\(([^\)]+)\)` tried at `i`: the index of the closing `)` when `](` at
      `i` is followed by at least one character other than `)` and then `)`. */
  function LinkTargetAt(s: string, i: nat): (r: Option<nat>)
    ensures r.Some? ==> StartsWithAt(s, i, "](") && i + 2 < r.value < |s| && s[r.value] == ')'
    ensures r.Some? ==> forall k :: i + 2 <= k < r.value ==> s[k] != ')'
    ensures r.None? && StartsWithAt(s, i, "](") ==>
              var c := SkipWhile(s, i + 2, NotCloseParen); c == i + 2 || c == |s|
  {
    if !StartsWithAt(s, i, "](") then None
    else
      var c := SkipWhile(s, i + 2, NotCloseParen);
      if c > i + 2 && c < |s| then Some(c) else None
  }

  /** The first index at or after `from` where the link-target pattern matches. */
  function FirstLinkTarget(s: string, from: nat): (r: Option<nat>)
    ensures r.Some? ==> from <= r.value && LinkTargetAt(s, r.value).Some?
    ensures r.Some? ==> forall j :: from <= j < r.value ==> LinkTargetAt(s, j).None?
    ensures r.None? ==> forall j :: from <= j ==> LinkTargetAt(s, j).None?
    decreases |s| - from
  {
    if from >= |s| then None
    else if LinkTargetAt(s, from).Some? then Some(from)
    else FirstLinkTarget(s, from + 1)
  }

  /** The URL an entry stands for: the target of its first markdown link when
      it contains `](`, else its first URL when it contains `http`, else the
      entry itself. */
  function SourceUrl(source: string): (url: string)
    ensures Contains(source, "](") && FirstLinkTarget(source, 0).Some? ==>
              var j := FirstLinkTarget(source, 0).value;
              url == source[j + 2..LinkTargetAt(source, j).value]
    ensures !Contains(source, "](") && Contains(source, "http") && FirstUrl(source, 0, UrlChar).Some? ==>
              var j := FirstUrl(source, 0, UrlChar).value;
              url == source[j..UrlAt(source, j, UrlChar).value]
    ensures (Contains(source, "](") && FirstLinkTarget(source, 0).None?) ||
            (!Contains(source, "](") && !(Contains(source, "http") && FirstUrl(source, 0, UrlChar).Some?)) ==>
              url == source
  {
    if Contains(source, "](") then
      match FirstLinkTarget(source, 0)
      case Some(j) => source[j + 2..LinkTargetAt(source, j).value]
      case None => source
    else if Contains(source, "http") then
      match FirstUrl(source, 0, UrlChar)
      case Some(j) => source[j..UrlAt(source, j, UrlChar).value]
      case None => source
    else source
  }

  /** The characters `[.,;:!?)\]]` that normalisation strips from the end. */
  predicate TrailingPunct(c: char) {
    c == '.' || c == ',' || c == ';' || c == ':' || c == '!' || c == '?' || c == ')' || c == ']'
  }

  /** `s.replace(/[.,;:!?)\]]+$/, '')`: the text without its trailing run of punctuation. */
  function StripTrailingPunct(s: string): (r: string)
    ensures r <= s
    ensures r == [] || !TrailingPunct(r[|r| - 1])
    ensures forall k :: |r| <= k < |s| ==> TrailingPunct(s[k])
  {
    if s != [] && TrailingPunct(s[|s| - 1]) then StripTrailingPunct(s[..|s| - 1]) else s
  }

  /** The key under which the formatter de-duplicates sources. */
  function SourceKey(source: string): string {
    StripTrailingPunct(Lower(SourceUrl(source)))
  }

  /** A key holds no upper-case ASCII letter and does not end in punctuation. */
  lemma SourceKeyNormalised(source: string)
    ensures forall k :: 0 <= k < |SourceKey(source)| ==> !('A' <= SourceKey(source)[k] <= 'Z')
    ensures SourceKey(source) == [] || !TrailingPunct(SourceKey(source)[|SourceKey(source)| - 1])
  {
    var low := Lower(SourceUrl(source));
    var key := SourceKey(source);
    forall k | 0 <= k < |key|
      ensures !('A' <= key[k] <= 'Z')
    {
      assert key[k] == low[k];
    }
  }

  /** Keys ignore ASCII case and trailing punctuation of a bare URL:
      `https://a.com/x.` and `https://A.com/x` are the same source. */
  lemma KeyIgnoresCaseAndPunct(u: string, v: string)
    requires IsUrl(u, UrlChar) && IsUrl(v, UrlChar) && Lower(u) == Lower(v)
    ensures SourceKey(u + ".") == SourceKey(v)
  {
    var u' := u + ".";
    assert u'[..|u|] == u;
    assert SchemeEnd(u', 0) == SchemeEnd(u, 0) by {
      assert u'[..8] == u[..8] || |u| < 8;
      assert u'[..7] == u[..7];
    }
    assert IsUrl(u', UrlChar);
    BareUrlItself(u');
    BareUrlItself(v);
    assert Lower(u') == Lower(u) + ".";
    assert (Lower(u) + ".")[..|Lower(u) + "."| - 1] == Lower(u);
  }

  /** A text without the character `a` contains no two-character literal starting with `a`. */
  lemma NotContainsPair(s: string, a: char, b: char)
    requires forall k :: 0 <= k < |s| ==> s[k] != a
    ensures !Contains(s, [a, b])
  {
    forall j | 0 <= j
      ensures !StartsWithAt(s, j, [a, b])
    {
      if j + 2 <= |s| {
        assert s[j..j + 2][0] == s[j];
      }
    }
  }

  /** A markdown link `[t](u)` and the bare URL `u` are the same source when
      `u` is a URL whose body stops at nothing the link syntax uses. */
  lemma MarkdownLinkSameKey(t: string, u: string)
    requires forall k :: 0 <= k < |t| ==> t[k] != ']'
    requires IsUrl(u, UrlChar)
    ensures SourceKey("[" + t + "](" + u + ")") == SourceKey(u)
  {
    LinkTargetOfMarkdown(t, u);
    BareUrlItself(u);
  }

  /** The link target of `[t](u)` is `u`. */
  lemma LinkTargetOfMarkdown(t: string, u: string)
    requires forall k :: 0 <= k < |t| ==> t[k] != ']'
    requires IsUrl(u, UrlChar)
    ensures SourceUrl("[" + t + "](" + u + ")") == u
  {
    var md := "[" + t + "](" + u + ")";
    var i := 1 + |t|;
    assert md[i..i + 2] == "](";
    assert StartsWithAt(md, i, "](");
    ContainsAt(md, "](", i);
    forall j | 0 <= j < i
      ensures LinkTargetAt(md, j).None?
    {
      assert md[j] != ']' by {
        if j > 0 {
          assert md[j] == t[j - 1];
        }
      }
      if j + 2 <= |md| {
        assert md[j..j + 2][0] == md[j];
      }
    }
    assert forall k :: 0 <= k < |u| ==> u[k] != ')' by {
      UrlHasNoCloseParen(u);
    }
    var c := i + 2 + |u|;
    assert md[c] == ')';
    forall k | i + 2 <= k < c
      ensures md[k] != ')'
    {
      assert md[k] == u[k - (i + 2)];
    }
    assert SkipWhile(md, i + 2, NotCloseParen) == c;
    assert LinkTargetAt(md, i) == Some(c);
    assert FirstLinkTarget(md, 0) == Some(i);
    assert md[i + 2..c] == u;
  }

  /** No character of a URL of this class is `)`. */
  lemma UrlHasNoCloseParen(u: string)
    requires IsUrl(u, UrlChar)
    ensures forall k :: 0 <= k < |u| ==> u[k] != ')' && u[k] != ']'
  {
    var p := SchemeEnd(u, 0).value;
    forall k | 0 <= k < p
      ensures u[k] != ')' && u[k] != ']'
    {
      if p == 8 {
        assert u[..8] == "https://" && u[k] == u[..8][k];
      } else {
        assert u[..7] == "http://" && u[k] == u[..7][k];
      }
    }
  }

  /** A bare URL stands for itself. */
  lemma BareUrlItself(u: string)
    requires IsUrl(u, UrlChar)
    ensures SourceUrl(u) == u
  {
    UrlHasNoCloseParen(u);
    NotContainsPair(u, ']', '(');
    assert StartsWithAt(u, 0, "http") by {
      if StartsWith(u, "https://") {
        assert u[..4] == u[..8][..4];
      } else {
        assert u[..4] == u[..7][..4];
      }
    }
    ContainsAt(u, "http", 0);
    var p := SchemeEnd(u, 0).value;
    SkipWhileEnd(u, p, UrlChar);
    assert UrlAt(u, 0, UrlChar) == Some(|u|);
    assert FirstUrl(u, 0, UrlChar) == Some(0);
    assert u[0..|u|] == u;
  }

  /** A run of `cls` that lasts to the end of the text is where `SkipWhile` stops. */
  lemma SkipWhileEnd(s: string, i: nat, cls: CharClass)
    requires i <= |s| && forall k :: i <= k < |s| ==> Accepts(cls, s[k])
    ensures SkipWhile(s, i, cls) == |s|
  {
  }

  /** The de-duplication loop: a seen-set of keys, and each entry whose key is
      new is kept. The result is the first-occurrence de-duplication of the
      entries under `SourceKey`. */
  method DedupeSources(sources: seq<string>) returns (unique: seq<string>)
    ensures unique == DedupBy(sources, SourceKey)
    ensures DistinctKeys(unique, SourceKey)
    ensures KeySet(unique, SourceKey) == KeySet(sources, SourceKey)
    ensures |unique| <= |sources| && (unique == [] <==> sources == [])
  {
    var seen: set<string> := {};
    unique := [];
    for i := 0 to |sources|
      invariant seen == KeySet(sources[..i], SourceKey)
      invariant unique == DedupBy(sources[..i], SourceKey)
    {
      var key := SourceKey(sources[i]);
      DedupStep(sources, i, SourceKey, seen, unique, key);
      if key !in seen {
        seen := seen + {key};
        unique := unique + [sources[i]];
      }
    }
    assert sources[..|sources|] == sources;
    DedupDistinctKeys(sources, SourceKey);
    DedupKeepsEveryKey(sources, SourceKey);
    DedupLength(sources, SourceKey);
  }

  /** The list item of `source` numbered `num`: its number, then the entry
      rendered by `ItemText`, on one line of its own. */
  function SourceItem(source: string, num: nat): (r: string)
    ensures StartsWith(r, NatToString(num) + ". ") && r[|r| - 1] == '\n'
  {
    NatToString(num) + ". " + ItemText(source) + "\n"
  }

  /** A bare URL becomes a link to itself, a markdown link is kept, a text
      with a URL in it becomes a link to that URL, anything else is plain. */
  function ItemText(source: string): (r: string)
    ensures StartsWith(source, "http") ==> r == "[" + source + "](" + source + ")"
    ensures !StartsWith(source, "http") && Contains(source, "[") && Contains(source, "](") ==> r == source
  {
    if StartsWith(source, "http") then "[" + source + "](" + source + ")"
    else if Contains(source, "[") && Contains(source, "](") then source
    else
      match FirstUrl(source, 0, NotSpace)
      case Some(j) => UrlItemText(source, source[j..UrlAt(source, j, NotSpace).value])
      case None => source
  }

  /** A link to `url`, labelled with the rest of `source` once `url` is taken
      out and the ends are trimmed, or with `url` when nothing else is left. */
  function UrlItemText(source: string, url: string): (r: string)
    ensures url != [] ==> exists lbl :: lbl != [] && r == "[" + lbl + "](" + url + ")"
  {
    var text := JsTrim(ReplaceFirst(source, url, ""));
    var lbl := if text == [] then url else text;
    assert url != [] ==> lbl != [];
    "[" + lbl + "](" + url + ")"
  }

  /** An entry that is neither a bare URL nor a markdown link but holds a URL
      is rendered as a link to its first URL, with a non-empty label. */
  lemma EmbeddedUrlItem(source: string)
    requires !StartsWith(source, "http") && !(Contains(source, "[") && Contains(source, "]("))
    requires FirstUrl(source, 0, NotSpace).Some?
    ensures var j := FirstUrl(source, 0, NotSpace).value;
            var url := source[j..UrlAt(source, j, NotSpace).value];
            IsUrl(url, NotSpace) &&
            exists lbl :: lbl != [] && ItemText(source) == "[" + lbl + "](" + url + ")"
  {
    var j := FirstUrl(source, 0, NotSpace).value;
    var url := source[j..UrlAt(source, j, NotSpace).value];
    UrlAtIsUrl(source, j, NotSpace);
    assert url != [];
    assert ItemText(source) == UrlItemText(source, url);
  }

  /** The first URL match's text occurs nowhere before the match: an earlier
      copy would be an earlier match. */
  lemma NoEarlierUrlCopy(source: string)
    requires FirstUrl(source, 0, NotSpace).Some?
    ensures var j := FirstUrl(source, 0, NotSpace).value;
            var url := source[j..UrlAt(source, j, NotSpace).value];
            forall i :: 0 <= i < j ==> !StartsWithAt(source, i, url)
  {
    var j := FirstUrl(source, 0, NotSpace).value;
    var url := source[j..UrlAt(source, j, NotSpace).value];
    UrlAtIsUrl(source, j, NotSpace);
    forall i | 0 <= i < j ensures !StartsWithAt(source, i, url) {
      if StartsWithAt(source, i, url) {
        UrlCopyMatches(source, i, url, NotSpace);
      }
    }
  }

  /** An entry that is neither a bare URL nor a markdown link but holds a URL
      `source[j..e]` is the link to that URL labelled with the rest of the
      entry, `source[..j] + source[e..]` trimmed, or with the URL itself when
      the rest trims to nothing. */
  lemma EmbeddedUrlLabel(source: string)
    requires !StartsWith(source, "http") && !(Contains(source, "[") && Contains(source, "]("))
    requires FirstUrl(source, 0, NotSpace).Some?
    ensures var j := FirstUrl(source, 0, NotSpace).value;
            var e := UrlAt(source, j, NotSpace).value;
            var url := source[j..e];
            var rest := JsTrim(source[..j] + source[e..]);
            ItemText(source) == "[" + (if rest == [] then url else rest) + "](" + url + ")"
  {
    var j := FirstUrl(source, 0, NotSpace).value;
    var e := UrlAt(source, j, NotSpace).value;
    var url := source[j..e];
    EmbeddedItemText(source);
    NoEarlierUrlCopy(source);
    UrlItemLabel(source, url, j, e);
  }

  /** Such an entry takes the third branch, with its first URL match as the URL. */
  lemma EmbeddedItemText(source: string)
    requires !StartsWith(source, "http") && !(Contains(source, "[") && Contains(source, "]("))
    requires FirstUrl(source, 0, NotSpace).Some?
    ensures var j := FirstUrl(source, 0, NotSpace).value;
            ItemText(source) == UrlItemText(source, source[j..UrlAt(source, j, NotSpace).value])
  {
  }

  /** When `url` first occurs at `j`, the label is the rest of the entry around
      that occurrence, trimmed, or the URL when the rest trims to nothing. */
  lemma UrlItemLabel(source: string, url: string, j: nat, e: nat)
    requires j <= e <= |source| && e == j + |url| && source[j..e] == url
    requires forall i :: 0 <= i < j ==> !StartsWithAt(source, i, url)
    ensures var rest := JsTrim(source[..j] + source[e..]);
            UrlItemText(source, url) == "[" + (if rest == [] then url else rest) + "](" + url + ")"
  {
    assert StartsWithAt(source, j, url);
    DeleteFirst(source, url, j);
  }

  /** An entry with no URL and no markdown link is shown as it is. */
  lemma PlainItem(source: string)
    requires !StartsWith(source, "http") && !(Contains(source, "[") && Contains(source, "]("))
    requires FirstUrl(source, 0, NotSpace).None?
    ensures ItemText(source) == source
  {
  }

  /** The items of `xs`, numbered from 1 in order. */
  function SourceList(xs: seq<string>): string {
    if xs == [] then [] else SourceList(xs[..|xs| - 1]) + SourceItem(xs[|xs| - 1], |xs|)
  }

  /** Numbering one more entry appends its item, numbered after the others. */
  lemma SourceListStep(xs: seq<string>, i: nat)
    requires i < |xs|
    ensures SourceList(xs[..i + 1]) == SourceList(xs[..i]) + SourceItem(xs[i], i + 1)
  {
    var ys := xs[..i + 1];
    assert ys[..|ys| - 1] == xs[..i];
  }

  /** The list starts with the first entry, numbered 1. */
  lemma {:induction false} SourceListStartsWithFirst(xs: seq<string>)
    requires xs != []
    ensures StartsWith(SourceList(xs), SourceItem(xs[0], 1))
  {
    var init := xs[..|xs| - 1];
    if init == [] {
      assert SourceList(xs) == SourceItem(xs[0], 1);
    } else {
      SourceListStartsWithFirst(init);
      assert init[0] == xs[0];
      var n := |SourceItem(xs[0], 1)|;
      assert SourceList(xs)[..n] == SourceList(init)[..n];
    }
  }

  /** The `forEach` that appends one numbered item per unique source. */
  method AppendSourceItems(formatted0: string, unique: seq<string>) returns (formatted: string)
    ensures formatted == formatted0 + SourceList(unique)
  {
    formatted := formatted0;
    for idx := 0 to |unique|
      invariant formatted == formatted0 + SourceList(unique[..idx])
    {
      var sourceNum := idx + 1;
      var item := SourceItem(unique[idx], sourceNum);
      SourceListStep(unique, idx);
      ConcatAssoc(formatted0, SourceList(unique[..idx]), item);
      formatted := formatted + item;
    }
    assert unique[..|unique|] == unique;
  }
}
