/**
 * The URL pattern `https?://[...]+` shared by the formatter and the backend,
 * written as a scanner: the scheme, then a greedy non-empty run of a
 * character class that differs between the callers (JavaScript `\s`,
 * Python `\s`, or any non-space character).
 */
module Urls {
  import opened Wrappers
  import opened Text
  import opened Scan

  /** Where the body of a URL begins when `http://` or `https://` starts at `i`.
      The optional `s` is tried first; without it the next character would
      have to be `:`, so at most one reading exists. */
  function SchemeEnd(s: string, i: nat): (r: Option<nat>)
    ensures r.Some? <==> StartsWithAt(s, i, "https://") || StartsWithAt(s, i, "http://")
    ensures r.Some? ==> r.value <= |s| && (r.value == i + 8 || r.value == i + 7)
  {
    if StartsWithAt(s, i, "https://") then Some(i + 8)
    else if StartsWithAt(s, i, "http://") then Some(i + 7)
    else None
  }

  /** The end of a match of `https?://` followed by a non-empty run of `cls` at `i`. */
  function UrlAt(s: string, i: nat, cls: CharClass): (r: Option<nat>)
    ensures r.Some? ==> SchemeEnd(s, i).Some? && SchemeEnd(s, i).value < r.value <= |s|
    ensures r.Some? ==> forall k :: SchemeEnd(s, i).value <= k < r.value ==> Accepts(cls, s[k])
    ensures r.Some? ==> r.value < |s| ==> !Accepts(cls, s[r.value])
    ensures r.None? ==> SchemeEnd(s, i).None? || SkipWhile(s, SchemeEnd(s, i).value, cls) == SchemeEnd(s, i).value
  {
    match SchemeEnd(s, i)
    case None => None
    case Some(p) =>
      var e := SkipWhile(s, p, cls);
      if e > p then Some(e) else None
  }

  /** A text the URL pattern matches in full: a scheme and a non-empty body of class `cls`. */
  predicate IsUrl(u: string, cls: CharClass) {
    && (StartsWith(u, "http://") || StartsWith(u, "https://"))
    && SchemeEnd(u, 0).Some?
    && SchemeEnd(u, 0).value < |u|
    && forall k :: SchemeEnd(u, 0).value <= k < |u| ==> Accepts(cls, u[k])
  }

  /** The first index at or after `from` where the URL pattern matches (`re.search` / `String.match`). */
  function FirstUrl(s: string, from: nat, cls: CharClass): (r: Option<nat>)
    ensures r.Some? ==> from <= r.value < |s| && UrlAt(s, r.value, cls).Some?
    ensures r.Some? ==> forall j :: from <= j < r.value ==> UrlAt(s, j, cls).None?
    ensures r.None? ==> forall j :: from <= j ==> UrlAt(s, j, cls).None?
    decreases |s| - from
  {
    if from >= |s| then None
    else if UrlAt(s, from, cls).Some? then Some(from)
    else FirstUrl(s, from + 1, cls)
  }

  /** Wherever a URL of class `cls` occurs, the URL pattern matches. */
  lemma UrlCopyMatches(s: string, j: nat, u: string, cls: CharClass)
    requires IsUrl(u, cls) && StartsWithAt(s, j, u)
    ensures UrlAt(s, j, cls).Some?
  {
    var p := SchemeEnd(u, 0).value;
    var w := s[j..j + |u|];
    assert w == u;
    if StartsWithAt(u, 0, "https://") {
      assert s[j..j + 8] == w[0..8];
      assert StartsWithAt(s, j, "https://");
      assert SchemeEnd(s, j).value == j + p;
    } else {
      assert StartsWithAt(u, 0, "http://");
      assert s[j..j + 7] == w[0..7];
      assert StartsWithAt(s, j, "http://");
      assert s[j + 4] == w[4] == ':';
      assert !StartsWithAt(s, j, "https://");
      assert SchemeEnd(s, j).value == j + p;
    }
    assert s[j + p] == w[p];
    assert Accepts(cls, s[j + p]);
  }

  /** The matched text of a URL match is itself a URL of that class. */
  lemma UrlAtIsUrl(s: string, i: nat, cls: CharClass)
    requires UrlAt(s, i, cls).Some?
    ensures IsUrl(s[i..UrlAt(s, i, cls).value], cls)
  {
    var e := UrlAt(s, i, cls).value;
    var u := s[i..e];
    var p := SchemeEnd(s, i).value;
    if StartsWithAt(s, i, "https://") {
      assert p == i + 8;
      assert u[0..8] == s[i..i + 8];
      assert StartsWithAt(u, 0, "https://");
      assert SchemeEnd(u, 0) == Some(8);
    } else {
      assert p == i + 7 && StartsWithAt(s, i, "http://");
      assert u[0..7] == s[i..i + 7];
      assert StartsWithAt(u, 0, "http://");
      if 8 <= |u| {
        assert u[0..8] == s[i..i + 8];
      }
      assert !StartsWithAt(u, 0, "https://");
      assert SchemeEnd(u, 0) == Some(7);
    }
    forall k | p - i <= k < |u|
      ensures Accepts(cls, u[k])
    {
      assert u[k] == s[i + k];
    }
  }

  /** `re.findall` of the URL pattern from index `i` on: every match, left to
      right, each search resuming where the previous match ended. */
  function FindUrls(s: string, i: nat, cls: CharClass): (r: seq<string>)
    requires i <= |s|
    ensures forall k :: 0 <= k < |r| ==> IsUrl(r[k], cls)
    decreases |s| - i
  {
    if i == |s| then []
    else
      match UrlAt(s, i, cls)
      case Some(e) =>
        UrlAtIsUrl(s, i, cls);
        [s[i..e]] + FindUrls(s, e, cls)
      case None => FindUrls(s, i + 1, cls)
  }

  /** The scan finds something exactly when the pattern matches somewhere, and
      then the first URL it reports is the one at the first match. */
  lemma {:induction false} FindUrlsFirst(s: string, i: nat, cls: CharClass)
    requires i <= |s|
    ensures FindUrls(s, i, cls) == [] <==> FirstUrl(s, i, cls).None?
    ensures FirstUrl(s, i, cls).Some? ==>
              var j := FirstUrl(s, i, cls).value;
              FindUrls(s, i, cls)[0] == s[j..UrlAt(s, j, cls).value]
    decreases |s| - i
  {
    if i < |s| && UrlAt(s, i, cls).None? {
      FindUrlsFirst(s, i + 1, cls);
    }
  }

  /** Each step of the scan reports the leftmost match from where it stands
      and resumes at that match's end: with FindUrlsFirst's empty case this
      fixes every URL reported, in order of appearance. */
  lemma {:induction false} FindUrlsNext(s: string, i: nat, cls: CharClass)
    requires i <= |s| && FirstUrl(s, i, cls).Some?
    ensures var j := FirstUrl(s, i, cls).value;
            var e := UrlAt(s, j, cls).value;
            FindUrls(s, i, cls) == [s[j..e]] + FindUrls(s, e, cls)
    decreases |s| - i
  {
    if UrlAt(s, i, cls).None? {
      FindUrlsNext(s, i + 1, cls);
    }
  }
}
