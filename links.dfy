/**
 * The citation pass of the formatter: every `[n]` with a decimal number `n`
 * becomes the markdown link `[[n]](#source-n)` to the n-th entry of the
 * source list. The pass is modelled as a global replacement over a table of
 * hits, and is shown to lose nothing: reading the anchors back gives the text
 * it started from.
 */
module Links {
  import opened Wrappers
  import opened Text
  import opened Scan
  import opened Replace

  /** The link that the citation `[num]` becomes. */
  function Anchor(num: string): (r: string)
    ensures |r| == 2 * |num| + 14
  {
    "[[" + num + "]](#source-" + num + ")"
  }

  /** The index of the `]` that closes a citation `[\d+]` starting at `i`, if one does. */
  function MarkerAt(s: string, i: nat): (r: Option<nat>)
    requires i < |s|
    ensures r.Some? <==> s[i] == '[' && SkipWhile(s, i + 1, Digit) > i + 1 &&
                         SkipWhile(s, i + 1, Digit) < |s| && s[SkipWhile(s, i + 1, Digit)] == ']'
    ensures r.Some? ==> r.value == SkipWhile(s, i + 1, Digit)
    ensures r.Some? ==> i + 1 < r.value < |s| && s[i] == '[' && s[r.value] == ']'
  {
    if s[i] != '[' then None
    else
      var d := SkipWhile(s, i + 1, Digit);
      if d > i + 1 && d < |s| && s[d] == ']' then Some(d) else None
  }

  /** A citation is `[`, a non-empty run of digits and `]`; without one at `i`,
      every `]` after `i` has a non-digit before it. */
  lemma MarkerDigits(s: string, i: nat)
    requires i < |s|
    ensures MarkerAt(s, i).Some? ==> forall k :: i < k < MarkerAt(s, i).value ==> IsDigit(s[k])
    ensures MarkerAt(s, i).None? ==>
              forall d :: i + 1 < d < |s| && s[i] == '[' && s[d] == ']' ==> exists k :: i < k < d && !IsDigit(s[k])
  {
    if MarkerAt(s, i).None? {
      forall d | i + 1 < d < |s| && s[i] == '[' && s[d] == ']'
        ensures exists k :: i < k < d && !IsDigit(s[k])
      {
        var e := SkipWhile(s, i + 1, Digit);
        if e == i + 1 {
          assert !IsDigit(s[i + 1]);
        } else {
          if e < d {
            assert !IsDigit(s[e]);
          }
        }
      }
    }
  }

  /** The hit of the citation pattern at `i`: it spans `[n]` and is replaced by its link. */
  function LinkHitAt(s: string, i: nat): (r: Option<Hit>)
    requires i < |s|
    ensures r.Some? <==> MarkerAt(s, i).Some?
    ensures r.Some? ==> var d := MarkerAt(s, i).value;
                        r.value.end == d + 1 && r.value.text == Anchor(s[i + 1..d])
  {
    match MarkerAt(s, i)
    case None => None
    case Some(d) => Some(Hit(d + 1, Anchor(s[i + 1..d])))
  }

  /** The citation pass has a hit at `i` exactly when `[`, a non-empty run of
      digits and `]` start there; the hit spans that `[n]`, and its text is the
      matched `[n]` in brackets, then `(#source-`, the digits and `)`. */
  lemma LinkHitShape(s: string, i: nat)
    requires i < |s|
    ensures LinkHitAt(s, i).Some? <==>
              s[i] == '[' && exists d :: i + 1 < d < |s| && s[d] == ']' && forall k :: i < k < d ==> IsDigit(s[k])
    ensures LinkHitAt(s, i).Some? ==> var e := LinkHitAt(s, i).value.end;
              i + 3 <= e <= |s| && s[i..e] == "[" + s[i + 1..e - 1] + "]" &&
              LinkHitAt(s, i).value.text == "[" + s[i..e] + "](#source-" + s[i + 1..e - 1] + ")"
  {
    MarkerDigits(s, i);
    if MarkerAt(s, i).Some? {
      var d := MarkerAt(s, i).value;
      var num := s[i + 1..d];
      assert s[i..d + 1] == [s[i]] + num + [s[d]];
      assert Anchor(num) == "[" + ("[" + num + "]") + "](#source-" + num + ")";
    }
  }

  /** The hits of the citation pattern with the flag `g`. */
  function LinkHits(s: string): (hits: seq<Option<Hit>>)
    ensures ValidHits(s, hits)
    ensures forall i :: 0 <= i < |s| ==> hits[i] == LinkHitAt(s, i)
  {
    seq(|s|, i requires 0 <= i < |s| => LinkHitAt(s, i))
  }

  /** The citation pass. */
  function Linkify(s: string): string {
    ReplaceFrom(s, LinkHits(s), 0)
  }

  /** The digits of the link `[[n]](#source-n)` that `t` starts with, if it starts with one. */
  function AnchorDigits(t: string): (r: Option<string>)
    ensures r.Some? ==> r.value != [] && Anchor(r.value) <= t
    ensures r.Some? ==> forall k :: 0 <= k < |r.value| ==> IsDigit(r.value[k])
  {
    if |t| < 2 || t[0] != '[' || t[1] != '[' then None
    else
      var d := SkipWhile(t, 2, Digit);
      if d > 2 && Anchor(t[2..d]) <= t then Some(t[2..d]) else None
  }

  /** Turns every link `[[n]](#source-n)` back into the citation `[n]`, left to right. */
  function Unlinkify(t: string): string
    decreases |t|
  {
    if t == [] then []
    else
      match AnchorDigits(t)
      case Some(num) => "[" + num + "]" + Unlinkify(t[|Anchor(num)|..])
      case None => [t[0]] + Unlinkify(t[1..])
  }

  /** A run of class `cls` from `i` to `j`, not followed by another such character, is where `SkipWhile` stops. */
  lemma SkipWhileRun(s: string, i: nat, j: nat, cls: CharClass)
    requires i <= j <= |s|
    requires forall k :: i <= k < j ==> Accepts(cls, s[k])
    requires j < |s| ==> !Accepts(cls, s[j])
    ensures SkipWhile(s, i, cls) == j
  {
  }

  /** A link read back at the start of a text gives its digits. */
  lemma AnchorDigitsOf(num: string, rest: string)
    requires num != [] && forall k :: 0 <= k < |num| ==> IsDigit(num[k])
    ensures AnchorDigits(Anchor(num) + rest) == Some(num)
  {
    var t := Anchor(num) + rest;
    var d := 2 + |num|;
    assert t[2..d] == num;
    assert t[d] == ']';
    SkipWhileRun(t, 2, d, Digit);
  }

  /** The output of the pass from any index on starts with the character at that index. */
  lemma LinkFirstChar(s: string, k: nat)
    requires k < |s|
    ensures ReplaceFrom(s, LinkHits(s), k) != [] && ReplaceFrom(s, LinkHits(s), k)[0] == s[k]
  {
  }

  /** A digit never starts a citation, so a run of digits is copied as it is. */
  lemma DigitsCopied(s: string, k: nat)
    requires k <= |s|
    ensures var d := SkipWhile(s, k, Digit);
            ReplaceFrom(s, LinkHits(s), k) == s[k..d] + ReplaceFrom(s, LinkHits(s), d)
  {
    var d := SkipWhile(s, k, Digit);
    ReplaceCopies(s, LinkHits(s), k, d);
  }

  /** No link starts where the third character is not a digit. */
  lemma AnchorNeedsDigit(t: string)
    requires |t| >= 3 && !IsDigit(t[2])
    ensures AnchorDigits(t) == None
  {
  }

  /** No link starts where the run of digits after `[[` is not closed by `]`. */
  lemma AnchorNeedsClose(t: string, d: nat)
    requires 2 <= d <= |t| && forall k :: 2 <= k < d ==> IsDigit(t[k])
    requires d < |t| ==> !IsDigit(t[d]) && (d == 2 || t[d] != ']')
    ensures AnchorDigits(t) == None
  {
    if |t| >= 2 && t[0] == '[' && t[1] == '[' {
      SkipWhileRun(t, 2, d, Digit);
      var a := Anchor(t[2..d]);
      assert |a| > d && a[d] == ']';
    }
  }

  /** A citation right after a copied `[` leaves `[[[` behind, which is no link. */
  lemma NoAnchorBeforeLink(s: string, i: nat, d: nat)
    requires i + 1 < |s| && MarkerAt(s, i + 1).Some? && MarkerAt(s, i + 1).value == d
    ensures AnchorDigits([s[i]] + ReplaceFrom(s, LinkHits(s), i + 1)) == None
  {
    var hits := LinkHits(s);
    var rest := ReplaceFrom(s, hits, d + 1);
    assert ReplaceFrom(s, hits, i + 1) == Anchor(s[i + 2..d]) + rest;
    AnchorNeedsDigit([s[i]] + ReplaceFrom(s, hits, i + 1));
  }

  /** Two characters, then a run `pre` followed by `rest`: the run reads on
      from index 2, and the first character of `rest` after it. */
  lemma RunAhead(a: char, b: char, pre: string, rest: string, t: string)
    requires t == [a] + ([b] + (pre + rest))
    ensures |t| == |pre| + |rest| + 2
    ensures forall k :: 2 <= k < 2 + |pre| ==> t[k] == pre[k - 2]
    ensures rest != [] ==> t[2 + |pre|] == rest[0]
  {
  }

  /** The output after a copied `[[` for any table of hits that copies the
      digits from `i + 2` up to `d` and then the character at `d`. */
  lemma CopiedRun(s: string, hits: seq<Option<Hit>>, i: nat, d: nat)
    requires ValidHits(s, hits) && i + 2 <= d <= |s| && hits[i + 1].None?
    requires forall k :: i + 2 <= k < d ==> IsDigit(s[k])
    requires d < |s| ==> !IsDigit(s[d]) && (d == i + 2 || s[d] != ']')
    requires ReplaceFrom(s, hits, i + 2) == s[i + 2..d] + ReplaceFrom(s, hits, d)
    requires d < |s| ==> ReplaceFrom(s, hits, d) != [] && ReplaceFrom(s, hits, d)[0] == s[d]
    ensures var t := [s[i]] + ReplaceFrom(s, hits, i + 1);
            && 2 + (d - (i + 2)) <= |t|
            && (forall k :: 2 <= k < 2 + (d - (i + 2)) ==> IsDigit(t[k]))
            && (2 + (d - (i + 2)) < |t| ==> !IsDigit(t[2 + (d - (i + 2))]) && (d == i + 2 || t[2 + (d - (i + 2))] != ']'))
  {
    var rest := ReplaceFrom(s, hits, d);
    var pre := s[i + 2..d];
    ReplaceAtCopy(s, hits, i + 1);
    var t := [s[i]] + ReplaceFrom(s, hits, i + 1);
    RunAhead(s[i], s[i + 1], pre, rest, t);
    forall k | 2 <= k < 2 + |pre| ensures IsDigit(t[k]) {
      assert pre[k - 2] == s[i + k];
    }
  }

  /** After a copied `[[`, the output reads the run of digits that follows
      in the text, then the character that ends the run. */
  lemma CopiedDigits(s: string, i: nat) returns (n: nat)
    requires i + 1 < |s| && s[i + 1] == '[' && MarkerAt(s, i + 1).None?
    ensures var t := [s[i]] + ReplaceFrom(s, LinkHits(s), i + 1);
            && 2 + n <= |t|
            && (forall k :: 2 <= k < 2 + n ==> IsDigit(t[k]))
            && (2 + n < |t| ==> !IsDigit(t[2 + n]) && (n == 0 || t[2 + n] != ']'))
  {
    var hits := LinkHits(s);
    var d := SkipWhile(s, i + 2, Digit);
    DigitsCopied(s, i + 2);
    if d < |s| {
      LinkFirstChar(s, d);
    }
    assert hits[i + 1].None?;
    CopiedRun(s, hits, i, d);
    n := d - (i + 2);
  }

  /** A copied `[[` followed by digits that no `]` closes is no link either. */
  lemma NoAnchorBeforeDigits(s: string, i: nat)
    requires i + 1 < |s| && s[i + 1] == '[' && MarkerAt(s, i + 1).None?
    ensures AnchorDigits([s[i]] + ReplaceFrom(s, LinkHits(s), i + 1)) == None
  {
    var n := CopiedDigits(s, i);
    AnchorNeedsClose([s[i]] + ReplaceFrom(s, LinkHits(s), i + 1), 2 + n);
  }

  /** Where the pass copies a character, no link can be read there. */
  lemma NoSpuriousAnchor(s: string, i: nat)
    requires i < |s| && MarkerAt(s, i).None?
    ensures AnchorDigits([s[i]] + ReplaceFrom(s, LinkHits(s), i + 1)) == None
  {
    if s[i] == '[' && i + 1 < |s| {
      LinkFirstChar(s, i + 1);
      if s[i + 1] == '[' {
        match MarkerAt(s, i + 1)
        case Some(d) => NoAnchorBeforeLink(s, i, d);
        case None => NoAnchorBeforeDigits(s, i);
      }
    }
  }

  /** A link at the start of a text reads back as its citation. */
  lemma UnlinkifyAnchor(num: string, rest: string)
    requires num != [] && forall k :: 0 <= k < |num| ==> IsDigit(num[k])
    ensures Unlinkify(Anchor(num) + rest) == "[" + num + "]" + Unlinkify(rest)
  {
    AnchorDigitsOf(num, rest);
    assert (Anchor(num) + rest)[|Anchor(num)|..] == rest;
  }

  /** A character that starts no link reads back as itself. */
  lemma UnlinkifyCopy(c: char, rest: string)
    requires AnchorDigits([c] + rest) == None
    ensures Unlinkify([c] + rest) == [c] + Unlinkify(rest)
  {
    assert ([c] + rest)[1..] == rest;
  }

  /** At a citation the pass emits its link and resumes after the `]`. */
  lemma LinkStep(s: string, i: nat, d: nat)
    requires i < |s| && MarkerAt(s, i).Some? && MarkerAt(s, i).value == d
    ensures ReplaceFrom(s, LinkHits(s), i) == Anchor(s[i + 1..d]) + ReplaceFrom(s, LinkHits(s), d + 1)
  {
    var hits := LinkHits(s);
    assert hits[i] == LinkHitAt(s, i);
    ReplaceAtHitTo(s, hits, i, Anchor(s[i + 1..d]), d + 1);
  }

  /** Elsewhere it copies the character. */
  lemma CopyStep(s: string, i: nat)
    requires i < |s| && MarkerAt(s, i).None?
    ensures ReplaceFrom(s, LinkHits(s), i) == [s[i]] + ReplaceFrom(s, LinkHits(s), i + 1)
  {
    var hits := LinkHits(s);
    assert hits[i] == LinkHitAt(s, i);
    ReplaceAtCopy(s, hits, i);
  }

  /** A citation is its brackets around its digits. */
  lemma CitationParts(s: string, i: nat, d: nat)
    requires i < d < |s| && s[i] == '[' && s[d] == ']'
    ensures s[i..] == "[" + s[i + 1..d] + "]" + s[d + 1..]
  {
    assert s[i..] == [s[i]] + s[i + 1..d] + [s[d]] + s[d + 1..];
  }

  /** The output of the pass from `i` on reads back as the text from `i` on. */
  predicate ReadsBack(s: string, i: nat) {
    i <= |s| && Unlinkify(ReplaceFrom(s, LinkHits(s), i)) == s[i..]
  }

  /** A citation and the text after it read back from their links. */
  lemma UnlinkifyLink(s: string, i: nat, d: nat)
    requires i < |s| && MarkerAt(s, i).Some? && MarkerAt(s, i).value == d
    requires ReadsBack(s, d + 1)
    ensures ReadsBack(s, i)
  {
    var num, rest := s[i + 1..d], ReplaceFrom(s, LinkHits(s), d + 1);
    MarkerDigits(s, i);
    LinkStep(s, i, d);
    UnlinkifyAnchor(num, rest);
    CitationParts(s, i, d);
  }

  /** A copied character and the text after it read back from their links. */
  lemma UnlinkifyCopied(s: string, i: nat)
    requires i < |s| && MarkerAt(s, i).None?
    requires ReadsBack(s, i + 1)
    ensures ReadsBack(s, i)
  {
    var rest := ReplaceFrom(s, LinkHits(s), i + 1);
    CopyStep(s, i);
    NoSpuriousAnchor(s, i);
    UnlinkifyCopy(s[i], rest);
    assert s[i..] == [s[i]] + s[i + 1..];
  }

  /** The empty end of the text reads back trivially. */
  lemma ReadsBackAtEnd(s: string)
    ensures ReadsBack(s, |s|)
  {
    assert ReplaceFrom(s, LinkHits(s), |s|) == [];
  }

  /** Reading the links back gives the original text: from every index on,
      the links undo exactly the citations the pass replaced. The proof walks
      down from the end, each step leaning on an index already done. */
  lemma UnlinkifyFrom(s: string)
    ensures forall k :: 0 <= k <= |s| ==> ReadsBack(s, k)
  {
    ReadsBackAtEnd(s);
    var j := |s|;
    while j > 0
      invariant 0 <= j <= |s|
      invariant forall k :: j <= k <= |s| ==> ReadsBack(s, k)
    {
      j := j - 1;
      if MarkerAt(s, j).Some? {
        UnlinkifyLink(s, j, MarkerAt(s, j).value);
      } else {
        UnlinkifyCopied(s, j);
      }
    }
  }

  /** The citation pass loses nothing: reading its links back gives the text it started from. */
  lemma LinkifyRoundTrip(s: string)
    ensures Unlinkify(Linkify(s)) == s
  {
    UnlinkifyFrom(s);
    assert ReadsBack(s, 0);
  }

  /** The pass changes the text exactly when it contains a citation, and never shortens it. */
  lemma LinkifyUnchangedIff(s: string)
    ensures |Linkify(s)| >= |s|
    ensures Linkify(s) == s <==> forall i :: 0 <= i < |s| ==> MarkerAt(s, i).None?
  {
    var hits := LinkHits(s);
    forall i | 0 <= i < |s| && hits[i].Some?
      ensures |hits[i].value.text| > hits[i].value.end - i
    {
      var d := MarkerAt(s, i).value;
      assert |s[i + 1..d]| == d - i - 1;
    }
    forall i | 0 <= i < |s|
      ensures hits[i].None? <==> MarkerAt(s, i).None?
    {
    }
    InsertGrows(s, hits, 0);
    UnchangedIffNoHits(s, hits);
  }
}
