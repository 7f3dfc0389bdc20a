/**
 * JavaScript's `String.prototype.replace` with a global regular expression, as
 * a left-to-right scan over a table of hits. `hits[i]` says whether a match of
 * the pattern starts at index `i` of the ORIGINAL text (anchors and
 * look-aheads are judged there), where it ends and what replaces it. At each
 * index the scan takes the hit, emitting its replacement and resuming at its
 * end, or else copies the character and moves on. Every hit is non-empty, as
 * in all the patterns of the formatter.
 */
module Replace {
  import opened Wrappers
  import opened Text

  /** A match that ends at `end` and is replaced by `text`. */
  datatype Hit = Hit(end: nat, text: string)

  /** One entry per index; a hit at `i` ends after `i` and within the text. */
  predicate ValidHits(s: string, hits: seq<Option<Hit>>) {
    |hits| == |s| && forall i :: 0 <= i < |s| && hits[i].Some? ==> i < hits[i].value.end <= |s|
  }

  /** The result of the global replacement from index `i` on. */
  function ReplaceFrom(s: string, hits: seq<Option<Hit>>, i: nat): string
    requires ValidHits(s, hits) && i <= |s|
    decreases |s| - i
  {
    if i == |s| then []
    else
      match hits[i]
      case Some(h) => h.text + ReplaceFrom(s, hits, h.end)
      case None => [s[i]] + ReplaceFrom(s, hits, i + 1)
  }

  /** One step of the scan at a hit. */
  lemma ReplaceAtHit(s: string, hits: seq<Option<Hit>>, i: nat)
    requires ValidHits(s, hits) && i < |s| && hits[i].Some?
    ensures ReplaceFrom(s, hits, i) == hits[i].value.text + ReplaceFrom(s, hits, hits[i].value.end)
  {
  }

  /** The same step, with the hit's end and replacement named. */
  lemma ReplaceAtHitTo(s: string, hits: seq<Option<Hit>>, i: nat, t: string, e: nat)
    requires ValidHits(s, hits) && i < |s|
    requires hits[i].Some? && hits[i].value.text == t && hits[i].value.end == e
    ensures e <= |s| && ReplaceFrom(s, hits, i) == t + ReplaceFrom(s, hits, e)
  {
  }

  /** One step of the scan where nothing matches. */
  lemma ReplaceAtCopy(s: string, hits: seq<Option<Hit>>, i: nat)
    requires ValidHits(s, hits) && i < |s| && hits[i].None?
    ensures ReplaceFrom(s, hits, i) == [s[i]] + ReplaceFrom(s, hits, i + 1)
  {
  }

  /** With no hit from `k` on, the scan copies the rest of the text. */
  lemma {:induction false} ReplaceNoHits(s: string, hits: seq<Option<Hit>>, k: nat)
    requires ValidHits(s, hits) && k <= |s|
    requires forall i :: k <= i < |s| ==> hits[i].None?
    ensures ReplaceFrom(s, hits, k) == s[k..]
    decreases |s| - k
  {
    if k < |s| {
      ReplaceNoHits(s, hits, k + 1);
      assert s[k..] == [s[k]] + s[k + 1..];
    }
  }

  /** The text before the first hit is copied, the first hit is replaced, and
      the scan resumes at its end. */
  lemma {:induction false} ReplaceFirstHit(s: string, hits: seq<Option<Hit>>, k: nat, j: nat)
    requires ValidHits(s, hits) && k <= j < |s|
    requires forall i :: k <= i < j ==> hits[i].None?
    requires hits[j].Some?
    ensures ReplaceFrom(s, hits, k) == s[k..j] + hits[j].value.text + ReplaceFrom(s, hits, hits[j].value.end)
    decreases j - k
  {
    var h := hits[j].value;
    if k < j {
      ReplaceFirstHit(s, hits, k + 1, j);
      var rest := ReplaceFrom(s, hits, h.end);
      calc {
        ReplaceFrom(s, hits, k);
        [s[k]] + ReplaceFrom(s, hits, k + 1);
        [s[k]] + (s[k + 1..j] + h.text + rest);
        { assert s[k..j] == [s[k]] + s[k + 1..j]; }
        s[k..j] + h.text + rest;
      }
    } else {
      assert s[k..j] == [];
    }
  }

  /** Deleting hits (empty replacements) never lengthens the text, and
      shortens it when a hit lies anywhere from `k` on. */
  lemma {:induction false} DeleteShrinks(s: string, hits: seq<Option<Hit>>, k: nat)
    requires ValidHits(s, hits) && k <= |s|
    requires forall i :: 0 <= i < |s| && hits[i].Some? ==> hits[i].value.text == []
    ensures |ReplaceFrom(s, hits, k)| <= |s| - k
    ensures (exists j :: k <= j < |s| && hits[j].Some?) ==> |ReplaceFrom(s, hits, k)| < |s| - k
    decreases |s| - k
  {
    if k < |s| {
      match hits[k]
      case Some(h) => DeleteShrinks(s, hits, h.end);
      case None =>
        DeleteShrinks(s, hits, k + 1);
        if exists j :: k <= j < |s| && hits[j].Some? {
          var j :| k <= j < |s| && hits[j].Some?;
          assert j != k;
        }
    }
  }

  /** Deleting text adds no character: a character the text lacks from `k` on
      is missing from the result as well. */
  lemma {:induction false} DeleteKeepsAbsent(s: string, hits: seq<Option<Hit>>, k: nat, c: char)
    requires ValidHits(s, hits) && k <= |s|
    requires forall i :: 0 <= i < |s| && hits[i].Some? ==> hits[i].value.text == []
    requires forall j :: k <= j < |s| ==> s[j] != c
    ensures forall m :: 0 <= m < |ReplaceFrom(s, hits, k)| ==> ReplaceFrom(s, hits, k)[m] != c
    decreases |s| - k
  {
    if k < |s| {
      match hits[k]
      case Some(h) => DeleteKeepsAbsent(s, hits, h.end, c);
      case None => DeleteKeepsAbsent(s, hits, k + 1, c);
    }
  }

  /** A stretch without hits is copied as it is. */
  lemma {:induction false} ReplaceCopies(s: string, hits: seq<Option<Hit>>, k: nat, j: nat)
    requires ValidHits(s, hits) && k <= j <= |s|
    requires forall i :: k <= i < j ==> hits[i].None?
    ensures ReplaceFrom(s, hits, k) == s[k..j] + ReplaceFrom(s, hits, j)
    decreases j - k
  {
    if k < j {
      ReplaceCopies(s, hits, k + 1, j);
      var rest := ReplaceFrom(s, hits, j);
      var mid := s[k + 1..j];
      ReplaceAtCopy(s, hits, k);
      calc {
        ReplaceFrom(s, hits, k);
        [s[k]] + ReplaceFrom(s, hits, k + 1);
        [s[k]] + (mid + rest);
        { ConcatAssoc([s[k]], mid, rest); }
        ([s[k]] + mid) + rest;
        { assert s[k..j] == [s[k]] + mid; }
        s[k..j] + rest;
      }
    } else {
      assert s[k..j] == [];
    }
  }

  /** Replacements longer than what they replace never shorten the text, and
      lengthen it when a hit lies anywhere from `k` on. */
  lemma {:induction false} InsertGrows(s: string, hits: seq<Option<Hit>>, k: nat)
    requires ValidHits(s, hits) && k <= |s|
    requires forall i :: 0 <= i < |s| && hits[i].Some? ==> |hits[i].value.text| > hits[i].value.end - i
    ensures |ReplaceFrom(s, hits, k)| >= |s| - k
    ensures (exists j :: k <= j < |s| && hits[j].Some?) ==> |ReplaceFrom(s, hits, k)| > |s| - k
    decreases |s| - k
  {
    if k < |s| {
      match hits[k]
      case Some(h) => InsertGrows(s, hits, h.end);
      case None =>
        InsertGrows(s, hits, k + 1);
        if exists j :: k <= j < |s| && hits[j].Some? {
          var j :| k <= j < |s| && hits[j].Some?;
          assert j != k;
        }
    }
  }

  /** With replacements that change length, the text is unchanged exactly when nothing matched. */
  lemma UnchangedIffNoHits(s: string, hits: seq<Option<Hit>>)
    requires ValidHits(s, hits)
    requires forall i :: 0 <= i < |s| && hits[i].Some? ==> |hits[i].value.text| > hits[i].value.end - i
    ensures ReplaceFrom(s, hits, 0) == s <==> forall i :: 0 <= i < |s| ==> hits[i].None?
  {
    InsertGrows(s, hits, 0);
    if forall i :: 0 <= i < |s| ==> hits[i].None? {
      ReplaceNoHits(s, hits, 0);
    }
  }

  /** A deleting pass whose first hit spans `s[j..e]` keeps the text before
      it, drops the hit and goes on at `e`; with no later hit the rest is kept. */
  lemma CutFirstHit(s: string, hits: seq<Option<Hit>>, j: nat, e: nat)
    requires ValidHits(s, hits) && j < |s|
    requires forall i :: 0 <= i < j ==> hits[i].None?
    requires hits[j].Some? && hits[j].value.text == [] && hits[j].value.end == e
    ensures e <= |s| && ReplaceFrom(s, hits, 0) == s[..j] + ReplaceFrom(s, hits, e)
    ensures (forall i :: e <= i < |s| ==> hits[i].None?) ==> ReplaceFrom(s, hits, 0) == s[..j] + s[e..]
  {
    ReplaceFirstText(s, hits, j, [], e);
    assert s[..j] + [] == s[..j];
    if forall i :: e <= i < |s| ==> hits[i].None? {
      ReplaceNoHits(s, hits, e);
    }
  }

  lemma ReplaceFirstText(s: string, hits: seq<Option<Hit>>, j: nat, t: string, e: nat)
    requires ValidHits(s, hits) && j < |s|
    requires forall i :: 0 <= i < j ==> hits[i].None?
    requires hits[j].Some? && hits[j].value.text == t && hits[j].value.end == e
    ensures e <= |s| && ReplaceFrom(s, hits, 0) == s[..j] + t + ReplaceFrom(s, hits, e)
  {
    ReplaceFirstHit(s, hits, 0, j);
    assert s[0..j] == s[..j];
  }
}
