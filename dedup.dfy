/**
 * First-occurrence de-duplication under a key. Both the source list of the
 * formatter (a seen-set of normalised URLs) and the competitor list of the
 * backend (`list(dict.fromkeys(...))`, where the key is the element itself)
 * keep the first element bearing each key and drop every later one.
 */
module Dedup {

  /** The keys borne by the elements of `xs`. */
  function KeySet<T, K(==)>(xs: seq<T>, key: T -> K): set<K> {
    set i | 0 <= i < |xs| :: key(xs[i])
  }

  /** `xs` with every element dropped whose key an earlier element already bears. */
  function DedupBy<T, K(==)>(xs: seq<T>, key: T -> K): seq<T> {
    if xs == [] then []
    else
      var init := xs[..|xs| - 1];
      var last := xs[|xs| - 1];
      if key(last) in KeySet(init, key) then DedupBy(init, key) else DedupBy(init, key) + [last]
  }

  /** No two elements of `r` share a key. */
  ghost predicate DistinctKeys<T, K>(r: seq<T>, key: T -> K) {
    forall i, j :: 0 <= i < j < |r| ==> key(r[i]) != key(r[j])
  }

  /** `idx` places `r` inside `xs` in order, and each place is the first
      position of `xs` that bears its key. */
  ghost predicate FirstOccurrenceEmbedding<T, K>(r: seq<T>, xs: seq<T>, key: T -> K, idx: seq<nat>) {
    && |idx| == |r|
    && (forall j :: 0 <= j < |idx| ==> idx[j] < |xs| && xs[idx[j]] == r[j])
    && (forall j, k :: 0 <= j < k < |idx| ==> idx[j] < idx[k])
    && (forall j :: 0 <= j < |idx| ==> key(r[j]) !in KeySet(xs[..idx[j]], key))
  }

  lemma KeySetSnoc<T, K>(xs: seq<T>, x: T, key: T -> K)
    ensures KeySet(xs + [x], key) == KeySet(xs, key) + {key(x)}
  {
    var ys := xs + [x];
    assert forall i :: 0 <= i < |xs| ==> ys[i] == xs[i];
    assert ys[|xs|] == x;
  }

  /** One step of a seen-set loop over `xs`: after the element at `i` the
      seen keys gain its key, and it is kept exactly when its key is new. */
  lemma DedupStep<T, K>(xs: seq<T>, i: nat, key: T -> K, seen: set<K>, unique: seq<T>, k: K)
    requires i < |xs| && seen == KeySet(xs[..i], key) && unique == DedupBy(xs[..i], key) && k == key(xs[i])
    ensures KeySet(xs[..i + 1], key) == seen + {k}
    ensures k in seen ==> DedupBy(xs[..i + 1], key) == unique
    ensures k !in seen ==> DedupBy(xs[..i + 1], key) == unique + [xs[i]]
  {
    var ys := xs[..i + 1];
    assert ys[..|ys| - 1] == xs[..i];
    assert ys[|ys| - 1] == xs[i];
    KeySetSnoc(xs[..i], xs[i], key);
    assert ys == xs[..i] + [xs[i]];
  }

  /** Every key of the input is still borne by some kept element. */
  lemma {:induction false} DedupKeepsEveryKey<T, K>(xs: seq<T>, key: T -> K)
    ensures KeySet(DedupBy(xs, key), key) == KeySet(xs, key)
  {
    if xs != [] {
      var init, last := xs[..|xs| - 1], xs[|xs| - 1];
      assert xs == init + [last];
      DedupKeepsEveryKey(init, key);
      KeySetSnoc(init, last, key);
      if key(last) !in KeySet(init, key) {
        KeySetSnoc(DedupBy(init, key), last, key);
      }
    }
  }

  /** The kept elements bear pairwise distinct keys. */
  lemma {:induction false} DedupDistinctKeys<T, K>(xs: seq<T>, key: T -> K)
    ensures DistinctKeys(DedupBy(xs, key), key)
  {
    if xs != [] {
      var init, last := xs[..|xs| - 1], xs[|xs| - 1];
      DedupDistinctKeys(init, key);
      if key(last) !in KeySet(init, key) {
        DedupKeepsEveryKey(init, key);
        var kept := DedupBy(init, key);
        var r := kept + [last];
        forall i, j | 0 <= i < j < |r| ensures key(r[i]) != key(r[j]) {
          if j == |kept| {
            assert key(r[i]) in KeySet(kept, key);
          }
        }
      }
    }
  }

  /** The kept elements appear in the input in the same order, each at the
      first position bearing its key. */
  lemma {:induction false} DedupFirstOccurrences<T, K>(xs: seq<T>, key: T -> K)
    ensures exists idx :: FirstOccurrenceEmbedding(DedupBy(xs, key), xs, key, idx)
  {
    if xs != [] {
      var init, last := xs[..|xs| - 1], xs[|xs| - 1];
      DedupFirstOccurrences(init, key);
      var kept := DedupBy(init, key);
      var idx: seq<nat> :| FirstOccurrenceEmbedding(kept, init, key, idx);
      forall j | 0 <= j < |idx| ensures xs[idx[j]] == init[idx[j]] && xs[..idx[j]] == init[..idx[j]] {
      }
      if key(last) in KeySet(init, key) {
        assert DedupBy(xs, key) == kept;
        assert FirstOccurrenceEmbedding(kept, xs, key, idx);
      } else {
        var idx' := idx + [|xs| - 1];
        assert xs[..|xs| - 1] == init;
        assert DedupBy(xs, key) == kept + [last];
        assert FirstOccurrenceEmbedding(kept + [last], xs, key, idx');
      }
    } else {
      assert DedupBy(xs, key) == [];
      assert FirstOccurrenceEmbedding([], xs, key, []);
    }
  }

  /** The output is never longer than the input, and is empty only when the input is. */
  lemma {:induction false} DedupLength<T, K>(xs: seq<T>, key: T -> K)
    ensures |DedupBy(xs, key)| <= |xs|
    ensures |DedupBy(xs, key)| == 0 <==> |xs| == 0
  {
    if xs != [] {
      DedupLength(xs[..|xs| - 1], key);
      DedupKeepsEveryKey(xs, key);
      assert key(xs[0]) in KeySet(xs, key);
    }
  }
}
