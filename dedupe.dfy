/**
 * The first-seen deduplication loop that all three scripts repeat: walk the
 * records, skip those that fail a site's field test, compute each remaining
 * record's key, and keep a record only when its key has not been seen
 * before. Computing a key can fail (the scripts index past the end of a
 * tuple and raise IndexError), which aborts the whole pass.
 *
 * Everything here is generic in the record type `R`, the key type `K`, the
 * site's field test `eligible` and its key function `keyOf`; the call sites
 * in CheckFw, SearchDhcp and UserToMachine supply them.
 */
module FirstSeen {
  import opened Wrappers

  /** What `tuple(...)[i]` raises when a record has too few fields. */
  datatype DedupeError = IndexError

  /** Some record the loop reaches has no key, so the pass raises IndexError. */
  predicate RaisesIndexError<R, K>(rs: seq<R>, eligible: R -> bool, keyOf: R -> Option<K>)
  {
    exists i | 0 <= i < |rs| :: eligible(rs[i]) && keyOf(rs[i]).None?
  }

  /**
   * Record `i` is the first eligible record with its key: no eligible record
   * before it has the same key.
   */
  predicate IsFirstOfKey<R, K(==)>(rs: seq<R>, eligible: R -> bool, keyOf: R -> Option<K>, i: nat)
    requires i < |rs|
  {
    && eligible(rs[i])
    && forall j | 0 <= j < i && eligible(rs[j]) :: keyOf(rs[j]) != keyOf(rs[i])
  }

  /** The indices below `n` that are first of their key, in increasing order. */
  function KeptIndices<R, K(==)>(rs: seq<R>, eligible: R -> bool, keyOf: R -> Option<K>, n: nat): (idx: seq<nat>)
    requires n <= |rs|
    ensures |idx| <= n
    ensures forall k | 0 <= k < |idx| :: idx[k] < n
    ensures forall k, l | 0 <= k < l < |idx| :: idx[k] < idx[l]
    ensures forall i | 0 <= i < n :: i in idx <==> IsFirstOfKey(rs, eligible, keyOf, i)
  {
    if n == 0 then []
    else
      var prev := KeptIndices(rs, eligible, keyOf, n - 1);
      var idx := prev + (if IsFirstOfKey(rs, eligible, keyOf, n - 1) then [n - 1] else []);
      assert forall i | 0 <= i < n - 1 :: i in idx <==> i in prev;
      idx
  }

  /** The elements at the given indices, in that order. */
  function Pick<R>(rs: seq<R>, idx: seq<nat>): (out: seq<R>)
    requires forall k | 0 <= k < |idx| :: idx[k] < |rs|
    ensures |out| == |idx|
  {
    seq(|idx|, k requires 0 <= k < |idx| => rs[idx[k]])
  }

  /** Every record that is first of its key, in input order. */
  function FirstOccurrences<R, K(==)>(rs: seq<R>, eligible: R -> bool, keyOf: R -> Option<K>): seq<R>
  {
    Pick(rs, KeptIndices(rs, eligible, keyOf, |rs|))
  }

  /** What a site's dedupe function returns, or the IndexError it raises. */
  function Dedupe<R, K(==)>(rs: seq<R>, eligible: R -> bool, keyOf: R -> Option<K>): Result<seq<R>, DedupeError>
  {
    if RaisesIndexError(rs, eligible, keyOf) then Failure(IndexError)
    else Success(FirstOccurrences(rs, eligible, keyOf))
  }

  // ---------------------------------------------------------------------------
  // The loop
  // ---------------------------------------------------------------------------

  /** The keys of the eligible records below `n`: the loop's seen-set after `n` records. */
  function SeenKeys<R, K>(rs: seq<R>, eligible: R -> bool, keyOf: R -> Option<K>, n: nat): set<K>
    requires n <= |rs|
  {
    if n == 0 then {}
    else
      var k := keyOf(rs[n - 1]);
      SeenKeys(rs, eligible, keyOf, n - 1) + (if eligible(rs[n - 1]) && k.Some? then {k.value} else {})
  }

  lemma {:induction false} SeenKeysMembers<R, K>(rs: seq<R>, eligible: R -> bool, keyOf: R -> Option<K>, n: nat, k: K)
    requires n <= |rs|
    ensures k in SeenKeys(rs, eligible, keyOf, n) <==>
            exists j | 0 <= j < n :: eligible(rs[j]) && keyOf(rs[j]) == Some(k)
  {
    if n > 0 {
      SeenKeysMembers(rs, eligible, keyOf, n - 1, k);
    }
  }

  /** A record is first of its key exactly when its key is not among those seen before it. */
  lemma FirstOfKeyIffUnseen<R, K>(rs: seq<R>, eligible: R -> bool, keyOf: R -> Option<K>, i: nat)
    requires i < |rs| && eligible(rs[i]) && keyOf(rs[i]).Some?
    ensures IsFirstOfKey(rs, eligible, keyOf, i) <==> keyOf(rs[i]).value !in SeenKeys(rs, eligible, keyOf, i)
  {
    SeenKeysMembers(rs, eligible, keyOf, i, keyOf(rs[i]).value);
  }

  lemma PickAppend<R>(rs: seq<R>, idx: seq<nat>, i: nat)
    requires forall k | 0 <= k < |idx| :: idx[k] < |rs|
    requires i < |rs|
    ensures Pick(rs, idx + [i]) == Pick(rs, idx) + [rs[i]]
  {
  }

  /**
   * The scripts' loop: a set of seen keys and a list of kept records, built
   * one record at a time; the first record without a key aborts it.
   */
  method DedupeLogs<R, K(==)>(logs: seq<R>, eligible: R -> bool, keyOf: R -> Option<K>)
    returns (result: Result<seq<R>, DedupeError>)
    ensures result == Dedupe(logs, eligible, keyOf)
  {
    var seen: set<K> := {};
    var nodupes: seq<R> := [];
    for i := 0 to |logs|
      invariant forall j | 0 <= j < i && eligible(logs[j]) :: keyOf(logs[j]).Some?
      invariant seen == SeenKeys(logs, eligible, keyOf, i)
      invariant nodupes == Pick(logs, KeptIndices(logs, eligible, keyOf, i))
    {
      var x := logs[i];
      if eligible(x) {
        var y := keyOf(x);
        if y.None? {
          assert RaisesIndexError(logs, eligible, keyOf);
          return Failure(IndexError);
        }
        FirstOfKeyIffUnseen(logs, eligible, keyOf, i);
        if y.value !in seen {
          PickAppend(logs, KeptIndices(logs, eligible, keyOf, i), i);
          seen := seen + {y.value};
          nodupes := nodupes + [x];
        }
      }
    }
    result := Success(nodupes);
  }

  // ---------------------------------------------------------------------------
  // What the kept list is
  // ---------------------------------------------------------------------------

  /** `xs` can be obtained from `ys` by deleting elements. */
  ghost predicate IsSubsequence<T>(xs: seq<T>, ys: seq<T>)
    decreases |ys|
  {
    if xs == [] then true
    else if ys == [] then false
    else (xs[0] == ys[0] && IsSubsequence(xs[1..], ys[1..])) || IsSubsequence(xs, ys[1..])
  }

  lemma {:induction false} PickIsSubsequence<R>(rs: seq<R>, idx: seq<nat>)
    requires forall k | 0 <= k < |idx| :: idx[k] < |rs|
    requires forall k, l | 0 <= k < l < |idx| :: idx[k] < idx[l]
    ensures IsSubsequence(Pick(rs, idx), rs)
    decreases |rs|
  {
    if idx != [] {
      assert idx[0] < |rs|;
      if idx[0] == 0 {
        var rest := seq(|idx| - 1, k requires 0 <= k < |idx| - 1 => idx[k + 1] - 1);
        assert forall k | 1 <= k < |idx| :: idx[0] < idx[k];
        PickIsSubsequence(rs[1..], rest);
        assert Pick(rs[1..], rest) == Pick(rs, idx)[1..];
      } else {
        var shifted := seq(|idx|, k requires 0 <= k < |idx| => idx[k] - 1);
        assert forall k | 0 <= k < |idx| :: idx[0] <= idx[k];
        PickIsSubsequence(rs[1..], shifted);
        assert Pick(rs[1..], shifted) == Pick(rs, idx);
      }
    }
  }

  /** The kept records are the input with some records deleted, in their original order. */
  lemma DedupeIsSubsequence<R, K>(rs: seq<R>, eligible: R -> bool, keyOf: R -> Option<K>)
    requires Dedupe(rs, eligible, keyOf).Success?
    ensures var out := Dedupe(rs, eligible, keyOf).value;
      IsSubsequence(out, rs) && |out| <= |rs|
  {
    PickIsSubsequence(rs, KeptIndices(rs, eligible, keyOf, |rs|));
  }

  /** Every kept record passed the field test, has a key, and no two kept records share a key. */
  lemma DedupeKeysDistinct<R, K>(rs: seq<R>, eligible: R -> bool, keyOf: R -> Option<K>)
    requires Dedupe(rs, eligible, keyOf).Success?
    ensures var out := Dedupe(rs, eligible, keyOf).value;
      && (forall k | 0 <= k < |out| :: eligible(out[k]) && keyOf(out[k]).Some?)
      && (forall k, l | 0 <= k < l < |out| :: keyOf(out[k]) != keyOf(out[l]))
  {
    var idx := KeptIndices(rs, eligible, keyOf, |rs|);
    var out := Dedupe(rs, eligible, keyOf).value;
    forall k | 0 <= k < |out|
      ensures eligible(out[k]) && keyOf(out[k]).Some?
    {
      assert idx[k] in idx;
    }
    forall k, l | 0 <= k < l < |out|
      ensures keyOf(out[k]) != keyOf(out[l])
    {
      assert idx[k] in idx && idx[l] in idx;
      assert IsFirstOfKey(rs, eligible, keyOf, idx[l]);
    }
  }

  /** Every eligible record has a first occurrence of its key at or before it. */
  lemma {:induction false} FirstOfKeyExists<R, K>(rs: seq<R>, eligible: R -> bool, keyOf: R -> Option<K>, i: nat)
    returns (j: nat)
    requires i < |rs| && eligible(rs[i])
    ensures j <= i && IsFirstOfKey(rs, eligible, keyOf, j) && keyOf(rs[j]) == keyOf(rs[i])
    decreases i
  {
    if IsFirstOfKey(rs, eligible, keyOf, i) {
      j := i;
    } else {
      var earlier :| 0 <= earlier < i && eligible(rs[earlier]) && keyOf(rs[earlier]) == keyOf(rs[i]);
      j := FirstOfKeyExists(rs, eligible, keyOf, earlier);
    }
  }

  /**
   * No key is lost: for every eligible input record, the first record with
   * its key (at or before it) is among the kept ones.
   */
  lemma DedupeKeepsFirstOfEveryKey<R, K>(rs: seq<R>, eligible: R -> bool, keyOf: R -> Option<K>)
    requires Dedupe(rs, eligible, keyOf).Success?
    ensures var out := Dedupe(rs, eligible, keyOf).value;
      forall i | 0 <= i < |rs| && eligible(rs[i]) ::
        exists j | 0 <= j <= i :: keyOf(rs[j]) == keyOf(rs[i]) && IsFirstOfKey(rs, eligible, keyOf, j) && rs[j] in out
  {
    var idx := KeptIndices(rs, eligible, keyOf, |rs|);
    var out := Dedupe(rs, eligible, keyOf).value;
    forall i | 0 <= i < |rs| && eligible(rs[i])
      ensures exists j | 0 <= j <= i :: keyOf(rs[j]) == keyOf(rs[i]) && IsFirstOfKey(rs, eligible, keyOf, j) && rs[j] in out
    {
      var j := FirstOfKeyExists(rs, eligible, keyOf, i);
      assert j in idx;
      var k :| 0 <= k < |idx| && idx[k] == j;
      assert out[k] == rs[j];
    }
  }

  /** A list whose records all pass the test and have pairwise distinct keys is kept whole. */
  lemma {:induction false} DistinctKeysKeptWhole<R, K>(xs: seq<R>, eligible: R -> bool, keyOf: R -> Option<K>, n: nat)
    requires n <= |xs|
    requires forall k | 0 <= k < |xs| :: eligible(xs[k]) && keyOf(xs[k]).Some?
    requires forall k, l | 0 <= k < l < |xs| :: keyOf(xs[k]) != keyOf(xs[l])
    ensures KeptIndices(xs, eligible, keyOf, n) == seq(n, i requires 0 <= i < n => i)
  {
    if n > 0 {
      DistinctKeysKeptWhole(xs, eligible, keyOf, n - 1);
      assert IsFirstOfKey(xs, eligible, keyOf, n - 1);
    }
  }

  /** Deduplicating an already deduplicated list changes nothing. */
  lemma DedupeIdempotent<R, K>(rs: seq<R>, eligible: R -> bool, keyOf: R -> Option<K>)
    requires Dedupe(rs, eligible, keyOf).Success?
    ensures var out := Dedupe(rs, eligible, keyOf).value;
      Dedupe(out, eligible, keyOf) == Success(out)
  {
    var out := Dedupe(rs, eligible, keyOf).value;
    DedupeKeysDistinct(rs, eligible, keyOf);
    DistinctKeysKeptWhole(out, eligible, keyOf, |out|);
    assert Pick(out, seq(|out|, i requires 0 <= i < |out| => i)) == out;
  }
}
