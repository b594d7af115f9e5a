/**
 * Sequence helpers shared by the controllers: order-preserving de-duplication (the
 * `[...new Set(xs)]` idiom and the `seen`-set filter of `removeDuplicates`), and
 * `slice(0, n)`.
 */
module Collections {
  import opened Wrappers

  /** The keys of the elements of `s`. */
  function KeySet<T, K(==)>(s: seq<T>, key: T -> K): set<K> {
    set i | 0 <= i < |s| :: key(s[i])
  }

  /** No two elements of `s` share a key. */
  predicate UniqueKeys<T, K(==)>(s: seq<T>, key: T -> K) {
    forall i, j :: 0 <= i < j < |s| ==> key(s[i]) != key(s[j])
  }

  /** Position of the first element of `s` whose key is `x`. */
  function FirstIndex<T, K(==)>(s: seq<T>, key: T -> K, x: K): (i: nat)
    requires x in KeySet(s, key)
    ensures i < |s| && key(s[i]) == x
    ensures forall j :: 0 <= j < i ==> key(s[j]) != x
  {
    if key(s[0]) == x then 0
    else
      assert x in KeySet(s[1..], key) by {
        var k :| 0 <= k < |s| && key(s[k]) == x;
        assert s[1..][k - 1] == s[k];
      }
      1 + FirstIndex(s[1..], key, x)
  }

  /**
   * Keeps the first element of each key, in input order. Written from the end, the way a
   * left-to-right loop with a `seen` set builds it.
   */
  function DedupeBy<T, K(==)>(s: seq<T>, key: T -> K): seq<T>
    decreases |s|
  {
    if s == [] then []
    else
      var init := s[..|s| - 1];
      var rest := DedupeBy(init, key);
      if key(s[|s| - 1]) in KeySet(init, key) then rest else rest + [s[|s| - 1]]
  }

  lemma KeySetAppend<T, K>(a: seq<T>, b: seq<T>, key: T -> K)
    ensures KeySet(a + b, key) == KeySet(a, key) + KeySet(b, key)
  {
    var ab := a + b;
    forall x | x in KeySet(ab, key) ensures x in KeySet(a, key) + KeySet(b, key) {
      var i :| 0 <= i < |ab| && key(ab[i]) == x;
      if i >= |a| { assert b[i - |a|] == ab[i]; }
    }
    forall x | x in KeySet(a, key) + KeySet(b, key) ensures x in KeySet(ab, key) {
      if x in KeySet(a, key) {
        var i :| 0 <= i < |a| && key(a[i]) == x;
        assert ab[i] == a[i];
      } else {
        var i :| 0 <= i < |b| && key(b[i]) == x;
        assert ab[|a| + i] == b[i];
      }
    }
  }

  /** The result has no repeated key and the same keys as the input: nothing is lost. */
  lemma {:induction false} DedupeKeys<T, K>(s: seq<T>, key: T -> K)
    ensures UniqueKeys(DedupeBy(s, key), key)
    ensures KeySet(DedupeBy(s, key), key) == KeySet(s, key)
    ensures |DedupeBy(s, key)| <= |s|
  {
    if s != [] {
      var init := s[..|s| - 1];
      assert s == init + [s[|s| - 1]];
      DedupeKeys(init, key);
      KeySetAppend(init, [s[|s| - 1]], key);
      var rest := DedupeBy(init, key);
      if key(s[|s| - 1]) !in KeySet(init, key) {
        KeySetAppend(rest, [s[|s| - 1]], key);
        var r := rest + [s[|s| - 1]];
        forall i, j | 0 <= i < j < |r| ensures key(r[i]) != key(r[j]) {
          if j == |r| - 1 { assert key(r[i]) in KeySet(rest, key) by { assert r[i] == rest[i]; } }
        }
      }
    }
  }

  lemma FirstIndexOfPrefix<T, K>(a: seq<T>, b: seq<T>, key: T -> K, x: K)
    requires x in KeySet(a, key)
    ensures x in KeySet(a + b, key)
    ensures FirstIndex(a + b, key, x) == FirstIndex(a, key, x)
  {
    KeySetAppend(a, b, key);
    var i, j := FirstIndex(a + b, key, x), FirstIndex(a, key, x);
    assert forall k :: 0 <= k <= j ==> (a + b)[k] == a[k];
  }

  /**
   * Each kept element is the first element of the input with its key, and the kept
   * elements appear in the order of those first occurrences.
   */
  lemma {:induction false} DedupeKeepsFirstOccurrences<T, K>(s: seq<T>, key: T -> K)
    ensures forall k :: 0 <= k < |DedupeBy(s, key)| ==>
      key(DedupeBy(s, key)[k]) in KeySet(s, key) &&
      DedupeBy(s, key)[k] == s[FirstIndex(s, key, key(DedupeBy(s, key)[k]))]
    ensures forall k1, k2 :: 0 <= k1 < k2 < |DedupeBy(s, key)| ==>
      key(DedupeBy(s, key)[k1]) in KeySet(s, key) && key(DedupeBy(s, key)[k2]) in KeySet(s, key) &&
      FirstIndex(s, key, key(DedupeBy(s, key)[k1])) < FirstIndex(s, key, key(DedupeBy(s, key)[k2]))
  {
    if s != [] {
      var init, last := s[..|s| - 1], s[|s| - 1];
      assert s == init + [last];
      DedupeKeepsFirstOccurrences(init, key);
      DedupeKeys(init, key);
      var rest := DedupeBy(init, key);
      var r := DedupeBy(s, key);
      forall k | 0 <= k < |rest|
        ensures key(rest[k]) in KeySet(s, key)
        ensures rest[k] == s[FirstIndex(s, key, key(rest[k]))]
        ensures FirstIndex(s, key, key(rest[k])) < |init|
      {
        FirstIndexOfPrefix(init, [last], key, key(rest[k]));
      }
      if key(last) !in KeySet(init, key) {
        KeySetAppend(init, [last], key);
        assert FirstIndex(s, key, key(last)) == |s| - 1 by {
          forall k | 0 <= k < |s| - 1 ensures key(s[k]) != key(last) {
            assert s[k] == init[k];
          }
        }
        forall k | 0 <= k < |r| ensures key(r[k]) in KeySet(s, key) && r[k] == s[FirstIndex(s, key, key(r[k]))] {
          if k < |rest| { assert r[k] == rest[k]; }
        }
        forall k1, k2 | 0 <= k1 < k2 < |r|
          ensures FirstIndex(s, key, key(r[k1])) < FirstIndex(s, key, key(r[k2]))
        {
          assert r[k1] == rest[k1];
          if k2 < |rest| { assert r[k2] == rest[k2]; FirstIndexOfPrefix(init, [last], key, key(rest[k2])); }
          FirstIndexOfPrefix(init, [last], key, key(rest[k1]));
        }
      } else {
        forall k1, k2 | 0 <= k1 < k2 < |r|
          ensures FirstIndex(s, key, key(r[k1])) < FirstIndex(s, key, key(r[k2]))
        {
          FirstIndexOfPrefix(init, [last], key, key(rest[k1]));
          FirstIndexOfPrefix(init, [last], key, key(rest[k2]));
        }
      }
    }
  }

  /** A sequence without repeated keys is left as it is. */
  lemma {:induction false} DedupeOfUnique<T, K>(s: seq<T>, key: T -> K)
    requires UniqueKeys(s, key)
    ensures DedupeBy(s, key) == s
  {
    if s != [] {
      var init := s[..|s| - 1];
      DedupeOfUnique(init, key);
      assert key(s[|s| - 1]) !in KeySet(init, key) by {
        forall i | 0 <= i < |init| ensures key(init[i]) != key(s[|s| - 1]) {
          assert init[i] == s[i];
        }
      }
      assert s == init + [s[|s| - 1]];
    }
  }

  /** De-duplicating twice is de-duplicating once. */
  lemma DedupeIdempotent<T, K>(s: seq<T>, key: T -> K)
    ensures DedupeBy(DedupeBy(s, key), key) == DedupeBy(s, key)
  {
    DedupeKeys(s, key);
    DedupeOfUnique(DedupeBy(s, key), key);
  }

  /** Elements whose keys are already present add nothing. */
  lemma {:induction false} DedupeIgnoresCoveredSuffix<T, K>(a: seq<T>, b: seq<T>, key: T -> K)
    requires KeySet(b, key) <= KeySet(a, key)
    ensures DedupeBy(a + b, key) == DedupeBy(a, key)
  {
    if b == [] {
      assert a + b == a;
    } else {
      var b' := b[..|b| - 1];
      assert (a + b)[..|a + b| - 1] == a + b';
      KeySetAppend(b', [b[|b| - 1]], key);
      assert b == b' + [b[|b| - 1]];
      DedupeIgnoresCoveredSuffix(a, b', key);
      KeySetAppend(a, b', key);
      assert key(b[|b| - 1]) in KeySet(b, key);
    }
  }

  /** De-duplicating a prefix first does not change the final result. */
  lemma {:induction false} DedupeOfDedupedPrefix<T, K>(a: seq<T>, b: seq<T>, key: T -> K)
    ensures DedupeBy(DedupeBy(a, key) + b, key) == DedupeBy(a + b, key)
  {
    var d := DedupeBy(a, key);
    if b == [] {
      assert d + b == d && a + b == a;
      DedupeIdempotent(a, key);
    } else {
      var b' := b[..|b| - 1];
      assert (d + b)[..|d + b| - 1] == d + b';
      assert (a + b)[..|a + b| - 1] == a + b';
      DedupeOfDedupedPrefix(a, b', key);
      DedupeKeys(a, key);
      KeySetAppend(d, b', key);
      KeySetAppend(a, b', key);
    }
  }

  /** What was kept of `a` stays, in place, at the front when more elements are appended. */
  lemma {:induction false} DedupePrefixStable<T, K>(a: seq<T>, b: seq<T>, key: T -> K)
    ensures |DedupeBy(a, key)| <= |DedupeBy(a + b, key)|
    ensures DedupeBy(a + b, key)[..|DedupeBy(a, key)|] == DedupeBy(a, key)
  {
    if b == [] {
      assert a + b == a;
    } else {
      var b' := b[..|b| - 1];
      assert (a + b)[..|a + b| - 1] == a + b';
      DedupePrefixStable(a, b', key);
    }
  }

  /** The identity key: de-duplication by value. */
  function Self<T>(x: T): T { x }

  /** `[...new Set(s)]`: the first occurrence of every value, in order. */
  function Dedupe<T(==)>(s: seq<T>): seq<T> {
    DedupeBy(s, Self)
  }

  lemma KeySetSelf<T>(s: seq<T>)
    ensures KeySet(s, Self) == set x | x in s
  {
    forall x | x in s ensures x in KeySet(s, Self) {
      var i :| 0 <= i < |s| && s[i] == x;
      assert Self(s[i]) == x;
    }
  }

  /** Value-level reading of `DedupeKeys`: same members, none repeated. */
  lemma DedupeMembers<T>(s: seq<T>)
    ensures forall x :: x in Dedupe(s) <==> x in s
    ensures forall i, j :: 0 <= i < j < |Dedupe(s)| ==> Dedupe(s)[i] != Dedupe(s)[j]
  {
    DedupeKeys(s, Self);
    KeySetSelf(s);
    KeySetSelf(Dedupe(s));
    var r := Dedupe(s);
    assert KeySet(r, Self) == KeySet(s, Self);
    forall x ensures x in r <==> x in s {
      assert x in r <==> x in KeySet(r, Self);
      assert x in s <==> x in KeySet(s, Self);
    }
    forall i, j | 0 <= i < j < |r| ensures r[i] != r[j] {
      assert Self(r[i]) != Self(r[j]);
    }
  }

  /**
   * Merging values into an already merged list a second time changes nothing:
   * `[...new Set([...[...new Set([...e, ...n])], ...n])]` equals `[...new Set([...e, ...n])]`.
   */
  lemma MergeTwiceIsMergeOnce<T>(e: seq<T>, n: seq<T>)
    ensures Dedupe(Dedupe(e + n) + n) == Dedupe(e + n)
  {
    DedupeOfDedupedPrefix(e + n, n, Self);
    KeySetAppend(e, n, Self);
    assert (e + n) + n == e + n + n;
    DedupeIgnoresCoveredSuffix(e + n, n, Self);
  }

  /** `s.findIndex(m)` from position `from` on, as an option instead of -1. */
  function FindIndexFrom<T>(s: seq<T>, m: T -> bool, from: nat): (r: Option<nat>)
    requires from <= |s|
    ensures r.Some? ==> from <= r.value < |s| && m(s[r.value])
    ensures r.Some? ==> forall k :: from <= k < r.value ==> !m(s[k])
    ensures r.None? ==> forall k :: from <= k < |s| ==> !m(s[k])
    decreases |s| - from
  {
    if from == |s| then None
    else if m(s[from]) then Some(from)
    else FindIndexFrom(s, m, from + 1)
  }

  /** `s.findIndex(m)`: the first position whose element `m` accepts. */
  function FindIndex<T>(s: seq<T>, m: T -> bool): (r: Option<nat>)
    ensures r.Some? ==> r.value < |s| && m(s[r.value]) && forall k :: 0 <= k < r.value ==> !m(s[k])
    ensures r.None? <==> forall k :: 0 <= k < |s| ==> !m(s[k])
  {
    FindIndexFrom(s, m, 0)
  }

  /** `s.slice(0, n)` for `n >= 0`. */
  function Take<T>(s: seq<T>, n: nat): (r: seq<T>)
    ensures |r| <= n && |r| <= |s| && r == s[..|r|]
    ensures |r| == n || r == s
  {
    if n <= |s| then s[..n] else s
  }
}
