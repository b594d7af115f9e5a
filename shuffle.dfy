/**
 * The `shuffleArray` helper (two identical copies): a Fisher–Yates pass from the last
 * position down to 1 on a copy of the input. The values `Math.random()` returns are the
 * parameter `rolls`, consumed one per step, each in [0, 1).
 */
module Shuffle {

  /** Every roll is a value `Math.random()` can return. */
  predicate ValidRolls(rolls: seq<real>) {
    forall k :: 0 <= k < |rolls| ==> 0.0 <= rolls[k] < 1.0
  }

  /** There is one roll for every step of the pass over `n` elements. */
  predicate EnoughRolls(rolls: seq<real>, n: nat) {
    ValidRolls(rolls) && n <= |rolls| + 1
  }

  /** `Math.floor(r * (i + 1))`: always a position in `0..i`. */
  function Pick(r: real, i: nat): (j: nat)
    requires 0.0 <= r < 1.0
    ensures j <= i
  {
    var k := (i + 1) as real;
    var x := r * k;
    assert x < k by { assert (1.0 - r) * k > 0.0; }
    assert x.Floor as real <= x;
    x.Floor
  }

  /** `[a[i], a[j]] = [a[j], a[i]]`. */
  function Swap<T>(a: seq<T>, i: nat, j: nat): seq<T>
    requires i < |a| && j < |a|
  {
    a[i := a[j]][j := a[i]]
  }

  /** The steps for positions `i` down to 1; step `i` uses roll number `|a| - 1 - i`. */
  function ShuffleDown<T>(a: seq<T>, rolls: seq<real>, i: nat): seq<T>
    requires i < |a| && EnoughRolls(rolls, |a|)
    decreases i
  {
    if i == 0 then a else ShuffleDown(Swap(a, i, Pick(rolls[|a| - 1 - i], i)), rolls, i - 1)
  }

  /** What `shuffleArray(s)` returns when `Math.random()` yields `rolls` in turn. */
  function Shuffled<T>(s: seq<T>, rolls: seq<real>): seq<T>
    requires EnoughRolls(rolls, |s|)
  {
    if |s| == 0 then s else ShuffleDown(s, rolls, |s| - 1)
  }

  lemma SwapPermutes<T>(a: seq<T>, i: nat, j: nat)
    requires i < |a| && j < |a|
    ensures |Swap(a, i, j)| == |a|
    ensures multiset(Swap(a, i, j)) == multiset(a)
  {
  }

  lemma {:induction false} ShuffleDownPermutes<T>(a: seq<T>, rolls: seq<real>, i: nat)
    requires i < |a| && EnoughRolls(rolls, |a|)
    ensures |ShuffleDown(a, rolls, i)| == |a|
    ensures multiset(ShuffleDown(a, rolls, i)) == multiset(a)
    decreases i
  {
    if i > 0 {
      var j := Pick(rolls[|a| - 1 - i], i);
      SwapPermutes(a, i, j);
      ShuffleDownPermutes(Swap(a, i, j), rolls, i - 1);
    }
  }

  /** Whatever the random values, the result holds exactly the input's elements. */
  lemma ShuffledIsPermutation<T>(s: seq<T>, rolls: seq<real>)
    requires EnoughRolls(rolls, |s|)
    ensures |Shuffled(s, rolls)| == |s|
    ensures multiset(Shuffled(s, rolls)) == multiset(s)
  {
    if |s| > 0 {
      ShuffleDownPermutes(s, rolls, |s| - 1);
    }
  }

  /** On two elements the single roll decides: below one half they swap, otherwise they stay. */
  lemma ShuffleOfTwo<T>(x: T, y: T)
    ensures Shuffled([x, y], [0.0]) == [y, x]
    ensures Shuffled([x, y], [0.5]) == [x, y]
  {
    assert Pick(0.0, 1) == 0;
    assert Pick(0.5, 1) == 1 by { assert (0.5 * 2.0).Floor == 1; }
  }

  /** `shuffleArray`, in place on a copy of the input. */
  method ShuffleArray<T>(s: seq<T>, rolls: seq<real>) returns (r: seq<T>)
    requires EnoughRolls(rolls, |s|)
    ensures r == Shuffled(s, rolls)
    ensures |r| == |s| && multiset(r) == multiset(s)
  {
    var n := |s|;
    var a := new T[n](k requires 0 <= k < n => s[k]);
    assert a[..] == s;
    if n == 0 {
      return a[..];
    }
    var i := n - 1;
    while i > 0
      invariant 0 <= i < n == a.Length
      invariant ShuffleDown(a[..], rolls, i) == Shuffled(s, rolls)
      decreases i
    {
      var j := Pick(rolls[n - 1 - i], i);
      ghost var before := a[..];
      var t := a[i];
      a[i] := a[j];
      a[j] := t;
      assert a[..] == Swap(before, i, j);
      i := i - 1;
    }
    r := a[..];
    ShuffledIsPermutation(s, rolls);
  }
}
