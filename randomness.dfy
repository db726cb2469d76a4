/** The sketch's random helpers `random_int`, `random_from_array` and
    `shuffle_array`. Every `Math.random()` call becomes a caller-supplied
    real draw in [0, 1), so each helper is a function of its draws. */
module Randomness {

  datatype Option<T> = None | Some(value: T)

  /** What `Math.random()` can return. */
  predicate IsUnitDraw(r: real)
  {
    0.0 <= r < 1.0
  }

  predicate AllUnitDraws(draws: seq<real>)
  {
    forall k :: 0 <= k < |draws| ==> IsUnitDraw(draws[k])
  }

  /** `random_int(a, b)`: `Math.floor(Math.random() * (b - a)) + a`. The upper
      bound is excluded; when b < a the range runs from b up to a, and a is
      reached only by the draw 0. */
  function RandomInt(a: int, b: int, r: real): (k: int)
    requires IsUnitDraw(r)
    ensures a < b ==> a <= k < b
    ensures b <= a ==> b <= k <= a
    ensures b < a && r > 0.0 ==> k < a
    ensures r == 0.0 ==> k == a
  {
    if a < b then
      FloorScaledUp(r, b - a);
      (r * (b - a) as real).Floor + a
    else if a == b then
      assert r * (b - a) as real == 0.0;
      (r * (b - a) as real).Floor + a
    else
      FloorScaledDown(r, a - b);
      (r * (b - a) as real).Floor + a
  }

  /** A unit draw times a positive span floors into [0, span). */
  lemma FloorScaledUp(r: real, n: int)
    requires IsUnitDraw(r) && n > 0
    ensures 0 <= (r * n as real).Floor < n
  {
    MulBounds(r, n as real);
  }

  /** A unit draw times a negative span floors into [-span, 0], and below 0
      unless the draw is 0. */
  lemma FloorScaledDown(r: real, n: int)
    requires IsUnitDraw(r) && n > 0
    ensures -n <= (r * (-n) as real).Floor <= 0
    ensures r > 0.0 ==> (r * (-n) as real).Floor < 0
  {
    MulBounds(r, n as real);
    assert r * (-n) as real == -(r * n as real);
  }

  /** A unit draw scales a non-negative amount down, strictly when both are positive. */
  lemma MulBounds(r: real, n: real)
    requires IsUnitDraw(r) && n >= 0.0
    ensures 0.0 <= r * n <= n
    ensures n > 0.0 ==> r * n < n
    ensures r > 0.0 && n > 0.0 ==> r * n > 0.0
  {
  }

  /** `random_int(a)`, the one-argument form: `random_int(0, a)`. */
  function RandomBelow(n: int, r: real): (k: int)
    requires IsUnitDraw(r)
    ensures 0 < n ==> 0 <= k < n
    ensures n <= 0 ==> n <= k <= 0
  {
    RandomInt(0, n, r)
  }

  /** `random_int()`, the form without arguments: `random_int(0, 1)`, which is
      always 0. */
  function RandomDefault(r: real): (k: int)
    requires IsUnitDraw(r)
    ensures k == 0
  {
    RandomInt(0, 1, r)
  }

  /** The draw that makes `random_int(a, b)` return k. */
  function DrawFor(a: int, b: int, k: int): real
    requires a <= k < b
  {
    (k - a) as real / (b - a) as real
  }

  /** Every value of [a, b) is reached by some draw: the range stated by
      `RandomInt` is exact. */
  lemma RandomIntReachesAll(a: int, b: int, k: int)
    requires a <= k < b
    ensures IsUnitDraw(DrawFor(a, b, k))
    ensures RandomInt(a, b, DrawFor(a, b, k)) == k
  {
    var r := DrawFor(a, b, k);
    var span := (b - a) as real;
    assert r * span == (k - a) as real;
    assert (k - a) as real < span;
  }

  /** `random_from_array(arr)`: `arr[random_int(arr.length - 1)]`. An index
      outside the array reads `undefined`, here `None`. When the array has
      more than one element, its last element is never chosen. */
  function RandomFromArray<T>(arr: seq<T>, r: real): (v: Option<T>)
    requires IsUnitDraw(r)
    ensures v.Some? <==> |arr| > 0
    ensures |arr| == 1 ==> v == Some(arr[0])
    ensures |arr| > 1 ==> v.Some? && v.value in arr[..|arr| - 1]
  {
    var k := RandomBelow(|arr| - 1, r);
    if 0 <= k < |arr| then Some(arr[k]) else None
  }

  /** Any element but the last of an array of two or more is picked by some draw. */
  lemma RandomFromArrayReaches<T>(arr: seq<T>, k: nat)
    requires k < |arr| - 1
    ensures IsUnitDraw(DrawFor(0, |arr| - 1, k))
    ensures RandomFromArray(arr, DrawFor(0, |arr| - 1, k)) == Some(arr[k])
  {
    RandomIntReachesAll(0, |arr| - 1, k);
  }

  function Swap<T>(s: seq<T>, i: nat, j: nat): (t: seq<T>)
    requires i < |s| && j < |s|
    ensures |t| == |s| && t[i] == s[j] && t[j] == s[i]
    ensures forall k :: 0 <= k < |s| && k != i && k != j ==> t[k] == s[k]
  {
    s[i := s[j]][j := s[i]]
  }

  /** The draw that `shuffle_array` uses at index i of an array of length n:
      the loop runs i = n - 1 down to 1 and draws once per step. */
  function DrawIndex(n: nat, i: nat): nat
    requires i < n
  {
    n - 1 - i
  }

  /** What the steps i, i - 1, ..., 1 of `shuffle_array` make of s: step i
      swaps position i with position `floor(draw * (i + 1))`. */
  function ShuffleFrom<T>(s: seq<T>, draws: seq<real>, i: int): (t: seq<T>)
    requires i < |s| && |draws| + 1 >= |s| && AllUnitDraws(draws)
    ensures |t| == |s|
    ensures forall k :: 0 <= k < |s| && k > i ==> t[k] == s[k]
    decreases i
  {
    if i <= 0 then s
    else
      var j := RandomBelow(i + 1, draws[DrawIndex(|s|, i)]);
      ShuffleFrom(Swap(s, i, j), draws, i - 1)
  }

  /** The whole of `shuffle_array` as a function of the array and its draws. */
  function Shuffled<T>(s: seq<T>, draws: seq<real>): (t: seq<T>)
    requires |draws| + 1 >= |s| && AllUnitDraws(draws)
    ensures Permutes(t, s)
  {
    ShuffleFromPermutes(s, draws, |s| - 1);
    ShuffleFrom(s, draws, |s| - 1)
  }

  /** t holds the elements of s, each as often, in some order. */
  ghost predicate Permutes<T>(t: seq<T>, s: seq<T>)
  {
    |t| == |s| && multiset(t) == multiset(s)
  }

  /** A shuffle only reorders: it is a permutation of its input. */
  lemma {:induction false} ShuffleFromPermutes<T>(s: seq<T>, draws: seq<real>, i: int)
    requires i < |s| && |draws| + 1 >= |s| && AllUnitDraws(draws)
    ensures |ShuffleFrom(s, draws, i)| == |s|
    ensures multiset(ShuffleFrom(s, draws, i)) == multiset(s)
    decreases i
  {
    if i > 0 {
      var j := RandomBelow(i + 1, draws[DrawIndex(|s|, i)]);
      var t := Swap(s, i, j);
      SwapPermutes(s, i, j);
      ShuffleFromPermutes(t, draws, i - 1);
    }
  }

  lemma SwapPermutes<T>(s: seq<T>, i: nat, j: nat)
    requires i < |s| && j < |s|
    ensures multiset(Swap(s, i, j)) == multiset(s)
  {
    if i != j {
      var u := s[i := s[j]];
      assert multiset(u) == multiset(s) - multiset{s[i]} + multiset{s[j]};
      assert Swap(s, i, j) == u[j := s[i]];
      assert multiset(u[j := s[i]]) == multiset(u) - multiset{u[j]} + multiset{s[i]};
    }
  }

  /** `shuffle_array(arr)`: Fisher-Yates in place, with `draws[n - 1 - i]`
      standing for the `Math.random()` of step i. */
  method ShuffleArray<T>(a: array<T>, draws: seq<real>)
    requires |draws| + 1 >= a.Length && AllUnitDraws(draws)
    modifies a
    ensures a[..] == Shuffled(old(a[..]), draws)
    ensures multiset(a[..]) == multiset(old(a[..]))
  {
    ghost var original := a[..];
    var i := a.Length - 1;
    while i > 0
      invariant -1 <= i < a.Length
      invariant ShuffleFrom(a[..], draws, i) == Shuffled(original, draws)
    {
      var j := RandomBelow(i + 1, draws[DrawIndex(a.Length, i)]);
      ghost var before := a[..];
      a[i], a[j] := a[j], a[i];
      assert a[..] == Swap(before, i, j);
      i := i - 1;
    }
    ShuffleFromPermutes(original, draws, |original| - 1);
  }
}
