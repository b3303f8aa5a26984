/** The option shuffler of `quiz-app/src/utils/helpers.js`.

    The source sorts a copy of the array with a random comparator. Whatever
    the comparator answers, a comparison sort only rearranges elements, and
    every rearrangement is a product of transpositions. The random choices
    are therefore modelled as an explicit list of swaps: each outcome of the
    source's shuffle is `Shuffle(xs, swaps)` for some `swaps`, and nothing is
    claimed about which outcome is likely. */
module Helpers {

  /** Exchanges the elements at `i` and `j`; indices outside `xs` leave it as it is. */
  function Swap<T>(xs: seq<T>, i: nat, j: nat): (r: seq<T>)
    ensures |r| == |xs|
    ensures multiset(r) == multiset(xs)
    ensures i < |xs| && j < |xs| ==> r[i] == xs[j] && r[j] == xs[i]
    ensures forall k :: 0 <= k < |xs| && k != i && k != j ==> r[k] == xs[k]
  {
    if i < |xs| && j < |xs| then xs[i := xs[j]][j := xs[i]] else xs
  }

  /** Applies the swaps left to right: the order chosen by one random sort. */
  function Shuffle<T>(xs: seq<T>, swaps: seq<(nat, nat)>): (r: seq<T>)
    ensures |r| == |xs|
    ensures multiset(r) == multiset(xs)
    decreases |swaps|
  {
    if |swaps| == 0 then xs
    else Shuffle(Swap(xs, swaps[0].0, swaps[0].1), swaps[1..])
  }

  /** A shuffled sequence holds exactly the elements it started with. */
  lemma ShuffleKeepsElements<T>(xs: seq<T>, swaps: seq<(nat, nat)>, x: T)
    ensures x in Shuffle(xs, swaps) <==> x in xs
  {
    assert x in xs <==> x in multiset(xs);
    assert x in Shuffle(xs, swaps) <==> x in multiset(Shuffle(xs, swaps));
  }

  /** Every rearrangement of `xs` is the outcome of some list of swaps, so
      modelling the random sort by swaps leaves no outcome out. */
  lemma EveryPermutationIsAShuffle<T>(xs: seq<T>, ys: seq<T>)
    requires multiset(ys) == multiset(xs)
    ensures exists swaps :: Shuffle(xs, swaps) == ys
  {
    assert |ys| == |multiset(ys)| == |multiset(xs)| == |xs|;
    assert xs == xs[0..];
    assert ys == ys[0..];
    ShuffleReachesFrom(xs, ys, 0);
  }

  /** Selection by swaps: when `xs` already agrees with `ys` below `k` and
      holds the same elements from `k` on, swapping the wanted element into
      place at each position reaches `ys`. */
  lemma {:induction false} ShuffleReachesFrom<T>(xs: seq<T>, ys: seq<T>, k: nat)
    requires |xs| == |ys| && k <= |xs|
    requires xs[..k] == ys[..k]
    requires multiset(xs[k..]) == multiset(ys[k..])
    ensures exists swaps :: Shuffle(xs, swaps) == ys
    decreases |xs| - k
  {
    if k == |xs| {
      assert xs == xs[..k] && ys == ys[..k];
      assert Shuffle(xs, []) == ys;
    } else {
      var j := FindInSuffix(xs, ys[k], k);
      SwapIntoPlace(xs, ys, k, j);
      var next := Swap(xs, k, j);
      ShuffleReachesFrom(next, ys, k + 1);
      var rest :| Shuffle(next, rest) == ys;
      var swaps := [(k, j)] + rest;
      assert swaps[1..] == rest;
      assert Shuffle(xs, swaps) == ys;
    }
  }

  /** A position at or after `k` holding `x`, given that `x` occurs there. */
  lemma FindInSuffix<T>(xs: seq<T>, x: T, k: nat) returns (j: nat)
    requires k <= |xs| && x in multiset(xs[k..])
    ensures k <= j < |xs| && xs[j] == x
  {
    assert x in xs[k..];
    var t :| 0 <= t < |xs[k..]| && xs[k..][t] == x;
    j := k + t;
  }

  /** Swapping the wanted element into position `k` extends the agreeing
      prefix by one and keeps the remaining elements the same. */
  lemma SwapIntoPlace<T>(xs: seq<T>, ys: seq<T>, k: nat, j: nat)
    requires |xs| == |ys| && k <= j < |xs|
    requires xs[..k] == ys[..k]
    requires multiset(xs[k..]) == multiset(ys[k..])
    requires xs[j] == ys[k]
    ensures Swap(xs, k, j)[..k + 1] == ys[..k + 1]
    ensures multiset(Swap(xs, k, j)[k + 1..]) == multiset(ys[k + 1..])
  {
    var next := Swap(xs, k, j);
    SwapKeepsPrefix(xs, k, j);
    assert next[..k + 1] == next[..k] + [next[k]];
    assert ys[..k + 1] == ys[..k] + [ys[k]];
    SwapKeepsSuffixElements(xs, k, j);
    MultisetFrom(next, k);
    MultisetFrom(ys, k);
    assert next[k] == ys[k];
    assert multiset(next[k + 1..]) == multiset(next[k..]) - multiset{ys[k]};
  }

  /** The elements from `k` on are `s[k]` and those after it. */
  lemma MultisetFrom<T>(s: seq<T>, k: nat)
    requires k < |s|
    ensures multiset(s[k..]) == multiset{s[k]} + multiset(s[k + 1..])
  {
    assert s[k..] == [s[k]] + s[k + 1..];
  }

  /** A swap at or after `k` leaves the prefix before `k` alone. */
  lemma SwapKeepsPrefix<T>(xs: seq<T>, k: nat, j: nat)
    requires k <= j < |xs|
    ensures Swap(xs, k, j)[..k] == xs[..k]
  {
  }

  /** A swap at or after `k` keeps the elements from `k` on. */
  lemma SwapKeepsSuffixElements<T>(xs: seq<T>, k: nat, j: nat)
    requires k <= j < |xs|
    ensures multiset(Swap(xs, k, j)[k..]) == multiset(xs[k..])
  {
    assert Swap(xs, k, j)[k..] == Swap(xs[k..], 0, j - k);
  }
}
