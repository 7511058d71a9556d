/**
 The answer shuffle of the quiz page, with the randomness made explicit.

 The page permutes the answers with a random comparator. Here the random
 source is a sequence of `picks`: each step takes the answer at position
 `pick` out of the answers still left (the first one when `pick` is past
 the end). Whatever the picks are, the result is a permutation of the
 input, and every permutation is the result of some picks, so the model
 ranges over exactly "any permutation".
 */
module Shuffle {

  /** `xs` without its element at position `k`. */
  function RemoveAt(xs: seq<string>, k: nat): (r: seq<string>)
    requires k < |xs|
    ensures |r| == |xs| - 1
    ensures multiset(r) + multiset{xs[k]} == multiset(xs)
  {
    assert xs == xs[..k] + [xs[k]] + xs[k+1..];
    xs[..k] + xs[k+1..]
  }

  /** The first element of `xs`, or `otherwise` when `xs` is empty (an exhausted random source). */
  function FirstOr<T>(xs: seq<T>, otherwise: T): T {
    if |xs| > 0 then xs[0] else otherwise
  }

  /** `xs` after its first element; empty stays empty. */
  function Rest<T>(xs: seq<T>): seq<T> {
    if |xs| > 0 then xs[1..] else []
  }

  /** Where the next pick points among `n` remaining answers. */
  function PickIndex(picks: seq<nat>, n: nat): (k: nat)
    requires n > 0
    ensures k < n
  {
    if FirstOr(picks, 0) < n then FirstOr(picks, 0) else 0
  }

  /** Permutes `xs`, choosing the next element by the next pick. */
  function Shuffle(xs: seq<string>, picks: seq<nat>): (r: seq<string>)
    ensures |r| == |xs|
    ensures multiset(r) == multiset(xs)
    decreases |xs|
  {
    if |xs| == 0 then []
    else
      var k := PickIndex(picks, |xs|);
      [xs[k]] + Shuffle(RemoveAt(xs, k), Rest(picks))
  }

  /** The position of the first occurrence of `x` in `xs`. */
  function IndexOf(xs: seq<string>, x: string): (k: nat)
    requires x in xs
    ensures k < |xs| && xs[k] == x
  {
    if xs[0] == x then 0 else 1 + IndexOf(xs[1..], x)
  }

  /** Picks that make `Shuffle(xs, _)` produce the permutation `r` of `xs`. */
  function PicksFor(xs: seq<string>, r: seq<string>): (picks: seq<nat>)
    requires multiset(r) == multiset(xs)
    decreases |r|
  {
    if |r| == 0 then []
    else
      assert r[0] in multiset(xs) by { assert r[0] in multiset(r); }
      var k := IndexOf(xs, r[0]);
      assert r == [r[0]] + r[1..];
      TailMultiset(xs, k, r);
      [k] + PicksFor(RemoveAt(xs, k), r[1..])
  }

  /** One step of the shuffle on a non-empty input. */
  lemma ShuffleStep(xs: seq<string>, picks: seq<nat>)
    requires |xs| > 0
    ensures Shuffle(xs, picks)
         == [xs[PickIndex(picks, |xs|)]] + Shuffle(RemoveAt(xs, PickIndex(picks, |xs|)), Rest(picks))
  {
  }

  /** Taking the same element from two equal multisets leaves equal multisets. */
  lemma TailMultiset(xs: seq<string>, k: nat, r: seq<string>)
    requires multiset(r) == multiset(xs)
    requires k < |xs| && 0 < |r| && xs[k] == r[0]
    ensures multiset(r[1..]) == multiset(RemoveAt(xs, k))
  {
    assert r == [r[0]] + r[1..];
    var a := multiset(r[1..]);
    var b := multiset(RemoveAt(xs, k));
    assert a + multiset{r[0]} == b + multiset{r[0]};
    assert forall y :: a[y] == (a + multiset{r[0]})[y] - multiset{r[0]}[y];
    assert forall y :: b[y] == (b + multiset{r[0]})[y] - multiset{r[0]}[y];
  }

  /** Every permutation of `xs` is reachable: the shuffle is "any permutation". */
  lemma {:induction false} EveryPermutationReachable(xs: seq<string>, r: seq<string>)
    requires multiset(r) == multiset(xs)
    ensures Shuffle(xs, PicksFor(xs, r)) == r
    decreases |r|
  {
    if |r| == 0 {
      assert |xs| == |multiset(xs)| == 0;
    } else {
      assert r[0] in multiset(xs) by { assert r[0] in multiset(r); }
      var k := IndexOf(xs, r[0]);
      TailMultiset(xs, k, r);
      var rest := PicksFor(RemoveAt(xs, k), r[1..]);
      var picks := [k] + rest;
      assert PicksFor(xs, r) == picks;
      assert PickIndex(picks, |xs|) == k;
      assert Rest(picks) == rest;
      ShuffleStep(xs, picks);
      EveryPermutationReachable(RemoveAt(xs, k), r[1..]);
      assert r == [r[0]] + r[1..];
    }
  }
}
