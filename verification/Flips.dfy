// The flip count of a permutation: reverse the prefix that the first element
// names until that element is zero. Termination is not obvious; the measure is
// the sum of 2^i over the fixed points of the permutation.

module Flips {
  import opened Prelude

  ghost predicate Permutation(p: seq<int>) {
    Distinct(p) && forall i :: 0 <= i < |p| ==> 0 <= p[i] < |p|
  }

  // p with its first k + 1 elements reversed.
  function Flip(p: seq<int>, k: nat): (r: seq<int>)
    requires k < |p|
    ensures |r| == |p|
    ensures forall i :: 0 <= i <= k ==> r[i] == p[k - i]
    ensures forall i :: k < i < |p| ==> r[i] == p[i]
  {
    seq(|p|, i requires 0 <= i < |p| => if i <= k then p[k - i] else p[i])
  }

  lemma FlipKeepsPermutation(p: seq<int>, k: nat)
    requires Permutation(p) && k < |p|
    ensures Permutation(Flip(p, k))
  {
  }

  function Pow2(n: nat): (r: nat)
    ensures r > 0
  {
    if n == 0 then 1 else 2 * Pow2(n - 1)
  }

  // The sum of 2^i over the fixed points i of p below n.
  function Weight(p: seq<int>, n: nat): (w: nat)
    requires n <= |p|
    ensures w < Pow2(n)
  {
    if n == 0 then 0
    else Weight(p, n - 1) + if p[n - 1] == n - 1 then Pow2(n - 1) else 0
  }

  // Above the flipped prefix nothing changes, and the flip makes k a fixed
  // point, which outweighs every fixed point below k that it may destroy.
  lemma {:induction false} FlipGainsWeight(p: seq<int>, n: nat)
    requires Permutation(p) && p != [] && p[0] != 0
    requires p[0] < n <= |p|
    ensures Weight(p, n) < Weight(Flip(p, p[0]), n)
  {
    var k := p[0];
    if n == k + 1 {
      assert p[k] != k;
    } else {
      FlipGainsWeight(p, n - 1);
    }
  }

  function FlipCount(p: seq<int>): (n: nat)
    requires Permutation(p) && p != []
    ensures n == 0 <==> p[0] == 0
    decreases Pow2(|p|) - Weight(p, |p|)
  {
    if p[0] == 0 then 0
    else
      FlipKeepsPermutation(p, p[0]);
      FlipGainsWeight(p, |p|);
      1 + FlipCount(Flip(p, p[0]))
  }

  // A trail of flips: each permutation is the one before it flipped at its first
  // element, and the last one starts with zero.
  ghost predicate FlipTrail(trail: seq<seq<int>>) {
    && trail != []
    && (forall i :: 0 <= i < |trail| ==> trail[i] != [] && Permutation(trail[i]))
    && (forall i :: 0 <= i < |trail| - 1 ==> trail[i][0] != 0 && trail[i + 1] == Flip(trail[i], trail[i][0]))
    && trail[|trail| - 1][0] == 0
  }

  // The flip count is the number of flips of every such trail.
  lemma {:induction false} FlipCountIsTrailLength(trail: seq<seq<int>>)
    requires FlipTrail(trail)
    ensures FlipCount(trail[0]) == |trail| - 1
  {
    if |trail| > 1 {
      assert trail[0 + 1] == Flip(trail[0], trail[0][0]);
      FlipCountIsTrailLength(trail[1..]);
    }
  }

  // And every permutation has such a trail.
  lemma {:induction false} TrailExists(p: seq<int>) returns (trail: seq<seq<int>>)
    requires Permutation(p) && p != []
    ensures FlipTrail(trail) && trail[0] == p && |trail| == FlipCount(p) + 1
    decreases Pow2(|p|) - Weight(p, |p|)
  {
    if p[0] == 0 {
      trail := [p];
    } else {
      FlipKeepsPermutation(p, p[0]);
      FlipGainsWeight(p, |p|);
      var rest := TrailExists(Flip(p, p[0]));
      trail := [p] + rest;
      assert forall i :: 0 < i < |trail| ==> trail[i] == rest[i - 1];
    }
  }

  // The number of flips is below 2^n: every flip gains weight.
  lemma {:induction false} FlipCountBounded(p: seq<int>)
    requires Permutation(p) && p != []
    ensures FlipCount(p) + Weight(p, |p|) < Pow2(|p|)
    decreases Pow2(|p|) - Weight(p, |p|)
  {
    if p[0] != 0 {
      FlipKeepsPermutation(p, p[0]);
      FlipGainsWeight(p, |p|);
      FlipCountBounded(Flip(p, p[0]));
    }
  }

  // Swap from both ends towards the middle.
  method ReversePrefix(perm: array<int>, k: nat)
    requires k < perm.Length
    modifies perm
    ensures perm[..] == Flip(old(perm[..]), k)
  {
    var lo, hi := 0, k;
    while lo < hi
      invariant 0 <= lo <= k && lo + hi == k && hi >= lo - 1
      invariant forall i :: 0 <= i < lo ==> perm[i] == old(perm[k - i])
      invariant forall i :: hi < i <= k ==> perm[i] == old(perm[k - i])
      invariant forall i :: lo <= i <= hi ==> perm[i] == old(perm[i])
      invariant forall i :: k < i < perm.Length ==> perm[i] == old(perm[i])
    {
      perm[lo], perm[hi] := perm[hi], perm[lo];
      lo := lo + 1;
      hi := hi - 1;
    }
  }

  // Flip until the first element is zero.
  method CountFlips(perm: array<int>) returns (flips: nat)
    requires perm.Length > 0 && Permutation(perm[..])
    modifies perm
    ensures flips == FlipCount(old(perm[..]))
    ensures Permutation(perm[..]) && perm[0] == 0
  {
    flips := 0;
    var k := perm[0];
    while k != 0
      invariant Permutation(perm[..]) && k == perm[0]
      invariant flips + FlipCount(perm[..]) == FlipCount(old(perm[..]))
      decreases Pow2(perm.Length) - Weight(perm[..], perm.Length)
    {
      ghost var before := perm[..];
      FlipKeepsPermutation(before, k);
      FlipGainsWeight(before, perm.Length);
      ReversePrefix(perm, k);
      flips := flips + 1;
      k := perm[0];
    }
  }
}
