// The fannkuch kernel over unbounded integers: walk all permutations of 0..n
// with the odometer, count the flips of each, and report the largest count and
// the alternating checksum.

module Fannkuch {
  import opened Flips
  import opened Odometer

  ghost predicate AllPermutations(visited: seq<seq<int>>, n: nat) {
    forall i :: 0 <= i < |visited| ==> |visited[i]| == n && Permutation(visited[i])
  }

  ghost function LargestFlipCount(visited: seq<seq<int>>, n: nat): nat
    requires n >= 1 && AllPermutations(visited, n)
  {
    if visited == [] then 0
    else
      var last := |visited| - 1;
      var others, flips := LargestFlipCount(visited[..last], n), FlipCount(visited[last]);
      if flips > others then flips else others
  }

  // Even positions add their flips, odd positions subtract them.
  ghost function Checksum(visited: seq<seq<int>>, n: nat): int
    requires n >= 1 && AllPermutations(visited, n)
  {
    if visited == [] then 0
    else
      var last := |visited| - 1;
      Checksum(visited[..last], n) + (if last % 2 == 0 then 1 else -1) * FlipCount(visited[last])
  }

  // The checksum of one permutation is its flip count, and what comes after an
  // odd number of permutations enters with the opposite sign.
  lemma {:induction false} ChecksumSplits(a: seq<seq<int>>, b: seq<seq<int>>, n: nat)
    requires n >= 1 && AllPermutations(a, n) && AllPermutations(b, n)
    ensures AllPermutations(a + b, n)
    ensures Checksum(a + b, n) == Checksum(a, n) + (if |a| % 2 == 0 then Checksum(b, n) else -Checksum(b, n))
    ensures |b| == 1 ==> Checksum(b, n) == FlipCount(b[0])
    decreases |b|
  {
    hide FlipCount, Permutation, LargestFlipCount, Checksum;
    NothingToSum(n);
    if b == [] {
      assert a + b == a;
    } else {
      var front, last := b[..|b| - 1], b[|b| - 1];
      ChecksumSplits(a, front, n);
      assert b == front + [last] && a + b == (a + front) + [last];
      TallyOneMore(front, last, n);
      TallyOneMore(a + front, last, n);
      SignsMultiply(|a|, |front|, FlipCount(last));
    }
  }

  lemma NothingToSum(n: nat)
    requires n >= 1
    ensures Checksum([], n) == 0
  {
  }

  lemma SignsMultiply(a: nat, b: nat, flips: int)
    ensures (if (a + b) % 2 == 0 then 1 else -1) * flips ==
      if a % 2 == 0 then (if b % 2 == 0 then 1 else -1) * flips else -((if b % 2 == 0 then 1 else -1) * flips)
  {
  }

  // The reported maximum bounds the flip count of every permutation and is
  // reached by one of them.
  lemma {:induction false} LargestIsMaximum(visited: seq<seq<int>>, n: nat)
    requires n >= 1 && AllPermutations(visited, n)
    ensures forall q :: q in visited ==> Permutation(q) && |q| == n && FlipCount(q) <= LargestFlipCount(visited, n)
    ensures visited != [] ==> exists q :: q in visited && FlipCount(q) == LargestFlipCount(visited, n)
  {
    if visited != [] {
      var last := |visited| - 1;
      var others := visited[..last];
      LargestIsMaximum(others, n);
      assert visited == others + [visited[last]];
      var best := LargestFlipCount(visited, n);
      if best == FlipCount(visited[last]) {
        assert visited[last] in visited;
      } else {
        assert others != [];
        var q :| q in others && FlipCount(q) == LargestFlipCount(others, n);
        assert q in visited;
      }
    }
  }

  // The kernel's answer, without reference to how it walks: the largest flip
  // count of any permutation of 0..n.
  lemma AnswerIsMaximum(n: nat)
    requires n >= 1
    ensures AllPermutations(Block(Identity(n), n), n)
    ensures forall q :: |q| == n && Permutation(q) ==> FlipCount(q) <= LargestFlipCount(Block(Identity(n), n), n)
    ensures exists q :: |q| == n && Permutation(q) && FlipCount(q) == LargestFlipCount(Block(Identity(n), n), n)
  {
    var all := Block(Identity(n), n);
    RoundMeetsEveryPermutationOnce(n);
    assert AllPermutations(all, n) by {
      forall i | 0 <= i < |all| ensures |all[i]| == n && Permutation(all[i]) {
        assert all[i] in all;
      }
    }
    LargestIsMaximum(all, n);
    var q :| q in all && FlipCount(q) == LargestFlipCount(all, n);
  }

  method RotatePrefix(perm1: array<int>, r: nat)
    requires r < perm1.Length
    modifies perm1
    ensures perm1[..] == Rotate(old(perm1[..]), r + 1)
  {
    var perm0 := perm1[0];
    for i := 0 to r
      invariant forall j :: 0 <= j < i ==> perm1[j] == old(perm1[j + 1])
      invariant forall j :: i <= j < perm1.Length ==> perm1[j] == old(perm1[j])
    {
      perm1[i] := perm1[i + 1];
    }
    perm1[r] := perm0;
  }

  // Turn wheels until one has positions left, or all are exhausted.
  method Advance(perm1: array<int>, count: array<int>) returns (r: nat, advanced: bool)
    requires perm1.Length == count.Length >= 1 && perm1 != count
    requires WheelsInRange(count[..], 1)
    modifies perm1, count
    ensures advanced ==>
      && 1 <= r < count.Length && WheelsInRange(count[..], r)
      && old(Rest(perm1[..], 1, count[..])) == Block(perm1[..], r) + Rest(perm1[..], r, count[..])
      && old(FinalPermutation(perm1[..], 1, count[..])) == FinalPermutation(perm1[..], r, count[..])
    ensures !advanced ==>
      && old(Rest(perm1[..], 1, count[..])) == []
      && old(FinalPermutation(perm1[..], 1, count[..])) == perm1[..]
  {
    r, advanced := 1, false;
    var n := perm1.Length;
    while !advanced
      invariant 1 <= r <= n
      invariant advanced ==> r < n
      invariant WheelsInRange(count[..], r)
      invariant !advanced ==> old(Rest(perm1[..], 1, count[..])) == Rest(perm1[..], r, count[..])
      invariant advanced ==>
        old(Rest(perm1[..], 1, count[..])) == Block(perm1[..], r) + Rest(perm1[..], r, count[..])
      invariant old(FinalPermutation(perm1[..], 1, count[..])) == FinalPermutation(perm1[..], r, count[..])
      decreases n - r, !advanced
    {
      if r == n {
        return;
      }
      ghost var p, before := perm1[..], count[..];
      RotatePrefix(perm1, r);
      count[r] := count[r] - 1;
      assert count[..] == before[r := before[r] - 1];
      TurnWheel(p, r, before, count[..]);
      if count[r] > 0 {
        advanced := true;
      } else {
        r := r + 1;
      }
    }
  }

  // Count the flips of one permutation on a scratch copy and fold them into
  // the maximum and the checksum.
  method Tally(perm1: array<int>, perm: array<int>, permCount: nat, maxFlips: nat, checksum: int)
    returns (maxFlips': nat, checksum': int)
    requires perm1.Length == perm.Length >= 1 && perm1 != perm
    requires Permutation(perm1[..])
    modifies perm
    ensures var flips := FlipCount(perm1[..]);
      && maxFlips' == (if flips > maxFlips then flips else maxFlips)
      && checksum' == checksum + (if permCount % 2 == 0 then 1 else -1) * flips
  {
    maxFlips', checksum' := maxFlips, checksum;
    if perm1[0] != 0 {
      for i := 0 to perm.Length
        invariant forall j :: 0 <= j < i ==> perm[j] == perm1[j]
      {
        perm[i] := perm1[i];
      }
      assert perm[..] == perm1[..];
      var flips := CountFlips(perm);
      if flips > maxFlips' {
        maxFlips' := flips;
      }
      if permCount % 2 == 0 {
        checksum' := checksum' + flips;
      } else {
        checksum' := checksum' - flips;
      }
    }
  }

  method ResetCounts(count: array<int>, r0: nat)
    requires 1 <= r0 <= count.Length
    requires WheelsInRange(count[..], r0)
    modifies count
    ensures WheelsInRange(count[..], 1)
    ensures forall i :: 1 <= i < r0 ==> count[i] == i + 1
    ensures forall i :: r0 <= i < count.Length ==> count[i] == old(count[i])
  {
    var r := r0;
    while r != 1
      invariant 1 <= r <= r0
      invariant forall i :: r <= i < r0 ==> count[i] == i + 1
      invariant forall i :: r0 <= i < count.Length ==> count[i] == old(count[i])
    {
      count[r - 1] := r;
      r := r - 1;
    }
  }

  // What the kernel has tallied after visiting a list of permutations.
  ghost predicate Tallied(visited: seq<seq<int>>, n: nat, permCount: nat, maxFlips: nat, checksum: int)
    requires n >= 1
  {
    && permCount == |visited|
    && AllPermutations(visited, n)
    && maxFlips == LargestFlipCount(visited, n)
    && checksum == Checksum(visited, n)
  }

  lemma TallyOneMore(visited: seq<seq<int>>, p: seq<int>, n: nat)
    requires n >= 1 && AllPermutations(visited, n) && |p| == n && Permutation(p)
    ensures AllPermutations(visited + [p], n)
    ensures LargestFlipCount(visited + [p], n) ==
      (if FlipCount(p) > LargestFlipCount(visited, n) then FlipCount(p) else LargestFlipCount(visited, n))
    ensures Checksum(visited + [p], n) ==
      Checksum(visited, n) + (if |visited| % 2 == 0 then 1 else -1) * FlipCount(p)
  {
    assert (visited + [p])[..|visited|] == visited;
  }

  lemma NextOf(visited: seq<seq<int>>, p: seq<int>, rest: seq<seq<int>>, all: seq<seq<int>>)
    requires visited + ([p] + rest) == all
    ensures |visited| < |all| && all[|visited|] == p
    ensures (visited + [p]) + rest == all
  {
  }

  // With the wheels below r about to start over at p: what was visited and what
  // is still to be met make up one full round, which ends at the identity.
  ghost predicate Underway(visited: seq<seq<int>>, p: seq<int>, r: nat, wheels: seq<int>) {
    && 1 <= r <= |p| == |wheels|
    && WheelsInRange(wheels, r)
    && visited + (Block(p, r) + Rest(p, r, wheels)) == Block(Identity(|p|), |p|)
    && FinalPermutation(p, r, wheels) == Identity(|p|)
  }

  // What was visited, the block about to start and what the wheels above it read
  // in factorial base add up to n!.
  lemma UnderwayCounts(visited: seq<seq<int>>, p: seq<int>, r: nat, wheels: seq<int>)
    requires Underway(visited, p, r, wheels)
    ensures |visited| + Factorial(r) + WheelValue(wheels, r) == Factorial(|p|)
    ensures WheelValue(wheels, r) >= 0
  {
    RestLength(p, r, wheels);
    BlockLength(p, r);
    BlockLength(Identity(|p|), |p|);
  }

  // One pass of the main loop: visit the current permutation and move on.
  method Pass(perm1: array<int>, count: array<int>, perm: array<int>, r: nat,
              permCount: nat, maxFlips: nat, checksum: int, ghost visited: seq<seq<int>>)
    returns (r': nat, advanced: bool, maxFlips': nat, checksum': int)
    requires perm1.Length == count.Length == perm.Length
    requires perm1 != count && perm1 != perm && count != perm
    requires Underway(visited, perm1[..], r, count[..])
    requires Tallied(visited, perm1.Length, permCount, maxFlips, checksum)
    modifies perm1, count, perm
    ensures |visited| < Factorial(perm1.Length)
    ensures Tallied(visited + [old(perm1[..])], perm1.Length, permCount + 1, maxFlips', checksum')
    ensures advanced ==> Underway(visited + [old(perm1[..])], perm1[..], r', count[..])
    ensures !advanced ==>
      && visited + [old(perm1[..])] == Block(Identity(perm1.Length), perm1.Length)
      && perm1[..] == Identity(perm1.Length)
  {
    ghost var p, n, wheels := perm1[..], perm1.Length, count[..];
    RoundMeetsEveryPermutationOnce(n);
    ResetCounts(count, r);
    ResetWheels(p, r, wheels, count[..]);
    ghost var all := Block(Identity(n), n);
    NextOf(visited, p, Rest(p, 1, count[..]), all);
    assert p in all;
    TallyOneMore(visited, p, n);
    maxFlips', checksum' := Tally(perm1, perm, permCount, maxFlips, checksum);
    r', advanced := Advance(perm1, count);
  }

  // Every permutation of 0..n is met exactly once, in the order of `Block`
  // (see RoundMeetsEveryPermutationOnce). The results besides the returned
  // maximum are the printed line and the final state of the kernel. Each pass
  // brings the odometer one step closer to zero.
  method Kernel(n: nat)
    returns (maxFlips: nat, printed: int, permCount: nat, final: seq<int>, ghost visited: seq<seq<int>>)
    requires n >= 1
    ensures visited == Block(Identity(n), n)
    ensures AllPermutations(Block(Identity(n), n), n)
    ensures maxFlips == LargestFlipCount(Block(Identity(n), n), n)
    ensures printed == Checksum(Block(Identity(n), n), n) * 1000 + maxFlips
    ensures permCount == Factorial(n) - 1
    ensures final == Identity(n)
  {
    var perm1 := new int[n](i => i);
    var count := new int[n](_ => 0);
    var perm := new int[n](_ => 0);
    maxFlips, permCount := 0, 0;
    var checksum := 0;
    var r := n;
    visited := [];
    assert perm1[..] == Identity(n);
    var advanced := true;
    while advanced
      invariant advanced ==> Underway(visited, perm1[..], r, count[..])
      invariant advanced ==> Tallied(visited, n, permCount, maxFlips, checksum)
      invariant !advanced ==> Tallied(visited, n, permCount + 1, maxFlips, checksum)
      invariant !advanced ==> visited == Block(Identity(n), n) && perm1[..] == Identity(n)
      decreases if advanced then Factorial(r) + WheelValue(count[..], r) else 0
    {
      UnderwayCounts(visited, perm1[..], r, count[..]);
      ghost var p := perm1[..];
      r, advanced, maxFlips, checksum := Pass(perm1, count, perm, r, permCount, maxFlips, checksum, visited);
      visited := visited + [p];
      if advanced {
        permCount := permCount + 1;
        UnderwayCounts(visited, perm1[..], r, count[..]);
      }
    }
    RoundMeetsEveryPermutationOnce(n);
    printed := checksum * 1000 + maxFlips;
    final := perm1[..];
  }
}
