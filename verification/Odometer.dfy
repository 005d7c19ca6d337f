// The mixed-radix odometer of the fannkuch kernel. Wheel m (2 <= m <= n) counts
// down from m; turning it rotates the first m elements of the permutation left
// by one. `Block` lists the permutations met while the wheels up to m make one
// full round; it is shown to be an enumeration of all rearrangements of the
// first m elements, each met once.

module Odometer {
  import opened Prelude
  import opened Names
  import opened Flips

  function Rotate(p: seq<int>, m: nat): (r: seq<int>)
    requires 1 <= m <= |p|
    ensures |r| == |p|
  {
    p[1..m] + [p[0]] + p[m..]
  }

  // Rotating moves every one of the first m elements one place down, the first
  // of them to the end.
  lemma RotateByIndex(p: seq<int>, m: nat, i: nat)
    requires 1 <= m <= |p| && i < |p|
    ensures Rotate(p, m)[i] == if i >= m then p[i] else if i == m - 1 then p[0] else p[i + 1]
  {
  }

  function Rotations(p: seq<int>, m: nat, k: nat): (r: seq<int>)
    requires 1 <= m <= |p|
    ensures |r| == |p|
    decreases k
  {
    if k == 0 then p else Rotations(Rotate(p, m), m, k - 1)
  }

  lemma {:induction false} RotationsClosedForm(p: seq<int>, m: nat, k: nat)
    requires 1 <= m <= |p| && k <= m
    ensures Rotations(p, m, k) == p[k..m] + p[..k] + p[m..]
  {
    if k == 0 {
      assert p == p[0..m] + p[..0] + p[m..];
    } else {
      RotationsShift(p, m, k - 1);
      RotationsClosedForm(p, m, k - 1);
      var q := p[k - 1..m] + p[..k - 1] + p[m..];
      assert q[0] == p[k - 1];
      assert q[1..m] == p[k..m] + p[..k - 1];
      assert q[m..] == p[m..];
      assert p[..k] == p[..k - 1] + [p[k - 1]];
    }
  }

  lemma {:induction false} RotationsShift(p: seq<int>, m: nat, k: nat)
    requires 1 <= m <= |p|
    ensures Rotations(p, m, k + 1) == Rotate(Rotations(p, m, k), m)
    decreases k
  {
    if k > 0 {
      RotationsShift(Rotate(p, m), m, k - 1);
    }
  }

  // A full round of a wheel restores the permutation.
  lemma FullRound(p: seq<int>, m: nat)
    requires 1 <= m <= |p|
    ensures Rotations(p, m, m) == p
  {
    RotationsClosedForm(p, m, m);
    assert p[m..m] + p[..m] + p[m..] == p;
  }

  // The permutations met during one full round of the wheels up to m.
  ghost function Block(p: seq<int>, m: nat): seq<seq<int>>
    requires 1 <= m <= |p|
    decreases m, 0
  {
    if m == 1 then [p] else Turns(p, m, m)
  }

  // The permutations met during the last k positions of wheel m.
  ghost function Turns(p: seq<int>, m: nat, k: nat): seq<seq<int>>
    requires 2 <= m <= |p| && k <= m
    decreases m - 1, k + 1
  {
    if k == 0 then [] else Block(p, m - 1) + Turns(Rotate(p, m), m, k - 1)
  }

  // ---------- each round meets every rearrangement once ----------

  // q rearranges the first m elements of p.
  ghost predicate Rearranges(p: seq<int>, m: nat, q: seq<int>)
    requires m <= |p|
  {
    |q| == |p| && q[m..] == p[m..] && multiset(q[..m]) == multiset(p[..m])
  }

  lemma RotateRearranges(p: seq<int>, m: nat)
    requires 1 <= m <= |p|
    ensures Rearranges(p, m, Rotate(p, m))
    ensures Rotate(p, m)[m - 1] == p[0]
  {
    var r := Rotate(p, m);
    assert p[..m] == [p[0]] + p[1..m];
    assert r[..m] == p[1..m] + [p[0]];
  }

  // Dropping the last of the first m elements.
  lemma DropLast(q: seq<int>, m: nat)
    requires 1 <= m <= |q|
    ensures multiset(q[..m]) == multiset(q[..m - 1]) + multiset{q[m - 1]}
    ensures multiset(q[..m - 1]) == multiset(q[..m]) - multiset{q[m - 1]}
    ensures q[m - 1..] == [q[m - 1]] + q[m..]
  {
    assert q[..m] == q[..m - 1] + [q[m - 1]];
  }

  // Rearranging one element fewer means also fixing the last of the m.
  lemma RearrangesFewer(p: seq<int>, m: nat, q: seq<int>)
    requires 2 <= m <= |p|
    ensures Rearranges(p, m - 1, q) <==> Rearranges(p, m, q) && q[m - 1] == p[m - 1]
  {
    if |q| == |p| {
      DropLast(p, m);
      DropLast(q, m);
      assert q[m - 1..] == p[m - 1..] <==> q[m..] == p[m..] && q[m - 1] == p[m - 1] by {
        if q[m - 1..] == p[m - 1..] {
          assert q[m - 1..][0] == p[m - 1..][0];
          assert q[m..] == q[m - 1..][1..] && p[m..] == p[m - 1..][1..];
        }
      }
    }
  }

  // The last k positions of a wheel put each of k elements last.
  ghost predicate LastAmong(p: seq<int>, m: nat, k: nat, q: seq<int>)
    requires 1 <= m <= |p| && k <= m
  {
    |q| == |p| && k > 0 && (q[m - 1] == p[m - 1] || q[m - 1] in p[..k - 1])
  }

  lemma {:induction false} BlockMeets(p: seq<int>, m: nat, q: seq<int>)
    requires 1 <= m <= |p| && Distinct(p)
    ensures q in Block(p, m) <==> Rearranges(p, m, q)
    decreases m, 0
  {
    if m == 1 {
      if Rearranges(p, 1, q) {
        assert q[..1] == [q[0]] && p[..1] == [p[0]];
        assert q[0] in multiset(q[..1]);
        assert p == [p[0]] + p[1..] && q == [q[0]] + q[1..];
      }
    } else {
      TurnsMeet(p, m, m, q);
      if Rearranges(p, m, q) {
        assert q[m - 1] == q[..m][m - 1];
        assert q[m - 1] in multiset(q[..m]);
        assert p[..m] == p[..m - 1] + [p[m - 1]];
      }
    }
  }

  lemma {:induction false} TurnsMeet(p: seq<int>, m: nat, k: nat, q: seq<int>)
    requires 2 <= m <= |p| && k <= m && Distinct(p)
    ensures q in Turns(p, m, k) <==> Rearranges(p, m, q) && LastAmong(p, m, k, q)
    decreases m - 1, k + 1
  {
    if k > 0 {
      var r := Rotate(p, m);
      BlockMeets(p, m - 1, q);
      RearrangesFewer(p, m, q);
      RotateRearranges(p, m);
      RotateDistinct(p, m);
      TurnsMeet(r, m, k - 1, q);
      if |q| == |p| {
        assert k > 1 ==> (q[m - 1] in p[..k - 1] <==> q[m - 1] == p[0] || q[m - 1] in r[..k - 2]) by {
          if k > 1 {
            assert r[..k - 2] == p[1..k - 1];
            assert p[..k - 1] == [p[0]] + p[1..k - 1];
          }
        }
      }
    }
  }

  lemma RotateDistinct(p: seq<int>, m: nat)
    requires 1 <= m <= |p| && Distinct(p)
    ensures Distinct(Rotate(p, m))
  {
    assert p == [p[0]] + p[1..m] + p[m..];
    assert multiset(Rotate(p, m)) == multiset(p);
    SameMultisetDistinct(Rotate(p, m), p);
  }

  lemma {:induction false} BlockMeetsOnce(p: seq<int>, m: nat)
    requires 1 <= m <= |p| && Distinct(p)
    ensures Distinct(Block(p, m))
    decreases m, 0
  {
    if m > 1 {
      TurnsMeetOnce(p, m, m);
    }
  }

  lemma {:induction false} TurnsMeetOnce(p: seq<int>, m: nat, k: nat)
    requires 2 <= m <= |p| && k <= m && Distinct(p)
    ensures Distinct(Turns(p, m, k))
    decreases m - 1, k + 1
  {
    if k > 0 {
      var r := Rotate(p, m);
      RotateDistinct(p, m);
      BlockMeetsOnce(p, m - 1);
      TurnsMeetOnce(r, m, k - 1);
      var first, rest := Block(p, m - 1), Turns(r, m, k - 1);
      forall q | q in first ensures q !in rest {
        FirstTurnIsNew(p, m, k, q);
      }
      DistinctConcat(first, rest);
    }
  }

  // What the first position of a wheel meets, no later position meets: the
  // last of the m elements is another one.
  lemma FirstTurnIsNew(p: seq<int>, m: nat, k: nat, q: seq<int>)
    requires 2 <= m <= |p| && 0 < k <= m && Distinct(p)
    requires q in Block(p, m - 1)
    ensures q !in Turns(Rotate(p, m), m, k - 1)
  {
    hide Block, Turns, Rearranges;
    var r := Rotate(p, m);
    RotateDistinct(p, m);
    BlockMeets(p, m - 1, q);
    RearrangesFewer(p, m, q);
    TurnsMeet(r, m, k - 1, q);
    assert |q| == |p| && q[m - 1] == p[m - 1] by { SameLength(p, m, q); }
  }

  lemma SameLength(p: seq<int>, m: nat, q: seq<int>)
    requires m <= |p| && Rearranges(p, m, q)
    ensures |q| == |p|
  {
  }

  lemma DistinctConcat<T>(a: seq<T>, b: seq<T>)
    requires Distinct(a) && Distinct(b)
    requires forall x :: x in a ==> x !in b
    ensures Distinct(a + b)
  {
    var s := a + b;
    forall i, j | 0 <= i < j < |s| ensures s[i] != s[j] {
      if i < |a| <= j {
        assert s[i] in a && s[j] in b;
      }
    }
  }

  function Factorial(n: nat): (r: nat)
    ensures r > 0
  {
    if n == 0 then 1 else n * Factorial(n - 1)
  }

  lemma {:induction false} BlockLength(p: seq<int>, m: nat)
    requires 1 <= m <= |p|
    ensures |Block(p, m)| == Factorial(m)
    decreases m, 0
  {
    if m == 1 {
      assert Factorial(1) == 1;
    } else {
      TurnsLength(p, m, m);
    }
  }

  lemma {:induction false} TurnsLength(p: seq<int>, m: nat, k: nat)
    requires 2 <= m <= |p| && k <= m
    ensures |Turns(p, m, k)| == k * Factorial(m - 1)
    decreases m - 1, k + 1
  {
    if k > 0 {
      BlockLength(p, m - 1);
      TurnsLength(Rotate(p, m), m, k - 1);
      assert k * Factorial(m - 1) == Factorial(m - 1) + (k - 1) * Factorial(m - 1);
    }
  }

  // ---------- permutations of 0..n ----------

  function Identity(n: nat): (p: seq<int>)
    ensures |p| == n && forall i :: 0 <= i < n ==> p[i] == i
  {
    seq(n, i => i)
  }

  // Distinct numbers below n, n of them, are exactly the numbers below n.
  lemma PermutationIsRearrangement(n: nat, q: seq<int>)
    requires |q| == n
    ensures Permutation(q) <==> multiset(q) == multiset(Identity(n))
  {
    var id := Identity(n);
    if Permutation(q) {
      DistinctCardinality(q);
      DistinctCardinality(id);
      assert Elements(q) <= Elements(id) by {
        forall x | x in Elements(q) ensures x in Elements(id) {
          assert id[x] == x;
        }
      }
      SubsetCardinality(Elements(q), Elements(id));
      DistinctByMultiset(q);
      DistinctByMultiset(id);
      forall x ensures multiset(q)[x] == multiset(id)[x] {
        assert x in Elements(q) <==> x in Elements(id);
        assert x in q <==> x in multiset(q);
        assert x in id <==> x in multiset(id);
      }
    } else if multiset(q) == multiset(id) {
      SameMultisetDistinct(q, id);
      forall i | 0 <= i < n ensures 0 <= q[i] < n {
        assert q[i] in Elements(q);
        assert q[i] in Elements(id);
      }
    }
  }

  // One full round of all wheels from the identity meets every permutation of
  // 0..n exactly once, n! of them.
  lemma RoundMeetsEveryPermutationOnce(n: nat)
    requires n >= 1
    ensures forall q :: q in Block(Identity(n), n) <==> |q| == n && Permutation(q)
    ensures Distinct(Block(Identity(n), n))
    ensures |Block(Identity(n), n)| == Factorial(n)
  {
    var id := Identity(n);
    BlockMeetsOnce(id, n);
    BlockLength(id, n);
    forall q ensures q in Block(id, n) <==> |q| == n && Permutation(q) {
      BlockMeets(id, n, q);
      if |q| == n {
        PermutationIsRearrangement(n, q);
        assert q[..n] == q && id[..n] == id;
      }
    }
  }

  // ---------- what is left to meet from a given wheel state ----------

  ghost predicate WheelsInRange(count: seq<int>, from: nat) {
    forall i :: from <= i < |count| ==> 1 <= count[i] <= i + 1
  }

  // With the wheels up to r having completed their round at p, the
  // permutations still to be met. count[i] belongs to wheel i + 1.
  ghost function Rest(p: seq<int>, r: nat, count: seq<int>): seq<seq<int>>
    requires 1 <= r <= |p| == |count|
    requires WheelsInRange(count, r)
    decreases |p| - r
  {
    if r == |p| then []
    else
      Turns(Rotate(p, r + 1), r + 1, count[r] - 1) +
      Rest(Rotations(p, r + 1, count[r]), r + 1, count)
  }

  // With the wheels below r at their starting positions, the rest from p is
  // one round of those wheels and then the rest above them.
  lemma {:induction false} FreshWheels(p: seq<int>, r: nat, count: seq<int>)
    requires 1 <= r <= |p| == |count|
    requires WheelsInRange(count, 1)
    requires forall i :: 1 <= i < r ==> count[i] == i + 1
    ensures [p] + Rest(p, 1, count) == Block(p, r) + Rest(p, r, count)
  {
    if r > 1 {
      FreshWheels(p, r - 1, count);
      FullRound(p, r);
      assert count[r - 1] == r;
      calc {
        [p] + Rest(p, 1, count);
        Block(p, r - 1) + Rest(p, r - 1, count);
        Block(p, r - 1) + (Turns(Rotate(p, r), r, r - 1) + Rest(p, r, count));
        (Block(p, r - 1) + Turns(Rotate(p, r), r, r - 1)) + Rest(p, r, count);
        Block(p, r) + Rest(p, r, count);
      }
    }
  }

  // Only the wheels from r on matter for the rest.
  lemma {:induction false} RestIgnoresLowerWheels(p: seq<int>, r: nat, a: seq<int>, b: seq<int>)
    requires 1 <= r <= |p| == |a| == |b|
    requires WheelsInRange(a, r)
    requires forall i :: r <= i < |p| ==> a[i] == b[i]
    ensures Rest(p, r, a) == Rest(p, r, b)
    decreases |p| - r
  {
    if r < |p| {
      RestIgnoresLowerWheels(Rotations(p, r + 1, a[r]), r + 1, a, b);
    }
  }

  // The value of the wheels in factorial base.
  function WheelValue(count: seq<int>, r: nat): int
    requires r <= |count|
    decreases |count| - r
  {
    if r == |count| then 0 else (count[r] - 1) * Factorial(r) + WheelValue(count, r + 1)
  }

  // The rest is as long as the wheels read in factorial base say.
  lemma {:induction false} RestLength(p: seq<int>, r: nat, count: seq<int>)
    requires 1 <= r <= |p| == |count|
    requires WheelsInRange(count, r)
    ensures |Rest(p, r, count)| == WheelValue(count, r)
    decreases |p| - r
  {
    if r < |p| {
      TurnsLength(Rotate(p, r + 1), r + 1, count[r] - 1);
      RestLength(Rotations(p, r + 1, count[r]), r + 1, count);
    }
  }

  // The permutation left when all wheels from r on have completed their round.
  ghost function FinalPermutation(p: seq<int>, r: nat, count: seq<int>): seq<int>
    requires 1 <= r <= |p| == |count|
    requires WheelsInRange(count, r)
    decreases |p| - r
  {
    if r == |p| then p else FinalPermutation(Rotations(p, r + 1, count[r]), r + 1, count)
  }

  // Setting the wheels below r to their starting positions neither adds nor
  // loses anything: what is met and where it ends are as the reset promises.
  lemma {:induction false} ResetWheels(p: seq<int>, r: nat, before: seq<int>, count: seq<int>)
    requires 1 <= r <= |p| == |before| == |count|
    requires WheelsInRange(before, r) && WheelsInRange(count, 1)
    requires forall i :: 1 <= i < r ==> count[i] == i + 1
    requires forall i :: r <= i < |p| ==> count[i] == before[i]
    ensures Block(p, r) + Rest(p, r, before) == [p] + Rest(p, 1, count)
    ensures FinalPermutation(p, r, before) == FinalPermutation(p, 1, count)
  {
    RestIgnoresLowerWheels(p, r, before, count);
    FreshWheels(p, r, count);
    FinalIgnoresLowerWheels(p, r, before, count);
    FreshFinal(p, r, count);
  }

  lemma {:induction false} FinalIgnoresLowerWheels(p: seq<int>, r: nat, a: seq<int>, b: seq<int>)
    requires 1 <= r <= |p| == |a| == |b|
    requires WheelsInRange(a, r)
    requires forall i :: r <= i < |p| ==> a[i] == b[i]
    ensures FinalPermutation(p, r, a) == FinalPermutation(p, r, b)
    decreases |p| - r
  {
    if r < |p| {
      FinalIgnoresLowerWheels(Rotations(p, r + 1, a[r]), r + 1, a, b);
    }
  }

  lemma {:induction false} FreshFinal(p: seq<int>, r: nat, count: seq<int>)
    requires 1 <= r <= |p| == |count|
    requires WheelsInRange(count, 1)
    requires forall i :: 1 <= i < r ==> count[i] == i + 1
    ensures FinalPermutation(p, 1, count) == FinalPermutation(p, r, count)
  {
    if r > 1 {
      FreshFinal(p, r - 1, count);
      FullRound(p, r);
    }
  }

  // The permutation above wheel r + 1 is the same before and after its turn.
  lemma TurnBelow(p: seq<int>, r: nat, before: seq<int>, count: seq<int>)
    requires 1 <= r < |p| == |before| == |count|
    requires WheelsInRange(before, r)
    requires count == before[r := before[r] - 1]
    ensures WheelsInRange(count, r + 1)
    ensures var p', above := Rotate(p, r + 1), Rotations(p, r + 1, before[r]);
      && above == Rotations(p', r + 1, count[r])
      && Rest(p, r, before) == Turns(p', r + 1, count[r]) + Rest(above, r + 1, count)
      && FinalPermutation(p, r, before) == FinalPermutation(above, r + 1, count)
  {
    hide Turns, Rotate;
    var above := Rotations(p, r + 1, before[r]);
    RestIgnoresLowerWheels(above, r + 1, before, count);
    FinalIgnoresLowerWheels(above, r + 1, before, count);
  }

  // One turn of wheel r + 1: if it has positions left, the lower wheels start
  // over at the rotated permutation; if not, the next wheel is due.
  lemma TurnWheel(p: seq<int>, r: nat, before: seq<int>, count: seq<int>)
    requires 1 <= r < |p| == |before| == |count|
    requires WheelsInRange(before, r)
    requires count == before[r := before[r] - 1]
    ensures WheelsInRange(count, r + 1)
    ensures count[r] > 0 ==>
      && WheelsInRange(count, r)
      && Rest(p, r, before) == Block(Rotate(p, r + 1), r) + Rest(Rotate(p, r + 1), r, count)
      && FinalPermutation(p, r, before) == FinalPermutation(Rotate(p, r + 1), r, count)
    ensures count[r] == 0 ==>
      && Rest(p, r, before) == Rest(Rotate(p, r + 1), r + 1, count)
      && FinalPermutation(p, r, before) == FinalPermutation(Rotate(p, r + 1), r + 1, count)
  {
    TurnBelow(p, r, before, count);
    hide Rotate, Block;
    var p', above := Rotate(p, r + 1), Rotations(p, r + 1, before[r]);
    if count[r] > 0 {
      var first, later := Block(p', r), Turns(Rotate(p', r + 1), r + 1, count[r] - 1);
      assert Turns(p', r + 1, count[r]) == first + later;
      assert Rest(p', r, count) == later + Rest(above, r + 1, count);
      assert (first + later) + Rest(above, r + 1, count) == first + (later + Rest(above, r + 1, count));
    }
  }
}
