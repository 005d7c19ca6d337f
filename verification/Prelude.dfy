// Shared vocabulary: outcomes of fallible operations, and the total order on
// names that the repository gets from sorting Rust strings.

module Prelude {
  datatype Option<+T> = None | Some(value: T)

  datatype Result<+T, +E> = Ok(value: T) | Err(error: E)

  ghost predicate Distinct<T>(s: seq<T>) {
    forall i, j :: 0 <= i < j < |s| ==> s[i] != s[j]
  }

  function Elements<T>(s: seq<T>): set<T> {
    set x | x in s
  }

  lemma NoElements<T>()
    ensures Elements<T>([]) == {}
  {
  }

  // A sequence without repetitions is as long as its set of elements.
  lemma {:induction false} DistinctCardinality<T>(s: seq<T>)
    ensures |Elements(s)| <= |s|
    ensures Distinct(s) ==> |Elements(s)| == |s|
  {
    if s == [] {
    } else {
      var rest := s[1..];
      DistinctCardinality(rest);
      assert s == [s[0]] + rest;
      assert Elements(s) == {s[0]} + Elements(rest);
      if Distinct(s) {
        assert s[0] !in rest;
      }
    }
  }

  lemma SubsetCardinality<T>(a: set<T>, b: set<T>)
    requires a <= b
    ensures |a| <= |b|
    ensures |a| == |b| ==> a == b
  {
    assert b == a + (b - a);
  }

  // Pigeonhole: a sequence over a smaller set repeats an element.
  lemma Pigeonhole<T>(s: seq<T>, universe: set<T>) returns (i: nat, j: nat)
    requires Elements(s) <= universe
    requires |universe| < |s|
    ensures i < j < |s| && s[i] == s[j]
  {
    DistinctCardinality(s);
    SubsetCardinality(Elements(s), universe);
    assert !Distinct(s);
    i, j :| 0 <= i < j < |s| && s[i] == s[j];
  }
}

// Rust orders strings lexicographically.
module Names {
  import opened Prelude

  predicate Before(a: string, b: string) {
    if b == [] then false
    else if a == [] then true
    else a[0] < b[0] || (a[0] == b[0] && Before(a[1..], b[1..]))
  }

  predicate AtMost(a: string, b: string) {
    a == b || Before(a, b)
  }

  lemma {:induction false} BeforeIsTotalOrder(a: string, b: string)
    ensures a == b || Before(a, b) || Before(b, a)
    ensures !(Before(a, b) && Before(b, a))
    ensures !Before(a, a)
  {
    if a != [] {
      BeforeIsTotalOrder(a[1..], a[1..]);
      if b != [] {
        BeforeIsTotalOrder(a[1..], b[1..]);
        assert a == [a[0]] + a[1..] && b == [b[0]] + b[1..];
      }
    }
  }

  lemma {:induction false} BeforeIsTransitive(a: string, b: string, c: string)
    requires Before(a, b) && Before(b, c)
    ensures Before(a, c)
  {
    if a != [] && a[0] == b[0] && b[0] == c[0] {
      BeforeIsTransitive(a[1..], b[1..], c[1..]);
    }
  }

  // The order by index: a proper prefix comes first, and otherwise the smaller
  // character at the first difference decides.
  lemma {:induction false} BeforeByIndex(a: string, b: string)
    ensures Before(a, b) <==>
      (a < b || exists k :: 0 <= k < |a| && k < |b| && a[..k] == b[..k] && a[k] < b[k])
  {
    if a != [] && b != [] {
      BeforeByIndex(a[1..], b[1..]);
      assert a == [a[0]] + a[1..] && b == [b[0]] + b[1..];
      if a[0] == b[0] {
        DifferenceShifts(a, b);
      } else {
        assert a[..0] == b[..0];
        forall k | 0 < k < |a| && k < |b| ensures a[..k] != b[..k] {
          assert a[..k][0] == a[0] && b[..k][0] == b[0];
        }
      }
    }
  }

  lemma DifferenceShifts(a: string, b: string)
    requires a != [] && b != [] && a[0] == b[0]
    ensures (exists k :: 0 <= k < |a| && k < |b| && a[..k] == b[..k] && a[k] < b[k]) <==>
      exists k :: 0 <= k < |a[1..]| && k < |b[1..]| && a[1..][..k] == b[1..][..k] && a[1..][k] < b[1..][k]
    ensures a < b <==> a[1..] < b[1..]
  {
    var a', b' := a[1..], b[1..];
    assert a == [a[0]] + a' && b == [b[0]] + b';
    if exists k :: 0 <= k < |a| && k < |b| && a[..k] == b[..k] && a[k] < b[k] {
      var k :| 0 <= k < |a| && k < |b| && a[..k] == b[..k] && a[k] < b[k];
      assert a'[..k - 1] == a[..k][1..] && b'[..k - 1] == b[..k][1..];
      assert a'[k - 1] < b'[k - 1];
    }
    if exists k :: 0 <= k < |a'| && k < |b'| && a'[..k] == b'[..k] && a'[k] < b'[k] {
      var k :| 0 <= k < |a'| && k < |b'| && a'[..k] == b'[..k] && a'[k] < b'[k];
      assert a[..k + 1] == [a[0]] + a'[..k] && b[..k + 1] == [b[0]] + b'[..k];
      assert a[k + 1] < b[k + 1];
    }
  }

  ghost predicate Ascending(s: seq<string>) {
    forall i, j :: 0 <= i < j < |s| ==> AtMost(s[i], s[j])
  }

  ghost predicate StrictlyAscending(s: seq<string>) {
    forall i, j :: 0 <= i < j < |s| ==> Before(s[i], s[j])
  }

  function InsertSorted(x: string, s: seq<string>): (r: seq<string>)
    ensures multiset(r) == multiset(s) + multiset{x}
  {
    if s == [] then [x]
    else if AtMost(x, s[0]) then
      [x] + s
    else
      assert s == [s[0]] + s[1..];
      [s[0]] + InsertSorted(x, s[1..])
  }

  lemma {:induction false} InsertSortedAscends(x: string, s: seq<string>)
    requires Ascending(s)
    ensures Ascending(InsertSorted(x, s))
  {
    if s == [] {
    } else if AtMost(x, s[0]) {
      forall j | 0 <= j < |s| ensures AtMost(x, s[j]) {
        if x != s[0] && s[0] != s[j] {
          BeforeIsTransitive(x, s[0], s[j]);
        }
      }
    } else {
      var rest := s[1..];
      InsertSortedAscends(x, rest);
      BeforeIsTotalOrder(x, s[0]);
      var r := InsertSorted(x, rest);
      forall j | 0 <= j < |r| ensures AtMost(s[0], r[j]) {
        assert r[j] in multiset(r);
        assert r[j] == x || r[j] in rest;
      }
    }
  }

  // `sort`: the ascending rearrangement of the names.
  function Sort(s: seq<string>): (r: seq<string>)
    ensures multiset(r) == multiset(s)
  {
    if s == [] then []
    else
      assert s == [s[0]] + s[1..];
      InsertSorted(s[0], Sort(s[1..]))
  }

  lemma {:induction false} SortAscends(s: seq<string>)
    ensures Ascending(Sort(s))
  {
    if s != [] {
      SortAscends(s[1..]);
      InsertSortedAscends(s[0], Sort(s[1..]));
    }
  }

  predicate HasAdjacentDuplicate(s: seq<string>) {
    exists i :: 0 <= i < |s| - 1 && s[i] == s[i + 1]
  }

  // On a sorted sequence, looking at neighbours finds every duplicate.
  lemma SortedWithoutAdjacentDuplicates(s: seq<string>)
    requires Ascending(s)
    ensures !HasAdjacentDuplicate(s) <==> Distinct(s)
    ensures !HasAdjacentDuplicate(s) <==> StrictlyAscending(s)
  {
    forall i, j | !HasAdjacentDuplicate(s) && 0 <= i < j < |s| ensures Before(s[i], s[j]) {
      assert AtMost(s[i], s[i + 1]) && s[i] != s[i + 1];
      if i + 1 < j && s[i + 1] != s[j] {
        BeforeIsTransitive(s[i], s[i + 1], s[j]);
      }
    }
    if StrictlyAscending(s) {
      forall i, j | 0 <= i < j < |s| ensures s[i] != s[j] {
        BeforeIsTotalOrder(s[i], s[j]);
      }
    }
  }

  // Sorting preserves having no repeated name.
  lemma SameMultisetDistinct<T>(a: seq<T>, b: seq<T>)
    requires multiset(a) == multiset(b)
    ensures Elements(a) == Elements(b)
    ensures Distinct(a) <==> Distinct(b)
  {
    forall x ensures x in a <==> x in b {
      assert x in a <==> x in multiset(a);
      assert x in b <==> x in multiset(b);
    }
    DistinctByMultiset(a);
    DistinctByMultiset(b);
  }

  lemma {:induction false} DistinctByMultiset<T>(s: seq<T>)
    ensures Distinct(s) <==> forall x :: multiset(s)[x] <= 1
  {
    if s == [] {
    } else {
      var rest := s[1..];
      DistinctByMultiset(rest);
      assert s == [s[0]] + rest;
      assert multiset(s) == multiset{s[0]} + multiset(rest);
      assert s[0] in rest <==> multiset(rest)[s[0]] >= 1;
      if Distinct(s) {
        assert s[0] !in rest;
        assert forall i, j :: 0 <= i < j < |rest| ==> rest[i] == s[i + 1] && rest[j] == s[j + 1];
        assert Distinct(rest);
      } else if !Distinct(rest) {
        var x :| multiset(rest)[x] > 1;
        assert multiset(s)[x] > 1;
      } else {
        var i, j :| 0 <= i < j < |s| && s[i] == s[j];
        assert i == 0;
        assert rest[j - 1] == s[0];
        assert multiset(s)[s[0]] >= 2;
      }
    }
  }
}
