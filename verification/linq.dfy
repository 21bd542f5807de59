/** The two LINQ operators the resolver applies to its raw result: `Distinct`, which keeps the
    first occurrence of each path, and `OrderBy(a => a)`, a sort on the ordinal string order. */
module Linq {
  import opened OrdinalStrings

  predicate NoDuplicates<T(==)>(s: seq<T>) {
    forall i, j :: 0 <= i < j < |s| ==> s[i] != s[j]
  }

  /** Non-decreasing in the ordinal order. */
  predicate Sorted(s: seq<string>) {
    forall i, j :: 0 <= i < j < |s| ==> AtMost(s[i], s[j])
  }

  /** Strictly increasing in the ordinal order. */
  predicate StrictlySorted(s: seq<string>) {
    forall i, j :: 0 <= i < j < |s| ==> Below(s[i], s[j])
  }

  /** `Enumerable.Distinct`: the elements of `s` in order of first occurrence, each once. */
  function Distinct(s: seq<string>): (r: seq<string>)
    ensures forall x :: x in r <==> x in s
    ensures NoDuplicates(r)
    ensures |r| <= |s|
  {
    if |s| == 0 then []
    else
      var r := Distinct(s[..|s| - 1]);
      if s[|s| - 1] in r then r else r + [s[|s| - 1]]
  }

  /** `Distinct` leaves a sequence without duplicates unchanged. */
  lemma {:induction false} DistinctOfDistinct(s: seq<string>)
    requires NoDuplicates(s)
    ensures Distinct(s) == s
  {
    if |s| > 0 {
      DistinctOfDistinct(s[..|s| - 1]);
      assert s[|s| - 1] !in s[..|s| - 1];
      assert s == s[..|s| - 1] + [s[|s| - 1]];
    }
  }

  /** Inserts `x` into the sorted `s` before the first element it does not follow. */
  function Insert(x: string, s: seq<string>): (r: seq<string>)
    requires Sorted(s)
    ensures Sorted(r)
    ensures multiset(r) == multiset(s) + multiset{x}
  {
    if |s| == 0 then [x]
    else if AtMost(x, s[0]) then
      FirstIsLowerBound(x, s);
      ConsSorted(x, s);
      [x] + s
    else
      BelowTotal(x, s[0]);
      var t := Insert(x, s[1..]);
      assert s == [s[0]] + s[1..];
      InsertedAbove(s[0], x, s[1..], t);
      ConsSorted(s[0], t);
      [s[0]] + t
  }

  /** What does not exceed the first element of a sorted sequence exceeds none of it. */
  lemma FirstIsLowerBound(x: string, s: seq<string>)
    requires Sorted(s) && |s| > 0 && AtMost(x, s[0])
    ensures forall j :: 0 <= j < |s| ==> AtMost(x, s[j])
  {
    forall j | 0 <= j < |s| ensures AtMost(x, s[j]) {
      if x != s[0] && s[0] != s[j] {
        BelowTransitive(x, s[0], s[j]);
      }
    }
  }

  /** A lower bound of a sorted sequence can be put in front of it. */
  lemma ConsSorted(y: string, t: seq<string>)
    requires Sorted(t)
    requires forall j :: 0 <= j < |t| ==> AtMost(y, t[j])
    ensures Sorted([y] + t)
  {
    var r := [y] + t;
    forall i, j | 0 <= i < j < |r| ensures AtMost(r[i], r[j]) {
      assert r[j] == t[j - 1];
      if i > 0 {
        assert r[i] == t[i - 1];
      }
    }
  }

  /** A lower bound of a sequence and of `x` bounds what inserting `x` gives. */
  lemma InsertedAbove(y: string, x: string, s: seq<string>, t: seq<string>)
    requires AtMost(y, x)
    requires forall j :: 0 <= j < |s| ==> AtMost(y, s[j])
    requires multiset(t) == multiset(s) + multiset{x}
    ensures forall j :: 0 <= j < |t| ==> AtMost(y, t[j])
  {
    forall j | 0 <= j < |t| ensures AtMost(y, t[j]) {
      assert t[j] in multiset(t);
      if t[j] != x {
        assert t[j] in multiset(s);
        var k :| 0 <= k < |s| && s[k] == t[j];
      }
    }
  }

  /** `OrderBy(a => a)`: a sorted permutation of `s`. */
  function OrderBy(s: seq<string>): (r: seq<string>)
    ensures Sorted(r)
    ensures multiset(r) == multiset(s)
  {
    if |s| == 0 then []
    else
      assert s == [s[0]] + s[1..];
      Insert(s[0], OrderBy(s[1..]))
  }

  /** A sorted sequence without duplicates is strictly increasing. */
  lemma SortedDistinctIsStrict(s: seq<string>)
    requires Sorted(s) && NoDuplicates(s)
    ensures StrictlySorted(s)
  {
  }

  /** Sorting a sequence without duplicates yields one without duplicates. */
  lemma OrderByKeepsNoDuplicates(s: seq<string>)
    requires NoDuplicates(s)
    ensures NoDuplicates(OrderBy(s))
  {
    var r := OrderBy(s);
    forall x ensures multiset(r)[x] <= 1 {
      MultisetOfNoDuplicates(s, x);
    }
    NoDuplicatesOfMultiset(r);
  }

  /** In a sequence without duplicates every element occurs once. */
  lemma {:induction false} MultisetOfNoDuplicates(s: seq<string>, x: string)
    requires NoDuplicates(s)
    ensures multiset(s)[x] <= 1
  {
    if |s| > 0 {
      assert s == s[..|s| - 1] + [s[|s| - 1]];
      MultisetOfNoDuplicates(s[..|s| - 1], x);
      if x == s[|s| - 1] {
        assert x !in s[..|s| - 1];
      }
    }
  }

  /** A sequence in which every element occurs at most once has no duplicates. */
  lemma NoDuplicatesOfMultiset(r: seq<string>)
    requires forall x :: multiset(r)[x] <= 1
    ensures NoDuplicates(r)
  {
    forall i, j | 0 <= i < j < |r| ensures r[i] != r[j] {
      assert r == r[..j] + r[j..];
      assert multiset(r)[r[j]] == multiset(r[..j])[r[j]] + multiset(r[j..])[r[j]];
      assert r[j] in multiset(r[j..]);
    }
  }

  /** Two strictly increasing sequences with the same elements are the same sequence: the
      sorted, duplicate-free rendering of a set is unique. */
  lemma {:induction false} StrictlySortedUnique(a: seq<string>, b: seq<string>)
    requires StrictlySorted(a) && StrictlySorted(b)
    requires forall x :: x in a <==> x in b
    ensures a == b
    decreases |a|
  {
    assert |a| > 0 ==> a[0] in a;
    assert |b| > 0 ==> b[0] in b;
    if |a| > 0 && |b| > 0 {
      assert a[0] in b && b[0] in a;
      var ka :| 0 <= ka < |a| && a[ka] == b[0];
      var kb :| 0 <= kb < |b| && b[kb] == a[0];
      if ka > 0 && kb > 0 {
        BelowAsymmetric(a[0], b[0]);
      }
      assert a == [a[0]] + a[1..] && b == [b[0]] + b[1..];
      BelowIrreflexive(a[0]);
      forall x | x in a[1..] ensures x in b[1..] {
        var k :| 1 <= k < |a| && a[k] == x;
        assert Below(a[0], a[k]);
        assert x in a;
        assert x in b && x != b[0];
      }
      forall x | x in b[1..] ensures x in a[1..] {
        var k :| 1 <= k < |b| && b[k] == x;
        assert Below(b[0], b[k]);
        assert x in b;
        assert x in a && x != a[0];
      }
      StrictlySortedUnique(a[1..], b[1..]);
    }
  }
}
