/**
 * Sequence helpers that stand in for the SQL the store runs: a WHERE filter,
 * a stable ORDER BY on an integer column, and duplicate-freedom.
 */
module Seqs {

  function Min(a: int, b: int): int { if a <= b then a else b }

  /** The set of elements of a sequence. */
  function Elems<T>(s: seq<T>): set<T> { set x | x in s }

  predicate NoDup<T(==)>(s: seq<T>)
  {
    forall i, j :: 0 <= i < j < |s| ==> s[i] != s[j]
  }

  /** `WHERE p`: the elements satisfying `p`, in their original order. */
  function Filter<T>(s: seq<T>, p: T -> bool): (r: seq<T>)
    ensures |r| <= |s|
    ensures forall x <- r :: x in s && p(x)
    ensures forall x <- s :: p(x) ==> x in r
    ensures multiset(r) <= multiset(s)
  {
    if s == [] then []
    else
      assert s == [s[0]] + s[1..];
      (if p(s[0]) then [s[0]] else []) + Filter(s[1..], p)
  }

  lemma {:induction false} FilterAppend<T>(a: seq<T>, b: seq<T>, p: T -> bool)
    ensures Filter(a + b, p) == Filter(a, p) + Filter(b, p)
  {
    if a != [] {
      assert (a + b)[1..] == a[1..] + b;
      FilterAppend(a[1..], b, p);
    } else {
      assert a + b == b;
    }
  }

  ghost predicate SortedBy<T>(s: seq<T>, key: T -> int)
  {
    forall i, j :: 0 <= i < j < |s| ==> key(s[i]) <= key(s[j])
  }

  /** Inserts `x` in front of the first element whose key is not smaller. */
  function Insert<T>(x: T, s: seq<T>, key: T -> int): (r: seq<T>)
    requires SortedBy(s, key)
    ensures SortedBy(r, key)
    ensures multiset(r) == multiset(s) + multiset{x}
  {
    if s == [] then [x]
    else if key(x) <= key(s[0]) then [x] + s
    else
      assert s == [s[0]] + s[1..];
      var rest := Insert(x, s[1..], key);
      assert forall y <- rest :: key(s[0]) <= key(y) by {
        forall y | y in rest ensures key(s[0]) <= key(y) {
          assert y in multiset(rest);
          if y != x {
            assert y in multiset(s[1..]);
            var k :| 0 <= k < |s[1..]| && s[1..][k] == y;
            assert s[k + 1] == y;
          }
        }
      }
      PrependSorted(s[0], rest, key);
      [s[0]] + rest
  }

  /** A head no larger than any element of a sorted tail keeps it sorted. */
  lemma PrependSorted<T>(a: T, rest: seq<T>, key: T -> int)
    requires SortedBy(rest, key)
    requires forall y <- rest :: key(a) <= key(y)
    ensures SortedBy([a] + rest, key)
  {
    var r := [a] + rest;
    forall i, j | 0 <= i < j < |r| ensures key(r[i]) <= key(r[j]) {
      assert r[j] == rest[j - 1];
      if i == 0 {
        assert rest[j - 1] in rest;
      } else {
        assert r[i] == rest[i - 1];
      }
    }
  }

  /**
   * Stable insertion sort by ascending `key` (`ORDER BY key ASC`; a
   * descending order uses the negated key).
   */
  function SortBy<T>(s: seq<T>, key: T -> int): (r: seq<T>)
    ensures SortedBy(r, key)
    ensures multiset(r) == multiset(s)
    ensures |r| == |s|
  {
    if s == [] then []
    else
      assert s == [s[0]] + s[1..];
      var r := Insert(s[0], SortBy(s[1..], key), key);
      assert |r| == |multiset(r)| == |s|;
      r
  }

  /** Two equal elements at distinct positions count twice in the multiset. */
  lemma {:induction false} DuplicateCountsTwice<T>(s: seq<T>, i: int, j: int)
    requires 0 <= i < j < |s| && s[i] == s[j]
    ensures multiset(s)[s[i]] >= 2
  {
    assert s == s[..i] + [s[i]] + s[i + 1..j] + [s[j]] + s[j + 1..];
    assert multiset(s) == multiset(s[..i]) + multiset{s[i]} + multiset(s[i + 1..j]) + multiset{s[j]} + multiset(s[j + 1..]);
  }

  lemma {:induction false} NoDupCountsOnce<T>(s: seq<T>, x: T)
    requires NoDup(s)
    ensures multiset(s)[x] <= 1
  {
    if s != [] {
      assert s == [s[0]] + s[1..];
      assert NoDup(s[1..]);
      NoDupCountsOnce(s[1..], x);
      if s[0] == x {
        assert x !in s[1..];
        assert multiset(s[1..])[x] == 0;
      }
    }
  }

  /** A permutation of a duplicate-free sequence is duplicate-free. */
  lemma {:induction false} NoDupPermutation<T>(a: seq<T>, b: seq<T>)
    requires NoDup(a) && multiset(a) == multiset(b)
    ensures NoDup(b)
  {
    forall i, j | 0 <= i < j < |b| ensures b[i] != b[j] {
      if b[i] == b[j] {
        DuplicateCountsTwice(b, i, j);
        NoDupCountsOnce(a, b[i]);
      }
    }
  }

  /** A duplicate-free sequence has as many distinct elements as entries. */
  lemma {:induction false} NoDupCardinality<T>(s: seq<T>)
    requires NoDup(s)
    ensures |Elems(s)| == |s|
  {
    if s != [] {
      assert NoDup(s[1..]);
      NoDupCardinality(s[1..]);
      assert s == [s[0]] + s[1..];
      assert Elems(s) == Elems(s[1..]) + {s[0]};
      assert s[0] !in Elems(s[1..]);
    }
  }
}
