/** Sequence operations the bot gets from Python and its database: keeping
    the rows that satisfy a condition (a `delete ... where not` or a list
    comprehension with `if`) and a stable sort on an integer key
    (`sorted(..., key=...)`, `list.sort(key=...)`, `order(...)`). */
module Seqs {

  // ---------------------------------------------------------------------------
  // Filtering

  /** The elements of `s` that satisfy `p`, in their original order. */
  function Keep<T>(s: seq<T>, p: T -> bool): (r: seq<T>)
    ensures |r| <= |s|
  {
    if s == [] then [] else (if p(s[0]) then [s[0]] else []) + Keep(s[1..], p)
  }

  lemma {:induction false} KeepMembers<T>(s: seq<T>, p: T -> bool)
    ensures forall x :: x in Keep(s, p) ==> x in s && p(x)
    ensures forall x :: x in s && p(x) ==> x in Keep(s, p)
  {
    if s != [] {
      KeepMembers(s[1..], p);
      assert s == [s[0]] + s[1..];
    }
  }

  lemma {:induction false} KeepConcat<T>(a: seq<T>, b: seq<T>, p: T -> bool)
    ensures Keep(a + b, p) == Keep(a, p) + Keep(b, p)
  {
    if a != [] {
      assert (a + b)[1..] == a[1..] + b;
      KeepConcat(a[1..], b, p);
    } else {
      assert a + b == b;
    }
  }

  lemma {:induction false} KeepAll<T>(s: seq<T>, p: T -> bool)
    requires forall i :: 0 <= i < |s| ==> p(s[i])
    ensures Keep(s, p) == s
  {
    if s != [] {
      KeepAll(s[1..], p);
    }
  }

  lemma {:induction false} KeepNone<T>(s: seq<T>, p: T -> bool)
    requires forall i :: 0 <= i < |s| ==> !p(s[i])
    ensures Keep(s, p) == []
  {
    if s != [] {
      KeepNone(s[1..], p);
    }
  }

  /** Dropping the one element that fails `p` removes it alone. */
  lemma {:induction false} KeepAllBut<T>(s: seq<T>, k: nat, p: T -> bool)
    requires k < |s| && !p(s[k])
    requires forall i :: 0 <= i < |s| && i != k ==> p(s[i])
    ensures Keep(s, p) == s[..k] + s[k + 1..]
  {
    if k == 0 {
      KeepAll(s[1..], p);
    } else {
      KeepAllBut(s[1..], k - 1, p);
      assert s[1..][..k - 1] + s[1..][k..] == s[1..k] + s[k + 1..];
      assert s[..k] == [s[0]] + s[1..k];
    }
  }

  /** Keeping twice by the same condition keeps the same elements as once. */
  lemma KeepTwice<T>(s: seq<T>, p: T -> bool)
    ensures Keep(Keep(s, p), p) == Keep(s, p)
  {
    var k := Keep(s, p);
    KeepMembers(s, p);
    forall i | 0 <= i < |k| ensures p(k[i]) {
      assert k[i] in k;
    }
    KeepAll(k, p);
  }

  // ---------------------------------------------------------------------------
  // Order and distinctness

  /** `s` is in non-decreasing order of `key`. */
  predicate SortedBy<T>(s: seq<T>, key: T -> int) {
    forall i, j :: 0 <= i < j < |s| ==> key(s[i]) <= key(s[j])
  }

  ghost predicate Distinct<T>(s: seq<T>) {
    forall i, j :: 0 <= i < j < |s| ==> s[i] != s[j]
  }

  /** `s` is in strictly increasing order of the integer `f`. */
  predicate IncreasingBy<T>(s: seq<T>, f: T -> int) {
    forall i, j :: 0 <= i < j < |s| ==> f(s[i]) < f(s[j])
  }

  /** No two elements of `s` agree on `f`. */
  predicate DistinctBy<T, K(==)>(s: seq<T>, f: T -> K) {
    forall i, j :: 0 <= i < j < |s| ==> f(s[i]) != f(s[j])
  }

  lemma {:induction false} KeepIncreasing<T>(s: seq<T>, p: T -> bool, f: T -> int)
    requires IncreasingBy(s, f)
    ensures IncreasingBy(Keep(s, p), f)
  {
    if s != [] {
      KeepIncreasing(s[1..], p, f);
      KeepMembers(s[1..], p);
      var tail := Keep(s[1..], p);
      forall j | 0 <= j < |tail| ensures f(s[0]) < f(tail[j]) {
        assert tail[j] in tail;
      }
    }
  }

  lemma {:induction false} KeepDistinctBy<T, K>(s: seq<T>, p: T -> bool, f: T -> K)
    requires DistinctBy(s, f)
    ensures DistinctBy(Keep(s, p), f)
  {
    if s != [] {
      KeepDistinctBy(s[1..], p, f);
      KeepMembers(s[1..], p);
      var tail := Keep(s[1..], p);
      forall j | 0 <= j < |tail| ensures f(s[0]) != f(tail[j]) {
        assert tail[j] in tail;
      }
    }
  }

  lemma {:induction false} DistinctCounts<T>(s: seq<T>, x: T)
    requires Distinct(s)
    ensures multiset(s)[x] <= 1
  {
    if s != [] {
      assert s == [s[0]] + s[1..];
      DistinctCounts(s[1..], x);
      if x == s[0] {
        assert x !in s[1..];
      }
    }
  }

  /** A permutation of a sequence without repetitions has none either. */
  lemma PermutationKeepsDistinct<T>(a: seq<T>, b: seq<T>)
    requires multiset(a) == multiset(b) && Distinct(a)
    ensures Distinct(b)
  {
    forall i, j | 0 <= i < j < |b| ensures b[i] != b[j] {
      if b[i] == b[j] {
        var x := b[i];
        assert b == b[..j] + [b[j]] + b[j + 1..];
        assert x in b[..j];
        assert multiset(b)[x] == multiset(b[..j])[x] + 1 + multiset(b[j + 1..])[x];
        DistinctCounts(a, x);
      }
    }
  }

  /** A permutation of a sequence whose elements differ on `f` differs on `f` too. */
  lemma PermutationKeepsDistinctBy<T, K>(a: seq<T>, b: seq<T>, f: T -> K)
    requires multiset(a) == multiset(b) && DistinctBy(a, f)
    ensures DistinctBy(b, f)
  {
    assert Distinct(a) by {
      forall i, j | 0 <= i < j < |a| ensures a[i] != a[j] {
        assert f(a[i]) != f(a[j]);
      }
    }
    PermutationKeepsDistinct(a, b);
    forall i, j | 0 <= i < j < |b| ensures f(b[i]) != f(b[j]) {
      assert b[i] in multiset(a) && b[j] in multiset(a);
      var p :| 0 <= p < |a| && a[p] == b[i];
      var q :| 0 <= q < |a| && a[q] == b[j];
      assert p != q;
    }
  }

  lemma SortedDistinctIncreasing<T>(s: seq<T>, f: T -> int)
    requires SortedBy(s, f) && DistinctBy(s, f)
    ensures IncreasingBy(s, f)
  {
    forall i, j | 0 <= i < j < |s| ensures f(s[i]) < f(s[j]) {
      assert f(s[i]) <= f(s[j]) && f(s[i]) != f(s[j]);
    }
  }

  /** Two strictly increasing sequences of integers that hold the same
      values are equal. */
  lemma {:induction false} IncreasingSameElements(a: seq<int>, b: seq<int>)
    requires forall i, j :: 0 <= i < j < |a| ==> a[i] < a[j]
    requires forall i, j :: 0 <= i < j < |b| ==> b[i] < b[j]
    requires forall x :: x in a <==> x in b
    ensures a == b
  {
    assert a != [] ==> a[0] in a && a[0] in b;
    assert b != [] ==> b[0] in b && b[0] in a;
    if a != [] && b != [] {
      assert a[0] == b[0];
      forall x ensures x in a[1..] <==> x in b[1..] {
        if x in a[1..] {
          assert x in a && x != a[0];
        }
        if x in b[1..] {
          assert x in b && x != b[0];
        }
      }
      IncreasingSameElements(a[1..], b[1..]);
      assert a == [a[0]] + a[1..] && b == [b[0]] + b[1..];
    }
  }

  // ---------------------------------------------------------------------------
  // Stable sort

  /** The elements of `s` whose key is `k`, in their original order. */
  function WithKey<T>(s: seq<T>, key: T -> int, k: int): seq<T> {
    if s == [] then [] else (if key(s[0]) == k then [s[0]] else []) + WithKey(s[1..], key, k)
  }

  /** Places `x` before the first element whose key is not smaller. */
  function Insert<T>(x: T, s: seq<T>, key: T -> int): (r: seq<T>)
    ensures |r| == |s| + 1
  {
    if s == [] || key(x) <= key(s[0]) then [x] + s else [s[0]] + Insert(x, s[1..], key)
  }

  /** Stable insertion sort on `key`, ascending. */
  function SortBy<T>(s: seq<T>, key: T -> int): (r: seq<T>)
    ensures |r| == |s|
  {
    if s == [] then [] else Insert(s[0], SortBy(s[1..], key), key)
  }

  lemma {:induction false} InsertMultiset<T>(x: T, s: seq<T>, key: T -> int)
    ensures multiset(Insert(x, s, key)) == multiset(s) + multiset{x}
  {
    if s != [] && key(x) > key(s[0]) {
      InsertMultiset(x, s[1..], key);
      assert s == [s[0]] + s[1..];
    }
  }

  lemma {:induction false} InsertSorted<T>(x: T, s: seq<T>, key: T -> int)
    requires SortedBy(s, key)
    ensures SortedBy(Insert(x, s, key), key)
  {
    if s != [] && key(x) > key(s[0]) {
      var tail := Insert(x, s[1..], key);
      InsertSorted(x, s[1..], key);
      InsertMultiset(x, s[1..], key);
      forall j | 0 <= j < |tail| ensures key(s[0]) <= key(tail[j]) {
        assert tail[j] in multiset(tail);
        if tail[j] != x {
          assert tail[j] in s[1..];
        }
      }
    }
  }

  lemma {:induction false} InsertWithKey<T>(x: T, s: seq<T>, key: T -> int, k: int)
    ensures WithKey(Insert(x, s, key), key, k)
         == (if key(x) == k then [x] else []) + WithKey(s, key, k)
  {
    if s != [] && key(x) > key(s[0]) {
      InsertWithKey(x, s[1..], key, k);
      assert ([s[0]] + Insert(x, s[1..], key))[1..] == Insert(x, s[1..], key);
    } else {
      assert ([x] + s)[1..] == s;
    }
  }

  /** The result of `SortBy` is ordered by `key`, is a permutation of the
      input, and keeps the input order among elements with equal keys. */
  lemma {:induction false} SortByCorrect<T>(s: seq<T>, key: T -> int)
    ensures SortedBy(SortBy(s, key), key)
    ensures multiset(SortBy(s, key)) == multiset(s)
    ensures forall k :: WithKey(SortBy(s, key), key, k) == WithKey(s, key, k)
  {
    if s != [] {
      var rest := SortBy(s[1..], key);
      SortByCorrect(s[1..], key);
      assert SortedBy(SortBy(s, key), key) by {
        InsertSorted(s[0], rest, key);
      }
      assert multiset(SortBy(s, key)) == multiset(s) by {
        InsertMultiset(s[0], rest, key);
        assert s == [s[0]] + s[1..];
      }
      forall k ensures WithKey(SortBy(s, key), key, k) == WithKey(s, key, k) {
        InsertWithKey(s[0], rest, key, k);
      }
    }
  }
}
