/**
 The run sorter (`mergeSortLinear` in extsort.cpp), stated over sequences.
 The source sorts linked nodes by their `value`; here a node is any `T`
 and `key` reads its value, so that stability (equal keys keep their
 relative order) can be stated at all. Runs of records are the instance
 `T = int` with the identity key (`SortRun`).
 */
module RunSorter {
  import opened Common

  /** Non-decreasing by key. */
  predicate SortedBy<T>(s: seq<T>, key: T -> int) {
    forall i, j :: 0 <= i < j < |s| ==> key(s[i]) <= key(s[j])
  }

  /** The elements of `s` whose key is `k`, in the order they have in `s`. */
  function WithKey<T>(s: seq<T>, key: T -> int, k: int): seq<T>
    decreases |s|
  {
    if s == [] then []
    else (if key(s[0]) == k then [s[0]] else []) + WithKey(s[1..], key, k)
  }

  /** `r` keeps, for every key, the original relative order of `s`'s elements. */
  ghost predicate Stable<T>(s: seq<T>, r: seq<T>, key: T -> int) {
    forall k :: WithKey(r, key, k) == WithKey(s, key, k)
  }

  /** The merge loop of `mergeSortLinear`: repeatedly take the lesser head, the
      left one when the keys are equal. */
  function Merge<T(==)>(a: seq<T>, b: seq<T>, key: T -> int): (r: seq<T>)
    ensures multiset(r) == multiset(a) + multiset(b)
    ensures |r| == |a| + |b|
    decreases |a| + |b|
  {
    if a == [] then b
    else if b == [] then a
    else if key(a[0]) <= key(b[0]) then
      assert a == [a[0]] + a[1..];
      [a[0]] + Merge(a[1..], b, key)
    else
      assert b == [b[0]] + b[1..];
      [b[0]] + Merge(a, b[1..], key)
  }

  /** Top-down merge sort. The slow/fast walk that finds the midpoint (fast
      starts one node ahead) leaves the first `(n + 1) / 2` nodes in the left half. */
  function MergeSort<T(==)>(s: seq<T>, key: T -> int): (r: seq<T>)
    ensures multiset(r) == multiset(s)
    ensures |r| == |s|
    ensures SortedBy(r, key)
    decreases |s|
  {
    if |s| <= 1 then s
    else
      var m := (|s| + 1) / 2;
      assert s == s[..m] + s[m..];
      var left := MergeSort(s[..m], key);
      var right := MergeSort(s[m..], key);
      MergeSorted(left, right, key);
      Merge(left, right, key)
  }

  /** The record's value is its own sort key. */
  function Value(x: int): int {
    x
  }

  /** A run of records sorted the way a spill sorts it. */
  function SortRun(run: seq<int>): (r: seq<int>)
    ensures Sorted(r)
    ensures multiset(r) == multiset(run)
    ensures |r| == |run|
  {
    MergeSort(run, Value)
  }

  // ---------------------------------------------------------------------
  // Lemmas about Merge and MergeSort

  lemma PrependSorted<T>(x: T, r: seq<T>, key: T -> int)
    requires SortedBy(r, key)
    requires forall j :: 0 <= j < |r| ==> key(x) <= key(r[j])
    ensures SortedBy([x] + r, key)
  {
  }

  /** A key bound on two sequences carries over to any permutation of their union. */
  lemma BoundCarries<T>(x: T, a: seq<T>, b: seq<T>, r: seq<T>, key: T -> int)
    requires multiset(r) == multiset(a) + multiset(b)
    requires forall i :: 0 <= i < |a| ==> key(x) <= key(a[i])
    requires forall i :: 0 <= i < |b| ==> key(x) <= key(b[i])
    ensures forall j :: 0 <= j < |r| ==> key(x) <= key(r[j])
  {
    forall j | 0 <= j < |r|
      ensures key(x) <= key(r[j])
    {
      assert r[j] in multiset(r);
      if r[j] in multiset(a) {
        var i :| 0 <= i < |a| && a[i] == r[j];
      } else {
        assert r[j] in multiset(b);
        var i :| 0 <= i < |b| && b[i] == r[j];
      }
    }
  }

  /** Merging two ascending sequences yields an ascending sequence. */
  lemma {:induction false} MergeSorted<T>(a: seq<T>, b: seq<T>, key: T -> int)
    requires SortedBy(a, key) && SortedBy(b, key)
    ensures SortedBy(Merge(a, b, key), key)
    decreases |a| + |b|
  {
    if a != [] && b != [] {
      if key(a[0]) <= key(b[0]) {
        var t := Merge(a[1..], b, key);
        MergeSorted(a[1..], b, key);
        BoundCarries(a[0], a[1..], b, t, key);
        PrependSorted(a[0], t, key);
      } else {
        var t := Merge(a, b[1..], key);
        MergeSorted(a, b[1..], key);
        BoundCarries(b[0], a, b[1..], t, key);
        PrependSorted(b[0], t, key);
      }
    }
  }

  lemma {:induction false} WithKeyAppend<T>(a: seq<T>, b: seq<T>, key: T -> int, k: int)
    ensures WithKey(a + b, key, k) == WithKey(a, key, k) + WithKey(b, key, k)
    decreases |a|
  {
    if a == [] {
      assert [] + b == b;
    } else {
      WithKeyAppend(a[1..], b, key, k);
      ConsAppend(a, b);
      WithKeyHead(a + b, key, k);
      WithKeyHead(a, key, k);
      AppendAssoc(if key(a[0]) == k then [a[0]] else [], WithKey(a[1..], key, k), WithKey(b, key, k));
    }
  }

  lemma ConsAppend<T>(a: seq<T>, b: seq<T>)
    requires a != []
    ensures (a + b)[0] == a[0] && (a + b)[1..] == a[1..] + b
  {
  }

  /** No element with key `k` means nothing survives the selection. */
  lemma {:induction false} WithKeyAbsent<T>(a: seq<T>, key: T -> int, k: int)
    requires forall i :: 0 <= i < |a| ==> key(a[i]) != k
    ensures WithKey(a, key, k) == []
    decreases |a|
  {
    if a != [] {
      WithKeyAbsent(a[1..], key, k);
    }
  }

  lemma WithKeyCons<T>(x: T, s: seq<T>, key: T -> int, k: int)
    ensures WithKey([x] + s, key, k) == (if key(x) == k then [x] else []) + WithKey(s, key, k)
  {
    assert ([x] + s)[0] == x && ([x] + s)[1..] == s;
  }

  /** Ties go left: among equal keys, everything from `a` precedes everything from `b`. */
  lemma {:induction false} MergeWithKey<T>(a: seq<T>, b: seq<T>, key: T -> int, k: int)
    requires SortedBy(a, key)
    ensures WithKey(Merge(a, b, key), key, k) == WithKey(a, key, k) + WithKey(b, key, k)
    decreases |a| + |b|
  {
    if a == [] {
      assert WithKey(a, key, k) == [];
    } else if b == [] {
      assert WithKey(b, key, k) == [];
    } else if key(a[0]) <= key(b[0]) {
      assert SortedBy(a[1..], key);
      MergeWithKey(a[1..], b, key, k);
      MergeTakesLeft(a, b, key, k);
    } else {
      MergeWithKey(a, b[1..], key, k);
      if key(b[0]) == k {
        SortedAboveAbsent(a, key, k);
      }
      MergeTakesRight(a, b, key, k);
    }
  }

  lemma MergeTakesLeft<T>(a: seq<T>, b: seq<T>, key: T -> int, k: int)
    requires a != [] && b != [] && key(a[0]) <= key(b[0])
    requires WithKey(Merge(a[1..], b, key), key, k) == WithKey(a[1..], key, k) + WithKey(b, key, k)
    ensures WithKey(Merge(a, b, key), key, k) == WithKey(a, key, k) + WithKey(b, key, k)
  {
    var m := Merge(a[1..], b, key);
    MergeHeadLeft(a, b, key);
    WithKeyCons(a[0], m, key, k);
    WithKeyHead(a, key, k);
    AppendAssoc(if key(a[0]) == k then [a[0]] else [], WithKey(a[1..], key, k), WithKey(b, key, k));
  }

  lemma MergeTakesRight<T>(a: seq<T>, b: seq<T>, key: T -> int, k: int)
    requires a != [] && b != [] && key(a[0]) > key(b[0])
    requires key(b[0]) == k ==> WithKey(a, key, k) == []
    requires WithKey(Merge(a, b[1..], key), key, k) == WithKey(a, key, k) + WithKey(b[1..], key, k)
    ensures WithKey(Merge(a, b, key), key, k) == WithKey(a, key, k) + WithKey(b, key, k)
  {
    MergeHeadRight(a, b, key);
    WithKeyCons(b[0], Merge(a, b[1..], key), key, k);
    WithKeyHead(b, key, k);
    if key(b[0]) == k {
      RightHeadKept(WithKey(Merge(a, b[1..], key), key, k), WithKey(a, key, k), b[0], WithKey(b[1..], key, k));
    } else {
      assert [] + WithKey(Merge(a, b[1..], key), key, k) == WithKey(Merge(a, b[1..], key), key, k);
      assert [] + WithKey(b[1..], key, k) == WithKey(b[1..], key, k);
    }
  }

  lemma RightHeadKept<T>(m: seq<T>, wa: seq<T>, y: T, wb: seq<T>)
    requires wa == [] && m == wa + wb
    ensures [y] + m == wa + ([y] + wb)
  {
  }

  /** Nothing in an ascending sequence whose first key exceeds k has key k. */
  lemma SortedAboveAbsent<T>(a: seq<T>, key: T -> int, k: int)
    requires SortedBy(a, key) && a != [] && key(a[0]) > k
    ensures WithKey(a, key, k) == []
  {
    forall i | 0 <= i < |a|
      ensures key(a[i]) != k
    {
      if i > 0 {
        assert key(a[0]) <= key(a[i]);
      }
    }
    WithKeyAbsent(a, key, k);
  }

  lemma MergeHeadLeft<T>(a: seq<T>, b: seq<T>, key: T -> int)
    requires a != [] && b != [] && key(a[0]) <= key(b[0])
    ensures Merge(a, b, key) == [a[0]] + Merge(a[1..], b, key)
  {
  }

  lemma MergeHeadRight<T>(a: seq<T>, b: seq<T>, key: T -> int)
    requires a != [] && b != [] && key(a[0]) > key(b[0])
    ensures Merge(a, b, key) == [b[0]] + Merge(a, b[1..], key)
  {
  }

  lemma WithKeyHead<T>(a: seq<T>, key: T -> int, k: int)
    requires a != []
    ensures WithKey(a, key, k) == (if key(a[0]) == k then [a[0]] else []) + WithKey(a[1..], key, k)
  {
  }

  /** Concatenation regrouped, for the merge lemmas above. */
  lemma AppendAssoc<T>(x: seq<T>, p: seq<T>, q: seq<T>)
    ensures x + (p + q) == (x + p) + q
  {
  }

  /** The sort is stable. */
  lemma {:induction false} MergeSortStable<T>(s: seq<T>, key: T -> int)
    ensures Stable(s, MergeSort(s, key), key)
    decreases |s|
  {
    if |s| > 1 {
      var m := (|s| + 1) / 2;
      MergeSortStable(s[..m], key);
      MergeSortStable(s[m..], key);
      forall k
        ensures WithKey(MergeSort(s, key), key, k) == WithKey(s, key, k)
      {
        MergeSortKeepsKey(s, key, k);
      }
    }
  }

  /** One key of the stability step: the merge of the two stable halves. */
  lemma MergeSortKeepsKey<T>(s: seq<T>, key: T -> int, k: int)
    requires |s| > 1
    requires Stable(s[..(|s| + 1) / 2], MergeSort(s[..(|s| + 1) / 2], key), key)
    requires Stable(s[(|s| + 1) / 2..], MergeSort(s[(|s| + 1) / 2..], key), key)
    ensures WithKey(MergeSort(s, key), key, k) == WithKey(s, key, k)
  {
    var m := (|s| + 1) / 2;
    MergeWithKey(MergeSort(s[..m], key), MergeSort(s[m..], key), key, k);
    SplitAt(s, m);
    WithKeyAppend(s[..m], s[m..], key, k);
  }

  lemma SplitAt<T>(s: seq<T>, m: nat)
    requires m <= |s|
    ensures s[..m] + s[m..] == s
  {
  }

  /** Merging the two halves of an ascending sequence gives it back. */
  lemma {:induction false} MergeOfSortedHalves<T>(a: seq<T>, b: seq<T>, key: T -> int)
    requires SortedBy(a + b, key)
    ensures Merge(a, b, key) == a + b
    decreases |a|
  {
    if a == [] {
      assert a + b == b;
    } else if b != [] {
      assert key((a + b)[0]) <= key((a + b)[|a|]);
      assert (a + b)[1..] == a[1..] + b;
      MergeOfSortedHalves(a[1..], b, key);
    }
  }

  lemma SplitSorted<T>(s: seq<T>, m: nat, key: T -> int)
    requires SortedBy(s, key) && m <= |s|
    ensures s[..m] + s[m..] == s
    ensures SortedBy(s[..m], key) && SortedBy(s[m..], key)
  {
  }

  /** Sorting an already ascending sequence changes nothing. */
  lemma {:induction false} MergeSortOfSorted<T>(s: seq<T>, key: T -> int)
    requires SortedBy(s, key)
    ensures MergeSort(s, key) == s
    decreases |s|
  {
    if |s| > 1 {
      var m := (|s| + 1) / 2;
      SplitSorted(s, m, key);
      MergeSortOfSorted(s[..m], key);
      MergeSortOfSorted(s[m..], key);
      MergeOfSortedHalves(s[..m], s[m..], key);
    }
  }

  /** `SortRun` on an ascending run is the identity. */
  lemma SortRunOfSorted(run: seq<int>)
    requires Sorted(run)
    ensures SortRun(run) == run
  {
    assert SortedBy(run, Value);
    MergeSortOfSorted(run, Value);
  }

  /** `SortRun` is the unique ascending permutation of its input. */
  lemma SortRunUnique(run: seq<int>, r: seq<int>)
    requires Sorted(r) && multiset(r) == multiset(run)
    ensures r == SortRun(run)
  {
    SortedPermutationUnique(r, SortRun(run));
  }
}
