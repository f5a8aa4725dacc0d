/**
 Shared vocabulary of the external sort model: optional results, ascending
 sequences of records, and the concatenation of a list of chunks.
 */
module Common {

  /** A value that may be missing, e.g. the output file that is only created
      when at least one chunk was written. */
  datatype Option<T> = None | Some(value: T)

  /** Records in ascending (non-decreasing) order. */
  predicate Sorted(s: seq<int>) {
    forall i, j :: 0 <= i < j < |s| ==> s[i] <= s[j]
  }

  function Min(a: int, b: int): int {
    if a <= b then a else b
  }

  function Max(a: int, b: int): int {
    if a <= b then b else a
  }

  /** All chunks laid end to end, chunk 0 first. */
  function Flatten(chunks: seq<seq<int>>): seq<int> {
    if chunks == [] then [] else chunks[0] + Flatten(chunks[1..])
  }

  lemma {:induction false} FlattenAppend(a: seq<seq<int>>, b: seq<seq<int>>)
    ensures Flatten(a + b) == Flatten(a) + Flatten(b)
    decreases |a|
  {
    if a == [] {
      assert a + b == b;
    } else {
      assert (a + b)[1..] == a[1..] + b;
      FlattenAppend(a[1..], b);
    }
  }

  /** Flattening only empty chunks yields nothing. */
  lemma {:induction false} FlattenEmptyChunks(chunks: seq<seq<int>>)
    requires forall i :: 0 <= i < |chunks| ==> chunks[i] == []
    ensures Flatten(chunks) == []
    decreases |chunks|
  {
    if chunks != [] {
      FlattenEmptyChunks(chunks[1..]);
    }
  }

  lemma SortedHeadIsLeast(a: seq<int>, x: int)
    requires Sorted(a)
    requires x in multiset(a)
    ensures a[0] <= x
  {
    var i :| 0 <= i < |a| && a[i] == x;
  }

  lemma SortedTail(a: seq<int>)
    requires Sorted(a) && a != []
    ensures Sorted(a[1..])
  {
  }

  lemma SameHeadSameTail(a: seq<int>, b: seq<int>)
    requires a != [] && b != [] && a[0] == b[0]
    requires multiset(a) == multiset(b)
    ensures multiset(a[1..]) == multiset(b[1..])
  {
    assert a == [a[0]] + a[1..] && b == [b[0]] + b[1..];
    assert multiset(a) == multiset{a[0]} + multiset(a[1..]);
    assert multiset(b) == multiset{a[0]} + multiset(b[1..]);
    assert multiset(a[1..]) == multiset(a) - multiset{a[0]};
    assert multiset(b[1..]) == multiset(b) - multiset{a[0]};
  }

  /** There is only one ascending arrangement of a multiset of records. */
  lemma {:induction false} SortedPermutationUnique(a: seq<int>, b: seq<int>)
    requires Sorted(a) && Sorted(b)
    requires multiset(a) == multiset(b)
    ensures a == b
    decreases |a|
  {
    assert |b| == |multiset(b)| == |a|;
    if a != [] {
      var x, y := a[0], b[0];
      assert x in multiset(b) && y in multiset(a);
      SortedHeadIsLeast(a, y);
      SortedHeadIsLeast(b, x);
      SameHeadSameTail(a, b);
      SortedTail(a);
      SortedTail(b);
      SortedPermutationUnique(a[1..], b[1..]);
    }
  }
}
