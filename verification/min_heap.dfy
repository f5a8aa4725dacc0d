/**
 The merge heap (`MinHeap` in extsort.cpp): a binary min-heap of
 (value, src) entries ordered by value. The source stores entry number p at
 `arr[p]`, counting from 1; here `entries[j]` is the entry the source keeps
 at `arr[j + 1]`, so the parent of index j is index (j - 1) / 2 and its
 children are 2j + 1 and 2j + 2, exactly the source's p / 2, 2p and 2p + 1.
 */
module MinHeaps {

  /** A chunk's current value and the chunk it came from. */
  datatype HeapEntry = HeapEntry(value: int, src: int)

  /** `capacity` is the number of entries the source's array can hold. */
  datatype MinHeap = MinHeap(capacity: int, entries: seq<HeapEntry>)

  /** Index of the parent of index j (j >= 1). */
  function Parent(j: int): int {
    (j - 1) / 2
  }

  /** The edge from index j up to its parent respects the order. */
  predicate EdgeOk(a: seq<HeapEntry>, j: int)
    requires 1 <= j < |a|
  {
    a[Parent(j)].value <= a[j].value
  }

  /** Every entry's value is at least its parent's. */
  predicate HeapOrdered(a: seq<HeapEntry>) {
    forall j :: 1 <= j < |a| ==> EdgeOk(a, j)
  }

  /** The constructor: room for `cap + 5` entries, none held. */
  function NewHeap(cap: int): (h: MinHeap)
    ensures h.capacity == cap + 5
    ensures h.entries == [] && HeapOrdered(h.entries)
  {
    MinHeap(cap + 5, [])
  }

  /** `empty()`: no entry is held. */
  function IsEmpty(h: MinHeap): (r: bool)
    ensures r <==> multiset(h.entries) == multiset{}
  {
    |h.entries| == 0
  }

  /** `push(value, src)`: silently ignored when the heap already holds
      `capacity` entries; otherwise the entry goes in as the last leaf and
      is swapped towards the root while its parent has a larger value. */
  method Push(h: MinHeap, value: int, src: int) returns (h': MinHeap)
    requires HeapOrdered(h.entries)
    ensures h'.capacity == h.capacity
    ensures HeapOrdered(h'.entries)
    ensures |h.entries| + 1 > h.capacity ==> h' == h
    ensures |h.entries| + 1 <= h.capacity ==>
              multiset(h'.entries) == multiset(h.entries) + multiset{HeapEntry(value, src)}
  {
    if |h.entries| + 1 > h.capacity {
      return h;
    }
    var a := h.entries + [HeapEntry(value, src)];
    var i := |a| - 1;
    forall k | 1 <= k < |a| && k != i
      ensures EdgeOk(a, k)
    {
      assert EdgeOk(h.entries, k);
    }
    while i > 0
      invariant 0 <= i < |a|
      invariant multiset(a) == multiset(h.entries) + multiset{HeapEntry(value, src)}
      invariant OrderedExceptUp(a, i)
      invariant ParentBelowChildren(a, i)
      decreases i
    {
      var p := Parent(i);
      if a[p].value <= a[i].value {
        break;
      }
      SiftUpStep(a, i);
      SwapKeepsMultiset(a, p, i);
      a := a[p := a[i]][i := a[p]];
      i := p;
    }
    forall k | 1 <= k < |a|
      ensures EdgeOk(a, k)
    {
    }
    h' := MinHeap(h.capacity, a);
  }

  // ---------------------------------------------------------------------
  // Sift-up: the order holds everywhere except on the edge from i up to its
  // parent, and i's parent is no larger than i's children.

  predicate OrderedExceptUp(a: seq<HeapEntry>, i: int) {
    forall k :: 1 <= k < |a| && k != i ==> EdgeOk(a, k)
  }

  predicate ParentBelowChildren(a: seq<HeapEntry>, i: int)
    requires 0 <= i < |a|
  {
    i > 0 ==>
      && (2 * i + 1 < |a| ==> a[Parent(i)].value <= a[2 * i + 1].value)
      && (2 * i + 2 < |a| ==> a[Parent(i)].value <= a[2 * i + 2].value)
  }

  /** One swap of `push`'s sift-up loop moves the exception one level up. */
  lemma SiftUpStep(a: seq<HeapEntry>, i: int)
    requires 0 < i < |a|
    requires OrderedExceptUp(a, i) && ParentBelowChildren(a, i)
    requires a[Parent(i)].value > a[i].value
    ensures OrderedExceptUp(a[Parent(i) := a[i]][i := a[Parent(i)]], Parent(i))
    ensures ParentBelowChildren(a[Parent(i) := a[i]][i := a[Parent(i)]], Parent(i))
  {
    var p := Parent(i);
    var b := a[p := a[i]][i := a[p]];
    forall k | 1 <= k < |b| && k != p
      ensures EdgeOk(b, k)
    {
      if k != i && Parent(k) != i && Parent(k) != p {
        assert EdgeOk(a, k);
      } else if Parent(k) == p && k != i {
        assert EdgeOk(a, k);
      }
    }
    if p > 0 {
      assert EdgeOk(a, p);
      if 2 * p + 1 < |a| && 2 * p + 1 != i {
        assert EdgeOk(a, 2 * p + 1);
      }
      if 2 * p + 2 < |a| && 2 * p + 2 != i {
        assert EdgeOk(a, 2 * p + 2);
      }
    }
  }

  // ---------------------------------------------------------------------
  // Sift-down: the order holds everywhere except on the edges from i down
  // to its children, and i's parent is no larger than i's children.

  predicate OrderedExceptDown(a: seq<HeapEntry>, i: int) {
    forall k :: 1 <= k < |a| && Parent(k) != i ==> EdgeOk(a, k)
  }

  /** One swap of `popMin`'s sift-down loop, with the smaller child `s` of
      `i`, moves the
      exception one level down. */
  lemma SiftDownStep(a: seq<HeapEntry>, i: int, s: int)
    requires 0 <= i < s < |a|
    requires s == 2 * i + 1 || s == 2 * i + 2
    requires OrderedExceptDown(a, i) && ParentBelowChildren(a, i)
    requires a[s].value < a[i].value
    requires 2 * i + 1 < |a| ==> a[s].value <= a[2 * i + 1].value
    requires 2 * i + 2 < |a| ==> a[s].value <= a[2 * i + 2].value
    ensures OrderedExceptDown(a[i := a[s]][s := a[i]], s)
    ensures ParentBelowChildren(a[i := a[s]][s := a[i]], s)
  {
    var b := a[i := a[s]][s := a[i]];
    forall k | 1 <= k < |b| && Parent(k) != s
      ensures EdgeOk(b, k)
    {
      if k != i && k != s && Parent(k) != i {
        assert EdgeOk(a, k);
      }
    }
    if 2 * s + 1 < |a| {
      assert EdgeOk(a, 2 * s + 1);
    }
    if 2 * s + 2 < |a| {
      assert EdgeOk(a, 2 * s + 2);
    }
  }

  lemma SwapKeepsMultiset(a: seq<HeapEntry>, i: int, j: int)
    requires 0 <= i < |a| && 0 <= j < |a|
    ensures multiset(a[i := a[j]][j := a[i]]) == multiset(a)
  {
  }

  /** Following parents from any index reaches the root, never increasing. */
  lemma {:induction false} RootBelow(a: seq<HeapEntry>, k: int)
    requires HeapOrdered(a)
    requires 0 <= k < |a|
    ensures a[0].value <= a[k].value
    decreases k
  {
    if k > 0 {
      assert EdgeOk(a, k);
      RootBelow(a, Parent(k));
    }
  }

  /** Taking the last entry to the root's slot and dropping the last slot
      loses exactly the root. */
  lemma RootRemoved(a: seq<HeapEntry>)
    requires |a| > 0
    ensures multiset(a[0 := a[|a| - 1]][..|a| - 1]) + multiset{a[0]} == multiset(a)
  {
    var n := |a| - 1;
    var b := a[0 := a[n]];
    assert b == b[..n] + [b[n]];
    assert b[n] == a[n];
    assert multiset(b) == multiset(a) - multiset{a[0]} + multiset{a[n]};
  }

  /** The sift-down loop of `popMin`, started at the root. */
  method SiftDown(a0: seq<HeapEntry>) returns (a: seq<HeapEntry>)
    requires OrderedExceptDown(a0, 0)
    ensures multiset(a) == multiset(a0)
    ensures HeapOrdered(a)
  {
    a := a0;
    var n := |a|;
    var i := 0;
    while true
      invariant |a| == n
      invariant 0 <= i && (n == 0 || i < n)
      invariant multiset(a) == multiset(a0)
      invariant OrderedExceptDown(a, i)
      invariant n > 0 ==> ParentBelowChildren(a, i)
      decreases n - i
    {
      var l := 2 * i + 1;
      var r := l + 1;
      var smallest := i;
      if l < n && a[l].value < a[smallest].value {
        smallest := l;
      }
      if r < n && a[r].value < a[smallest].value {
        smallest := r;
      }
      if smallest == i {
        break;
      }
      SiftDownStep(a, i, smallest);
      SwapKeepsMultiset(a, i, smallest);
      a := a[i := a[smallest]][smallest := a[i]];
      i := smallest;
    }
    forall k | 1 <= k < n
      ensures EdgeOk(a, k)
    {
    }
  }

  /** `popMin()` on a non-empty heap: the root is returned, the last entry
      takes its place and is swapped with its smaller child while that
      child's value is strictly smaller. */
  method PopMin(h: MinHeap) returns (e: HeapEntry, h': MinHeap)
    requires HeapOrdered(h.entries)
    requires |h.entries| > 0
    ensures e in h.entries
    ensures forall x :: x in h.entries ==> e.value <= x.value
    ensures multiset(h'.entries) + multiset{e} == multiset(h.entries)
    ensures HeapOrdered(h'.entries)
    ensures h'.capacity == h.capacity
  {
    var a0 := h.entries;
    forall x | x in a0
      ensures a0[0].value <= x.value
    {
      var k :| 0 <= k < |a0| && a0[k] == x;
      RootBelow(a0, k);
    }
    e := a0[0];
    var n := |a0| - 1;
    var a := a0[0 := a0[n]][..n];
    RootRemoved(a0);
    forall k | 1 <= k < n && Parent(k) != 0
      ensures EdgeOk(a, k)
    {
      assert EdgeOk(a0, k);
    }
    a := SiftDown(a);
    h' := MinHeap(h.capacity, a);
  }
}
