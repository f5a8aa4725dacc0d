/**
 The k-way merge of `main` in extsort.cpp. Every chunk is
 read through its own cursor; the heap holds, for every chunk that is not
 exhausted, the chunk's current value tagged with the chunk's index. The
 least entry is emitted and replaced by the next value of the same chunk.

 The proof tracks a ghost cursor `c[i]`: the number of values of chunk i
 already emitted. The entry of chunk i in the heap is `chunks[i][c[i]]`,
 and the values not yet emitted are the suffixes `chunks[i][c[i]..]`.
 */
module MergePhase {
  import opened Common
  import opened MinHeaps
  import opened RunSorter

  /** Every chunk is in ascending order, as every spill leaves it. */
  predicate AllSorted(chunks: seq<seq<int>>) {
    forall i :: 0 <= i < |chunks| ==> Sorted(chunks[i])
  }

  /** One cursor per chunk, none past the chunk's end. */
  predicate CursorsOk(chunks: seq<seq<int>>, c: seq<nat>) {
    |c| == |chunks| && forall i :: 0 <= i < |c| ==> c[i] <= |chunks[i]|
  }

  /** The cursors before anything is emitted. */
  function Zeros(n: nat): (c: seq<nat>)
    ensures |c| == n && forall i :: 0 <= i < n ==> c[i] == 0
  {
    seq(n, _ => 0)
  }

  /** The entry chunk i contributes to the heap under cursor `c[i]`. */
  function HeadOf(chunks: seq<seq<int>>, c: seq<nat>, i: nat): multiset<HeapEntry>
    requires CursorsOk(chunks, c) && i < |chunks|
  {
    if c[i] < |chunks[i]| then multiset{HeapEntry(chunks[i][c[i]], i)} else multiset{}
  }

  /** The heap contents the merge maintains: the head entries of chunks 0..n-1. */
  function Heads(chunks: seq<seq<int>>, c: seq<nat>, n: nat): multiset<HeapEntry>
    requires CursorsOk(chunks, c) && n <= |chunks|
    decreases n
  {
    if n == 0 then multiset{} else Heads(chunks, c, n - 1) + HeadOf(chunks, c, n - 1)
  }

  /** The values of chunks 0..n-1 not yet emitted. */
  function Pending(chunks: seq<seq<int>>, c: seq<nat>, n: nat): multiset<int>
    requires CursorsOk(chunks, c) && n <= |chunks|
    decreases n
  {
    if n == 0 then multiset{} else Pending(chunks, c, n - 1) + multiset(chunks[n - 1][c[n - 1]..])
  }

  // ---------------------------------------------------------------------
  // Lemmas about the heads and the pending values

  /** A head entry names a live chunk below n and carries that chunk's
      current value; and no entry occurs twice, so the heap holds at most
      one entry per chunk. */
  lemma {:induction false} HeadsMember(chunks: seq<seq<int>>, c: seq<nat>, n: nat, x: HeapEntry)
    requires CursorsOk(chunks, c) && n <= |chunks|
    ensures x in Heads(chunks, c, n) ==>
              0 <= x.src < n && c[x.src] < |chunks[x.src]| && x.value == chunks[x.src][c[x.src]]
    ensures Heads(chunks, c, n)[x] <= 1
    decreases n
  {
    if n > 0 {
      HeadsMember(chunks, c, n - 1, x);
    }
  }

  /** At most one entry per chunk. */
  lemma {:induction false} HeadsSize(chunks: seq<seq<int>>, c: seq<nat>, n: nat)
    requires CursorsOk(chunks, c) && n <= |chunks|
    ensures |Heads(chunks, c, n)| <= n
    decreases n
  {
    if n > 0 {
      HeadsSize(chunks, c, n - 1);
    }
  }

  /** When no chunk has a head left, nothing is pending. */
  lemma {:induction false} NoHeadsNothingPending(chunks: seq<seq<int>>, c: seq<nat>, n: nat)
    requires CursorsOk(chunks, c) && n <= |chunks|
    requires Heads(chunks, c, n) == multiset{}
    ensures Pending(chunks, c, n) == multiset{}
    decreases n
  {
    if n > 0 {
      assert HeadOf(chunks, c, n - 1) == multiset{};
      NoHeadsNothingPending(chunks, c, n - 1);
    }
  }

  /** `c'` moves only the cursor of chunk i. */
  predicate OnlyMoves(c: seq<nat>, c': seq<nat>, i: nat) {
    |c'| == |c| && forall j :: 0 <= j < |c| && j != i ==> c'[j] == c[j]
  }

  /** Chunks below n keep their heads and pending values when only the
      cursor of a chunk at or above n moves. */
  lemma {:induction false} OtherCursorMoves(chunks: seq<seq<int>>, c: seq<nat>, c': seq<nat>, n: nat, i: nat)
    requires CursorsOk(chunks, c) && CursorsOk(chunks, c') && OnlyMoves(c, c', i)
    requires n <= |chunks| && n <= i
    ensures Heads(chunks, c', n) == Heads(chunks, c, n)
    ensures Pending(chunks, c', n) == Pending(chunks, c, n)
    decreases n
  {
    if n > 0 {
      OtherCursorMoves(chunks, c, c', n - 1, i);
      assert HeadOf(chunks, c', n - 1) == HeadOf(chunks, c, n - 1);
    }
  }

  /** Moving the cursor of chunk i < n exchanges chunk i's old head for its
      new one and leaves the other chunks' heads alone. */
  lemma {:induction false} HeadsCursorMoves(chunks: seq<seq<int>>, c: seq<nat>, c': seq<nat>, n: nat, i: nat)
    requires CursorsOk(chunks, c) && CursorsOk(chunks, c') && OnlyMoves(c, c', i)
    requires i < n <= |chunks|
    ensures Heads(chunks, c', n) + HeadOf(chunks, c, i) == Heads(chunks, c, n) + HeadOf(chunks, c', i)
    decreases n
  {
    if n - 1 == i {
      OtherCursorMoves(chunks, c, c', i, i);
      HeadsMovedLast(chunks, c, c', n, i);
    } else {
      HeadsCursorMoves(chunks, c, c', n - 1, i);
      HeadsMovedBelow(chunks, c, c', n, i);
    }
  }

  /** The chunk whose cursor moved is the last one counted. */
  lemma HeadsMovedLast(chunks: seq<seq<int>>, c: seq<nat>, c': seq<nat>, n: nat, i: nat)
    requires CursorsOk(chunks, c) && CursorsOk(chunks, c')
    requires n == i + 1 <= |chunks|
    requires Heads(chunks, c', i) == Heads(chunks, c, i)
    ensures Heads(chunks, c', n) + HeadOf(chunks, c, i) == Heads(chunks, c, n) + HeadOf(chunks, c', i)
  {
    ExchangeAtLast(Heads(chunks, c', n), Heads(chunks, c, n), Heads(chunks, c, i),
                   HeadOf(chunks, c, i), HeadOf(chunks, c', i));
  }

  /** The chunk whose cursor moved is below the last one counted. */
  lemma HeadsMovedBelow(chunks: seq<seq<int>>, c: seq<nat>, c': seq<nat>, n: nat, i: nat)
    requires CursorsOk(chunks, c) && CursorsOk(chunks, c') && OnlyMoves(c, c', i)
    requires i < n - 1 && n <= |chunks|
    requires Heads(chunks, c', n - 1) + HeadOf(chunks, c, i) == Heads(chunks, c, n - 1) + HeadOf(chunks, c', i)
    ensures Heads(chunks, c', n) + HeadOf(chunks, c, i) == Heads(chunks, c, n) + HeadOf(chunks, c', i)
  {
    assert c'[n - 1] == c[n - 1];
    assert HeadOf(chunks, c', n - 1) == HeadOf(chunks, c, n - 1);
    ExchangeExtends(Heads(chunks, c', n - 1), Heads(chunks, c, n - 1),
                    HeadOf(chunks, c, i), HeadOf(chunks, c', i), HeadOf(chunks, c, n - 1));
  }

  /** The same exchange for the pending values. */
  lemma {:induction false} PendingCursorMoves(chunks: seq<seq<int>>, c: seq<nat>, c': seq<nat>, n: nat, i: nat)
    requires CursorsOk(chunks, c) && CursorsOk(chunks, c') && OnlyMoves(c, c', i)
    requires i < n <= |chunks|
    ensures Pending(chunks, c', n) + multiset(chunks[i][c[i]..])
            == Pending(chunks, c, n) + multiset(chunks[i][c'[i]..])
    decreases n
  {
    if n - 1 == i {
      OtherCursorMoves(chunks, c, c', n - 1, i);
    } else {
      PendingCursorMoves(chunks, c, c', n - 1, i);
      assert c'[n - 1] == c[n - 1];
      ExchangeExtends(Pending(chunks, c', n - 1), Pending(chunks, c, n - 1),
                      multiset(chunks[i][c[i]..]), multiset(chunks[i][c'[i]..]),
                      multiset(chunks[n - 1][c[n - 1]..]));
    }
  }

  /** The reader of chunk j has delivered the value under the cursor as
      well as all before it, or the whole chunk once it is exhausted. */
  predicate ReadersAt(chunks: seq<seq<int>>, c: seq<nat>, pos: seq<nat>)
    requires |c| == |chunks|
  {
    |pos| == |chunks| && forall j :: 0 <= j < |chunks| ==> pos[j] == Min(c[j] + 1, |chunks[j]|)
  }

  /** After the cursor of chunk i steps, the readers follow the cursors
      again once chunk i's reader, if it has a value left, reads one more. */
  lemma ReaderFollows(chunks: seq<seq<int>>, c: seq<nat>, c': seq<nat>, pos: seq<nat>, pos': seq<nat>, i: nat)
    requires CursorsOk(chunks, c) && ReadersAt(chunks, c, pos)
    requires i < |chunks| && c[i] < |chunks[i]| && c' == c[i := c[i] + 1]
    requires pos' == if pos[i] < |chunks[i]| then pos[i := pos[i] + 1] else pos
    ensures CursorsOk(chunks, c') && ReadersAt(chunks, c', pos')
  {
    forall j | 0 <= j < |chunks|
      ensures pos'[j] == Min(c'[j] + 1, |chunks[j]|)
    {
      if j != i {
        assert pos'[j] == pos[j] && c'[j] == c[j];
      }
    }
  }

  /** Taking `e` out of a multiset and putting `next` in, two ways round. */
  lemma Replace<T>(h': multiset<T>, h: multiset<T>, rest: multiset<T>, m: multiset<T>, e: T, next: multiset<T>)
    requires h' + multiset{e} == h + next
    requires rest + multiset{e} == h
    requires m == rest + next
    ensures m == h'
  {
    forall x
      ensures m[x] == h'[x]
    {
      assert (h' + multiset{e})[x] == (h + next)[x];
      assert (rest + multiset{e})[x] == h[x];
    }
  }

  /** Stepping the cursor of a live chunk keeps the cursors in range. */
  lemma Advance(chunks: seq<seq<int>>, c: seq<nat>, i: nat)
    requires CursorsOk(chunks, c) && i < |chunks| && c[i] < |chunks[i]|
    ensures CursorsOk(chunks, c[i := c[i] + 1]) && OnlyMoves(c, c[i := c[i] + 1], i)
    ensures HeadOf(chunks, c, i) == multiset{HeapEntry(chunks[i][c[i]], i)}
  {
  }

  lemma SuffixSplits(s: seq<int>, k: nat)
    requires k < |s|
    ensures multiset(s[k..]) == multiset{s[k]} + multiset(s[k + 1..])
  {
    assert s[k..] == [s[k]] + s[k + 1..];
  }

  lemma ExchangeAtLast<T>(m': multiset<T>, m: multiset<T>, a: multiset<T>, x: multiset<T>, x': multiset<T>)
    requires m' == a + x' && m == a + x
    ensures m' + x == m + x'
  {
  }

  lemma ExchangeExtends<T>(a': multiset<T>, a: multiset<T>, x: multiset<T>, x': multiset<T>, y: multiset<T>)
    requires a' + x == a + x'
    ensures (a' + y) + x == (a + y) + x'
  {
    assert (a' + y) + x == (a' + x) + y;
    assert (a + y) + x' == (a + x') + y;
  }

  lemma Cancel<T>(p': multiset<T>, p: multiset<T>, v: T, t: multiset<T>)
    requires p' + (multiset{v} + t) == p + t
    ensures p' + multiset{v} == p
  {
    forall x
      ensures (p' + multiset{v})[x] == p[x]
    {
      assert (p' + (multiset{v} + t))[x] == (p + t)[x];
    }
  }

  /** With all cursors at 0 the pending values are all of chunks 0..n-1. */
  lemma {:induction false} PendingInitial(chunks: seq<seq<int>>, c: seq<nat>, n: nat)
    requires CursorsOk(chunks, c) && n <= |chunks|
    requires forall i :: 0 <= i < |c| ==> c[i] == 0
    ensures Pending(chunks, c, n) == multiset(Flatten(chunks[..n]))
    decreases n
  {
    if n > 0 {
      PendingInitial(chunks, c, n - 1);
      assert chunks[..n] == chunks[..n - 1] + [chunks[n - 1]];
      FlattenAppend(chunks[..n - 1], [chunks[n - 1]]);
      assert Flatten([chunks[n - 1]]) == chunks[n - 1] + [];
      assert chunks[n - 1][c[n - 1]..] == chunks[n - 1];
    }
  }

  /** Before the first pop every value of every chunk is pending. */
  lemma PendingAtStart(chunks: seq<seq<int>>)
    ensures CursorsOk(chunks, Zeros(|chunks|))
    ensures Pending(chunks, Zeros(|chunks|), |chunks|) == multiset(Flatten(chunks))
  {
    PendingInitial(chunks, Zeros(|chunks|), |chunks|);
    assert chunks[..|chunks|] == chunks;
  }

  /** A value no greater than every head is no greater than anything
      pending, when the chunks are ascending. */
  lemma {:induction false} HeadsBoundPending(chunks: seq<seq<int>>, c: seq<nat>, n: nat, v: int)
    requires CursorsOk(chunks, c) && n <= |chunks| && AllSorted(chunks)
    requires forall x :: x in Heads(chunks, c, n) ==> v <= x.value
    ensures forall y :: y in Pending(chunks, c, n) ==> v <= y
    decreases n
  {
    if n > 0 {
      HeadsBelow(chunks, c, n, v);
      HeadsBoundPending(chunks, c, n - 1, v);
      SuffixBound(chunks[n - 1], c[n - 1], v);
      UnionBound(Pending(chunks, c, n - 1), multiset(chunks[n - 1][c[n - 1]..]), v);
    }
  }

  /** The bound on the heads of chunks 0..n-1 holds for those of 0..n-2 and
      for the head of chunk n-1. */
  lemma HeadsBelow(chunks: seq<seq<int>>, c: seq<nat>, n: nat, v: int)
    requires CursorsOk(chunks, c) && 0 < n <= |chunks|
    requires forall x :: x in Heads(chunks, c, n) ==> v <= x.value
    ensures forall x :: x in Heads(chunks, c, n - 1) ==> v <= x.value
    ensures c[n - 1] < |chunks[n - 1]| ==> v <= chunks[n - 1][c[n - 1]]
  {
    if c[n - 1] < |chunks[n - 1]| {
      assert HeapEntry(chunks[n - 1][c[n - 1]], n - 1) in Heads(chunks, c, n);
    }
  }

  /** Everything from position k of an ascending sequence is at least its
      value at k. */
  lemma SuffixBound(s: seq<int>, k: nat, v: int)
    requires Sorted(s) && k <= |s|
    requires k < |s| ==> v <= s[k]
    ensures forall y :: y in multiset(s[k..]) ==> v <= y
  {
    forall y | y in multiset(s[k..])
      ensures v <= y
    {
      var j :| 0 <= j < |s[k..]| && s[k..][j] == y;
      assert s[k] <= s[k + j];
    }
  }

  lemma UnionBound(a: multiset<int>, b: multiset<int>, v: int)
    requires forall y :: y in a ==> v <= y
    requires forall y :: y in b ==> v <= y
    ensures forall y :: y in a + b ==> v <= y
  {
  }

  /** The last value emitted is at most every value still pending. */
  predicate LastBelow(out: seq<int>, p: multiset<int>) {
    |out| > 0 ==> forall y :: y in p ==> out[|out| - 1] <= y
  }

  /** Emitting `v`, a pending value no greater than anything pending,
      keeps the output ascending and below everything still pending. */
  lemma EmitLeast(out: seq<int>, v: int, p: multiset<int>, p': multiset<int>)
    requires Sorted(out) && LastBelow(out, p)
    requires p' + multiset{v} == p
    requires forall y :: y in p ==> v <= y
    ensures Sorted(out + [v]) && LastBelow(out + [v], p')
  {
    assert v in p;
    forall i, j | 0 <= i < j < |out + [v]|
      ensures (out + [v])[i] <= (out + [v])[j]
    {
      if j == |out| {
        assert out[i] <= out[|out| - 1];
      }
    }
    forall y | y in p'
      ensures v <= y
    {
      assert y in p;
    }
  }

  /** Emitting a value no greater than any entry of a heap that holds the
      heads keeps the output ascending and below every value still pending. */
  lemma EmitMinimum(chunks: seq<seq<int>>, c: seq<nat>, out: seq<int>, entries: seq<HeapEntry>,
                    v: int, p': multiset<int>)
    requires CursorsOk(chunks, c) && AllSorted(chunks)
    requires multiset(entries) == Heads(chunks, c, |chunks|)
    requires forall x :: x in entries ==> v <= x.value
    requires Sorted(out) && LastBelow(out, Pending(chunks, c, |chunks|))
    requires p' + multiset{v} == Pending(chunks, c, |chunks|)
    ensures Sorted(out + [v]) && LastBelow(out + [v], p')
  {
    forall x | x in Heads(chunks, c, |chunks|)
      ensures v <= x.value
    {
      assert x in multiset(entries);
    }
    HeadsBoundPending(chunks, c, |chunks|, v);
    EmitLeast(out, v, Pending(chunks, c, |chunks|), p');
  }

  // ---------------------------------------------------------------------
  // The merge

  /** What holds between two iterations of `main`'s merge loop, with
      `c` the ghost cursors and `pos` the readers' positions. */
  predicate MergeInv(chunks: seq<seq<int>>, c: seq<nat>, pos: seq<nat>, heap: MinHeap, out: seq<int>) {
    && CursorsOk(chunks, c) && ReadersAt(chunks, c, pos)
    && heap.capacity == |chunks| + 5 && HeapOrdered(heap.entries)
    && multiset(heap.entries) == Heads(chunks, c, |chunks|)
    && multiset(out) + Pending(chunks, c, |chunks|) == multiset(Flatten(chunks))
    && (AllSorted(chunks) ==> Sorted(out) && LastBelow(out, Pending(chunks, c, |chunks|)))
  }

  /** The seeding of the heap before the merge loop: a heap with room for
      `|chunks| + 5` entries, holding the
      first value of every non-empty chunk; each reader has delivered one
      value, or none for an empty chunk. */
  method InitHeap(chunks: seq<seq<int>>) returns (heap: MinHeap, pos: seq<nat>)
    ensures MergeInv(chunks, Zeros(|chunks|), pos, heap, [])
  {
    var k := |chunks|;
    heap := NewHeap(k);
    pos := [];
    var i := 0;
    InitStarts(chunks);
    while i < k
      invariant i <= k && InitInv(chunks, i, pos, heap)
    {
      heap, pos := SeedOne(chunks, i, pos, heap);
      i := i + 1;
    }
    InitDone(chunks, pos, heap);
  }

  /** One iteration of the seeding loop: push chunk i's first value, if any,
      and record what its reader has delivered. */
  method SeedOne(chunks: seq<seq<int>>, i: nat, pos: seq<nat>, heap: MinHeap) returns (heap': MinHeap, pos': seq<nat>)
    requires InitInv(chunks, i, pos, heap) && i < |chunks|
    ensures InitInv(chunks, i + 1, pos', heap')
  {
    InitRoom(chunks, i, pos, heap);
    heap' := heap;
    if |chunks[i]| > 0 {
      heap' := Push(heap, chunks[i][0], i);
    }
    InitStep(chunks, i, pos, heap, heap');
    pos' := pos + [if |chunks[i]| > 0 then 1 else 0];
  }

  lemma InitStarts(chunks: seq<seq<int>>)
    ensures InitInv(chunks, 0, [], NewHeap(|chunks|))
  {
  }

  lemma InitDone(chunks: seq<seq<int>>, pos: seq<nat>, heap: MinHeap)
    requires InitInv(chunks, |chunks|, pos, heap)
    ensures MergeInv(chunks, Zeros(|chunks|), pos, heap, [])
  {
    ReadersAtStart(chunks, pos);
    MergeStarts(chunks, pos, heap);
  }

  /** After the first i iterations of the seeding loop. */
  predicate InitInv(chunks: seq<seq<int>>, i: nat, pos: seq<nat>, heap: MinHeap) {
    && i <= |chunks| && |pos| == i
    && (forall j :: 0 <= j < i ==> pos[j] == Min(1, |chunks[j]|))
    && heap.capacity == |chunks| + 5 && HeapOrdered(heap.entries)
    && CursorsOk(chunks, Zeros(|chunks|))
    && multiset(heap.entries) == Heads(chunks, Zeros(|chunks|), i)
  }

  /** The heap never fills while it is being seeded. */
  lemma InitRoom(chunks: seq<seq<int>>, i: nat, pos: seq<nat>, heap: MinHeap)
    requires InitInv(chunks, i, pos, heap) && i < |chunks|
    ensures |heap.entries| + 1 <= heap.capacity
  {
    HeadsSize(chunks, Zeros(|chunks|), i);
    assert |heap.entries| == |multiset(heap.entries)|;
  }

  /** One iteration seeds the heap with chunk i's first value, if any. */
  lemma InitStep(chunks: seq<seq<int>>, i: nat, pos: seq<nat>, heap: MinHeap, heap': MinHeap)
    requires InitInv(chunks, i, pos, heap) && i < |chunks|
    requires heap'.capacity == heap.capacity && HeapOrdered(heap'.entries)
    requires |chunks[i]| > 0 ==>
               multiset(heap'.entries) == multiset(heap.entries) + multiset{HeapEntry(chunks[i][0], i)}
    requires |chunks[i]| == 0 ==> heap' == heap
    ensures InitInv(chunks, i + 1, pos + [if |chunks[i]| > 0 then 1 else 0], heap')
  {
    FirstHead(chunks, i);
    ReaderStarts(chunks, pos, i);
  }

  /** With every cursor at 0, chunk i's head is its first value, if any. */
  lemma FirstHead(chunks: seq<seq<int>>, i: nat)
    requires i < |chunks|
    ensures CursorsOk(chunks, Zeros(|chunks|))
    ensures Heads(chunks, Zeros(|chunks|), i + 1)
            == Heads(chunks, Zeros(|chunks|), i)
               + (if |chunks[i]| > 0 then multiset{HeapEntry(chunks[i][0], i)} else multiset{})
  {
  }

  lemma ReaderStarts(chunks: seq<seq<int>>, pos: seq<nat>, i: nat)
    requires |pos| == i < |chunks|
    requires forall j :: 0 <= j < i ==> pos[j] == Min(1, |chunks[j]|)
    ensures forall j :: 0 <= j < i + 1 ==>
              (pos + [if |chunks[i]| > 0 then 1 else 0])[j] == Min(1, |chunks[j]|)
  {
  }

  lemma ReadersAtStart(chunks: seq<seq<int>>, pos: seq<nat>)
    requires |pos| == |chunks|
    requires forall j :: 0 <= j < |chunks| ==> pos[j] == Min(1, |chunks[j]|)
    ensures ReadersAt(chunks, Zeros(|chunks|), pos)
  {
  }

  /** Before the first pop the invariant holds with every cursor at 0. */
  lemma MergeStarts(chunks: seq<seq<int>>, pos: seq<nat>, heap: MinHeap)
    requires CursorsOk(chunks, Zeros(|chunks|)) && ReadersAt(chunks, Zeros(|chunks|), pos)
    requires heap.capacity == |chunks| + 5 && HeapOrdered(heap.entries)
    requires multiset(heap.entries) == Heads(chunks, Zeros(|chunks|), |chunks|)
    ensures MergeInv(chunks, Zeros(|chunks|), pos, heap, [])
  {
    PendingAtStart(chunks);
    assert multiset([]) + Pending(chunks, Zeros(|chunks|), |chunks|) == multiset(Flatten(chunks));
  }

  /** An entry of a heap that holds the heads is the head of its chunk. */
  lemma PopSource(chunks: seq<seq<int>>, c: seq<nat>, entries: seq<HeapEntry>, e: HeapEntry)
    requires CursorsOk(chunks, c) && multiset(entries) == Heads(chunks, c, |chunks|)
    requires e in entries
    ensures 0 <= e.src < |chunks| && c[e.src] < |chunks[e.src]| && e.value == chunks[e.src][c[e.src]]
  {
    assert e in multiset(entries);
    HeadsMember(chunks, c, |chunks|, e);
  }

  /** Popping entry `e`, the head of its chunk: once that chunk's cursor
      steps past it (`c'`), the rest of the heap plus the chunk's new head
      are the new heads. */
  lemma PopHeads(chunks: seq<seq<int>>, c: seq<nat>, c': seq<nat>, entries: seq<HeapEntry>,
                 rest: seq<HeapEntry>, e: HeapEntry)
    requires CursorsOk(chunks, c) && multiset(entries) == Heads(chunks, c, |chunks|)
    requires multiset(rest) + multiset{e} == multiset(entries)
    requires 0 <= e.src < |chunks| && c[e.src] < |chunks[e.src]| && e.value == chunks[e.src][c[e.src]]
    requires c' == c[e.src := c[e.src] + 1]
    ensures CursorsOk(chunks, c')
    ensures multiset(rest) + HeadOf(chunks, c', e.src) == Heads(chunks, c', |chunks|)
  {
    Advance(chunks, c, e.src);
    HeadsCursorMoves(chunks, c, c', |chunks|, e.src);
    Replace(Heads(chunks, c', |chunks|), Heads(chunks, c, |chunks|), multiset(rest),
            multiset(rest) + HeadOf(chunks, c', e.src), e, HeadOf(chunks, c', e.src));
  }

  /** Emitting `e.value`, the least head, as its chunk's cursor steps past
      it keeps the output account and its order. */
  lemma PopEmits(chunks: seq<seq<int>>, c: seq<nat>, c': seq<nat>, out: seq<int>, entries: seq<HeapEntry>,
                 e: HeapEntry)
    requires CursorsOk(chunks, c) && multiset(entries) == Heads(chunks, c, |chunks|)
    requires multiset(out) + Pending(chunks, c, |chunks|) == multiset(Flatten(chunks))
    requires AllSorted(chunks) ==> Sorted(out) && LastBelow(out, Pending(chunks, c, |chunks|))
    requires forall x :: x in entries ==> e.value <= x.value
    requires 0 <= e.src < |chunks| && c[e.src] < |chunks[e.src]| && e.value == chunks[e.src][c[e.src]]
    requires c' == c[e.src := c[e.src] + 1]
    ensures multiset(out + [e.value]) + Pending(chunks, c', |chunks|) == multiset(Flatten(chunks))
    ensures |Pending(chunks, c', |chunks|)| < |Pending(chunks, c, |chunks|)|
    ensures AllSorted(chunks) ==> Sorted(out + [e.value]) && LastBelow(out + [e.value], Pending(chunks, c', |chunks|))
  {
    var k := |chunks|;
    var si := e.src;
    Advance(chunks, c, si);
    PendingCursorMoves(chunks, c, c', k, si);
    SuffixSplits(chunks[si], c[si]);
    var p, p' := Pending(chunks, c, k), Pending(chunks, c', k);
    Cancel(p', p, e.value, multiset(chunks[si][c'[si]..]));
    Emitted(out, e.value, p', multiset(Flatten(chunks)));
    if AllSorted(chunks) {
      EmitMinimum(chunks, c, out, entries, e.value, p');
    }
  }

  lemma Emitted(out: seq<int>, v: int, p': multiset<int>, all: multiset<int>)
    requires multiset(out) + (p' + multiset{v}) == all
    ensures multiset(out + [v]) + p' == all
    ensures |p'| < |p' + multiset{v}|
  {
    assert multiset(out + [v]) == multiset(out) + multiset{v};
  }

  /** One iteration of the merge loop: pop the least entry, emit its value,
      and push the next value of the chunk it came from, if any. */
  method MergeStep(chunks: seq<seq<int>>, ghost c: seq<nat>, pos: seq<nat>, heap: MinHeap, out: seq<int>)
    returns (ghost c': seq<nat>, pos': seq<nat>, heap': MinHeap, out': seq<int>)
    requires MergeInv(chunks, c, pos, heap, out) && !IsEmpty(heap)
    ensures MergeInv(chunks, c', pos', heap', out')
    ensures |out'| == |out| + 1 && out'[..|out|] == out
    ensures |Pending(chunks, c', |chunks|)| < |Pending(chunks, c, |chunks|)|
  {
    var e, rest := PopMin(heap);
    PopSource(chunks, c, heap.entries, e);
    var si := e.src;
    c' := c[si := c[si] + 1];
    out' := out + [e.value];
    if pos[si] < |chunks[si]| {
      RoomForNext(chunks, c, heap.entries, rest.entries, e);
      heap' := Push(rest, chunks[si][pos[si]], si);
      pos' := pos[si := pos[si] + 1];
    } else {
      heap' := rest;
      pos' := pos;
    }
    StepKeepsInv(chunks, c, c', pos, pos', heap, rest, heap', out, e);
  }

  /** The invariant after one iteration, from what the pop and the push
      guarantee. */
  lemma StepKeepsInv(chunks: seq<seq<int>>, c: seq<nat>, c': seq<nat>, pos: seq<nat>, pos': seq<nat>,
                     heap: MinHeap, rest: MinHeap, heap': MinHeap, out: seq<int>, e: HeapEntry)
    requires MergeInv(chunks, c, pos, heap, out)
    requires e in heap.entries && forall x :: x in heap.entries ==> e.value <= x.value
    requires multiset(rest.entries) + multiset{e} == multiset(heap.entries)
    requires 0 <= e.src < |chunks| && c[e.src] < |chunks[e.src]| && e.value == chunks[e.src][c[e.src]]
    requires c' == c[e.src := c[e.src] + 1]
    requires pos' == if pos[e.src] < |chunks[e.src]| then pos[e.src := pos[e.src] + 1] else pos
    requires heap'.capacity == heap.capacity && HeapOrdered(heap'.entries)
    requires pos[e.src] < |chunks[e.src]| ==>
               multiset(heap'.entries) == multiset(rest.entries) + multiset{HeapEntry(chunks[e.src][pos[e.src]], e.src)}
    requires pos[e.src] >= |chunks[e.src]| ==> heap'.entries == rest.entries
    ensures MergeInv(chunks, c', pos', heap', out + [e.value])
    ensures |Pending(chunks, c', |chunks|)| < |Pending(chunks, c, |chunks|)|
  {
    ReaderFollows(chunks, c, c', pos, pos', e.src);
    StepHeap(chunks, c, c', pos, heap.entries, rest.entries, heap'.entries, e);
    PopEmits(chunks, c, c', out, heap.entries, e);
  }

  /** The heap after one iteration: the popped entry gives way to its
      chunk's next value, which is the chunk's new head. */
  lemma StepHeap(chunks: seq<seq<int>>, c: seq<nat>, c': seq<nat>, pos: seq<nat>,
                 entries: seq<HeapEntry>, rest: seq<HeapEntry>, entries': seq<HeapEntry>, e: HeapEntry)
    requires CursorsOk(chunks, c) && ReadersAt(chunks, c, pos)
    requires multiset(entries) == Heads(chunks, c, |chunks|)
    requires multiset(rest) + multiset{e} == multiset(entries)
    requires 0 <= e.src < |chunks| && c[e.src] < |chunks[e.src]| && e.value == chunks[e.src][c[e.src]]
    requires c' == c[e.src := c[e.src] + 1]
    requires pos[e.src] < |chunks[e.src]| ==>
               multiset(entries') == multiset(rest) + multiset{HeapEntry(chunks[e.src][pos[e.src]], e.src)}
    requires pos[e.src] >= |chunks[e.src]| ==> entries' == rest
    ensures CursorsOk(chunks, c')
    ensures multiset(entries') == Heads(chunks, c', |chunks|)
  {
    var si := e.src;
    NextHead(chunks, c, c', pos, si);
    if pos[si] >= |chunks[si]| {
      UnionEmpty(multiset(rest));
    }
    assert multiset(entries') == multiset(rest) + HeadOf(chunks, c', si);
    PopHeads(chunks, c, c', entries, rest, e);
  }

  /** Adding no head leaves the heap's contents as they are. */
  lemma UnionEmpty<T>(m: multiset<T>)
    ensures m + multiset{} == m
  {
  }

  /** The new head of the chunk whose cursor stepped is what its reader
      delivers next, if anything. */
  lemma NextHead(chunks: seq<seq<int>>, c: seq<nat>, c': seq<nat>, pos: seq<nat>, i: nat)
    requires CursorsOk(chunks, c) && ReadersAt(chunks, c, pos)
    requires i < |chunks| && c[i] < |chunks[i]| && c' == c[i := c[i] + 1]
    ensures CursorsOk(chunks, c')
    ensures pos[i] < |chunks[i]| ==> HeadOf(chunks, c', i) == multiset{HeapEntry(chunks[i][pos[i]], i)}
    ensures pos[i] >= |chunks[i]| ==> HeadOf(chunks, c', i) == multiset{}
  {
  }

  /** After a pop the heap has room for one more entry: it holds at most
      one entry per chunk. */
  lemma RoomForNext(chunks: seq<seq<int>>, c: seq<nat>, entries: seq<HeapEntry>, rest: seq<HeapEntry>, e: HeapEntry)
    requires CursorsOk(chunks, c) && multiset(entries) == Heads(chunks, c, |chunks|)
    requires multiset(rest) + multiset{e} == multiset(entries)
    ensures |rest| + 1 <= |chunks| + 5
  {
    HeadsSize(chunks, c, |chunks|);
    assert |entries| == |multiset(entries)|;
    assert |rest| == |multiset(rest)|;
  }

  /** The seeding and the merge loop: the emitted values, in order. */
  method KWayMerge(chunks: seq<seq<int>>) returns (out: seq<int>)
    ensures multiset(out) == multiset(Flatten(chunks))
    ensures AllSorted(chunks) ==> Sorted(out)
    ensures AllSorted(chunks) ==> out == SortRun(Flatten(chunks))
  {
    var heap, pos := InitHeap(chunks);
    ghost var c := Zeros(|chunks|);
    out := [];
    while !IsEmpty(heap)
      invariant MergeInv(chunks, c, pos, heap, out)
      decreases |Pending(chunks, c, |chunks|)|
    {
      c, pos, heap, out := MergeStep(chunks, c, pos, heap, out);
    }
    NoHeadsNothingPending(chunks, c, |chunks|);
    if AllSorted(chunks) {
      SortRunUnique(Flatten(chunks), out);
    }
  }
}
