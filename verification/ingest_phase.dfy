/**
 The ingest and spill phase of `main` in extsort.cpp: values
 are pushed into the bounded accumulator; when a push is refused the
 accumulator is sorted, written as chunk number `chunkCount`, cleared, and
 the pending value is pushed again; once the source is exhausted a
 non-empty accumulator is spilled one last time.

 The record source is the finite sequence of values it yields (the stream
 ends at end of file or at the first line that does not parse). The chunk
 store is a sequence indexed by chunk number: main always writes chunk
 `chunkCount`, which is the next free index, so writing is appending and
 `chunkCount` is the length of the store.
 */
module IngestPhase {
  import opened Common
  import opened CircularBuffers
  import opened RunSorter
  import opened RunStore

  datatype IngestState = IngestState(buffer: CircularBuffer, chunks: seq<seq<int>>)

  /** A spill, in the ingest loop and after it: sort the accumulated run,
      write it as the next chunk with the buffer's size as count, clear the
      buffer. */
  function Spill(st: IngestState): (r: IngestState)
    ensures r.buffer.IsEmpty() && r.buffer.Valid()
    ensures r.buffer.capacity == st.buffer.capacity
    ensures |r.chunks| == |st.chunks| + 1 && r.chunks[..|st.chunks|] == st.chunks
    ensures Sorted(r.chunks[|st.chunks|])
  {
    var run := SortRun(st.buffer.items);
    WriteChunkWhole(run);
    IngestState(Clear(st.buffer), st.chunks + [WriteChunk(run, st.buffer.Size())])
  }

  /** One iteration of `main`'s ingest loop: push, and spill on a refusal. */
  function IngestValue(st: IngestState, v: int): (r: IngestState)
    ensures r.buffer.capacity == st.buffer.capacity
    ensures st.buffer.Valid() ==> r.buffer.Valid()
    ensures !st.buffer.IsFull() ==> r == st.(buffer := st.buffer.(items := st.buffer.items + [v]))
    ensures st.buffer.IsFull() ==> |r.chunks| == |st.chunks| + 1
    ensures st.buffer.IsFull() && st.buffer.capacity >= 1 ==> r.buffer.items == [v]
    ensures st.buffer.capacity == 0 ==> r.buffer.items == []
  {
    var p := Push(st.buffer, v);
    if p.accepted then st.(buffer := p.buffer)
    else
      var s := Spill(st);
      s.(buffer := Push(s.buffer, v).buffer)
  }

  /** The ingest loop over the whole source. */
  function IngestAll(st: IngestState, input: seq<int>): (r: IngestState)
    ensures r.buffer.capacity == st.buffer.capacity
    ensures st.buffer.Valid() ==> r.buffer.Valid()
    ensures |r.chunks| >= |st.chunks| && r.chunks[..|st.chunks|] == st.chunks
    decreases |input|
  {
    if input == [] then st else IngestAll(IngestValue(st, input[0]), input[1..])
  }

  /** The spill after the ingest loop: the last, possibly short, run. */
  function FinalSpill(st: IngestState): (r: IngestState)
    ensures r.buffer.IsEmpty()
    ensures st.buffer.IsEmpty() ==> r == st
  {
    if !st.buffer.IsEmpty() then Spill(st) else st
  }

  // ---------------------------------------------------------------------
  // Reference: consecutive runs of `b` values, the last one possibly shorter.

  function Runs(input: seq<int>, b: nat): seq<seq<int>>
    requires b >= 1
    decreases |input|
  {
    if input == [] then []
    else if |input| <= b then [input]
    else [input[..b]] + Runs(input[b..], b)
  }

  /** Each run sorted, in order. */
  function SortEach(runs: seq<seq<int>>): (r: seq<seq<int>>)
    ensures |r| == |runs|
    decreases |runs|
  {
    if runs == [] then [] else [SortRun(runs[0])] + SortEach(runs[1..])
  }

  /** The whole ingest phase with a buffer of capacity `b`: the chunks that
      exist when the merge begins. */
  function Ingest(input: seq<int>, b: nat): (chunks: seq<seq<int>>)
    ensures b >= 1 ==> chunks == SortEach(Runs(input, b))
    ensures b == 0 ==> |chunks| == |input| && forall i :: 0 <= i < |chunks| ==> chunks[i] == []
  {
    var st := IngestState(NewBuffer(b), []);
    if b >= 1 then
      IngestSpillsRuns(st, input);
      assert st.buffer.items + input == input;
      assert st.chunks + SortEach(Runs(input, b)) == SortEach(Runs(input, b));
      FinalSpill(IngestAll(st, input)).chunks
    else
      IngestZeroCapacity(st, input);
      FinalSpill(IngestAll(st, input)).chunks
  }

  // ---------------------------------------------------------------------
  // Lemmas

  /** The ingest loop followed by the final spill writes, after the chunks
      already there, exactly the sorted runs of what was pending in the
      buffer followed by the rest of the source. */
  lemma {:induction false} IngestSpillsRuns(st: IngestState, input: seq<int>)
    requires st.buffer.capacity >= 1 && st.buffer.Valid()
    ensures FinalSpill(IngestAll(st, input)).chunks
            == st.chunks + SortEach(Runs(st.buffer.items + input, st.buffer.capacity))
    decreases |input|
  {
    if input == [] {
      assert st.buffer.items + input == st.buffer.items;
      FinalSpillWritesRest(st);
    } else {
      IngestSpillsRuns(IngestValue(st, input[0]), input[1..]);
      if st.buffer.IsFull() {
        SpillsRunsWhenFull(st, input);
      } else {
        SpillsRunsWhenRoom(st, input);
      }
    }
  }

  /** The step of IngestSpillsRuns for a refused push. */
  lemma SpillsRunsWhenFull(st: IngestState, input: seq<int>)
    requires st.buffer.capacity >= 1 && st.buffer.Valid() && st.buffer.IsFull() && input != []
    requires var st' := IngestValue(st, input[0]);
             FinalSpill(IngestAll(st', input[1..])).chunks
             == st'.chunks + SortEach(Runs(st'.buffer.items + input[1..], st.buffer.capacity))
    ensures FinalSpill(IngestAll(st, input)).chunks
            == st.chunks + SortEach(Runs(st.buffer.items + input, st.buffer.capacity))
  {
    var b := st.buffer.capacity;
    var items := st.buffer.items;
    var st' := IngestValue(st, input[0]);
    SpillOnFull(st, input[0]);
    HeadTail(input);
    RunsAfterFullBuffer(items, input, b);
    SortEachCons(items, Runs(input, b));
    ChunksAssoc(st.chunks, SortRun(items), SortEach(Runs(input, b)));
  }

  /** The step of IngestSpillsRuns for an accepted push. */
  lemma SpillsRunsWhenRoom(st: IngestState, input: seq<int>)
    requires st.buffer.capacity >= 1 && st.buffer.Valid() && !st.buffer.IsFull() && input != []
    requires var st' := IngestValue(st, input[0]);
             FinalSpill(IngestAll(st', input[1..])).chunks
             == st'.chunks + SortEach(Runs(st'.buffer.items + input[1..], st.buffer.capacity))
    ensures FinalSpill(IngestAll(st, input)).chunks
            == st.chunks + SortEach(Runs(st.buffer.items + input, st.buffer.capacity))
  {
    AppendHeadTail(st.buffer.items, input);
  }

  /** The final spill writes the pending run, if any. */
  lemma FinalSpillWritesRest(st: IngestState)
    requires st.buffer.capacity >= 1 && st.buffer.Valid()
    ensures FinalSpill(st).chunks == st.chunks + SortEach(Runs(st.buffer.items, st.buffer.capacity))
  {
    if st.buffer.items == [] {
      assert st.chunks + [] == st.chunks;
    } else {
      assert Runs(st.buffer.items, st.buffer.capacity) == [st.buffer.items];
      SortEachCons(st.buffer.items, []);
      WriteChunkWhole(SortRun(st.buffer.items));
    }
  }

  /** A refused push spills the whole buffer as one chunk and keeps only the
      pending value. */
  lemma SpillOnFull(st: IngestState, v: int)
    requires st.buffer.capacity >= 1 && st.buffer.Valid() && st.buffer.IsFull()
    ensures IngestValue(st, v).chunks == st.chunks + [SortRun(st.buffer.items)]
    ensures IngestValue(st, v).buffer.items == [v]
  {
    WriteChunkWhole(SortRun(st.buffer.items));
  }

  /** The chunk list regrouped around the chunk just spilled. */
  lemma ChunksAssoc(a: seq<seq<int>>, x: seq<int>, b: seq<seq<int>>)
    ensures a + [x] + b == a + ([x] + b)
  {
  }

  /** The source split into its first record and the rest. */
  lemma HeadTail(input: seq<int>)
    requires input != []
    ensures [input[0]] + input[1..] == input
  {
  }

  lemma AppendHeadTail(items: seq<int>, input: seq<int>)
    requires input != []
    ensures items + [input[0]] + input[1..] == items + input
  {
    assert input == [input[0]] + input[1..];
  }

  lemma RunsAfterFullBuffer(items: seq<int>, input: seq<int>, b: nat)
    requires b >= 1 && |items| == b && input != []
    ensures Runs(items + input, b) == [items] + Runs(input, b)
  {
    var whole := items + input;
    assert whole[..b] == items && whole[b..] == input;
  }

  lemma SortEachCons(run: seq<int>, runs: seq<seq<int>>)
    ensures SortEach([run] + runs) == [SortRun(run)] + SortEach(runs)
  {
    assert ([run] + runs)[1..] == runs;
  }

  /** With capacity 0 every push is refused: each value causes an empty
      chunk to be written and is then dropped by the refused retry. */
  lemma {:induction false} IngestZeroCapacity(st: IngestState, input: seq<int>)
    requires st.buffer.capacity == 0 && st.buffer.items == []
    ensures FinalSpill(IngestAll(st, input)).chunks[..|st.chunks|] == st.chunks
    ensures |FinalSpill(IngestAll(st, input)).chunks| == |st.chunks| + |input|
    ensures forall i :: |st.chunks| <= i < |st.chunks| + |input| ==>
              FinalSpill(IngestAll(st, input)).chunks[i] == []
    decreases |input|
  {
    if input != [] {
      var st' := IngestValue(st, input[0]);
      assert st'.chunks == st.chunks + [[]];
      IngestZeroCapacity(st', input[1..]);
    }
  }

  /** Concatenating the runs gives the source back, every run holds between
      1 and `b` values, and all but the last hold exactly `b`. */
  lemma {:induction false} RunsPartition(input: seq<int>, b: nat)
    requires b >= 1
    ensures Flatten(Runs(input, b)) == input
    ensures forall i :: 0 <= i < |Runs(input, b)| ==> 1 <= |Runs(input, b)[i]| <= b
    ensures forall i :: 0 <= i < |Runs(input, b)| - 1 ==> |Runs(input, b)[i]| == b
    ensures input == [] <==> Runs(input, b) == []
    decreases |input|
  {
    if |input| > b {
      RunsPartition(input[b..], b);
      assert input == input[..b] + input[b..];
    }
  }

  /** Where run i starts in the source: after i full runs of b values. */
  function Offset(i: nat, b: nat): nat {
    i * b
  }

  /** Run i is the slice of the source between the i-th and (i+1)-th spill. */
  lemma {:induction false} RunsAreSlices(input: seq<int>, b: nat, i: nat)
    requires b >= 1
    requires i < |Runs(input, b)|
    ensures Offset(i, b) < |input|
    ensures Runs(input, b)[i] == input[Offset(i, b)..Min(Offset(i, b) + b, |input|)]
    decreases |input|
  {
    if i == 0 {
      assert Offset(0, b) == 0;
      assert input[0..Min(b, |input|)] == (if |input| <= b then input else input[..b]);
    } else {
      assert |input| > b;
      var rest := input[b..];
      RunsAreSlices(rest, b, i - 1);
      var lo := Offset(i - 1, b);
      var hi := Min(lo + b, |rest|);
      OffsetStep(i - 1, b);
      RunsCons(input, b);
      assert Min(Offset(i, b) + b, |input|) == hi + b;
      SliceOfSuffix(input, b, lo, hi);
    }
  }

  lemma RunsCons(input: seq<int>, b: nat)
    requires b >= 1 && |input| > b
    ensures Runs(input, b) == [input[..b]] + Runs(input[b..], b)
  {
  }

  lemma SliceOfSuffix(s: seq<int>, b: nat, lo: nat, hi: nat)
    requires b <= |s| && lo <= hi <= |s| - b
    ensures s[b..][lo..hi] == s[lo + b..hi + b]
  {
  }

  lemma OffsetStep(i: nat, b: nat)
    ensures Offset(i + 1, b) == Offset(i, b) + b
  {
  }

  /** There are ⌈N / b⌉ runs. */
  lemma {:induction false} RunsCount(input: seq<int>, b: nat)
    requires b >= 1
    ensures |Runs(input, b)| == (|input| + b - 1) / b
    decreases |input|
  {
    if input == [] {
      DivIsQuotient(b - 1, b, 0);
    } else if |input| <= b {
      DivIsQuotient(|input| + b - 1, b, 1);
    } else {
      RunsCount(input[b..], b);
      var q := (|input| - b + b - 1) / b;
      DivIsQuotient(|input| - b + b - 1, b, q);
      DivIsQuotient(|input| + b - 1, b, q + 1);
    }
  }

  lemma MulMonotone(a: int, c: int, b: int)
    requires a <= c && b >= 0
    ensures a * b <= c * b
  {
    assert c * b - a * b == (c - a) * b;
  }

  lemma DivIsQuotient(x: int, b: int, q: int)
    requires b >= 1
    requires q * b <= x < q * b + b
    ensures x / b == q
  {
    var d, r := x / b, x % b;
    assert x == d * b + r && 0 <= r < b;
    if d < q {
      MulMonotone(d + 1, q, b);
    } else if d > q {
      MulMonotone(q + 1, d, b);
    }
  }

  lemma {:induction false} SortEachConserves(runs: seq<seq<int>>)
    ensures multiset(Flatten(SortEach(runs))) == multiset(Flatten(runs))
    ensures |Flatten(SortEach(runs))| == |Flatten(runs)|
    decreases |runs|
  {
    if runs != [] {
      SortEachConserves(runs[1..]);
      assert SortEach(runs)[1..] == SortEach(runs[1..]);
    }
  }

  /** Run i of the input comes out as sorted chunk i. */
  lemma {:induction false} SortEachAt(runs: seq<seq<int>>, i: nat)
    requires i < |runs|
    ensures SortEach(runs)[i] == SortRun(runs[i])
    decreases |runs|
  {
    if i > 0 {
      SortEachAt(runs[1..], i - 1);
      assert SortEach(runs)[i] == SortEach(runs[1..])[i - 1];
    }
  }

  /** For a capacity of at least one the ingest phase writes ⌈N / b⌉ chunks,
      none of them empty, all but the last holding exactly b values. */
  lemma IngestChunkCount(input: seq<int>, b: nat)
    requires b >= 1
    ensures |Ingest(input, b)| == (|input| + b - 1) / b
    ensures input == [] <==> Ingest(input, b) == []
    ensures forall i :: 0 <= i < |Ingest(input, b)| ==> 1 <= |Ingest(input, b)[i]| <= b
    ensures forall i :: 0 <= i < |Ingest(input, b)| - 1 ==> |Ingest(input, b)[i]| == b
  {
    RunsCount(input, b);
    RunsPartition(input, b);
    forall i | 0 <= i < |Ingest(input, b)|
      ensures |Ingest(input, b)[i]| == |Runs(input, b)[i]|
    {
      SortEachAt(Runs(input, b), i);
    }
  }

  /** Chunk i holds, sorted, the values the source yielded between the i-th
      and the (i+1)-th spill. */
  lemma IngestChunkContents(input: seq<int>, b: nat, i: nat)
    requires b >= 1
    requires i < |Ingest(input, b)|
    ensures Offset(i, b) < |input|
    ensures Ingest(input, b)[i] == SortRun(input[Offset(i, b)..Min(Offset(i, b) + b, |input|)])
  {
    RunsAreSlices(input, b, i);
    SortEachAt(Runs(input, b), i);
  }

  /** Conservation across the spills: the chunks hold the source's values,
      no more and no fewer. */
  lemma IngestConserves(input: seq<int>, b: nat)
    requires b >= 1
    ensures |Flatten(Ingest(input, b))| == |input|
    ensures multiset(Flatten(Ingest(input, b))) == multiset(input)
  {
    RunsPartition(input, b);
    SortEachConserves(Runs(input, b));
  }
}
