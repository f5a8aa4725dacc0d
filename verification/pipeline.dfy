/**
 The whole of `main` in extsort.cpp after argument handling:
 ingest and spill, then, if any chunk was written, the k-way merge into
 the output. The output is `None` when `main` returns before opening the
 output file because no chunk exists.
 */
module Pipeline {
  import opened Common
  import opened RunSorter
  import opened IngestPhase
  import opened MergePhase

  /** Every chunk the ingest phase leaves is ascending: a sorted run, or
      empty when the capacity is 0. */
  lemma IngestChunksSorted(input: seq<int>, b: nat)
    ensures AllSorted(Ingest(input, b))
  {
    if b >= 1 {
      forall i | 0 <= i < |Ingest(input, b)|
        ensures Sorted(Ingest(input, b)[i])
      {
        SortEachAt(Runs(input, b), i);
      }
    }
  }

  /** `main` on the records `input` with a buffer of capacity `bufferSize`. */
  method ExternalSort(input: seq<int>, bufferSize: nat) returns (chunks: seq<seq<int>>, output: Option<seq<int>>)
    ensures chunks == Ingest(input, bufferSize)
    ensures output.None? <==> chunks == []
    ensures output.Some? ==> Sorted(output.value)
    ensures output.Some? ==> multiset(output.value) == multiset(Flatten(chunks))
    ensures bufferSize >= 1 ==> (output.None? <==> input == [])
    ensures bufferSize >= 1 && input != [] ==> output == Some(SortRun(input))
    ensures bufferSize == 0 && input != [] ==> output == Some([])
  {
    chunks := Ingest(input, bufferSize);
    if |chunks| == 0 {
      if bufferSize >= 1 {
        IngestChunkCount(input, bufferSize);
      }
      return chunks, None;
    }
    var out := KWayMerge(chunks);
    IngestChunksSorted(input, bufferSize);
    if bufferSize >= 1 {
      IngestChunkCount(input, bufferSize);
      IngestConserves(input, bufferSize);
      SortRunUnique(input, out);
    } else {
      FlattenEmptyChunks(chunks);
    }
    output := Some(out);
  }

  // ---------------------------------------------------------------------
  // Worked examples

  /** More than one buffer's worth and at most two: two chunks, the first
      holding the first `b` records sorted, the second the rest sorted. */
  lemma TwoChunks(input: seq<int>, b: nat)
    requires b >= 1 && b < |input| <= 2 * b
    ensures Ingest(input, b) == [SortRun(input[..b]), SortRun(input[b..])]
  {
    RunsCons(input, b);
    assert Runs(input[b..], b) == [input[b..]];
    SortEachCons(input[..b], [input[b..]]);
    SortEachCons(input[b..], []);
  }

  /** A spill of the records 5, 3, 8. */
  lemma ThreeRecordsSorted()
    ensures SortRun([5, 3, 8]) == [3, 5, 8]
  {
    SortsTo([5, 3, 8], [3, 5, 8]);
  }

  /** A run of equal records comes out as it went in. */
  lemma EqualRecordsKept(run: seq<int>)
    requires forall i, j :: 0 <= i < j < |run| ==> run[i] == run[j]
    ensures SortRun(run) == run
  {
    SortRunOfSorted(run);
  }

  lemma SortsTo(run: seq<int>, r: seq<int>)
    requires Sorted(r) && multiset(r) == multiset(run)
    ensures SortRun(run) == r
  {
    SortRunUnique(run, r);
  }

  /** One record: one chunk; no records: no chunk, so no output. */
  lemma SmallInputs(b: nat)
    requires b >= 1
    ensures Ingest([7], b) == [[7]]
    ensures Ingest([], b) == []
  {
    assert Runs([7], b) == [[7]];
  }

  /** Capacity 0: two records give two empty chunks. */
  lemma ZeroCapacityExample()
    ensures Ingest([1, 2], 0) == [[], []]
  {
  }
}
