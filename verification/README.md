# External sort: a Dafny model of the ingest/spill/merge core

`extsort.cpp` sorts a stream of integers under a fixed memory budget. Records
are pushed into a bounded circular buffer. When a push is refused because the
buffer is full, the buffered run is sorted by a linked-list merge sort and
written to the next chunk file; the buffer is then cleared and the pending
record is pushed again. Once the source is exhausted the last, possibly
short, run is spilled too. If at least one chunk exists, a min-heap over the
current head of every chunk drives a one-pass k-way merge into the output.

This project models that core with immutable values and proves what it
promises:

- `CircularBuffers` — the bounded accumulator as its capacity and the
  values read from the head (`push`, `isFull`, `isEmpty`, `size`, `clear`).
- `RunSorter` — `mergeSortLinear` as a top-down, stable merge sort over
  sequences, generic in the element type with a key function. It splits
  where the source's slow/fast walk splits: the first `(n + 1) / 2` nodes go
  left, and ties go left. A run of records is the instance `SortRun`.
- `RunStore` — `writeChunk`: what the do-while loop puts in a chunk.
- `MinHeaps` — `MinHeap` with its `cap + 5` capacity, the silent refusal of
  a push into a full heap, sift-up on `push` and sift-down on `popMin`.
  Entries live in a 0-based sequence that mirrors the source's 1-based array.
- `IngestPhase` — the ingest loop and the spills of `main`, as a fold over
  the input. It is proved equal to a reference definition: the input cut
  into consecutive runs of `b` values, each run sorted.
- `MergePhase` — the seeding of the heap and the merge loop of `main`. Ghost
  cursors record how much of each chunk has been emitted; they carry the
  invariant that the heap holds exactly the chunks' current heads.
- `Pipeline` — `main` from line 384 on, with concrete cases.
- `LinkShape` — the node links around a spill. This is where the source
  defect below lives.

The chunk files are an in-memory `seq<seq<int>>` indexed by chunk number.
The record source is the finite sequence of values it yields.

Where the code does not do what `main` relies on, the model follows the code,
except for the ring defect, which only `LinkShape` follows:

- `writeChunk` is handed a count it is expected to honour, but with a count
  of 0 on a non-empty ring it writes one value, because its check comes
  after the first write.
- `main` retries a refused push after a spill and relies on it to succeed.
  With capacity 0 it does not: every record causes an empty chunk and is
  then lost, its result ignored. So the output, when it exists, is empty
  even though records were read.
- `main` hands the sorted run to `linearToCircular`, which expects a
  null-terminated list; the run sorter as written does not leave one (see
  "## Findings"). The rest of the model uses the intended
  sorted run.

## Model

| member | source | states |
|---|---|---|
| CircularBuffers.NewBuffer | extsort.cpp:133-137 | a new accumulator holds nothing and has the requested capacity |
| CircularBuffers.Push | extsort.cpp:138-155 | accepted exactly when size < capacity; then the value becomes the last item, earlier items unchanged; a refused push changes nothing; the capacity is never exceeded |
| CircularBuffers.Clear | extsort.cpp:160-172 | after clear the accumulator is empty and keeps its capacity |
| CircularBuffers.QueriesAgree | extsort.cpp:156-158 | isEmpty iff size is 0; isFull iff size equals capacity; a push is accepted iff the buffer is not full, and then size grows by one, otherwise it stays |
| CircularBuffers.PushAllKeepsPrefix | extsort.cpp:138-155 | a series of pushes keeps exactly the longest prefix of the values that fits, in order |
| RunSorter.Merge | extsort.cpp:278-292 | the merge is a permutation of its two inputs together |
| RunSorter.MergeSorted | extsort.cpp:278-292 | merging two ascending sequences yields an ascending sequence |
| RunSorter.MergeWithKey | extsort.cpp:279 | ties go left: for every key, the merge lists the left input's elements with that key, then the right's, each in its original order |
| RunSorter.MergeOfSortedHalves | extsort.cpp:278-292 | merging the two halves of an ascending sequence gives that sequence back |
| RunSorter.MergeSort | extsort.cpp:263-293 | the result is an ascending permutation of the input, of the same length |
| RunSorter.MergeSortStable | extsort.cpp:263-293 | the sort is stable: elements with equal keys keep their relative order |
| RunSorter.MergeSortOfSorted | extsort.cpp:263-293 | sorting an ascending sequence changes nothing |
| RunSorter.SortRun | extsort.cpp:263-293 | a run sorted by value: ascending, the same records |
| RunSorter.SortRunOfSorted | extsort.cpp:263-293 | an ascending run comes back unchanged |
| RunSorter.SortRunUnique | extsort.cpp:263-293 | any ascending permutation of a run is the sorted run |
| RunStore.WriteFrom | extsort.cpp:368-372 | from node i the loop writes a contiguous stretch of the ring, at least one value, up to the count or the end of the ring |
| RunStore.WriteChunk | extsort.cpp:360-375 | nothing for an empty ring; otherwise the first min(length, max(count, 1)) values of the ring from its head |
| RunStore.WriteChunkWhole | extsort.cpp:391 | a spill, which passes the ring with its own size, writes the whole ring |
| RunStore.WriteChunkBounded | extsort.cpp:368-372 | never more than the count or the ring's length, except the single value written for count 0 |
| MinHeaps.NewHeap | extsort.cpp:321-325 | a new heap is empty, ordered, with room for cap + 5 entries |
| MinHeaps.IsEmpty | extsort.cpp:339 | true exactly when the heap holds no entry |
| MinHeaps.Push | extsort.cpp:326-338 | a push into a full heap is ignored; otherwise the heap gains exactly the new entry; the heap stays ordered |
| MinHeaps.SiftDown | extsort.cpp:344-354 | sifting the root down restores heap order and keeps the same entries |
| MinHeaps.RootBelow | extsort.cpp:341 | in an ordered heap the root's value is at most every entry's value |
| MinHeaps.PopMin | extsort.cpp:340-356 | returns an entry of least value, and the heap keeps every other entry, ordered |
| IngestPhase.Spill | extsort.cpp:388-393 | a spill appends one ascending chunk, leaves the earlier chunks alone and empties the buffer |
| IngestPhase.IngestValue | extsort.cpp:386-395 | an accepted record only extends the buffer; a refused one writes one chunk and leaves only that record buffered (none at capacity 0) |
| IngestPhase.IngestAll | extsort.cpp:385-396 | the loop only appends chunks and keeps the buffer within capacity |
| IngestPhase.FinalSpill | extsort.cpp:397-404 | the last spill leaves the buffer empty and writes nothing when it already is |
| IngestPhase.Ingest | extsort.cpp:384-404 | for capacity b >= 1 the chunks are the input cut into consecutive runs of b, each run sorted; for capacity 0, one empty chunk per record |
| IngestPhase.IngestSpillsRuns | extsort.cpp:385-404 | loop plus final spill write exactly the sorted runs of the buffered records followed by the rest of the input |
| IngestPhase.SpillOnFull | extsort.cpp:387-394 | a refused push writes the whole buffer as one sorted chunk and keeps only the pending record |
| IngestPhase.FinalSpillWritesRest | extsort.cpp:397-404 | the final spill writes the pending run, if there is one |
| IngestPhase.IngestZeroCapacity | extsort.cpp:387-394 | with capacity 0 every record yields one empty chunk and is lost |
| IngestPhase.RunsPartition | extsort.cpp:385-404 | the runs put back together are the input; each holds 1 to b records, all but the last exactly b |
| IngestPhase.RunsAreSlices | extsort.cpp:385-404 | run i is the input slice from i*b up to (i+1)*b or the end |
| IngestPhase.RunsCount | extsort.cpp:385-404 | there are ceil(N / b) runs |
| IngestPhase.SortEachAt | extsort.cpp:388-391 | the i-th run spilled becomes the i-th chunk, sorted |
| IngestPhase.IngestChunkCount | extsort.cpp:384-404 | ceil(N / b) chunks, none empty, all but the last holding b records; no chunk iff no record |
| IngestPhase.IngestChunkContents | extsort.cpp:388-401 | chunk i holds, sorted, the records read between the i-th and the (i+1)-th spill |
| IngestPhase.IngestConserves | extsort.cpp:384-404 | the chunks hold exactly the input's records, no more and no fewer |
| MergePhase.HeadsMember | extsort.cpp:416-420 | every heap entry names a chunk and carries that chunk's current value; no entry occurs twice |
| MergePhase.HeadsSize | extsort.cpp:412 | the heap holds no more entries than there are chunks |
| MergePhase.RoomForNext | extsort.cpp:430 | the refill push after a pop is never refused |
| MergePhase.InitRoom | extsort.cpp:418 | no push is refused while the heap is seeded |
| MergePhase.NoHeadsNothingPending | extsort.cpp:424 | once the heap is empty no chunk has a value left |
| MergePhase.HeadsCursorMoves | extsort.cpp:425-430 | stepping one chunk's cursor swaps that chunk's old head for its new one and leaves the other heads alone |
| MergePhase.PendingCursorMoves | extsort.cpp:425-430 | stepping one chunk's cursor moves exactly that chunk's current value out of the pending values |
| MergePhase.HeadsBoundPending | extsort.cpp:425 | over ascending chunks, a value no greater than every head is no greater than every record not yet emitted |
| MergePhase.EmitMinimum | extsort.cpp:425-426 | emitting the least head keeps the output ascending and no greater than anything still pending |
| MergePhase.PopSource | extsort.cpp:425-427 | the popped entry's src names a chunk with a value left, and its value is that chunk's current value |
| MergePhase.ReaderFollows | extsort.cpp:428-430 | each chunk's reader stays one value ahead of the emitted count, or at the chunk's end |
| MergePhase.InitHeap | extsort.cpp:412-421 | after seeding, the heap holds exactly the first value of every non-empty chunk and nothing is emitted |
| MergePhase.SeedOne | extsort.cpp:416-420 | one seeding step adds chunk i's first value, if any, and nothing else |
| MergePhase.MergeStep | extsort.cpp:424-432 | one iteration emits one value, keeps the merge invariant and shrinks the pending records |
| MergePhase.KWayMerge | extsort.cpp:412-432 | the output is a permutation of all chunk records; over ascending chunks it is ascending, hence the sorted concatenation |
| Pipeline.IngestChunksSorted | extsort.cpp:388-401 | every chunk left by the ingest phase is ascending |
| Pipeline.ExternalSort | extsort.cpp:384-432 | no output iff no chunk; otherwise the output is ascending and holds the chunks' records; for b >= 1 the output exists iff there was a record and is the input sorted; for b = 0 it is empty |
| Pipeline.TwoChunks | extsort.cpp:385-404 | more than b and at most 2b records give two chunks: the first b sorted, then the rest sorted |
| Pipeline.ThreeRecordsSorted | extsort.cpp:263-293 | the run 5, 3, 8 sorts to 3, 5, 8 |
| Pipeline.EqualRecordsKept | extsort.cpp:263-293 | any run of equal records, of any length, comes back unchanged |
| Pipeline.SmallInputs | extsort.cpp:384-405 | one record gives one chunk holding it; no record gives no chunk |
| Pipeline.ZeroCapacityExample | extsort.cpp:387-394 | capacity 0 and two records give two empty chunks |
| LinkShape.WalkToLast | extsort.cpp:252-257 | the walk from a null link returns the last node seen; any other completed walk ends on a node whose next is null |
| LinkShape.LinearToCircular | extsort.cpp:250-261 | a null head comes back as it is; otherwise the result is the list with a node whose next is null linked back to the head; when only one node has a null next, it is that node |
| LinkShape.WalkOnRingNeverEnds | extsort.cpp:254-257 | on links none of which is null, the walk never ends, whatever its step budget |
| LinkShape.WalkReachesTail | extsort.cpp:254-257 | on a null-terminated list the walk reaches the last node in as many steps as there are nodes left |
| LinkShape.LinearToCircularReachesTail | extsort.cpp:250-261 | closing the null-terminated sorted list gives the ring in sorted order |
| LinkShape.MergeSortLinearAsWritten | extsort.cpp:263-301 | a null head or one node comes back untouched; otherwise a result of the same length |
| LinkShape.SpillDivergesAsWritten | extsort.cpp:389-390 | as written, once the merge leaves a null-terminated list of two or more records, the sort returns a ring and the second close never ends; exact for two records |
| LinkShape.SpillOfOneAsWritten | extsort.cpp:264 | as written, a single record is closed once into a one-node ring |

## Left out

- Reading the source (`SerialSource` and `FileSource`, parsing and end of
  data), `argv` and `atoi`, file names, `fopen` and `fprintf`: these are I/O.
  The source is the sequence of values it yields, and a chunk is the
  sequence of values written to it.
- A failed `fopen` of a chunk, which makes `writeChunk` write nothing, and a
  failed open of the output file: I/O failures, not modelled.
- Node allocation, `delete`, `malloc` and `free`, the `prev` links, and the
  relinking inside the merge sort: memory and link bookkeeping. The ring
  is the sequence of values read from its head, and the sort works on
  sequences.
- `splitList`, `mergeSorted` and `listToLinear`: `main` never calls them.
- `setHead`, `begin` and the `active` array: no behaviour beyond what the
  sequence view already gives.
- The order among equal values that the heap's internal swaps happen to
  give. `MinHeaps.PopMin` promises some entry of least value, not which
  one. The output values are the same either way.
- `int` and `size_t` widths, `atoi` wrap-around and the `(size_t)` cast of a
  negative argument: all integers are unbounded, and the capacity is a
  `nat`.
- LinkShape.MergeSortLinearAsWritten: covers only a merge that leaves the
  sorted nodes in a null-terminated list. For two nodes that is exact:
  both halves are single nodes. For three or more, the recursive calls
  already return rings, which the merge loop then follows. That behaviour
  is not modelled.
- LinkShape.SpillDivergesAsWritten: exact only for two records. For three
  or more the program does not reach the second close at all: the sort's
  merge loop follows the rings its recursive calls returned, and either
  never ends or leaves links whose final walk never ends. The model states
  the spill that never ends only through the two-record path.
- LinkShape.WalkToLast: the walk gets a step budget `fuel`. A walk that
  never ends is a result of `None` for every budget.

## Findings

| source | as written | input that shows it | evidently intended | confidence | as-written member | corrected member |
|---|---|---|---|---|---|---|
| extsort.cpp:295-301 with 250-261 and 389-390 | `mergeSortLinear` ends by walking to its last node and linking it back to the head, so for two nodes it returns a ring. `main` then passes the ring to `linearToCircular`, whose loop waits for a null `next` that never comes. For three or more nodes the recursive calls already return rings, and the sort itself never returns: its merge loop or its final walk goes round for ever. | records 2, 1 with a buffer of capacity 2 or more: the final spill sorts a two-node list and the walk at line 254 never ends | `mergeSortLinear` returns the null-terminated sorted list, and `linearToCircular` closes it into the ring that `writeChunk` reads | not executed | LinkShape.SpillDivergesAsWritten | LinkShape.LinearToCircularReachesTail |

The rest of the model uses the intended behaviour. Each spill writes the
sorted run: `RunSorter.SortRun`, written out by `RunStore.WriteChunk`.
