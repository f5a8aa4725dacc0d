/**
 The chunk-writing side of the run store (`writeChunk` in extsort.cpp).
 A chunk's persisted form is the sequence of values written to it; the
 file name derived from the chunk index, `fprintf` and the file handle
 are not modelled (the store itself is the pipeline's `seq<seq<int>>`,
 indexed by chunk number).
 */
module RunStore {
  import opened Common

  /** The do-while loop of `writeChunk`, resumed at node `i` of a ring read
      from its head (`ring[0]`); `i` values have been written so far. */
  function WriteFrom(ring: seq<int>, i: nat, count: nat): (written: seq<int>)
    requires i < |ring|
    ensures 1 <= |written| <= |ring| - i
    ensures written == ring[i..i + |written|]
    ensures i < count ==> |written| == Min(|ring|, count) - i
    ensures i >= count ==> |written| == 1
    decreases |ring| - i
  {
    // the body always writes the current node, then steps to cur->next
    if i + 1 < |ring| && i + 1 < count then
      var rest := WriteFrom(ring, i + 1, count);
      assert ring[i..i + 1 + |rest|] == [ring[i]] + ring[i + 1..i + 1 + |rest|];
      [ring[i]] + rest
    else
      assert ring[i..i + 1] == [ring[i]];
      [ring[i]]
  }

  /** What `writeChunk(head, count, idx)` puts in chunk `idx`: nothing for an
      empty ring; otherwise the ring in order from its head, stopping when
      the walk is back at the head or `count` values are written. The check
      comes after the write, so a non-empty ring always yields one value. */
  function WriteChunk(ring: seq<int>, count: nat): (written: seq<int>)
    ensures ring == [] ==> written == []
    ensures ring != [] ==> |written| == Min(|ring|, Max(count, 1))
    ensures written == ring[..|written|]
  {
    if ring == [] then [] else WriteFrom(ring, 0, count)
  }

  /** A spill passes the ring together with its own length: the whole ring
      is written. */
  lemma WriteChunkWhole(ring: seq<int>)
    ensures WriteChunk(ring, |ring|) == ring
  {
  }

  /** Never more than `count` values, except the one value the do-while
      writes when `count` is 0 and the ring is not empty. */
  lemma WriteChunkBounded(ring: seq<int>, count: nat)
    ensures count >= 1 ==> |WriteChunk(ring, count)| <= count
    ensures |WriteChunk(ring, count)| <= |ring|
    ensures count == 0 && ring != [] ==> WriteChunk(ring, count) == [ring[0]]
  {
  }
}
