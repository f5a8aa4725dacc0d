/**
 The shape of the node list around a spill in extsort.cpp:
 `circularToLinear` opens the buffer's ring, `mergeSortLinear` sorts it, and
 `linearToCircular` walks to the last node and links it back to the head
 before `writeChunk` reads the ring.

 Nodes are numbered by their position in the sorted list (node k holds the
 k-th smallest value) and a list is the sequence of successor links, with
 `Nil` for a null `next`. The values themselves are the business of
 RunSorter; here only the links matter.

 As written, `mergeSortLinear` ends with the same walk and close as
 `linearToCircular`. On two nodes, whose halves are single nodes, its merge
 leaves a null-terminated list, so it returns a ring, and the second close
 in `main` walks that ring without ever meeting a null link. On three or
 more nodes the recursive calls already return rings, which the merge loop
 then follows back into nodes it has merged, and the sort itself never
 returns; that is not modelled here. The evidently intended result is the
 null-terminated list the merge builds, on which the walk stops at the last
 node and closing it gives the ring `writeChunk` reads.
 */
module LinkShape {
  import opened Common

  /** A null `next` link. */
  const Nil: int := -1

  /** Every link is null or names a node of the list. */
  predicate LinksOk(next: seq<int>) {
    forall k :: 0 <= k < |next| ==> next[k] == Nil || 0 <= next[k] < |next|
  }

  /** The evidently intended result: the sorted nodes in a null-terminated
      list. */
  function SortedLinks(n: nat): (next: seq<int>)
    requires n >= 1
    ensures |next| == n && LinksOk(next)
  {
    seq(n, k => if k < n - 1 then k + 1 else Nil)
  }

  /** The loop of `linearToCircular` from node `cur`, with `last` the node seen
      before it, allowed `fuel` steps; `None` when the steps run out before
      a null link is met. */
  function WalkToLast(next: seq<int>, cur: int, last: int, fuel: nat): (r: Option<int>)
    requires LinksOk(next) && (cur == Nil || 0 <= cur < |next|)
    ensures cur == Nil ==> r == Some(last)
    ensures cur != Nil && r.Some? ==> 0 <= r.value < |next| && next[r.value] == Nil
    decreases fuel
  {
    if cur == Nil then Some(last)
    else if fuel == 0 then None
    else WalkToLast(next, next[cur], cur, fuel - 1)
  }

  /** Node t holds the only null link of the list. */
  predicate SingleNil(next: seq<int>, t: int) {
    0 <= t < |next| && next[t] == Nil && forall k :: 0 <= k < |next| && next[k] == Nil ==> k == t
  }

  /** `linearToCircular`: a null head comes back as it is; otherwise walk
      from the head to the last node and link it back to the head; `None`
      for a walk that does not end within `fuel` steps. */
  function LinearToCircular(next: seq<int>, fuel: nat): (r: Option<seq<int>>)
    requires LinksOk(next)
    ensures next == [] ==> r == Some([])
    ensures r.Some? ==> |r.value| == |next|
    ensures next != [] && r.Some? ==> exists last :: 0 <= last < |next| && next[last] == Nil && r.value == next[last := 0]
    ensures forall t :: SingleNil(next, t) && r.Some? ==> r.value == next[t := 0]
  {
    if next == [] then Some([])
    else
      match WalkToLast(next, 0, Nil, fuel)
      case None => None
      case Some(last) => Some(next[last := 0])
  }

  /** A list in which no link is null sends the walk round for ever. */
  lemma WalkOnRingNeverEnds(next: seq<int>, cur: int, last: int, fuel: nat)
    requires LinksOk(next) && 0 <= cur < |next|
    requires forall k :: 0 <= k < |next| ==> next[k] != Nil
    ensures WalkToLast(next, cur, last, fuel) == None
  {
  }

  /** From node `cur` of the null-terminated list the walk reaches the last
      node in `n - cur` steps. */
  lemma {:induction false} WalkReachesTail(n: nat, cur: nat, last: int, fuel: nat)
    requires n >= 1 && cur < n && fuel >= n - cur
    ensures WalkToLast(SortedLinks(n), cur, last, fuel) == Some(n - 1)
    decreases n - cur
  {
    var next := SortedLinks(n);
    if cur < n - 1 {
      assert next[cur] == cur + 1;
      WalkReachesTail(n, cur + 1, cur, fuel - 1);
    } else {
      assert next[cur] == Nil;
    }
  }

  /** The ring `writeChunk` expects: node k is followed by node k + 1, the
      last node by the head. */
  function Ring(n: nat): (next: seq<int>)
    requires n >= 1
    ensures |next| == n && LinksOk(next)
  {
    seq(n, k => if k < n - 1 then k + 1 else 0)
  }

  /** With the intended result, the walk stops at the last node within n
      steps and closing the list gives the ring in sorted order. */
  lemma LinearToCircularReachesTail(n: nat, fuel: nat)
    requires n >= 1 && fuel >= n
    ensures WalkToLast(SortedLinks(n), 0, Nil, fuel) == Some(n - 1)
    ensures LinearToCircular(SortedLinks(n), fuel) == Some(Ring(n))
  {
    WalkReachesTail(n, 0, Nil, fuel);
    assert SortedLinks(n)[n - 1 := 0] == Ring(n);
  }

  /** `mergeSortLinear` as written on n nodes whose merge has left them in
      sorted order in a null-terminated list, as it does for two nodes, each
      half being a single node: a null head or one node comes back from the
      base case untouched; otherwise the closing walk goes to the last node and links
      it back to the head, with the walk allowed `fuel` steps. */
  function MergeSortLinearAsWritten(n: nat, fuel: nat): (r: Option<seq<int>>)
    ensures n == 0 ==> r == Some([])
    ensures n == 1 ==> r == Some([Nil])
    ensures r.Some? ==> |r.value| == n
  {
    if n == 0 then Some([])
    else if n == 1 then Some([Nil])
    else LinearToCircular(SortedLinks(n), fuel)
  }

  /** Once the merge has left a null-terminated list, the sort as written
      returns a ring, and the walk of `linearToCircular` over it does not
      end, however many steps it is given. For two records this is what the
      program does; for three or more the program diverges earlier, inside
      `mergeSortLinear`, and only the conclusion, a spill that never ends,
      carries over. */
  lemma SpillDivergesAsWritten(n: nat, fuel: nat, fuel': nat)
    requires n >= 2 && fuel >= n
    ensures MergeSortLinearAsWritten(n, fuel) == Some(Ring(n))
    ensures LinearToCircular(Ring(n), fuel') == None
  {
    LinearToCircularReachesTail(n, fuel);
    var next := Ring(n);
    forall k | 0 <= k < n
      ensures next[k] != Nil
    {
    }
    WalkOnRingNeverEnds(next, 0, Nil, fuel');
  }

  /** A single record is closed once, by `linearToCircular`, into a
      one-node ring. */
  lemma SpillOfOneAsWritten(fuel: nat)
    requires fuel >= 1
    ensures MergeSortLinearAsWritten(1, fuel) == Some(SortedLinks(1))
    ensures LinearToCircular(SortedLinks(1), fuel) == Some(Ring(1))
  {
    assert SortedLinks(1) == [Nil];
    LinearToCircularReachesTail(1, fuel);
  }
}
