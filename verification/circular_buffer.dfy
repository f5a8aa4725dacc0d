/**
 The bounded run accumulator (`CircularBuffer` in extsort.cpp). The source
 keeps a doubly linked ring of nodes with a `head`, a `capacity` and a
 `count`; here the ring is the sequence of its values read from `head`
 onwards, so `count` is the length of that sequence and a missing `head`
 is the empty sequence.
 */
module CircularBuffers {

  datatype CircularBuffer = CircularBuffer(capacity: nat, items: seq<int>) {

    /** The accumulator never holds more than its capacity. */
    predicate Valid() {
      |items| <= capacity
    }

    function Size(): nat {
      |items|
    }

    predicate IsFull() {
      |items| >= capacity
    }

    predicate IsEmpty() {
      |items| == 0
    }
  }

  /** A fresh accumulator: no head, count 0. */
  function NewBuffer(capacity: nat): (b: CircularBuffer)
    ensures b.Valid() && b.IsEmpty() && b.capacity == capacity
  {
    CircularBuffer(capacity, [])
  }

  /** The outcome of `push`: whether the value was taken, and the buffer after. */
  datatype PushResult = PushResult(accepted: bool, buffer: CircularBuffer)

  /** `push(v)`: refused on a full buffer, otherwise `v` becomes the new tail. */
  function Push(b: CircularBuffer, v: int): (r: PushResult)
    ensures r.buffer.capacity == b.capacity
    ensures !r.accepted ==> r.buffer == b
    ensures r.accepted ==> r.buffer.items == b.items + [v]
    ensures r.accepted <==> b.Size() < b.capacity
    ensures b.Valid() ==> r.buffer.Valid()
  {
    if |b.items| >= b.capacity then PushResult(false, b)
    else PushResult(true, b.(items := b.items + [v]))
  }

  /** `clear()`: every node is released, the head is dropped and count is 0. */
  function Clear(b: CircularBuffer): (r: CircularBuffer)
    ensures r.IsEmpty() && r.Valid() && r.capacity == b.capacity
  {
    b.(items := [])
  }

  /** The queries agree with each other on every buffer that respects its
      capacity, and a push succeeds exactly when the buffer is not full. */
  lemma QueriesAgree(b: CircularBuffer, v: int)
    requires b.Valid()
    ensures b.IsEmpty() <==> b.Size() == 0
    ensures b.IsFull() <==> b.Size() == b.capacity
    ensures Push(b, v).accepted <==> !b.IsFull()
    ensures !b.IsFull() ==> Push(b, v).buffer.Size() == b.Size() + 1
    ensures b.IsFull() ==> Push(b, v).buffer.Size() == b.Size()
  {
  }

  /** A sequence of pushes, each refused push being ignored, as between two
      spills, up to the push that triggers the next one. */
  function PushAll(b: CircularBuffer, vs: seq<int>): CircularBuffer
    decreases |vs|
  {
    if vs == [] then b else PushAll(Push(b, vs[0]).buffer, vs[1..])
  }

  /** Pushing a run of values keeps exactly the first ones that fit, in
      order, and never exceeds the capacity. */
  lemma {:induction false} PushAllKeepsPrefix(b: CircularBuffer, vs: seq<int>)
    requires b.Valid()
    ensures PushAll(b, vs).Valid()
    ensures PushAll(b, vs).capacity == b.capacity
    ensures PushAll(b, vs).items
            == (b.items + vs)[..if b.capacity <= |b.items| + |vs| then b.capacity else |b.items| + |vs|]
    decreases |vs|
  {
    if vs == [] {
      assert b.items + vs == b.items;
    } else {
      var p := Push(b, vs[0]);
      PushAllKeepsPrefix(p.buffer, vs[1..]);
      if p.accepted {
        assert b.items + vs == b.items + [vs[0]] + vs[1..];
      } else {
        assert |b.items| == b.capacity;
        assert (b.items + vs[1..])[..b.capacity] == b.items;
        assert (b.items + vs)[..b.capacity] == b.items;
      }
    }
  }
}
