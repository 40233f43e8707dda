/**
 * The sending half of the bounded channel a decoder hands its messages to.
 * Only `try_send` is used by the decoder: it never waits, and a message that
 * finds the queue full is dropped.
 */
module Channel {
  import opened Basics

  function Min(a: int, b: int): (r: int) { if a <= b then a else b }

  /** The queue after `msgs` are offered one after another with `try_send`. */
  function Deliver(queue: seq<Bytes>, capacity: nat, msgs: seq<Bytes>): (r: seq<Bytes>)
    decreases |msgs|
  {
    if msgs == [] then queue
    else Deliver(if |queue| < capacity then queue + [msgs[0]] else queue, capacity, msgs[1..])
  }

  /**
   * Offered messages fill the free slots in their order; once the queue is full
   * every later message is lost, and the queue never grows past its capacity.
   */
  lemma {:induction false} DeliverFillsFreeSlots(queue: seq<Bytes>, capacity: nat, msgs: seq<Bytes>)
    requires |queue| <= capacity
    ensures Deliver(queue, capacity, msgs) == queue + msgs[..Min(capacity - |queue|, |msgs|)]
    ensures |Deliver(queue, capacity, msgs)| <= capacity
    decreases |msgs|
  {
    if msgs != [] {
      if |queue| < capacity {
        DeliverFillsFreeSlots(queue + [msgs[0]], capacity, msgs[1..]);
        assert queue + [msgs[0]] + msgs[1..][..Min(capacity - |queue| - 1, |msgs| - 1)]
            == queue + msgs[..Min(capacity - |queue|, |msgs|)];
      } else {
        DeliverFillsFreeSlots(queue, capacity, msgs[1..]);
      }
    }
  }

  /** Offering two batches in turn is offering their concatenation. */
  lemma {:induction false} DeliverConcat(queue: seq<Bytes>, capacity: nat, first: seq<Bytes>, second: seq<Bytes>)
    ensures Deliver(queue, capacity, first + second)
         == Deliver(Deliver(queue, capacity, first), capacity, second)
    decreases |first|
  {
    if first != [] {
      assert (first + second)[0] == first[0];
      assert (first + second)[1..] == first[1..] + second;
      DeliverConcat(if |queue| < capacity then queue + [first[0]] else queue, capacity, first[1..], second);
    } else {
      assert first + second == second;
    }
  }

  class Sender {
    var queue: seq<Bytes>
    const capacity: nat

    /** A bounded channel refuses a capacity of zero. */
    constructor (capacity: nat)
      requires capacity > 0
      ensures queue == [] && this.capacity == capacity
    {
      queue := [];
      this.capacity := capacity;
    }

    /** Appends `msg` when the queue has room; otherwise reports failure and drops it. */
    method TrySend(msg: Bytes) returns (sent: bool)
      modifies this
      ensures sent == (|old(queue)| < capacity)
      ensures queue == if sent then old(queue) + [msg] else old(queue)
    {
      sent := |queue| < capacity;
      if sent {
        queue := queue + [msg];
      }
    }
  }
}
