/** The ring queue run by one thread at a time: it is a bounded FIFO of one item less than its capacity. */
module RingQueue {
  import opened Modular

  /** The number of occupied slots between two ring indices. */
  function Distance(head: nat, tail: nat, capacity: nat): nat
    requires capacity > 0
  {
    (tail - head) % capacity
  }

  /** The occupied part of the ring, oldest item first. */
  function RingItems<T>(buffer: seq<T>, head: nat, tail: nat): (r: seq<T>)
    requires |buffer| > 0
    ensures |r| == Distance(head, tail, |buffer|)
  {
    seq(Distance(head, tail, |buffer|), i requires 0 <= i => buffer[(head + i) % |buffer|])
  }

  /** Stepping an index by one wraps to 0 at the capacity. */
  lemma StepIndex(i: nat, capacity: nat)
    requires i < capacity
    ensures (i + 1) % capacity == if i + 1 == capacity then 0 else i + 1
  {
    ModOf(i + 1, if i + 1 == capacity then 1 else 0, if i + 1 == capacity then 0 else i + 1, capacity);
  }

  lemma DistanceCases(head: nat, tail: nat, capacity: nat)
    requires head < capacity && tail < capacity
    ensures Distance(head, tail, capacity) == if head <= tail then tail - head else capacity - head + tail
  {
    ModOf(tail - head, if head <= tail then 0 else -1, if head <= tail then tail - head else capacity - head + tail,
              capacity);
  }

  lemma SlotCases(head: nat, i: nat, capacity: nat)
    requires head < capacity && i < capacity
    ensures (head + i) % capacity == if head + i < capacity then head + i else head + i - capacity
  {
    ModOf(head + i, if head + i < capacity then 0 else 1, if head + i < capacity then head + i else head + i - capacity,
              capacity);
  }

  lemma PushItems<T>(buffer: seq<T>, head: nat, tail: nat, item: T)
    requires head < |buffer| && tail < |buffer| && (tail + 1) % |buffer| != head
    ensures RingItems(buffer[tail := item], head, (tail + 1) % |buffer|) == RingItems(buffer, head, tail) + [item]
  {
    var c := |buffer|;
    var n := Distance(head, tail, c);
    StepIndex(tail, c);
    DistanceCases(head, tail, c);
    DistanceCases(head, (tail + 1) % c, c);
    var before, after := RingItems(buffer, head, tail), RingItems(buffer[tail := item], head, (tail + 1) % c);
    forall i | 0 <= i <= n ensures after[i] == (before + [item])[i] {
      SlotCases(head, i, c);
    }
  }

  lemma PopItems<T>(buffer: seq<T>, head: nat, tail: nat)
    requires head < |buffer| && tail < |buffer| && head != tail
    ensures RingItems(buffer, head, tail) == [buffer[head]] + RingItems(buffer, (head + 1) % |buffer|, tail)
  {
    var c := |buffer|;
    StepIndex(head, c);
    DistanceCases(head, tail, c);
    DistanceCases((head + 1) % c, tail, c);
    var before, after := RingItems(buffer, head, tail), RingItems(buffer, (head + 1) % c, tail);
    forall i | 0 <= i < |before| ensures before[i] == ([buffer[head]] + after)[i] {
      SlotCases(head, i, c);
      if i > 0 {
        SlotCases((head + 1) % c, i - 1, c);
      }
    }
  }

  class ConcurrentQueue<T> {
    const buffer: array<T>
    var head: nat
    var tail: nat

    ghost predicate Valid()
      reads this
    {
      head < buffer.Length && tail < buffer.Length
    }

    ghost function Items(): seq<T>
      requires Valid()
      reads this, buffer
    {
      RingItems(buffer[..], head, tail)
    }

    constructor (capacity: nat, raw: T)
      requires capacity >= 1
      ensures Valid() && fresh(buffer) && buffer.Length == capacity && Items() == []
    {
      buffer := new T[capacity](_ => raw);
      head, tail := 0, 0;
    }

    /** Refused exactly when `capacity - 1` items are queued. */
    method Push(item: T) returns (ok: bool)
      requires Valid()
      modifies this`tail, buffer
      ensures Valid()
      ensures ok <==> |old(Items())| < buffer.Length - 1
      ensures Items() == if ok then old(Items()) + [item] else old(Items())
    {
      var currentTail := tail;
      var nextTail := (currentTail + 1) % buffer.Length;
      StepIndex(tail, buffer.Length);
      DistanceCases(head, tail, buffer.Length);
      if nextTail == head {
        return false;
      }
      PushItems(buffer[..], head, tail, item);
      buffer[currentTail] := item;
      assert buffer[..] == old(buffer[..])[currentTail := item];
      tail := nextTail;
      return true;
    }

    /** Refused exactly when the queue is empty, and then the caller's variable keeps its value. */
    method Pop(current: T) returns (ok: bool, item: T)
      requires Valid()
      modifies this`head
      ensures Valid()
      ensures ok <==> old(Items()) != []
      ensures if ok then [item] + Items() == old(Items()) else Items() == old(Items()) && item == current
    {
      var currentHead := head;
      DistanceCases(head, tail, buffer.Length);
      if currentHead == tail {
        return false, current;
      }
      PopItems(buffer[..], head, tail);
      StepIndex(head, buffer.Length);
      item := buffer[currentHead];
      head := (currentHead + 1) % buffer.Length;
      return true, item;
    }

    method Empty() returns (r: bool)
      requires Valid()
      ensures r <==> Items() == []
    {
      DistanceCases(head, tail, buffer.Length);
      r := head == tail;
    }

    method Full() returns (r: bool)
      requires Valid()
      ensures r <==> |Items()| == buffer.Length - 1
    {
      StepIndex(tail, buffer.Length);
      DistanceCases(head, tail, buffer.Length);
      r := (tail + 1) % buffer.Length == head;
    }

    method Size() returns (n: nat)
      requires Valid()
      ensures n == |Items()|
    {
      DistanceCases(head, tail, buffer.Length);
      var h, t := head, tail;
      if t >= h {
        n := t - h;
      } else {
        n := buffer.Length - h + t;
      }
    }
  }
}
