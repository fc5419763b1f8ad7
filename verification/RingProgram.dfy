/** What one thread does during a push or a pop of the ring queue, whoever else takes part. */
module RingProgram {

  /** A push: the tail is loaded, then the head is loaded and compared, then the slot is written, then the tail
      stored. */
  datatype Producer<T> =
    | PIdle
    | PLoaded(item: T, cur: nat, next: nat)
    | PClear(item: T, cur: nat, next: nat)
    | PWritten(item: T, next: nat)

  /** A pop: the head is loaded, then the tail is loaded and compared, then the slot is read, then the head stored. */
  datatype Consumer<T> =
    | CIdle
    | CLoaded(cur: nat)
    | CClear(cur: nat)
    | CRead(cur: nat, got: T)

  function LoadedTail<T>(item: T, tail: nat, capacity: nat): Producer<T>
    requires capacity > 0
  {
    PLoaded(item, tail, (tail + 1) % capacity)
  }

  /** The push is refused when the next slot is the head that was loaded. */
  function ComparedHead<T>(p: Producer<T>, head: nat): Producer<T>
    requires p.PLoaded?
  {
    if p.next == head then PIdle else PClear(p.item, p.cur, p.next)
  }

  /** The pop is refused when the head is the tail that was loaded. */
  function ComparedTail<T>(c: Consumer<T>, tail: nat): Consumer<T>
    requires c.CLoaded?
  {
    if c.cur == tail then CIdle else CClear(c.cur)
  }

  /** The head a pop stores. */
  function NextHead<T>(c: Consumer<T>, capacity: nat): nat
    requires c.CRead? && capacity > 0
  {
    (c.cur + 1) % capacity
  }
}
