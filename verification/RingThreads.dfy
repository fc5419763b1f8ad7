/** The ring queue shared by any number of producers and consumers, as the program runs it. One step per index load,
    index store or buffer access, every index load returning the newest store: what fails here fails under every
    memory order. */
module RingThreads {
  import opened RingProgram
  import opened RingQueue

  /** `pushed` and `popped` are the items of the calls that returned true, in the order of their index stores. */
  datatype State<T> = State(
    buffer: seq<T>, head: nat, tail: nat,
    producers: seq<Producer<T>>, consumers: seq<Consumer<T>>,
    pushed: seq<T>, popped: seq<T>)

  /** Each step names the thread that takes it. */
  datatype Label<T> =
    | BeginPush(i: nat, item: T)
    | LoadHead(i: nat)
    | WriteSlot(i: nat)
    | PublishTail(i: nat)
    | BeginPop(i: nat)
    | LoadTail(i: nat)
    | ReadSlot(i: nat)
    | PublishHead(i: nat)

  function Init<T>(raw: seq<T>, producers: nat, consumers: nat): State<T> {
    State(raw, 0, 0, seq(producers, _ => PIdle), seq(consumers, _ => CIdle), [], [])
  }

  predicate OfProducer<T>(l: Label<T>) {
    l.BeginPush? || l.LoadHead? || l.WriteSlot? || l.PublishTail?
  }

  predicate Enabled<T>(s: State<T>, l: Label<T>) {
    && (if OfProducer(l) then l.i < |s.producers| else l.i < |s.consumers|)
    && match l
       case BeginPush(i, _) => s.producers[i].PIdle? && s.buffer != []
       case LoadHead(i) => s.producers[i].PLoaded?
       case WriteSlot(i) => s.producers[i].PClear? && s.producers[i].cur < |s.buffer|
       case PublishTail(i) => s.producers[i].PWritten?
       case BeginPop(i) => s.consumers[i].CIdle?
       case LoadTail(i) => s.consumers[i].CLoaded?
       case ReadSlot(i) => s.consumers[i].CClear? && s.consumers[i].cur < |s.buffer|
       case PublishHead(i) => s.consumers[i].CRead? && s.buffer != []
  }

  function Next<T>(s: State<T>, l: Label<T>): State<T>
    requires Enabled(s, l)
  {
    match l
    case BeginPush(i, item) => s.(producers := s.producers[i := LoadedTail(item, s.tail, |s.buffer|)])
    case LoadHead(i) => s.(producers := s.producers[i := ComparedHead(s.producers[i], s.head)])
    case WriteSlot(i) =>
      var p := s.producers[i];
      s.(buffer := s.buffer[p.cur := p.item], producers := s.producers[i := PWritten(p.item, p.next)])
    case PublishTail(i) =>
      var p := s.producers[i];
      s.(tail := p.next, pushed := s.pushed + [p.item], producers := s.producers[i := PIdle])
    case BeginPop(i) => s.(consumers := s.consumers[i := CLoaded(s.head)])
    case LoadTail(i) => s.(consumers := s.consumers[i := ComparedTail(s.consumers[i], s.tail)])
    case ReadSlot(i) =>
      var c := s.consumers[i];
      s.(consumers := s.consumers[i := CRead(c.cur, s.buffer[c.cur])])
    case PublishHead(i) =>
      var c := s.consumers[i];
      s.(head := NextHead(c, |s.buffer|), popped := s.popped + [c.got], consumers := s.consumers[i := CIdle])
  }

  ghost predicate Run<T>(s: State<T>, ls: seq<Label<T>>, end: State<T>)
    decreases |ls|
  {
    if ls == [] then end == s
    else Enabled(s, ls[0]) && Run(Next(s, ls[0]), ls[1..], end)
  }

  // ---------- what a queue promises ----------

  /** Every accepted item was delivered or is in the ring, in order. */
  ghost predicate Fifo<T>(s: State<T>) {
    s.buffer != [] && s.pushed == s.popped + RingItems(s.buffer, s.head, s.tail)
  }

  /** The weaker promise that looks at no slot: deliveries follow the acceptances, and the indices count the
      difference. */
  ghost predicate InStep<T>(s: State<T>) {
    && s.buffer != [] && s.popped <= s.pushed
    && |s.pushed| - |s.popped| == Distance(s.head, s.tail, |s.buffer|)
  }

  ghost predicate EveryRunFifo<T(!new)>(raw: seq<T>, producers: nat, consumers: nat) {
    forall ls: seq<Label<T>>, s: State<T> :: Run(Init(raw, producers, consumers), ls, s) ==> Fifo(s)
  }

  ghost predicate EveryRunInStep<T(!new)>(raw: seq<T>, producers: nat, consumers: nat) {
    forall ls: seq<Label<T>>, s: State<T> :: Run(Init(raw, producers, consumers), ls, s) ==> InStep(s)
  }

  // ---------- one producer and one consumer ----------

  ghost predicate ProducerOk<T>(s: State<T>, p: Producer<T>)
    requires s.buffer != [] && s.tail < |s.buffer|
  {
    && (p.PLoaded? || p.PClear? ==> p.cur == s.tail)
    && (!p.PIdle? ==> p.next == (s.tail + 1) % |s.buffer|)
    && (p.PClear? || p.PWritten? ==> p.next != s.head)
    && (p.PWritten? ==> s.buffer[s.tail] == p.item)
  }

  ghost predicate ConsumerOk<T>(s: State<T>, c: Consumer<T>)
    requires s.head < |s.buffer|
  {
    && (!c.CIdle? ==> c.cur == s.head)
    && (c.CClear? || c.CRead? ==> s.head != s.tail)
    && (c.CRead? ==> c.got == s.buffer[s.head])
  }

  ghost predicate Single<T>(s: State<T>) {
    && |s.producers| <= 1 && |s.consumers| <= 1
    && s.head < |s.buffer| && s.tail < |s.buffer| && Fifo(s)
    && (forall i :: 0 <= i < |s.producers| ==> ProducerOk(s, s.producers[i]))
    && (forall i :: 0 <= i < |s.consumers| ==> ConsumerOk(s, s.consumers[i]))
  }

  /** Writing the free slot at the tail changes no queued item. */
  lemma FreeSlotItems<T>(buffer: seq<T>, head: nat, tail: nat, x: T)
    requires head < |buffer| && tail < |buffer|
    ensures RingItems(buffer[tail := x], head, tail) == RingItems(buffer, head, tail)
  {
    var c := |buffer|;
    DistanceCases(head, tail, c);
    forall i | 0 <= i < Distance(head, tail, c)
      ensures RingItems(buffer[tail := x], head, tail)[i] == RingItems(buffer, head, tail)[i]
    {
      SlotCases(head, i, c);
    }
  }

  lemma ProducerStep<T>(s: State<T>, l: Label<T>)
    requires Single(s) && Enabled(s, l) && OfProducer(l)
    ensures Single(Next(s, l))
  {
    hide RingItems, Distance;
    var p, s' := s.producers[l.i], Next(s, l);
    StepIndex(s.tail, |s.buffer|);
    assert s'.producers == [s'.producers[0]];
    if l.WriteSlot? {
      FreeSlotItems(s.buffer, s.head, s.tail, p.item);
    } else if l.PublishTail? {
      PushItems(s.buffer, s.head, s.tail, p.item);
      assert s.buffer[s.tail := p.item] == s.buffer;
    }
  }

  lemma ConsumerStep<T>(s: State<T>, l: Label<T>)
    requires Single(s) && Enabled(s, l) && !OfProducer(l)
    ensures Single(Next(s, l))
  {
    hide RingItems, Distance;
    var c, s' := s.consumers[l.i], Next(s, l);
    StepIndex(s.head, |s.buffer|);
    StepIndex(s.tail, |s.buffer|);
    assert s'.consumers == [s'.consumers[0]];
    if l.PublishHead? {
      PopItems(s.buffer, s.head, s.tail);
    }
  }

  lemma {:induction false} SingleRun<T>(s: State<T>, ls: seq<Label<T>>, end: State<T>)
    requires Single(s) && Run(s, ls, end)
    ensures Single(end)
    decreases |ls|
  {
    if ls != [] {
      hide Single, Enabled, Next;
      if OfProducer(ls[0]) {
        ProducerStep(s, ls[0]);
      } else {
        ConsumerStep(s, ls[0]);
      }
      SingleRun(Next(s, ls[0]), ls[1..], end);
    }
  }

  // ---------- a queue nothing enters ----------

  /** Without producers, and in a ring of one slot, nothing is ever accepted or delivered. */
  ghost predicate Untouched<T>(s: State<T>) {
    && s.buffer != [] && s.head == s.tail == 0 && s.pushed == s.popped == []
    && (|s.buffer| == 1 || s.producers == [])
    && (forall i :: 0 <= i < |s.producers| ==>
          s.producers[i].PIdle? || (s.producers[i].PLoaded? && s.producers[i].next == 0))
    && (forall i :: 0 <= i < |s.consumers| ==> s.consumers[i].CIdle? || s.consumers[i] == CLoaded(0))
  }

  lemma {:induction false} UntouchedRun<T>(s: State<T>, ls: seq<Label<T>>, end: State<T>)
    requires Untouched(s) && Run(s, ls, end)
    ensures Untouched(end)
    decreases |ls|
  {
    if ls != [] {
      UntouchedRun(Next(s, ls[0]), ls[1..], end);
    }
  }

  // ---------- overlapping calls ----------

  lemma {:induction false} RunJoins<T>(s: State<T>, ls: seq<Label<T>>, mid: State<T>, more: seq<Label<T>>,
                                       end: State<T>)
    requires Run(s, ls, mid) && Run(mid, more, end)
    ensures Run(s, ls + more, end)
    decreases |ls|
  {
    if ls == [] {
      assert ls + more == more;
    } else {
      RunJoins(Next(s, ls[0]), ls[1..], mid, more, end);
      assert (ls + more)[1..] == ls[1..] + more;
    }
  }

  lemma RunOne<T>(s: State<T>, l: Label<T>)
    requires Enabled(s, l)
    ensures Run(s, [l], Next(s, l))
  {
    assert [l][1..] == [];
  }

  /** Two steps. */
  lemma RunTwo<T>(s: State<T>, l: Label<T>, l': Label<T>)
    requires Enabled(s, l) && Enabled(Next(s, l), l')
    ensures Run(s, [l, l'], Next(Next(s, l), l'))
  {
    RunOne(s, l);
    RunOne(Next(s, l), l');
    RunJoins(s, [l], Next(s, l), [l'], Next(Next(s, l), l'));
    assert [l] + [l'] == [l, l'];
  }

  /** Four steps, by way of the state after two. */
  lemma RunFour<T>(s: State<T>, l1: Label<T>, l2: Label<T>, l3: Label<T>, l4: Label<T>, mid: State<T>, end: State<T>)
    requires Enabled(s, l1) && Enabled(Next(s, l1), l2) && mid == Next(Next(s, l1), l2)
    requires Enabled(mid, l3) && Enabled(Next(mid, l3), l4) && end == Next(Next(mid, l3), l4)
    ensures Run(s, [l1, l2, l3, l4], end)
  {
    RunTwo(s, l1, l2);
    RunTwo(mid, l3, l4);
    RunJoins(s, [l1, l2], mid, [l3, l4], end);
    assert [l1, l2] + [l3, l4] == [l1, l2, l3, l4];
  }

  /** Two idle producers both find room at the same tail. */
  lemma BothFindRoom<T>(s: State<T>, i: nat, j: nat, x: T, y: T) returns (ls: seq<Label<T>>, end: State<T>)
    requires s.tail < |s.buffer| && (s.tail + 1) % |s.buffer| != s.head
    requires i < |s.producers| && j < |s.producers| && i != j && s.producers[i].PIdle? && s.producers[j].PIdle?
    ensures Run(s, ls, end) && end == s.(producers := end.producers) && |end.producers| == |s.producers|
    ensures end.producers[i] == PClear(x, s.tail, (s.tail + 1) % |s.buffer|)
    ensures end.producers[j] == PClear(y, s.tail, (s.tail + 1) % |s.buffer|)
  {
    hide Run;
    var mid := Next(Next(s, BeginPush(i, x)), BeginPush(j, y));
    end := Next(Next(mid, LoadHead(i)), LoadHead(j));
    ls := [BeginPush(i, x), BeginPush(j, y), LoadHead(i), LoadHead(j)];
    RunFour(s, BeginPush(i, x), BeginPush(j, y), LoadHead(i), LoadHead(j), mid, end);
  }

  /** Two producers that found room at the same slot both write it and both publish. */
  lemma BothPublish<T>(s: State<T>, i: nat, j: nat, x: T, y: T, next: nat) returns (ls: seq<Label<T>>, end: State<T>)
    requires s.tail < |s.buffer| && i < |s.producers| && j < |s.producers| && i != j
    requires s.producers[i] == PClear(x, s.tail, next) && s.producers[j] == PClear(y, s.tail, next)
    ensures Run(s, ls, end)
    ensures end == s.(buffer := s.buffer[s.tail := x][s.tail := y], tail := next, pushed := s.pushed + [x] + [y],
                      producers := end.producers)
  {
    hide Run;
    var mid := Next(Next(s, WriteSlot(i)), WriteSlot(j));
    end := Next(Next(mid, PublishTail(i)), PublishTail(j));
    ls := [WriteSlot(i), WriteSlot(j), PublishTail(i), PublishTail(j)];
    RunFour(s, WriteSlot(i), WriteSlot(j), PublishTail(i), PublishTail(j), mid, end);
  }

  /** In every state with room for an item, two idle producers can push at once: both items are accepted, the tail
      moves by one slot, and only the second item is in the ring. */
  lemma TwoProducersLoseAnItem<T>(s: State<T>, i: nat, j: nat, x: T, y: T) returns (ls: seq<Label<T>>, end: State<T>)
    requires s.head < |s.buffer| && s.tail < |s.buffer| && (s.tail + 1) % |s.buffer| != s.head
    requires i < |s.producers| && j < |s.producers| && i != j && s.producers[i].PIdle? && s.producers[j].PIdle?
    ensures Run(s, ls, end) && |end.buffer| == |s.buffer|
    ensures end.pushed == s.pushed + [x, y] && end.popped == s.popped
    ensures RingItems(end.buffer, end.head, end.tail) == RingItems(s.buffer, s.head, s.tail) + [y]
  {
    hide RingItems, Run, Enabled, Next;
    var first, mid := BothFindRoom(s, i, j, x, y);
    var more;
    more, end := BothPublish(mid, i, j, x, y, (s.tail + 1) % |s.buffer|);
    RunJoins(s, first, mid, more, end);
    ls := first + more;
    FreeSlotItems(s.buffer, s.head, s.tail, x);
    PushItems(s.buffer[s.tail := x], s.head, s.tail, y);
  }

  /** Two idle consumers both find the same oldest item. */
  lemma BothFindItem<T>(s: State<T>, i: nat, j: nat) returns (ls: seq<Label<T>>, end: State<T>)
    requires s.head != s.tail
    requires i < |s.consumers| && j < |s.consumers| && i != j && s.consumers[i].CIdle? && s.consumers[j].CIdle?
    ensures Run(s, ls, end) && end == s.(consumers := end.consumers) && |end.consumers| == |s.consumers|
    ensures end.consumers[i] == end.consumers[j] == CClear(s.head)
  {
    hide Run;
    var mid := Next(Next(s, BeginPop(i)), BeginPop(j));
    end := Next(Next(mid, LoadTail(i)), LoadTail(j));
    ls := [BeginPop(i), BeginPop(j), LoadTail(i), LoadTail(j)];
    RunFour(s, BeginPop(i), BeginPop(j), LoadTail(i), LoadTail(j), mid, end);
  }

  /** Two consumers that found the same item both read it and both publish. */
  lemma BothTake<T>(s: State<T>, i: nat, j: nat) returns (ls: seq<Label<T>>, end: State<T>)
    requires s.head < |s.buffer| && i < |s.consumers| && j < |s.consumers| && i != j
    requires s.consumers[i] == s.consumers[j] == CClear(s.head)
    ensures Run(s, ls, end)
    ensures end == s.(head := (s.head + 1) % |s.buffer|, popped := s.popped + [s.buffer[s.head]] + [s.buffer[s.head]],
                      consumers := end.consumers)
  {
    hide Run;
    var mid := Next(Next(s, ReadSlot(i)), ReadSlot(j));
    end := Next(Next(mid, PublishHead(i)), PublishHead(j));
    ls := [ReadSlot(i), ReadSlot(j), PublishHead(i), PublishHead(j)];
    RunFour(s, ReadSlot(i), ReadSlot(j), PublishHead(i), PublishHead(j), mid, end);
  }

  /** In every state with an item in the ring, two idle consumers can pop at once: both deliver the oldest item. */
  lemma TwoConsumersShareAnItem<T>(s: State<T>, i: nat, j: nat) returns (ls: seq<Label<T>>, end: State<T>)
    requires s.head < |s.buffer| && s.tail < |s.buffer| && s.head != s.tail
    requires i < |s.consumers| && j < |s.consumers| && i != j && s.consumers[i].CIdle? && s.consumers[j].CIdle?
    ensures Run(s, ls, end) && |end.buffer| == |s.buffer|
    ensures end.popped == s.popped + [s.buffer[s.head], s.buffer[s.head]] && end.pushed == s.pushed
    ensures [s.buffer[s.head]] + RingItems(end.buffer, end.head, end.tail) == RingItems(s.buffer, s.head, s.tail)
  {
    hide RingItems, Run, Enabled, Next;
    var first, mid := BothFindItem(s, i, j);
    var more;
    more, end := BothTake(mid, i, j);
    RunJoins(s, first, mid, more, end);
    ls := first + more;
    PopItems(s.buffer, s.head, s.tail);
  }

  /** One push alone, from the empty queue. */
  lemma FirstPush<T>(raw: seq<T>, producers: nat, consumers: nat, x: T) returns (ls: seq<Label<T>>, end: State<T>)
    requires |raw| >= 2 && producers > 0
    ensures Run(Init(raw, producers, consumers), ls, end)
    ensures end.head == 0 && end.tail == 1 && end.buffer == raw[0 := x] && end.pushed == [x] && end.popped == []
    ensures end.consumers == Init(raw, producers, consumers).consumers
  {
    hide Run;
    var s := Init(raw, producers, consumers);
    StepIndex(0, |raw|);
    var mid := Next(Next(s, BeginPush(0, x)), LoadHead(0));
    end := Next(Next(mid, WriteSlot(0)), PublishTail(0));
    ls := [BeginPush(0, x), LoadHead(0), WriteSlot(0), PublishTail(0)];
    RunFour(s, BeginPush(0, x), LoadHead(0), WriteSlot(0), PublishTail(0), mid, end);
  }

  // ---------- how many threads the queue supports ----------

  /** Whether calls of the same kind can overlap on an item; known before the threads are started. */
  predicate Supported(capacity: nat, producers: nat, consumers: nat) {
    capacity == 1 || producers == 0 || (producers == 1 && consumers <= 1)
  }

  lemma FifoInStep<T>(s: State<T>)
    requires Fifo(s)
    ensures InStep(s)
  {
  }

  lemma SupportedIsFifo<T>(raw: seq<T>, producers: nat, consumers: nat, ls: seq<Label<T>>, s: State<T>)
    requires raw != [] && Supported(|raw|, producers, consumers) && Run(Init(raw, producers, consumers), ls, s)
    ensures Fifo(s)
  {
    DistanceCases(0, 0, |raw|);
    if producers == 1 && consumers <= 1 {
      SingleRun(Init(raw, producers, consumers), ls, s);
    } else {
      UntouchedRun(Init(raw, producers, consumers), ls, s);
      DistanceCases(0, 0, |s.buffer|);
    }
  }

  lemma UnsupportedFalls<T>(raw: seq<T>, producers: nat, consumers: nat, x: T, y: T)
    returns (ls: seq<Label<T>>, s: State<T>)
    requires raw != [] && !Supported(|raw|, producers, consumers)
    ensures Run(Init(raw, producers, consumers), ls, s) && !InStep(s)
  {
    var s0 := Init(raw, producers, consumers);
    StepIndex(0, |raw|);
    DistanceCases(0, 0, |raw|);
    if producers >= 2 {
      ls, s := TwoProducersLoseAnItem(s0, 0, 1, x, y);
      assert |RingItems(s.buffer, s.head, s.tail)| == 1;
    } else {
      var first, mid := FirstPush(raw, producers, consumers, x);
      var more;
      more, s := TwoConsumersShareAnItem(mid, 0, 1);
      RunJoins(s0, first, mid, more, s);
      ls := first + more;
    }
  }

  /** For every ring and every number of threads: the queue keeps its promise in every run, in the strong or in the weak
      form, exactly when no two pushes and no two pops can overlap on an item. */
  lemma FifoExactly<T(!new)>(raw: seq<T>, producers: nat, consumers: nat)
    requires raw != []
    ensures EveryRunFifo(raw, producers, consumers) <==> Supported(|raw|, producers, consumers)
    ensures EveryRunInStep(raw, producers, consumers) <==> Supported(|raw|, producers, consumers)
  {
    if Supported(|raw|, producers, consumers) {
      forall ls: seq<Label<T>>, s: State<T> | Run(Init(raw, producers, consumers), ls, s) ensures Fifo(s) && InStep(s) {
        SupportedIsFifo(raw, producers, consumers, ls, s);
      }
    } else {
      var ls, s := UnsupportedFalls(raw, producers, consumers, raw[0], raw[0]);
      assert Run(Init(raw, producers, consumers), ls, s);
      if Fifo(s) {
        FifoInStep(s);
      }
    }
  }
}
