/** The order pipeline: producers push, any number of consumers pop, process under a semaphore of three permits and
    record. One step per queue operation, flag access, semaphore operation, locked section or counter update. */
module Pipeline {

  datatype Order = Order(id: int, symbol: string, quantity: int, isBuy: bool)

  /** Where a consumer stands. `Missed(n)` remembers how many orders had been pushed when its pop found the queue empty;
      `Flagged(done)` is only reached when the flag is read before the pop. */
  datatype Consumer =
    | Ready
    | Flagged(done: bool)
    | Missed(n: nat)
    | Holding(order: Order)
    | Admitted(order: Order)
    | Booked(order: Order)
    | Recorded(order: Order)
    | Counted
    | Exited(n: nat)

  /** The code pops first and reads the flag after a failed pop; the other order reads the flag first. */
  datatype Discipline = PopFirst | FlagFirst

  datatype Volume = Volume(bought: int, sold: int)

  datatype State = State(
    queue: seq<Order>, pushed: seq<Order>, done: bool,
    permits: nat, book: map<string, Volume>, completed: seq<Order>, processed: int,
    consumers: seq<Consumer>)

  datatype Label =
    | Push(order: Order)
    | Finish
    | ReadFlag(i: nat)
    | Pop(i: nat)
    | Acquire(i: nat)
    | Book(i: nat)
    | Record(i: nat)
    | Count(i: nat)
    | Release(i: nat)

  const PERMITS: nat := 3
  const QUEUE_CAPACITY: nat := 1024

  function Init(consumers: nat): State {
    State([], [], false, PERMITS, map[], [], 0, seq(consumers, _ => Ready))
  }

  predicate IsLabelOf(l: Label, s: State) {
    (l.Push? || l.Finish?) || l.i < |s.consumers|
  }

  /** A push waits while the ring is full. Nothing is pushed after the flag is set: it is set once every producer has
      been joined. */
  predicate Enabled(d: Discipline, s: State, l: Label) {
    IsLabelOf(l, s) &&
    match l
    case Push(_) => !s.done && |s.queue| < QUEUE_CAPACITY - 1
    case Finish => !s.done
    case ReadFlag(i) => if d == PopFirst then s.consumers[i].Missed? else s.consumers[i].Ready?
    case Pop(i) => if d == PopFirst then s.consumers[i].Ready? else s.consumers[i].Flagged?
    case Acquire(i) => s.consumers[i].Holding? && s.permits > 0
    case Book(i) => s.consumers[i].Admitted?
    case Record(i) => s.consumers[i].Booked?
    case Count(i) => s.consumers[i].Recorded?
    case Release(i) => s.consumers[i].Counted?
  }

  function VolumeOf(book: map<string, Volume>, symbol: string): Volume {
    if symbol in book then book[symbol] else Volume(0, 0)
  }

  function AddTo(book: map<string, Volume>, o: Order): map<string, Volume> {
    var v := VolumeOf(book, o.symbol);
    book[o.symbol := if o.isBuy then Volume(v.bought + o.quantity, v.sold) else Volume(v.bought, v.sold + o.quantity)]
  }

  /** What a consumer does after a pop that found the queue empty. */
  function AfterMiss(d: Discipline, c: Consumer, n: nat): Consumer
    requires if d == PopFirst then c.Ready? else c.Flagged?
  {
    if d == PopFirst then Missed(n) else if c.done then Exited(n) else Ready
  }

  function Next(d: Discipline, s: State, l: Label): State
    requires Enabled(d, s, l)
  {
    match l
    case Push(order) => s.(queue := s.queue + [order], pushed := s.pushed + [order])
    case Finish => s.(done := true)
    case ReadFlag(i) =>
      var c := s.consumers[i];
      At(s, i, if d == FlagFirst then Flagged(s.done) else if s.done then Exited(c.n) else Ready)
    case Pop(i) =>
      if s.queue == [] then At(s, i, AfterMiss(d, s.consumers[i], |s.pushed|))
      else At(s.(queue := s.queue[1..]), i, Holding(s.queue[0]))
    case Acquire(i) => At(s.(permits := s.permits - 1), i, Admitted(s.consumers[i].order))
    case Book(i) => At(s.(book := AddTo(s.book, s.consumers[i].order)), i, Booked(s.consumers[i].order))
    case Record(i) => At(s.(completed := s.completed + [s.consumers[i].order]), i, Recorded(s.consumers[i].order))
    case Count(i) => At(s.(processed := s.processed + 1), i, Counted)
    case Release(i) => At(s.(permits := s.permits + 1), i, Ready)
  }

  function At(s: State, i: nat, c: Consumer): State
    requires i < |s.consumers|
  {
    s.(consumers := s.consumers[i := c])
  }

  predicate Run(d: Discipline, s: State, ls: seq<Label>, end: State)
    decreases |ls|
  {
    if ls == [] then end == s
    else Enabled(d, s, ls[0]) && Run(d, Next(d, s, ls[0]), ls[1..], end)
  }

  lemma RunOne(d: Discipline, s: State, l: Label)
    requires Enabled(d, s, l)
    ensures Run(d, s, [l], Next(d, s, l))
  {
    assert [l][1..] == [];
  }

  lemma {:induction false} RunJoins(d: Discipline, s: State, ls: seq<Label>, mid: State, more: seq<Label>, end: State)
    requires Run(d, s, ls, mid) && Run(d, mid, more, end)
    ensures Run(d, s, ls + more, end)
    decreases |ls|
  {
    if ls == [] {
      assert ls + more == more;
    } else {
      RunJoins(d, Next(d, s, ls[0]), ls[1..], mid, more, end);
      assert (ls + more)[1..] == ls[1..] + more;
    }
  }

  // ---------- sums over the consumers ----------

  /** What is counted over the consumers: permits held; orders popped but not recorded and equal to `order`; volume in
      the book but not recorded; orders recorded but not counted; steps to the exit when no order is met any more. */
  datatype Weight = Permit | Carried(order: Order) | BookedOnly(symbol: string, isBuy: bool) | Uncounted | ToExit

  function Weigh(w: Weight, c: Consumer): int {
    match w
    case Permit => if c.Admitted? || c.Booked? || c.Recorded? || c.Counted? then 1 else 0
    case Carried(o) => if (c.Holding? || c.Admitted? || c.Booked?) && c.order == o then 1 else 0
    case BookedOnly(symbol, isBuy) => if c.Booked? then OwnVolume(c.order, symbol, isBuy) else 0
    case Uncounted => if c.Recorded? then 1 else 0
    case ToExit => StepsToExit(c)
  }

  /** How many steps a consumer still takes if the flag is set and it finds no further order. */
  function StepsToExit(c: Consumer): nat {
    match c
    case Holding(_) => 7
    case Admitted(_) => 6
    case Booked(_) => 5
    case Recorded(_) => 4
    case Counted => 3
    case Flagged(done) => if done then 1 else 3
    case Ready => 2
    case Missed(_) => 1
    case Exited(_) => 0
  }

  function Sum(cs: seq<Consumer>, w: Weight): int {
    if cs == [] then 0 else Weigh(w, cs[0]) + Sum(cs[1..], w)
  }

  lemma {:induction false} SumUpdate(cs: seq<Consumer>, w: Weight, i: nat, c: Consumer)
    requires i < |cs|
    ensures Sum(cs[i := c], w) == Sum(cs, w) - Weigh(w, cs[i]) + Weigh(w, c)
  {
    if i == 0 {
      assert cs[i := c][1..] == cs[1..];
    } else {
      assert cs[i := c][1..] == cs[1..][i - 1 := c];
      SumUpdate(cs[1..], w, i - 1, c);
    }
  }

  lemma {:induction false} SumZero(cs: seq<Consumer>, w: Weight)
    ensures (forall i :: 0 <= i < |cs| ==> Weigh(w, cs[i]) == 0) ==> Sum(cs, w) == 0
  {
    if cs != [] {
      SumZero(cs[1..], w);
    }
  }

  function SideVolume(v: Volume, isBuy: bool): int {
    if isBuy then v.bought else v.sold
  }

  function OwnVolume(o: Order, symbol: string, isBuy: bool): int {
    if o.symbol == symbol && o.isBuy == isBuy then o.quantity else 0
  }

  function VolumeIn(orders: seq<Order>, symbol: string, isBuy: bool): int {
    if orders == [] then 0
    else VolumeIn(orders[..|orders| - 1], symbol, isBuy) + OwnVolume(orders[|orders| - 1], symbol, isBuy)
  }

  // ---------- what every step keeps ----------

  predicate PermitsKept(s: State) {
    s.permits + Sum(s.consumers, Permit) == 3
  }

  predicate CounterKept(s: State) {
    s.processed + Sum(s.consumers, Uncounted) == |s.completed|
  }

  /** How many orders equal to `o` are out of the producers' hands but neither queued nor completed. */
  function InFlight(s: State, o: Order): int {
    Occurrences(s.pushed, o) - Occurrences(s.queue, o) - Occurrences(s.completed, o)
  }

  function Occurrences(orders: seq<Order>, o: Order): int {
    multiset(orders)[o]
  }

  predicate OrderKept(s: State, o: Order) {
    InFlight(s, o) == Sum(s.consumers, Carried(o))
  }

  predicate VolumeKept(s: State, symbol: string, isBuy: bool) {
    SideVolume(VolumeOf(s.book, symbol), isBuy)
      == VolumeIn(s.completed, symbol, isBuy) + Sum(s.consumers, BookedOnly(symbol, isBuy))
  }

  /** Consumers hold a flag only if it is read first, and remember a miss only if it is read last. */
  predicate InDiscipline(d: Discipline, s: State) {
    forall i :: 0 <= i < |s.consumers| ==> if d == PopFirst then !s.consumers[i].Flagged? else !s.consumers[i].Missed?
  }

  /** The consumer a step moves, and where it moves to. */
  lemma StepSum(d: Discipline, s: State, l: Label, w: Weight)
    requires Enabled(d, s, l)
    ensures var s' := Next(d, s, l);
            if l.Push? || l.Finish? then s'.consumers == s.consumers
            else Sum(s'.consumers, w) == Sum(s.consumers, w) - Weigh(w, s.consumers[l.i]) + Weigh(w, s'.consumers[l.i])
  {
    if !l.Push? && !l.Finish? {
      SumUpdate(s.consumers, w, l.i, Next(d, s, l).consumers[l.i]);
    }
  }

  lemma StepPermits(d: Discipline, s: State, l: Label)
    requires Enabled(d, s, l) && PermitsKept(s)
    ensures PermitsKept(Next(d, s, l))
  {
    StepSum(d, s, l, Permit);
  }

  lemma StepCounter(d: Discipline, s: State, l: Label)
    requires Enabled(d, s, l) && CounterKept(s)
    ensures CounterKept(Next(d, s, l))
  {
    StepSum(d, s, l, Uncounted);
  }

  lemma StepInFlight(d: Discipline, s: State, l: Label, o: Order)
    requires Enabled(d, s, l)
    ensures InFlight(Next(d, s, l), o) == InFlight(s, o)
              + (if l.Pop? && s.queue != [] && s.queue[0] == o then 1 else 0)
              - (if l.Record? && s.consumers[l.i].order == o then 1 else 0)
  {
    if l.Pop? && s.queue != [] {
      assert s.queue == [s.queue[0]] + s.queue[1..];
    }
  }

  lemma StepOrder(d: Discipline, s: State, l: Label, o: Order)
    requires Enabled(d, s, l) && OrderKept(s, o)
    ensures OrderKept(Next(d, s, l), o)
  {
    hide InFlight, Sum;
    StepSum(d, s, l, Carried(o));
    StepInFlight(d, s, l, o);
  }

  lemma StepVolume(d: Discipline, s: State, l: Label, symbol: string, isBuy: bool)
    requires Enabled(d, s, l) && VolumeKept(s, symbol, isBuy)
    ensures VolumeKept(Next(d, s, l), symbol, isBuy)
  {
    StepSum(d, s, l, BookedOnly(symbol, isBuy));
    if l.Record? {
      var o := s.consumers[l.i].order;
      assert (s.completed + [o])[..|s.completed|] == s.completed;
    }
  }

  lemma StepDiscipline(d: Discipline, s: State, l: Label)
    requires Enabled(d, s, l) && InDiscipline(d, s)
    ensures InDiscipline(d, Next(d, s, l)) && |Next(d, s, l).consumers| == |s.consumers|
  {
  }

  lemma {:induction false} RunKeeps(d: Discipline, s: State, ls: seq<Label>, end: State, o: Order, symbol: string,
                                    isBuy: bool)
    requires Run(d, s, ls, end)
    requires PermitsKept(s) && CounterKept(s) && OrderKept(s, o) && VolumeKept(s, symbol, isBuy) && InDiscipline(d, s)
    ensures PermitsKept(end) && CounterKept(end) && OrderKept(end, o) && VolumeKept(end, symbol, isBuy)
    ensures InDiscipline(d, end) && |end.consumers| == |s.consumers|
    decreases |ls|
  {
    if ls != [] {
      hide PermitsKept, CounterKept, OrderKept, VolumeKept;
      StepDiscipline(d, s, ls[0]);
      StepPermits(d, s, ls[0]);
      StepCounter(d, s, ls[0]);
      StepOrder(d, s, ls[0], o);
      StepVolume(d, s, ls[0], symbol, isBuy);
      RunKeeps(d, Next(d, s, ls[0]), ls[1..], end, o, symbol, isBuy);
    }
  }

  /** In every run, with any number of consumers and under either discipline: permits and their holders make three, the
      counter lags the record by the orders recorded but not counted, every pushed order is queued, in flight or
      completed, and the book holds the completed volume plus that of orders between the book and the record. */
  lemma EveryRunKeeps(d: Discipline, n: nat, ls: seq<Label>, s: State)
    requires Run(d, Init(n), ls, s)
    ensures PermitsKept(s) && CounterKept(s) && InDiscipline(d, s) && |s.consumers| == n
    ensures forall o :: OrderKept(s, o)
    ensures forall symbol, isBuy :: VolumeKept(s, symbol, isBuy)
  {
    hide PermitsKept, CounterKept, OrderKept, VolumeKept, InDiscipline, Init, Run;
    forall o, symbol, isBuy
      ensures PermitsKept(s) && CounterKept(s) && InDiscipline(d, s) && |s.consumers| == n
      ensures OrderKept(s, o) && VolumeKept(s, symbol, isBuy)
    {
      InitKeeps(d, n, o, symbol, isBuy);
      RunKeeps(d, Init(n), ls, s, o, symbol, isBuy);
    }
    InitKeeps(d, n, Order(0, "", 0, true), "", true);
    RunKeeps(d, Init(n), ls, s, Order(0, "", 0, true), "", true);
  }

  lemma InitKeeps(d: Discipline, n: nat, o: Order, symbol: string, isBuy: bool)
    ensures var s := Init(n);
            && PermitsKept(s) && CounterKept(s) && OrderKept(s, o) && VolumeKept(s, symbol, isBuy)
            && InDiscipline(d, s) && |s.consumers| == n
  {
    var cs := Init(n).consumers;
    SumZero(cs, Permit);
    SumZero(cs, Uncounted);
    SumZero(cs, Carried(o));
    SumZero(cs, BookedOnly(symbol, isBuy));
  }

  // ---------- permits and exits are used as meant ----------

  /** A free consumer takes an order and a permit, if there are both. */
  lemma TakesPermit(d: Discipline, s: State, i: nat) returns (ls: seq<Label>, end: State)
    requires i < |s.consumers| && s.consumers[i].Ready? && s.queue != [] && s.permits > 0
    ensures Run(d, s, ls, end)
    ensures end == s.(queue := s.queue[1..], permits := s.permits - 1,
                      consumers := s.consumers[i := Admitted(s.queue[0])])
  {
    hide Run;
    var flag := if d == FlagFirst then [ReadFlag(i)] else [];
    var s1 := if d == FlagFirst then Next(d, s, ReadFlag(i)) else s;
    if d == FlagFirst {
      RunOne(d, s, ReadFlag(i));
    } else {
      RunNone(d, s);
    }
    var s2 := Next(d, s1, Pop(i));
    RunOne(d, s1, Pop(i));
    RunJoins(d, s, flag, s1, [Pop(i)], s2);
    end := Next(d, s2, Acquire(i));
    RunOne(d, s2, Acquire(i));
    RunJoins(d, s, flag + [Pop(i)], s2, [Acquire(i)], end);
    ls := flag + [Pop(i)] + [Acquire(i)];
  }

  lemma RunNone(d: Discipline, s: State)
    ensures Run(d, s, [], s)
  {
  }

  /** Three orders can be in processing at once: with three consumers or more, a run takes all permits. */
  lemma AllPermitsTaken(d: Discipline, n: nat, o: Order) returns (ls: seq<Label>, s: State)
    requires n >= 3
    ensures Run(d, Init(n), ls, s) && s.permits == 0 && |s.consumers| == n
    ensures s.consumers[..3] == [Admitted(o), Admitted(o), Admitted(o)]
  {
    hide Run;
    var init, pushed := Init(n), Init(n).(queue := [o, o, o], pushed := [o, o, o]);
    ls := ThreePushes(d, n, o);
    var more;
    more, s := TakesPermit(d, pushed, 0);
    RunJoins(d, init, ls, pushed, more, s);
    ls := ls + more;
    var next;
    more, next := TakesPermit(d, s, 1);
    RunJoins(d, init, ls, s, more, next);
    ls, s := ls + more, next;
    more, next := TakesPermit(d, s, 2);
    RunJoins(d, init, ls, s, more, next);
    ls, s := ls + more, next;
  }

  lemma ThreePushes(d: Discipline, n: nat, o: Order) returns (ls: seq<Label>)
    ensures Run(d, Init(n), ls, Init(n).(queue := [o, o, o], pushed := [o, o, o]))
  {
    hide Run;
    var s := Init(n);
    var s1, s2 := Next(d, s, Push(o)), Next(d, Next(d, s, Push(o)), Push(o));
    var s3 := Next(d, s2, Push(o));
    RunOne(d, s, Push(o));
    RunOne(d, s1, Push(o));
    RunOne(d, s2, Push(o));
    RunJoins(d, s, [Push(o)], s1, [Push(o)], s2);
    RunJoins(d, s, [Push(o)] + [Push(o)], s2, [Push(o)], s3);
    ls := [Push(o)] + [Push(o)] + [Push(o)];
    assert s3 == s.(queue := [o, o, o], pushed := [o, o, o]);
  }

  /** Nobody has left, and nobody has seen the flag set, before it was. */
  predicate NoneLeavesEarly(s: State) {
    !s.done ==> forall i :: 0 <= i < |s.consumers| ==> !s.consumers[i].Exited? && s.consumers[i] != Flagged(true)
  }

  lemma {:induction false} RunNoneLeavesEarly(d: Discipline, s: State, ls: seq<Label>, end: State)
    requires NoneLeavesEarly(s) && Run(d, s, ls, end)
    ensures NoneLeavesEarly(end)
    decreases |ls|
  {
    if ls != [] {
      RunNoneLeavesEarly(d, Next(d, s, ls[0]), ls[1..], end);
    }
  }

  /** In every run, a consumer leaves only after the flag was set. */
  lemma LeavesAfterFlag(d: Discipline, n: nat, ls: seq<Label>, s: State)
    requires Run(d, Init(n), ls, s)
    ensures (exists i :: 0 <= i < |s.consumers| && s.consumers[i].Exited?) ==> s.done
  {
    RunNoneLeavesEarly(d, Init(n), ls, s);
  }

  // ---------- the order of the orders ----------

  /** The queue holds what was pushed last, oldest first, and never more than 1023 orders. */
  predicate InQueueOrder(s: State) {
    && |s.queue| <= |s.pushed| && |s.queue| <= 1023
    && s.queue == s.pushed[|s.pushed| - |s.queue|..]
  }

  lemma StepQueueOrder(d: Discipline, s: State, l: Label)
    requires Enabled(d, s, l) && InQueueOrder(s)
    ensures InQueueOrder(Next(d, s, l))
  {
    var s' := Next(d, s, l);
    if l.Push? {
      assert s'.pushed[|s'.pushed| - |s'.queue|..] == s.pushed[|s.pushed| - |s.queue|..] + [l.order];
    }
  }

  /** In every run, with any number of consumers, the queue is first in, first out. */
  lemma {:induction false} RunQueueOrder(d: Discipline, s: State, ls: seq<Label>, end: State)
    requires InQueueOrder(s) && Run(d, s, ls, end)
    ensures InQueueOrder(end)
    decreases |ls|
  {
    if ls != [] {
      hide InQueueOrder;
      StepQueueOrder(d, s, ls[0]);
      RunQueueOrder(d, Next(d, s, ls[0]), ls[1..], end);
    }
  }

  lemma EveryRunQueueOrder(d: Discipline, n: nat, ls: seq<Label>, s: State)
    requires Run(d, Init(n), ls, s)
    ensures |s.queue| <= |s.pushed| && |s.queue| <= 1023
    ensures s.queue == s.pushed[|s.pushed| - |s.queue|..]
  {
    InitQueueOrder(n);
    hide Run, Init;
    RunQueueOrder(d, Init(n), ls, s);
  }

  lemma InitQueueOrder(n: nat)
    ensures InQueueOrder(Init(n))
  {
  }

  /** The bound on the queue is reached, with any number of consumers. */
  lemma {:induction false} QueueFills(d: Discipline, n: nat, o: Order, k: nat) returns (ls: seq<Label>, s: State)
    requires k <= 1023
    ensures Run(d, Init(n), ls, s) && |s.queue| == k && !s.done
  {
    if k == 0 {
      ls, s := [], Init(n);
    } else {
      var mid;
      ls, mid := QueueFills(d, n, o, k - 1);
      RunOne(d, mid, Push(o));
      s := Next(d, mid, Push(o));
      RunJoins(d, Init(n), ls, mid, [Push(o)], s);
      ls := ls + [Push(o)];
    }
  }

  /** The order a consumer has taken and not yet recorded. */
  function InHand(c: Consumer): seq<Order> {
    if c.Holding? || c.Admitted? || c.Booked? then [c.order] else []
  }

  predicate TakenInOrder(s: State) {
    && |s.consumers| == 1 && InQueueOrder(s)
    && s.completed + InHand(s.consumers[0]) == s.pushed[..|s.pushed| - |s.queue|]
  }

  lemma StepTakenInOrder(d: Discipline, s: State, l: Label)
    requires Enabled(d, s, l) && TakenInOrder(s)
    ensures TakenInOrder(Next(d, s, l))
  {
    StepQueueOrder(d, s, l);
    var s', popped := Next(d, s, l), |s.pushed| - |s.queue|;
    if l.Push? {
      assert s'.pushed[..popped] == s.pushed[..popped];
    } else if l.Pop? && s.queue != [] {
      assert s.queue[0] == s.pushed[popped];
      assert s.pushed[..popped + 1] == s.pushed[..popped] + [s.pushed[popped]];
    } else {
      StepKeepsTaken(d, s, l);
    }
  }

  /** Steps that leave the queue alone pass the order in hand on, to the record in the end. */
  lemma StepKeepsTaken(d: Discipline, s: State, l: Label)
    requires Enabled(d, s, l) && |s.consumers| == 1 && !l.Push? && (l.Pop? ==> s.queue == [])
    ensures var s' := Next(d, s, l);
            && |s'.consumers| == 1 && s'.pushed == s.pushed && s'.queue == s.queue
            && s'.completed + InHand(s'.consumers[0]) == s.completed + InHand(s.consumers[0])
  {
  }

  lemma {:induction false} RunTakenInOrder(d: Discipline, s: State, ls: seq<Label>, end: State)
    requires TakenInOrder(s) && Run(d, s, ls, end)
    ensures TakenInOrder(end)
    decreases |ls|
  {
    if ls != [] {
      hide TakenInOrder;
      StepTakenInOrder(d, s, ls[0]);
      RunTakenInOrder(d, Next(d, s, ls[0]), ls[1..], end);
    }
  }

  /** With one consumer the orders are completed in the order in which they were pushed: those completed, then the one
      in hand, are the first of those pushed. */
  lemma OneConsumerInOrder(d: Discipline, ls: seq<Label>, s: State)
    requires Run(d, Init(1), ls, s)
    ensures |s.consumers| == 1 && |s.queue| <= |s.pushed| && s.completed <= s.pushed
    ensures s.completed + InHand(s.consumers[0]) == s.pushed[..|s.pushed| - |s.queue|]
  {
    hide Run, Init, TakenInOrder;
    InitTakenInOrder();
    RunTakenInOrder(d, Init(1), ls, s);
    TakenIsPrefix(s);
  }

  lemma InitTakenInOrder()
    ensures TakenInOrder(Init(1))
  {
  }

  lemma TakenIsPrefix(s: State)
    requires TakenInOrder(s)
    ensures |s.consumers| == 1 && |s.queue| <= |s.pushed| && s.completed <= s.pushed
    ensures s.completed + InHand(s.consumers[0]) == s.pushed[..|s.pushed| - |s.queue|]
  {
    assert s.completed <= s.completed + InHand(s.consumers[0]);
  }

  predicate AllExited(s: State) {
    forall i :: 0 <= i < |s.consumers| ==> s.consumers[i].Exited?
  }

  /** At exit nothing is in flight: the orders missing from the record are exactly those left in the queue, the
      counter is the number of completed orders, the book is the completed volume and all permits are back. */
  lemma AtExit(d: Discipline, n: nat, ls: seq<Label>, s: State)
    requires Run(d, Init(n), ls, s) && AllExited(s)
    ensures multiset(s.pushed) == multiset(s.queue) + multiset(s.completed)
    ensures s.processed == |s.completed| && s.permits == 3
    ensures forall symbol, isBuy :: SideVolume(VolumeOf(s.book, symbol), isBuy) == VolumeIn(s.completed, symbol, isBuy)
  {
    EveryRunKeeps(d, n, ls, s);
    SumZero(s.consumers, Permit);
    SumZero(s.consumers, Uncounted);
    forall o ensures multiset(s.pushed)[o] == multiset(s.queue)[o] + multiset(s.completed)[o] {
      assert OrderKept(s, o);
      SumZero(s.consumers, Carried(o));
    }
    forall symbol, isBuy
      ensures SideVolume(VolumeOf(s.book, symbol), isBuy) == VolumeIn(s.completed, symbol, isBuy)
    {
      assert VolumeKept(s, symbol, isBuy);
      SumZero(s.consumers, BookedOnly(symbol, isBuy));
    }
  }

  // ---------- draining ----------

  /** With the flag read first, a consumer leaves only after the last push and with the queue empty. */
  predicate LeavesDrained(s: State) {
    forall i :: 0 <= i < |s.consumers| ==>
      && (s.consumers[i] == Flagged(true) ==> s.done)
      && (s.consumers[i].Exited? ==> s.done && s.queue == [])
  }

  lemma {:induction false} RunLeavesDrained(s: State, ls: seq<Label>, end: State)
    requires LeavesDrained(s) && Run(FlagFirst, s, ls, end)
    ensures LeavesDrained(end)
    decreases |ls|
  {
    if ls != [] {
      RunLeavesDrained(Next(FlagFirst, s, ls[0]), ls[1..], end);
    }
  }

  /** If the flag is read before the pop, then once all consumers have exited every pushed order is completed. */
  lemma FlagFirstDrains(n: nat, ls: seq<Label>, s: State)
    requires n > 0 && Run(FlagFirst, Init(n), ls, s) && AllExited(s)
    ensures s.queue == [] && multiset(s.completed) == multiset(s.pushed) && s.processed == |s.pushed|
  {
    AtExit(FlagFirst, n, ls, s);
    RunLeavesDrained(Init(n), ls, s);
    EveryRunKeeps(FlagFirst, n, ls, s);
    assert s.consumers[0].Exited?;
    assert |multiset(s.completed)| == |multiset(s.pushed)|;
  }

  function Popped(s: State): int {
    |s.pushed| - |s.queue|
  }

  predicate Stopped(c: Consumer) {
    c.Missed? || c.Exited?
  }

  /** Popping first: nobody saw an empty queue later than now, and when everybody has stopped, the last to see it empty
      saw all that was ever popped. */
  predicate MissesKept(cs: seq<Consumer>, popped: int) {
    && (forall i :: 0 <= i < |cs| && Stopped(cs[i]) ==> cs[i].n <= popped)
    && ((exists i :: 0 <= i < |cs| && !Stopped(cs[i]))
        || (exists i :: 0 <= i < |cs| && Stopped(cs[i]) && cs[i].n == popped))
  }

  /** A consumer moves on: to work, to a miss that saw everything popped, or from a miss to the exit. */
  lemma MissesUpdate(cs: seq<Consumer>, popped: int, i: nat, c: Consumer, popped': int)
    requires MissesKept(cs, popped) && i < |cs| && popped <= popped'
    requires Stopped(c) ==>
      popped' == popped && (c.n == popped || (Stopped(cs[i]) && c.n == cs[i].n))
    ensures MissesKept(cs[i := c], popped')
  {
    var cs' := cs[i := c];
    assert cs'[i] == c;
    if Stopped(c) && c.n != popped {
      if k :| 0 <= k < |cs| && !Stopped(cs[k]) {
        assert !Stopped(cs'[k]);
      } else {
        var k :| 0 <= k < |cs| && Stopped(cs[k]) && cs[k].n == popped;
        assert cs'[k] == cs[k];
      }
    }
  }

  lemma StepMisses(s: State, l: Label)
    requires MissesKept(s.consumers, Popped(s)) && Enabled(PopFirst, s, l)
    ensures MissesKept(Next(PopFirst, s, l).consumers, Popped(Next(PopFirst, s, l)))
  {
    hide MissesKept;
    var s' := Next(PopFirst, s, l);
    if !l.Push? && !l.Finish? {
      MissesUpdate(s.consumers, Popped(s), l.i, s'.consumers[l.i], Popped(s'));
    }
  }

  lemma {:induction false} RunMisses(s: State, ls: seq<Label>, end: State)
    requires MissesKept(s.consumers, Popped(s)) && Run(PopFirst, s, ls, end)
    ensures MissesKept(end.consumers, Popped(end))
    decreases |ls|
  {
    if ls != [] {
      StepMisses(s, ls[0]);
      RunMisses(Next(PopFirst, s, ls[0]), ls[1..], end);
    }
  }

  /** As written the pop comes first, and the pipeline drains exactly when some consumer's last failed pop came after
      the last push. */
  lemma PopFirstDrainsExactly(n: nat, ls: seq<Label>, s: State)
    requires n > 0 && Run(PopFirst, Init(n), ls, s) && AllExited(s)
    ensures multiset(s.completed) == multiset(s.pushed)
        <==> exists i :: 0 <= i < |s.consumers| && s.consumers[i] == Exited(|s.pushed|)
  {
    AtExit(PopFirst, n, ls, s);
    EveryRunKeeps(PopFirst, n, ls, s);
    assert !Stopped(Init(n).consumers[0]);
    RunMisses(Init(n), ls, s);
    assert |multiset(s.pushed)| == |s.pushed| && |multiset(s.queue)| == |s.queue|;
    assert s.queue == [] <==> multiset(s.completed) == multiset(s.pushed);
    if s.queue == [] {
      var i :| 0 <= i < n && Stopped(s.consumers[i]) && s.consumers[i].n == Popped(s);
      assert s.consumers[i] == Exited(|s.pushed|);
    }
  }

  /** The first `k` consumers are at `c`, the others still where they started. */
  function FirstAt(n: nat, k: nat, c: Consumer): seq<Consumer> {
    seq(n, i => if i < k then c else Ready)
  }

  /** The first `k` consumers find the queue empty before anything is pushed. */
  lemma {:induction false} AllMiss(n: nat, k: nat) returns (ls: seq<Label>)
    requires k <= n
    ensures Run(PopFirst, Init(n), ls, Init(n).(consumers := FirstAt(n, k, Missed(0))))
  {
    if k == 0 {
      ls := [];
      assert Init(n).consumers == FirstAt(n, 0, Missed(0));
    } else {
      ls := AllMiss(n, k - 1);
      var s := Init(n).(consumers := FirstAt(n, k - 1, Missed(0)));
      var end := Next(PopFirst, s, Pop(k - 1));
      assert end.consumers == FirstAt(n, k, Missed(0));
      RunOne(PopFirst, s, Pop(k - 1));
      RunJoins(PopFirst, Init(n), ls, s, [Pop(k - 1)], end);
      ls := ls + [Pop(k - 1)];
    }
  }

  /** Once the flag is set, consumers that missed leave one by one, whatever is in the queue. */
  lemma {:induction false} AllLeave(s: State, k: nat) returns (ls: seq<Label>, end: State)
    requires s.done && k <= |s.consumers| && forall i :: k <= i < |s.consumers| ==> s.consumers[i].Missed?
    requires forall i :: 0 <= i < k ==> s.consumers[i].Exited?
    ensures Run(PopFirst, s, ls, end) && AllExited(end) && end == s.(consumers := end.consumers)
    decreases |s.consumers| - k
  {
    if k == |s.consumers| {
      ls, end := [], s;
    } else {
      var next := Next(PopFirst, s, ReadFlag(k));
      var rest;
      rest, end := AllLeave(next, k + 1);
      RunOne(PopFirst, s, ReadFlag(k));
      RunJoins(PopFirst, s, [ReadFlag(k)], next, rest, end);
      ls := [ReadFlag(k)] + rest;
    }
  }

  /** As written the drain can fail with any number of consumers: all of them find the queue empty, the last push and
      the flag follow, and then all of them read the flag. */
  lemma PopFirstLosesLastPush(n: nat, o: Order) returns (ls: seq<Label>, s: State)
    ensures Run(PopFirst, Init(n), ls, s) && AllExited(s) && s.done
    ensures s.pushed == [o] && s.completed == [] && s.queue == [o]
  {
    hide Run;
    var missed := Init(n).(consumers := FirstAt(n, n, Missed(0)));
    ls := AllMiss(n, n);
    var pushed := Next(PopFirst, missed, Push(o));
    RunOne(PopFirst, missed, Push(o));
    RunJoins(PopFirst, Init(n), ls, missed, [Push(o)], pushed);
    var finished := Next(PopFirst, pushed, Finish);
    RunOne(PopFirst, pushed, Finish);
    RunJoins(PopFirst, Init(n), ls + [Push(o)], pushed, [Finish], finished);
    var leave;
    leave, s := AllLeave(finished, 0);
    RunJoins(PopFirst, Init(n), ls + [Push(o)] + [Finish], finished, leave, s);
    ls := ls + [Push(o)] + [Finish] + leave;
  }

  /** Whenever all consumers have exited, every pushed order is completed. */
  ghost predicate AlwaysDrains(d: Discipline, n: nat) {
    forall ls, s :: Run(d, Init(n), ls, s) && AllExited(s) ==> multiset(s.completed) == multiset(s.pushed)
  }

  /** Which pipelines always drain: those that read the flag before the pop, and no other, with any number of
      consumers. */
  lemma DrainsExactly(d: Discipline, n: nat)
    ensures AlwaysDrains(d, n) <==> d == FlagFirst && n > 0
  {
    if d == FlagFirst && n > 0 {
      forall ls, s | Run(d, Init(n), ls, s) && AllExited(s) ensures multiset(s.completed) == multiset(s.pushed) {
        FlagFirstDrains(n, ls, s);
      }
    } else {
      var o := Order(0, "", 0, true);
      var ls, s := NotDrained(d, n, o);
      assert |multiset(s.completed)| == 0 && |multiset(s.pushed)| == 1;
    }
  }

  lemma NotDrained(d: Discipline, n: nat, o: Order) returns (ls: seq<Label>, s: State)
    requires d == PopFirst || n == 0
    ensures Run(d, Init(n), ls, s) && AllExited(s) && s.pushed == [o] && s.completed == []
  {
    if d == PopFirst {
      ls, s := PopFirstLosesLastPush(n, o);
    } else {
      ls, s := [Push(o)], Next(d, Init(n), Push(o));
      RunOne(d, Init(n), Push(o));
    }
  }

  /** No deadlock: until every consumer has exited, some consumer can take a step. */
  lemma SomeConsumerCanStep(d: Discipline, n: nat, ls: seq<Label>, s: State) returns (l: Label)
    requires Run(d, Init(n), ls, s) && !AllExited(s)
    ensures Enabled(d, s, l) && !l.Push? && !l.Finish?
  {
    EveryRunKeeps(d, n, ls, s);
    if i :| 0 <= i < n && Weigh(Permit, s.consumers[i]) != 0 {
      var c := s.consumers[i];
      l := if c.Admitted? then Book(i) else if c.Booked? then Record(i)
           else if c.Recorded? then Count(i) else Release(i);
    } else {
      SumZero(s.consumers, Permit);
      var i :| 0 <= i < n && !s.consumers[i].Exited?;
      var c := s.consumers[i];
      l := if c.Holding? then Acquire(i)
           else if d == PopFirst then if c.Ready? then Pop(i) else ReadFlag(i)
           else if c.Ready? then ReadFlag(i) else Pop(i);
    }
  }

  // ---------- shutdown completes ----------

  /** A bound on the steps left once the flag is set: each queued order costs at most seven. */
  function StepsLeft(s: State): int {
    7 * |s.queue| + Sum(s.consumers, ToExit)
  }

  lemma {:induction false} StepsBounded(cs: seq<Consumer>)
    ensures 0 <= Sum(cs, ToExit) <= 7 * |cs|
  {
    if cs != [] {
      StepsBounded(cs[1..]);
    }
  }

  lemma {:induction false} RunShrinks(d: Discipline, s: State, ls: seq<Label>, end: State)
    requires s.done && InDiscipline(d, s) && Run(d, s, ls, end)
    ensures |ls| <= StepsLeft(s) - StepsLeft(end)
    decreases |ls|
  {
    if ls != [] {
      StepSum(d, s, ls[0], ToExit);
      StepDiscipline(d, s, ls[0]);
      RunShrinks(d, Next(d, s, ls[0]), ls[1..], end);
    }
  }

  /** Once the flag is set, under either discipline, no run goes on for more than seven steps for each queued order and
      each consumer, and a run that cannot go on has brought every consumer to its exit. */
  lemma ShutdownCompletes(d: Discipline, n: nat, ls: seq<Label>, s: State, more: seq<Label>, end: State)
    requires Run(d, Init(n), ls, s) && s.done && Run(d, s, more, end)
    ensures |more| <= 7 * |s.queue| + 7 * n
    ensures AllExited(end) <==> forall l :: !Enabled(d, end, l)
  {
    EveryRunKeeps(d, n, ls, s);
    RunShrinks(d, s, more, end);
    StepsBounded(s.consumers);
    StepsBounded(end.consumers);
    RunJoins(d, Init(n), ls, s, more, end);
    DoneStays(d, s, more, end);
    if !AllExited(end) {
      var l := SomeConsumerCanStep(d, n, ls + more, end);
    }
  }

  lemma {:induction false} DoneStays(d: Discipline, s: State, ls: seq<Label>, end: State)
    requires s.done && Run(d, s, ls, end)
    ensures end.done
    decreases |ls|
  {
    if ls != [] {
      DoneStays(d, Next(d, s, ls[0]), ls[1..], end);
    }
  }
}
