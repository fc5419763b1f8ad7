/** The ring queue shared by one producer and one consumer, one step per atomic access or buffer access.

    Each index is the list of the values stored to it (its modification order). A load may return any store not older
    than the last one the same thread has seen, so both sides work with stale but monotone views. Which buffer accesses
    of the other side are ordered before one's own is tracked separately: a load that acquires orders everything that
    preceded the store it read (section 31.4 of ISO/IEC 14882:2020). */
module RingProtocol {
  import opened Modular
  import opened RingProgram

  /** How the two sides order their index accesses. `AcquireRelease` is the production queue; the other three are the
      experimental variants. A fence placed before a load orders only what earlier loads have seen. */
  datatype Ordering = AcquireRelease | SeqCst | Relaxed | FenceBeforeLoad

  /** A value stored to an index, and how many buffer accesses of the storing thread precede the store. */
  datatype Store = Store(value: nat, after: nat)

  /** A buffer access, at a slot, with the value written or read. */
  datatype Access<T> = Access(slot: nat, value: T)

  datatype State<T> = State(
    capacity: nat,
    tails: seq<Store>, heads: seq<Store>,           // modification orders of the two indices
    puts: seq<Access<T>>, gets: seq<Access<T>>,       // buffer accesses of the producer and of the consumer
    p: Producer<T>, headSeen: nat, getsSeen: nat,  // newest head store seen; reads ordered before the producer
    c: Consumer<T>, tailSeen: nat, putsSeen: nat, // newest tail store seen; writes ordered before the consumer
    pushed: seq<T>, popped: seq<T>)                 // items of the calls that returned true

  datatype Label<T> =
    | BeginPush(item: T)
    | LoadHead(h: nat)
    | WriteSlot
    | PublishTail
    | BeginPop
    | LoadTail(t: nat)
    | ReadSlot(v: T)
    | PublishHead

  function Init<T>(capacity: nat): State<T> {
    State(capacity, [Store(0, 0)], [Store(0, 0)], [], [], PIdle, 0, 0, CIdle, 0, 0, [], [])
  }

  function Max(a: nat, b: nat): nat {
    if a >= b then a else b
  }

  /** What a load of store `i` orders before the loading thread, given the newest store `seen` before it. */
  function Ordered(o: Ordering, stores: seq<Store>, seen: nat, i: nat, known: nat): nat
    requires seen < |stores| && i < |stores|
  {
    match o
    case AcquireRelease => Max(known, stores[i].after)
    case SeqCst => Max(known, stores[i].after)
    case Relaxed => known
    case FenceBeforeLoad => Max(known, stores[seen].after)
  }

  predicate MayLoad(o: Ordering, stores: seq<Store>, seen: nat, i: nat) {
    seen <= i < |stores| && (o == SeqCst ==> i == |stores| - 1)
  }

  /** A value a read of `slot` may return: that of a write not known to be overwritten, or any value while no write to
      the slot is known. */
  ghost predicate MayRead<T>(s: State<T>, slot: nat, v: T) {
    || (exists k :: 0 <= k < |s.puts| && s.puts[k] == Access(slot, v)
          && forall m :: k < m < s.putsSeen && m < |s.puts| ==> s.puts[m].slot != slot)
    || (forall m :: 0 <= m < s.putsSeen && m < |s.puts| ==> s.puts[m].slot != slot)
  }

  ghost predicate Enabled<T>(o: Ordering, s: State<T>, l: Label<T>) {
    match l
    case BeginPush(item) => s.p.PIdle? && s.tails != [] && s.capacity > 0
    case LoadHead(h) => s.p.PLoaded? && MayLoad(o, s.heads, s.headSeen, h)
    case WriteSlot => s.p.PClear?
    case PublishTail => s.p.PWritten?
    case BeginPop => s.c.CIdle? && s.heads != []
    case LoadTail(t) => s.c.CLoaded? && MayLoad(o, s.tails, s.tailSeen, t)
    case ReadSlot(v) => s.c.CClear? && MayRead(s, s.c.cur, v)
    case PublishHead => s.c.CRead? && s.capacity > 0
  }

  ghost function Next<T>(o: Ordering, s: State<T>, l: Label<T>): State<T>
    requires Enabled(o, s, l)
  {
    match l
    case BeginPush(item) =>
      s.(p := LoadedTail(item, s.tails[|s.tails| - 1].value, s.capacity))
    case LoadHead(h) =>
      s.(p := ComparedHead(s.p, s.heads[h].value),
         headSeen := h, getsSeen := Ordered(o, s.heads, s.headSeen, h, s.getsSeen))
    case WriteSlot =>
      s.(puts := s.puts + [Access(s.p.cur, s.p.item)], p := PWritten(s.p.item, s.p.next))
    case PublishTail =>
      s.(tails := s.tails + [Store(s.p.next, |s.puts|)], pushed := s.pushed + [s.p.item], p := PIdle)
    case BeginPop =>
      s.(c := CLoaded(s.heads[|s.heads| - 1].value))
    case LoadTail(t) =>
      s.(c := ComparedTail(s.c, s.tails[t].value),
         tailSeen := t, putsSeen := Ordered(o, s.tails, s.tailSeen, t, s.putsSeen))
    case ReadSlot(v) =>
      s.(gets := s.gets + [Access(s.c.cur, v)], c := CRead(s.c.cur, v))
    case PublishHead =>
      s.(heads := s.heads + [Store(NextHead(s.c, s.capacity), |s.gets|)], popped := s.popped + [s.c.got], c := CIdle)
  }

  /** `end` is reached from `s` by the steps `ls`. */
  ghost predicate Run<T>(o: Ordering, s: State<T>, ls: seq<Label<T>>, end: State<T>)
    decreases |ls|
  {
    if ls == [] then end == s
    else Enabled(o, s, ls[0]) && Run(o, Next(o, s, ls[0]), ls[1..], end)
  }

  /** The next write (read) conflicts with an access of the other side that is not ordered before it. */
  predicate WriteRaces<T>(s: State<T>) {
    s.p.PClear? && exists r :: s.getsSeen <= r < |s.gets| && s.gets[r].slot == s.p.cur
  }

  predicate ReadRaces<T>(s: State<T>) {
    s.c.CClear? && exists k :: s.putsSeen <= k < |s.puts| && s.puts[k].slot == s.c.cur
  }

  // ---------- indices, under every ordering ----------

  predicate Counts(stores: seq<Store>, capacity: nat)
    requires capacity > 0
  {
    stores != [] && forall k :: 0 <= k < |stores| ==> stores[k] == Store(k % capacity, k)
  }

  predicate InTurn<T>(accesses: seq<Access<T>>, capacity: nat)
    requires capacity > 0
  {
    forall k :: 0 <= k < |accesses| ==> accesses[k].slot == k % capacity
  }

  /** Indices count modulo the capacity, accesses go round the ring in turn, and each side's view keeps the number of
      items between the two within `capacity - 1`. */
  predicate Indices<T>(s: State<T>) {
    && s.capacity > 0
    && Counts(s.tails, s.capacity) && Counts(s.heads, s.capacity)
    && InTurn(s.puts, s.capacity) && InTurn(s.gets, s.capacity)
    && var p, c := |s.tails| - 1, |s.heads| - 1;
    && |s.puts| == p + (if s.p.PWritten? then 1 else 0)
    && |s.gets| == c + (if s.c.CRead? then 1 else 0)
    && s.getsSeen <= s.headSeen <= c <= s.tailSeen <= p && s.putsSeen <= s.tailSeen
    && p - s.headSeen <= s.capacity - 1
    && (s.p.PLoaded? || s.p.PClear? ==> s.p.cur == p % s.capacity)
    && (!s.p.PIdle? ==> s.p.next == (p + 1) % s.capacity)
    && (s.p.PClear? || s.p.PWritten? ==> p - s.headSeen <= s.capacity - 2)
    && (!s.c.CIdle? ==> s.c.cur == c % s.capacity)
    && (s.c.CClear? || s.c.CRead? ==> c < s.tailSeen)
  }

  /** What the producer concludes from head store `h`: the ring is full exactly when it was full at that store. */
  lemma LoadHeadDecides<T>(o: Ordering, s: State<T>, h: nat)
    requires Indices(s) && Enabled(o, s, LoadHead(h))
    ensures s.p.next == s.heads[h].value <==> |s.tails| - 1 - h == s.capacity - 1
  {
    var p := |s.tails| - 1;
    if p + 1 - h == s.capacity {
      FullTurn(h, s.capacity);
    } else if s.p.next == s.heads[h].value {
      SameRemainder(h, p + 1, s.capacity);
    }
  }

  /** What the consumer concludes from tail store `t`: the ring is empty exactly when it was empty at that store. */
  lemma LoadTailDecides<T>(o: Ordering, s: State<T>, t: nat)
    requires Indices(s) && Enabled(o, s, LoadTail(t))
    ensures s.c.cur == s.tails[t].value <==> t == |s.heads| - 1
  {
    if s.c.cur == s.tails[t].value {
      SameRemainder(|s.heads| - 1, t, s.capacity);
    }
  }

  lemma InitIndices<T>(capacity: nat)
    requires capacity > 0
    ensures Indices(Init<T>(capacity))
  {
    ModOf(0, 0, 0, capacity);
  }

  predicate OfProducer<T>(l: Label<T>) {
    l.BeginPush? || l.LoadHead? || l.WriteSlot? || l.PublishTail?
  }

  lemma LoadHeadIndices<T>(o: Ordering, s: State<T>, h: nat)
    requires Indices(s) && Enabled(o, s, LoadHead(h))
    ensures Indices(Next(o, s, LoadHead(h)))
  {
    LoadHeadDecides(o, s, h);
    assert s.heads[h].after == h && s.heads[s.headSeen].after == s.headSeen;
    hide Counts, InTurn;
  }

  lemma StorageIndices<T>(o: Ordering, s: State<T>, l: Label<T>)
    requires Indices(s) && Enabled(o, s, l) && (l.WriteSlot? || l.PublishTail?)
    ensures Indices(Next(o, s, l))
  {
  }

  lemma ProducerIndices<T>(o: Ordering, s: State<T>, l: Label<T>)
    requires Indices(s) && Enabled(o, s, l) && OfProducer(l)
    ensures Indices(Next(o, s, l))
  {
    match l
    case LoadHead(h) => LoadHeadIndices(o, s, h);
    case BeginPush(item) =>
      StepMod(|s.tails| - 1, s.capacity);
      hide InTurn;
    case _ =>
      hide Indices;
      StorageIndices(o, s, l);
  }

  lemma ConsumerIndices<T>(o: Ordering, s: State<T>, l: Label<T>)
    requires Indices(s) && Enabled(o, s, l) && !OfProducer(l)
    ensures Indices(Next(o, s, l))
  {
    match l
    case LoadTail(t) => LoadTailDecides(o, s, t);
    case PublishHead => StepMod(|s.heads| - 1, s.capacity);
    case _ =>
  }

  lemma StepIndices<T>(o: Ordering, s: State<T>, l: Label<T>)
    requires Indices(s) && Enabled(o, s, l)
    ensures Indices(Next(o, s, l))
  {
    hide Indices;
    if OfProducer(l) {
      ProducerIndices(o, s, l);
    } else {
      ConsumerIndices(o, s, l);
    }
  }

  /** Under every ordering, in every run, the indices behave; what an ordering decides is whether accesses race. */
  lemma {:induction false} RunIndices<T>(o: Ordering, s: State<T>, ls: seq<Label<T>>, end: State<T>)
    requires Indices(s) && Run(o, s, ls, end)
    ensures Indices(end)
    decreases |ls|
  {
    if ls != [] {
      StepIndices(o, s, ls[0]);
      RunIndices(o, Next(o, s, ls[0]), ls[1..], end);
    }
  }

  /** A read races exactly when the consumer's view does not cover the item's write; a write races exactly when the
      producer's view does not cover the read that freed the slot. */
  lemma RacesExactly<T>(s: State<T>)
    requires Indices(s)
    ensures ReadRaces(s) <==> s.c.CClear? && s.putsSeen <= |s.heads| - 1
    ensures WriteRaces(s) <==> s.p.PClear? && s.getsSeen + s.capacity <= |s.tails| - 1
  {
    var p, c, n := |s.tails| - 1, |s.heads| - 1, s.capacity;
    if s.c.CClear? {
      assert s.puts[c].slot == s.c.cur;
      if ReadRaces(s) {
        var k :| s.putsSeen <= k < |s.puts| && s.puts[k].slot == s.c.cur;
        if k > c {
          SameRemainder(c, k, n);
        }
      }
    }
    if s.p.PClear? {
      if s.getsSeen + n <= p {
        FullTurn(p - n, n);
        assert s.gets[p - n].slot == s.p.cur;
      }
      if WriteRaces(s) {
        var r :| s.getsSeen <= r < |s.gets| && s.gets[r].slot == s.p.cur;
        if r + n > p {
          SameRemainder(r, p, n);
        }
      }
    }
  }

  // ---------- items, under acquire and release ----------

  predicate Synchronizes(o: Ordering) {
    o == AcquireRelease || o == SeqCst
  }

  /** Each side's view covers what it has seen, and what was read is what was pushed. */
  ghost predicate Items<T>(s: State<T>) {
    && Indices(s)
    && s.getsSeen == s.headSeen && s.putsSeen == s.tailSeen
    && |s.pushed| == |s.tails| - 1 && |s.popped| == |s.heads| - 1
    && (forall k :: 0 <= k < |s.pushed| ==> s.puts[k].value == s.pushed[k])
    && (s.p.PWritten? ==> s.puts[|s.pushed|].value == s.p.item)
    && (forall k :: 0 <= k < |s.gets| ==> s.gets[k].value == s.pushed[k])
    && (forall k :: 0 <= k < |s.popped| ==> s.popped[k] == s.pushed[k])
    && (s.c.CRead? ==> s.c.got == s.pushed[|s.popped|])
  }

  /** A read that does not race returns the next item and nothing else. */
  lemma ReadsNextItem<T>(s: State<T>, v: T)
    requires Items(s) && s.c.CClear?
    ensures MayRead(s, s.c.cur, v) <==> v == s.pushed[|s.popped|]
  {
    var c := |s.popped|;
    assert s.puts[c] == Access(s.c.cur, s.pushed[c]);
    assert c < s.putsSeen && c < |s.puts|;
    forall k | c < k < |s.puts| ensures s.puts[k].slot != s.c.cur {
      if s.puts[k].slot == s.c.cur {
        SameRemainder(c, k, s.capacity);
      }
    }
  }

  /** The counting part of `Indices`, without the slots. */
  lemma IndicesCount<T>(s: State<T>)
    requires Indices(s)
    ensures s.capacity > 0 && |s.tails| > 0 && |s.heads| > 0
    ensures |s.puts| == |s.tails| - 1 + (if s.p.PWritten? then 1 else 0)
    ensures |s.gets| == |s.heads| - 1 + (if s.c.CRead? then 1 else 0)
    ensures s.headSeen < |s.heads| <= s.tailSeen + 1 <= |s.tails|
    ensures s.c.CClear? || s.c.CRead? ==> |s.heads| <= s.tailSeen
    ensures forall k :: 0 <= k < |s.tails| ==> s.tails[k].after == k
    ensures forall k :: 0 <= k < |s.heads| ==> s.heads[k].after == k
  {
  }

  lemma ProducerItems<T>(o: Ordering, s: State<T>, l: Label<T>)
    requires Synchronizes(o) && Items(s) && Enabled(o, s, l) && OfProducer(l)
    ensures Items(Next(o, s, l))
  {
    ProducerIndices(o, s, l);
    IndicesCount(s);
    hide Indices;
    match l
    case LoadHead(h) =>
    case PublishTail =>
      assert Next(o, s, l).pushed == s.pushed + [s.p.item];
    case _ =>
  }

  lemma ConsumerItems<T>(o: Ordering, s: State<T>, l: Label<T>)
    requires Synchronizes(o) && Items(s) && Enabled(o, s, l) && !OfProducer(l)
    ensures Items(Next(o, s, l))
  {
    ConsumerIndices(o, s, l);
    IndicesCount(s);
    if l.ReadSlot? {
      ReadsNextItem(s, l.v);
    }
    hide Indices, MayRead;
  }

  lemma StepItems<T>(o: Ordering, s: State<T>, l: Label<T>)
    requires Synchronizes(o) && Items(s) && Enabled(o, s, l)
    ensures Items(Next(o, s, l))
  {
    hide Items;
    if OfProducer(l) {
      ProducerItems(o, s, l);
    } else {
      ConsumerItems(o, s, l);
    }
  }

  lemma {:induction false} RunItems<T>(o: Ordering, s: State<T>, ls: seq<Label<T>>, end: State<T>)
    requires Synchronizes(o) && Items(s) && Run(o, s, ls, end)
    ensures Items(end)
    decreases |ls|
  {
    if ls != [] {
      StepItems(o, s, ls[0]);
      RunItems(o, Next(o, s, ls[0]), ls[1..], end);
    }
  }

  /** Item `k` is in the ring: it stands in slot `k % capacity`, which no later write has touched. */
  ghost predicate InRing<T>(s: State<T>, k: nat)
    requires s.capacity > 0 && k < |s.pushed|
  {
    && k < |s.puts| && s.puts[k] == Access(k % s.capacity, s.pushed[k])
    && forall m :: k < m < |s.puts| ==> s.puts[m].slot != k % s.capacity
  }

  /** The slot the producer is about to write holds no item that is still to be read. */
  predicate WritesFreeSlot<T>(s: State<T>) {
    s.p.PClear? ==> forall k :: |s.gets| <= k < |s.puts| ==> s.puts[k].slot != s.p.cur
  }

  lemma UndeliveredInRing<T>(s: State<T>, k: nat)
    requires Items(s) && |s.popped| <= k < |s.pushed|
    ensures InRing(s, k)
  {
    forall m | k < m < |s.puts| ensures s.puts[m].slot != k % s.capacity {
      if s.puts[m].slot == k % s.capacity {
        SameRemainder(k, m, s.capacity);
      }
    }
  }

  lemma ItemsWriteFreeSlot<T>(s: State<T>)
    requires Items(s)
    ensures WritesFreeSlot(s)
  {
    if s.p.PClear? {
      forall k | |s.gets| <= k < |s.puts| ensures s.puts[k].slot != s.p.cur {
        if s.puts[k].slot == s.p.cur {
          SameRemainder(k, |s.puts|, s.capacity);
        }
      }
    }
  }

  /** In every run of one producer and one consumer the queue is a FIFO of at most `capacity - 1` items: what was
      delivered is the beginning of what was accepted, and the rest is in the ring, item by item. No buffer access
      races, and no slot is overwritten before its item is read. */
  lemma SingleProducerSingleConsumer<T>(o: Ordering, capacity: nat, ls: seq<Label<T>>, s: State<T>)
    requires Synchronizes(o) && capacity > 0 && Run(o, Init(capacity), ls, s)
    ensures s.capacity == capacity && |s.popped| <= |s.pushed| <= |s.popped| + capacity - 1
    ensures s.popped <= s.pushed && forall k :: |s.popped| <= k < |s.pushed| ==> InRing(s, k)
    ensures forall k :: |s.popped| <= k < |s.pushed| ==> k < |s.puts| && s.puts[k] == Access(k % capacity, s.pushed[k])
    ensures !ReadRaces(s) && !WriteRaces(s)
    ensures s.p.PClear? ==> forall k :: |s.gets| <= k < |s.puts| ==> s.puts[k].slot != s.p.cur
    ensures s.c.CRead? ==> |s.popped| < |s.pushed| && s.c.got == s.pushed[|s.popped|]
  {
    InitIndices<T>(capacity);
    RunItems(o, Init(capacity), ls, s);
    RunCapacity(o, Init(capacity), ls, s);
    RacesExactly(s);
    ItemsWriteFreeSlot(s);
    forall k | |s.popped| <= k < |s.pushed| ensures InRing(s, k) {
      UndeliveredInRing(s, k);
    }
  }

  lemma {:induction false} RunCapacity<T>(o: Ordering, s: State<T>, ls: seq<Label<T>>, end: State<T>)
    requires Run(o, s, ls, end)
    ensures end.capacity == s.capacity
    decreases |ls|
  {
    if ls != [] {
      RunCapacity(o, Next(o, s, ls[0]), ls[1..], end);
    }
  }

  /** Staleness costs only spurious refusals: a push is refused exactly when the queue was full at the head store it
      saw, so a refusal with the newest head is true, and a truly full queue is always refused; likewise for an empty
      pop. */
  lemma OnlySpuriousRefusals<T>(o: Ordering, capacity: nat, ls: seq<Label<T>>, s: State<T>)
    requires Synchronizes(o) && capacity > 0 && Run(o, Init(capacity), ls, s)
    ensures forall h :: Enabled(o, s, LoadHead(h)) ==>
              && (Next(o, s, LoadHead(h)).p.PIdle? <==> |s.pushed| - h == capacity - 1)
              && (|s.pushed| - |s.popped| == capacity - 1 ==> Next(o, s, LoadHead(h)).p.PIdle?)
              && (h == |s.popped| ==> (Next(o, s, LoadHead(h)).p.PIdle? <==> |s.pushed| - |s.popped| == capacity - 1))
    ensures forall t :: Enabled(o, s, LoadTail(t)) ==>
              && (Next(o, s, LoadTail(t)).c.CIdle? <==> t == |s.popped|)
              && (s.pushed == s.popped ==> Next(o, s, LoadTail(t)).c.CIdle?)
              && (t == |s.pushed| ==> (Next(o, s, LoadTail(t)).c.CIdle? <==> s.pushed == s.popped))
  {
    InitIndices<T>(capacity);
    RunItems(o, Init(capacity), ls, s);
    RunCapacity(o, Init(capacity), ls, s);
    forall h | Enabled(o, s, LoadHead(h)) ensures Next(o, s, LoadHead(h)).p.PIdle? <==> |s.pushed| - h == capacity - 1 {
      LoadHeadDecides(o, s, h);
    }
    forall t | Enabled(o, s, LoadTail(t)) ensures Next(o, s, LoadTail(t)).c.CIdle? <==> t == |s.popped| {
      LoadTailDecides(o, s, t);
    }
  }

  // ---------- which orderings are enough ----------

  lemma {:induction false} RunThen<T>(o: Ordering, s: State<T>, ls: seq<Label<T>>, mid: State<T>, l: Label<T>)
    requires Run(o, s, ls, mid) && Enabled(o, mid, l)
    ensures Run(o, s, ls + [l], Next(o, mid, l))
    decreases |ls|
  {
    if ls == [] {
      assert ls + [l] == [l] && [l][1..] == [];
    } else {
      RunThen(o, Next(o, s, ls[0]), ls[1..], mid, l);
      assert (ls + [l])[1..] == ls[1..] + [l];
    }
  }

  lemma {:induction false} RunJoins<T>(o: Ordering, s: State<T>, ls: seq<Label<T>>, mid: State<T>, more: seq<Label<T>>,
                                       end: State<T>)
    requires Run(o, s, ls, mid) && Run(o, mid, more, end)
    ensures Run(o, s, ls + more, end)
    decreases |ls|
  {
    if ls == [] {
      assert ls + more == more;
    } else {
      RunJoins(o, Next(o, s, ls[0]), ls[1..], mid, more, end);
      assert (ls + more)[1..] == ls[1..] + more;
    }
  }

  lemma RunNothing<T>(o: Ordering, s: State<T>)
    ensures Run(o, s, [], s)
  {
  }

  /** The first push, under every ordering. */
  lemma FirstPush<T>(o: Ordering, capacity: nat, x: T) returns (ls: seq<Label<T>>, s: State<T>)
    requires capacity >= 2
    ensures Run(o, Init(capacity), ls, s)
    ensures s == Init<T>(capacity).(tails := [Store(0, 0), Store(1, 1)], puts := [Access(0, x)], pushed := [x])
  {
    hide Run;
    ModOf(1, 0, 1, capacity);
    var s0 := Init<T>(capacity);
    RunNothing(o, s0);
    RunThen(o, s0, [], s0, BeginPush(x));
    var s1 := Next(o, s0, BeginPush(x));
    RunThen(o, s0, [] + [BeginPush(x)], s1, LoadHead(0));
    var s2 := Next(o, s1, LoadHead(0));
    RunThen(o, s0, [] + [BeginPush(x)] + [LoadHead(0)], s2, WriteSlot);
    var s3 := Next(o, s2, WriteSlot);
    RunThen(o, s0, [] + [BeginPush(x)] + [LoadHead(0)] + [WriteSlot], s3, PublishTail);
    ls, s := [] + [BeginPush(x)] + [LoadHead(0)] + [WriteSlot] + [PublishTail], Next(o, s3, PublishTail);
  }

  /** Without synchronization the very first item can be read before its write is ordered: the read races and any value
      may come out. */
  lemma FirstPopRaces<T>(o: Ordering, capacity: nat, x: T, v: T) returns (ls: seq<Label<T>>, s: State<T>)
    requires !Synchronizes(o) && capacity >= 2
    ensures Run(o, Init(capacity), ls, s) && ReadRaces(s)
    ensures s.pushed == [x] && Enabled(o, s, ReadSlot(v)) && Next(o, s, ReadSlot(v)).c == CRead(0, v)
  {
    hide Run;
    var s4;
    ls, s4 := FirstPush(o, capacity, x);
    RunThen(o, Init(capacity), ls, s4, BeginPop);
    var s5 := Next(o, s4, BeginPop);
    RunThen(o, Init(capacity), ls + [BeginPop], s5, LoadTail(1));
    ls, s := ls + [BeginPop] + [LoadTail(1)], Next(o, s5, LoadTail(1));
    assert s.putsSeen == 0 && s.puts[0].slot == s.c.cur;
  }

  ghost predicate RaceFree<T(!new)>(o: Ordering, start: State<T>) {
    forall ls: seq<Label<T>>, end: State<T> :: Run(o, start, ls, end) ==> !ReadRaces(end) && !WriteRaces(end)
  }

  /** A ring that can hold an item is free of races in every run exactly when its index accesses synchronize. */
  lemma RaceFreeExactly<T(!new)>(o: Ordering, capacity: nat, x: T)
    requires capacity >= 2
    ensures RaceFree(o, Init<T>(capacity)) <==> Synchronizes(o)
  {
    if Synchronizes(o) {
      forall ls: seq<Label<T>>, s: State<T> | Run(o, Init(capacity), ls, s) ensures !ReadRaces(s) && !WriteRaces(s) {
        SingleProducerSingleConsumer(o, capacity, ls, s);
      }
    } else {
      var ls, s := FirstPopRaces(o, capacity, x, x);
      assert Run(o, Init(capacity), ls, s);
    }
  }
}
