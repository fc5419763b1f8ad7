/** Spurious refusals: under which memory orders a stale index turns a push or a pop away. */
module RingRefusals {
  import opened Modular
  import opened RingProgram
  import opened RingProtocol

  /** The push is about to be refused although the ring is not full. */
  ghost predicate PushRefusedWithRoom<T>(o: Ordering, s: State<T>, h: nat) {
    Enabled(o, s, LoadHead(h)) && Next(o, s, LoadHead(h)).p.PIdle? && |s.pushed| - |s.popped| < s.capacity - 1
  }

  /** The pop is about to be refused although there is an item in the ring. */
  ghost predicate PopRefusedWithItem<T>(o: Ordering, s: State<T>, t: nat) {
    Enabled(o, s, LoadTail(t)) && Next(o, s, LoadTail(t)).c.CIdle? && |s.pushed| > |s.popped|
  }

  ghost predicate SomePushRefused<T(!new)>(o: Ordering, start: State<T>) {
    exists ls: seq<Label<T>>, s: State<T>, h :: Run(o, start, ls, s) && PushRefusedWithRoom(o, s, h)
  }

  ghost predicate SomePopRefused<T(!new)>(o: Ordering, start: State<T>) {
    exists ls: seq<Label<T>>, s: State<T>, t :: Run(o, start, ls, s) && PopRefusedWithItem(o, s, t)
  }

  // ---------- the runs that refuse ----------

  /** After `k` pushes and no pop, with both sides idle. */
  ghost predicate Pushed<T>(s: State<T>, capacity: nat, x: T, k: nat) {
    && Indices(s) && s.capacity == capacity
    && |s.tails| == k + 1 && |s.heads| == 1 && s.headSeen == s.tailSeen == s.putsSeen == 0
    && s.p.PIdle? && s.c.CIdle? && |s.pushed| == k && s.popped == []
    && (k > 0 ==> |s.puts| > 0 && s.puts[0] == Access(0, x))
  }

  lemma PushOnce<T>(o: Ordering, s: State<T>, capacity: nat, x: T, k: nat) returns (ls: seq<Label<T>>, end: State<T>)
    requires Pushed(s, capacity, x, k) && k < capacity - 1
    ensures Run(o, s, ls, end) && Pushed(end, capacity, x, k + 1)
  {
    hide Run;
    RunNothing(o, s);
    RunThen(o, s, [], s, BeginPush(x));
    StepIndices(o, s, BeginPush(x));
    var s1 := Next(o, s, BeginPush(x));
    LoadHeadDecides(o, s1, 0);
    RunThen(o, s, [] + [BeginPush(x)], s1, LoadHead(0));
    StepIndices(o, s1, LoadHead(0));
    var s2 := Next(o, s1, LoadHead(0));
    RunThen(o, s, [] + [BeginPush(x)] + [LoadHead(0)], s2, WriteSlot);
    StepIndices(o, s2, WriteSlot);
    var s3 := Next(o, s2, WriteSlot);
    RunThen(o, s, [] + [BeginPush(x)] + [LoadHead(0)] + [WriteSlot], s3, PublishTail);
    StepIndices(o, s3, PublishTail);
    ls, end := [] + [BeginPush(x)] + [LoadHead(0)] + [WriteSlot] + [PublishTail], Next(o, s3, PublishTail);
  }

  lemma {:induction false} PushMany<T>(o: Ordering, capacity: nat, x: T, k: nat)
    returns (ls: seq<Label<T>>, s: State<T>)
    requires k < capacity
    ensures Run(o, Init(capacity), ls, s) && Pushed(s, capacity, x, k)
  {
    if k == 0 {
      ls, s := [], Init(capacity);
      InitIndices<T>(capacity);
    } else {
      var first, mid := PushMany(o, capacity, x, k - 1);
      var more;
      more, s := PushOnce(o, mid, capacity, x, k - 1);
      RunJoins(o, Init(capacity), first, mid, more, s);
      ls := first + more;
    }
  }

  /** One pop from a ring that nothing was taken from, the newest tail being seen. */
  lemma PopOnce<T>(o: Ordering, s: State<T>, capacity: nat, x: T, k: nat) returns (ls: seq<Label<T>>, end: State<T>)
    requires Pushed(s, capacity, x, k) && 0 < k < capacity
    ensures Run(o, s, ls, end) && Indices(end)
    ensures end == s.(heads := end.heads, gets := end.gets, tailSeen := k, putsSeen := end.putsSeen, popped := [x])
    ensures |end.heads| == 2
  {
    hide Run;
    RunNothing(o, s);
    RunThen(o, s, [], s, BeginPop);
    StepIndices(o, s, BeginPop);
    var s1 := Next(o, s, BeginPop);
    LoadTailDecides(o, s1, k);
    RunThen(o, s, [] + [BeginPop], s1, LoadTail(k));
    StepIndices(o, s1, LoadTail(k));
    var s2 := Next(o, s1, LoadTail(k));
    FirstSlotReads(s2, x);
    RunThen(o, s, [] + [BeginPop] + [LoadTail(k)], s2, ReadSlot(x));
    StepIndices(o, s2, ReadSlot(x));
    var s3 := Next(o, s2, ReadSlot(x));
    RunThen(o, s, [] + [BeginPop] + [LoadTail(k)] + [ReadSlot(x)], s3, PublishHead);
    StepIndices(o, s3, PublishHead);
    ls, end := [] + [BeginPop] + [LoadTail(k)] + [ReadSlot(x)] + [PublishHead], Next(o, s3, PublishHead);
  }

  lemma FirstSlotReads<T>(s: State<T>, x: T)
    requires Indices(s) && s.c == CClear(0) && 0 < |s.puts| < s.capacity && s.puts[0] == Access(0, x)
    ensures MayRead(s, 0, x)
  {
    forall m | 0 < m < |s.puts| ensures s.puts[m].slot != 0 {
      if s.puts[m].slot == 0 {
        ModOf(0, 0, 0, s.capacity);
        SameRemainder(0, m, s.capacity);
      }
    }
  }

  /** A full ring, one pop, and a push that still sees the first head. */
  lemma StalePush<T>(o: Ordering, capacity: nat, x: T) returns (ls: seq<Label<T>>, s: State<T>)
    requires capacity > 1 && o != SeqCst
    ensures Run(o, Init(capacity), ls, s) && PushRefusedWithRoom(o, s, 0)
  {
    hide Run;
    var first, full := PushMany(o, capacity, x, capacity - 1);
    var more, popped := PopOnce(o, full, capacity, x, capacity - 1);
    RunJoins(o, Init(capacity), first, full, more, popped);
    RunThen(o, Init(capacity), first + more, popped, BeginPush(x));
    StepIndices(o, popped, BeginPush(x));
    ls, s := first + more + [BeginPush(x)], Next(o, popped, BeginPush(x));
    LoadHeadDecides(o, s, 0);
  }

  /** One item in the ring, and a pop that still sees the first tail. */
  lemma StalePop<T>(o: Ordering, capacity: nat, x: T) returns (ls: seq<Label<T>>, s: State<T>)
    requires capacity > 1 && o != SeqCst
    ensures Run(o, Init(capacity), ls, s) && PopRefusedWithItem(o, s, 0)
  {
    hide Run;
    var first, one := PushMany(o, capacity, x, 1);
    RunThen(o, Init(capacity), first, one, BeginPop);
    StepIndices(o, one, BeginPop);
    ls, s := first + [BeginPop], Next(o, one, BeginPop);
    LoadTailDecides(o, s, 0);
  }

  // ---------- exactly when ----------

  /** With sequentially consistent loads a refusal is always true. */
  lemma NewestIsTrue<T>(capacity: nat, ls: seq<Label<T>>, s: State<T>, i: nat)
    requires capacity > 0 && Run(SeqCst, Init(capacity), ls, s)
    ensures !PushRefusedWithRoom(SeqCst, s, i) && !PopRefusedWithItem(SeqCst, s, i)
  {
    InitIndices<T>(capacity);
    RunItems(SeqCst, Init(capacity), ls, s);
    RunCapacity(SeqCst, Init(capacity), ls, s);
    hide Run;
    if Enabled(SeqCst, s, LoadHead(i)) {
      LoadHeadDecides(SeqCst, s, i);
    }
    if Enabled(SeqCst, s, LoadTail(i)) {
      LoadTailDecides(SeqCst, s, i);
    }
  }

  /** In a ring that can hold an item, a push can be refused with room left, and a pop with an item there, in some run,
      exactly when the index loads are not sequentially consistent. */
  lemma SpuriousExactly<T(!new)>(o: Ordering, capacity: nat, x: T)
    requires capacity > 1
    ensures SomePushRefused(o, Init<T>(capacity)) <==> o != SeqCst
    ensures SomePopRefused(o, Init<T>(capacity)) <==> o != SeqCst
  {
    if o == SeqCst {
      forall ls: seq<Label<T>>, s: State<T>, h: nat | Run(o, Init(capacity), ls, s)
        ensures !PushRefusedWithRoom(o, s, h)
      {
        NewestIsTrue(capacity, ls, s, h);
      }
      forall ls: seq<Label<T>>, s: State<T>, t: nat | Run(o, Init(capacity), ls, s)
        ensures !PopRefusedWithItem(o, s, t)
      {
        NewestIsTrue(capacity, ls, s, t);
      }
    } else {
      var ls, s := StalePush(o, capacity, x);
      assert PushRefusedWithRoom(o, s, 0);
      ls, s := StalePop(o, capacity, x);
      assert PopRefusedWithItem(o, s, 0);
    }
  }
}
