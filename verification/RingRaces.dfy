/** Which accesses race under which memory order, and that neither side of the ring is ever stuck. */
module RingRaces {
  import opened Modular
  import opened RingProgram
  import opened RingProtocol

  // ---------- neither side is stuck ----------

  /** In every run under every memory order, both sides can take a step: there is no lock to wait for. */
  lemma NeitherSideBlocks<T>(o: Ordering, capacity: nat, ls: seq<Label<T>>, s: State<T>, x: T)
    returns (l: Label<T>, l': Label<T>)
    requires capacity > 0 && Run(o, Init(capacity), ls, s)
    ensures Enabled(o, s, l) && (l.BeginPush? || l.LoadHead? || l.WriteSlot? || l.PublishTail?)
    ensures Enabled(o, s, l') && (l'.BeginPop? || l'.LoadTail? || l'.ReadSlot? || l'.PublishHead?)
  {
    InitIndices<T>(capacity);
    RunIndices(o, Init(capacity), ls, s);
    match s.p {
      case PIdle => l := BeginPush(x);
      case PLoaded(_, _, _) => l := LoadHead(|s.heads| - 1);
      case PClear(_, _, _) => l := WriteSlot;
      case PWritten(_, _) => l := PublishTail;
    }
    match s.c {
      case CIdle => l' := BeginPop;
      case CLoaded(_) => l' := LoadTail(|s.tails| - 1);
      case CClear(_) =>
        NextItemReads(s);
        l' := ReadSlot(s.puts[|s.heads| - 1].value);
      case CRead(_, _) => l' := PublishHead;
    }
  }

  /** A read may always return the item that is next. */
  lemma NextItemReads<T>(s: State<T>)
    requires Indices(s) && s.c.CClear?
    ensures |s.heads| - 1 < |s.puts| && MayRead(s, s.c.cur, s.puts[|s.heads| - 1].value)
  {
    var c := |s.heads| - 1;
    assert s.puts[c] == Access(s.c.cur, s.puts[c].value);
    forall m | c < m < |s.puts| ensures s.puts[m].slot != s.c.cur {
      if s.puts[m].slot == s.c.cur {
        SameRemainder(c, m, s.capacity);
      }
    }
  }

  // ---------- writes ----------

  ghost predicate ReadsRaceFree<T(!new)>(o: Ordering, start: State<T>) {
    forall ls: seq<Label<T>>, end: State<T> :: Run(o, start, ls, end) ==> !ReadRaces(end)
  }

  ghost predicate WritesRaceFree<T(!new)>(o: Ordering, start: State<T>) {
    forall ls: seq<Label<T>>, end: State<T> :: Run(o, start, ls, end) ==> !WriteRaces(end)
  }

  /** A fence before the load still orders what the push before has seen, and that is enough for the write. */
  predicate FenceCovers<T>(s: State<T>) {
    s.p.PClear? ==> |s.tails| - s.capacity <= s.getsSeen
  }

  lemma {:induction false} RunFenceCovers<T>(s: State<T>, ls: seq<Label<T>>, end: State<T>)
    requires Indices(s) && FenceCovers(s) && Run(FenceBeforeLoad, s, ls, end)
    ensures FenceCovers(end)
    decreases |ls|
  {
    if ls != [] {
      var next := Next(FenceBeforeLoad, s, ls[0]);
      StepFenceCovers(s, ls[0]);
      StepIndices(FenceBeforeLoad, s, ls[0]);
      hide Indices, FenceCovers;
      RunFenceCovers(next, ls[1..], end);
    }
  }

  lemma StepFenceCovers<T>(s: State<T>, l: Label<T>)
    requires Indices(s) && FenceCovers(s) && Enabled(FenceBeforeLoad, s, l)
    ensures FenceCovers(Next(FenceBeforeLoad, s, l))
  {
    if l.LoadHead? {
      assert s.heads[s.headSeen].after == s.headSeen;
    }
  }

  /** Without any synchronization a push and a pop in turn go round the ring while neither side learns of the other's
      accesses. */
  ghost predicate RoundOf<T>(s: State<T>, capacity: nat, k: nat) {
    && Indices(s) && s.capacity == capacity && |s.tails| == |s.heads| == k + 1
    && s.headSeen <= k && s.p.PIdle? && s.c.CIdle? && s.getsSeen == s.putsSeen == 0
  }

  lemma PushRound<T>(s: State<T>, capacity: nat, k: nat, x: T) returns (ls: seq<Label<T>>, end: State<T>)
    requires RoundOf(s, capacity, k) && capacity >= 2
    ensures Run(Relaxed, s, ls, end) && Indices(end)
    ensures end == s.(tails := end.tails, puts := s.puts + [Access(k % capacity, x)], headSeen := k,
                      pushed := end.pushed)
    ensures |end.tails| == k + 2
  {
    hide Run;
    RunNothing(Relaxed, s);
    RunThen(Relaxed, s, [], s, BeginPush(x));
    StepIndices(Relaxed, s, BeginPush(x));
    var s1 := Next(Relaxed, s, BeginPush(x));
    LoadHeadDecides(Relaxed, s1, k);
    RunThen(Relaxed, s, [] + [BeginPush(x)], s1, LoadHead(k));
    StepIndices(Relaxed, s1, LoadHead(k));
    var s2 := Next(Relaxed, s1, LoadHead(k));
    RunThen(Relaxed, s, [] + [BeginPush(x)] + [LoadHead(k)], s2, WriteSlot);
    StepIndices(Relaxed, s2, WriteSlot);
    var s3 := Next(Relaxed, s2, WriteSlot);
    RunThen(Relaxed, s, [] + [BeginPush(x)] + [LoadHead(k)] + [WriteSlot], s3, PublishTail);
    StepIndices(Relaxed, s3, PublishTail);
    ls, end := [] + [BeginPush(x)] + [LoadHead(k)] + [WriteSlot] + [PublishTail], Next(Relaxed, s3, PublishTail);
  }

  lemma PopRound<T>(s: State<T>, capacity: nat, k: nat, x: T) returns (ls: seq<Label<T>>, end: State<T>)
    requires Indices(s) && s.capacity == capacity && |s.tails| == k + 2 && |s.heads| == k + 1
    requires s.p.PIdle? && s.c.CIdle? && s.getsSeen == s.putsSeen == 0 && s.headSeen <= k
    ensures Run(Relaxed, s, ls, end) && RoundOf(end, capacity, k + 1)
  {
    hide Run;
    RunNothing(Relaxed, s);
    RunThen(Relaxed, s, [], s, BeginPop);
    StepIndices(Relaxed, s, BeginPop);
    var s1 := Next(Relaxed, s, BeginPop);
    LoadTailDecides(Relaxed, s1, k + 1);
    RunThen(Relaxed, s, [] + [BeginPop], s1, LoadTail(k + 1));
    StepIndices(Relaxed, s1, LoadTail(k + 1));
    var s2 := Next(Relaxed, s1, LoadTail(k + 1));
    RunThen(Relaxed, s, [] + [BeginPop] + [LoadTail(k + 1)], s2, ReadSlot(x));
    StepIndices(Relaxed, s2, ReadSlot(x));
    var s3 := Next(Relaxed, s2, ReadSlot(x));
    RunThen(Relaxed, s, [] + [BeginPop] + [LoadTail(k + 1)] + [ReadSlot(x)], s3, PublishHead);
    StepIndices(Relaxed, s3, PublishHead);
    ls, end := [] + [BeginPop] + [LoadTail(k + 1)] + [ReadSlot(x)] + [PublishHead], Next(Relaxed, s3, PublishHead);
  }

  lemma {:induction false} Rounds<T>(capacity: nat, k: nat, x: T) returns (ls: seq<Label<T>>, s: State<T>)
    requires capacity >= 2
    ensures Run(Relaxed, Init(capacity), ls, s) && RoundOf(s, capacity, k)
  {
    if k == 0 {
      ls, s := [], Init(capacity);
      InitIndices<T>(capacity);
    } else {
      var first, before := Rounds(capacity, k - 1, x);
      var push, mid := PushRound(before, capacity, k - 1, x);
      RunJoins(Relaxed, Init(capacity), first, before, push, mid);
      var pop;
      pop, s := PopRound(mid, capacity, k - 1, x);
      RunJoins(Relaxed, Init(capacity), first + push, mid, pop, s);
      ls := first + push + pop;
    }
  }

  /** After one whole turn the first slot is written again, and nothing orders the read of its first item before. */
  lemma RelaxedWriteRaces<T>(capacity: nat, x: T) returns (ls: seq<Label<T>>, s: State<T>)
    requires capacity >= 2
    ensures Run(Relaxed, Init(capacity), ls, s) && WriteRaces(s)
  {
    hide Run;
    var first, turn := Rounds(capacity, capacity, x);
    RunThen(Relaxed, Init(capacity), first, turn, BeginPush(x));
    StepIndices(Relaxed, turn, BeginPush(x));
    var s1 := Next(Relaxed, turn, BeginPush(x));
    LoadHeadDecides(Relaxed, s1, capacity);
    RunThen(Relaxed, Init(capacity), first + [BeginPush(x)], s1, LoadHead(capacity));
    StepIndices(Relaxed, s1, LoadHead(capacity));
    ls, s := first + [BeginPush(x)] + [LoadHead(capacity)], Next(Relaxed, s1, LoadHead(capacity));
    RacesExactly(s);
  }

  /** In a ring that can hold an item, reads are free of races exactly when the index accesses synchronize, and writes
      already when the loads are fenced: only without any ordering can a slot be overwritten unordered. */
  lemma RacesByOrdering<T(!new)>(o: Ordering, capacity: nat, x: T)
    requires capacity >= 2
    ensures ReadsRaceFree(o, Init<T>(capacity)) <==> o == AcquireRelease || o == SeqCst
    ensures WritesRaceFree(o, Init<T>(capacity)) <==> o != Relaxed
  {
    if o == AcquireRelease || o == SeqCst {
      forall ls: seq<Label<T>>, s: State<T> | Run(o, Init(capacity), ls, s) ensures !ReadRaces(s) && !WriteRaces(s) {
        SingleProducerSingleConsumer(o, capacity, ls, s);
      }
    } else {
      var ls, s := FirstPopRaces(o, capacity, x, x);
      assert Run(o, Init(capacity), ls, s) && ReadRaces(s);
      if o == Relaxed {
        ls, s := RelaxedWriteRaces(capacity, x);
        assert Run(o, Init(capacity), ls, s) && WriteRaces(s);
      } else {
        forall ls: seq<Label<T>>, s: State<T> | Run(o, Init(capacity), ls, s) ensures !WriteRaces(s) {
          InitIndices<T>(capacity);
          RunIndices(o, Init(capacity), ls, s);
          RunFenceCovers(Init(capacity), ls, s);
          RacesExactly(s);
        }
      }
    }
  }
}
