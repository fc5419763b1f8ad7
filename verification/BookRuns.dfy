/** Runs of the book on the real objects, and what the last operation of a run has done. */
module BookRuns {
  import opened Orders
  import opened Matching
  import opened MatchTheorems
  import opened Fills
  import opened BookOps
  import opened Crossings
  import opened Layout
  import opened Sessions
  import opened MatchingEngine

  /** Any legal sequence of additions, removals and matching calls on the objects ends with the book of the run. */
  method RunOps(engine: Engine, ops: seq<Op>, ghost start: Session, ghost end: Session)
    requires engine.orderBook.Valid() && engine.orderBook.book == start.book
    requires Runs(|engine.orderBook.pool.slots|, ops, start, end)
    modifies engine.orderBook, engine.orderBook.pool.inUse, engine.orderBook.pool.slots
    ensures engine.orderBook.Valid() && engine.orderBook.book == end.book
  {
    hide WellFormed, Tradable, Holds, Match, BookOps.AddOrder, BookOps.RemoveOrder, IsResting, Ends, Reach;
    ghost var capacity, st := |engine.orderBook.pool.slots|, start;
    for i := 0 to |ops|
      invariant engine.orderBook.Valid() && engine.orderBook.book == st.book
      invariant Runs(capacity, ops[i..], st, end)
    {
      HoldsFacts(engine.orderBook.Contents(), engine.orderBook.book);
      assert ops[i..][1..] == ops[i + 1..];
      ghost var next := Apply(capacity, ops[i], st);
      match ops[i] {
        case Add(id, symbol, price, quantity, isBuy) =>
          var ok := engine.orderBook.AddOrder(id, symbol, price, quantity, isBuy);
        case Remove(id) =>
          engine.orderBook.RemoveOrder(id);
        case MatchAll =>
          TradableEnds(Whole, engine.orderBook.book);
          var trades := engine.MatchOrders();
      }
      st := next;
    }
  }

  // ---------- the last operation of a run ----------

  /** The last operation acts on the book of the run before it. */
  lemma {:induction false} LastOp(capacity: nat, ops: seq<Op>, op: Op, st: Session, end: Session) returns (mid: Session)
    requires Runs(capacity, ops + [op], st, end)
    ensures Runs(capacity, ops, st, mid) && Tradable(mid.book) && Legal(op, mid) && end == Apply(capacity, op, mid)
    decreases |ops|
  {
    if ops == [] {
      mid := st;
      assert ([op])[1..] == [] && ops + [op] == [op];
    } else {
      assert (ops + [op])[1..] == ops[1..] + [op];
      mid := LastOp(capacity, ops[1..], op, Apply(capacity, ops[0], st), end);
    }
  }

  lemma {:induction false} RunsThen(capacity: nat, ops: seq<Op>, op: Op, st: Session, mid: Session)
    requires Runs(capacity, ops, st, mid) && Tradable(mid.book) && Legal(op, mid)
    ensures Runs(capacity, ops + [op], st, Apply(capacity, op, mid))
    decreases |ops|
  {
    if ops == [] {
      assert ops + [op] == [op] && [op][1..] == [];
    } else {
      assert (ops + [op])[1..] == ops[1..] + [op];
      RunsThen(capacity, ops[1..], op, Apply(capacity, ops[0], st), mid);
    }
  }

  lemma {:induction false} RunsOnce(capacity: nat, ops: seq<Op>, st: Session, end: Session, end': Session)
    requires Runs(capacity, ops, st, end) && Runs(capacity, ops, st, end')
    ensures end == end'
    decreases |ops|
  {
    if ops != [] {
      RunsOnce(capacity, ops[1..], Apply(capacity, ops[0], st), end, end');
    }
  }

  predicate NamesNone(s: seq<Rec>, id: int) {
    forall i :: 0 <= i < |s| ==> s[i].id != id
  }

  lemma RestsByName(b: Book, id: int)
    ensures !IsResting(b, id) <==> NamesNone(b.bids, id) && NamesNone(b.asks, id)
  {
  }

  /** The operations can be run on an empty book. */
  ghost predicate GoesOn(capacity: nat, ops: seq<Op>) {
    exists end :: Runs(capacity, ops, EMPTY, end)
  }

  /** A run can go on with every removal and every matching call, and with an addition exactly when its quantity is
      positive and no resting order has its id. */
  lemma RunGoesOn(capacity: nat, ops: seq<Op>, op: Op, mid: Session)
    requires Runs(capacity, ops, EMPTY, mid)
    ensures GoesOn(capacity, ops + [op])
        <==> (op.Add? ==> op.quantity > 0 && NamesNone(mid.book.bids, op.id) && NamesNone(mid.book.asks, op.id))
  {
    EveryRunFromEmpty(capacity, ops, mid);
    if op.Add? {
      RestsByName(mid.book, op.id);
    }
    hide IsResting, NamesNone;
    assert Legal(op, mid)
      <==> (op.Add? ==> op.quantity > 0 && NamesNone(mid.book.bids, op.id) && NamesNone(mid.book.asks, op.id));
    hide Legal;
    if Legal(op, mid) {
      RunsThen(capacity, ops, op, EMPTY, mid);
    }
    if GoesOn(capacity, ops + [op]) {
      var end :| Runs(capacity, ops + [op], EMPTY, end);
      var before := LastOp(capacity, ops, op, EMPTY, end);
      RunsOnce(capacity, ops, EMPTY, mid, before);
    }
  }

  /** After a removal the id does not rest, and every other order is where it was. */
  lemma AfterRemove(capacity: nat, ops: seq<Op>, id: int, end: Session) returns (mid: Session)
    requires Runs(capacity, ops + [Remove(id)], EMPTY, end)
    ensures Runs(capacity, ops, EMPTY, mid)
    ensures end.book == Book(Without(mid.book.bids, id), Without(mid.book.asks, id))
    ensures NamesNone(end.book.bids, id) && NamesNone(end.book.asks, id)
  {
    hide Runs;
    mid := LastOp(capacity, ops, Remove(id), EMPTY, end);
    EveryRunFromEmpty(capacity, ops, mid);
    RemoveTakesOnly(mid.book, id);
    RemoveWellFormed(mid.book, id);
    NotResting(end.book, id);
  }

  predicate AllFull(s: seq<Rec>) {
    forall i :: 0 <= i < |s| ==> s[i].filled >= s[i].quantity
  }

  predicate AllOpen(s: seq<Rec>) {
    forall i :: 0 <= i < |s| ==> s[i].filled < s[i].quantity
  }

  /** After a matching call the book is uncrossed; the orders that left and those that stayed are, side by side and in
      order, the orders before, each filled further by the trades that name it; those that left are filled, those that
      stayed are not. */
  lemma AfterMatch(capacity: nat, ops: seq<Op>, end: Session)
    returns (mid: Session, trades: seq<Trade>, goneBids: seq<Rec>, goneAsks: seq<Rec>)
    requires Runs(capacity, ops + [MatchAll], EMPTY, end)
    ensures Runs(capacity, ops, EMPTY, mid) && !Crossed(end.book)
    ensures FilledBy(mid.book.bids, goneBids + end.book.bids, trades, true)
    ensures FilledBy(mid.book.asks, goneAsks + end.book.asks, trades, false)
    ensures AllFull(goneBids) && AllFull(goneAsks) && AllOpen(end.book.bids) && AllOpen(end.book.asks)
    ensures trades == [] <==> !Crossed(mid.book)
  {
    hide Runs, Match, FilledBy, AllFilledOut, AllLive, DistinctIds, AllFull, AllOpen;
    mid := LastOp(capacity, ops, MatchAll, EMPTY, end);
    EveryRunFromEmpty(capacity, ops, mid);
    var o := Match(Whole, mid.book);
    trades, goneBids, goneAsks := o.trades, o.goneBids, o.goneAsks;
    MatchUncrosses(Whole, mid.book);
    MatchSettles(Whole, mid.book, true);
    MatchSettles(Whole, mid.book, false);
    RemovedFill(Whole, mid.book, true);
    RemovedFill(Whole, mid.book, false);
    TradesExactly(mid.book);
    GoneFilled(o.goneBids);
    GoneFilled(o.goneAsks);
    LiveUnfilled(end.book.bids);
    LiveUnfilled(end.book.asks);
  }

  lemma TradesExactly(b: Book)
    requires Tradable(b)
    ensures Match(Whole, b).trades == [] <==> !Crossed(b)
  {
  }

  lemma GoneFilled(s: seq<Rec>)
    requires AllFilledOut(Whole, s)
    ensures AllFull(s)
  {
    assert forall i :: 0 <= i < |s| ==> FilledOut(Whole, s[i]);
  }

  lemma LiveUnfilled(s: seq<Rec>)
    requires AllLive(s)
    ensures AllOpen(s)
  {
    assert forall i :: 0 <= i < |s| ==> Live(s[i]);
  }

  /** After an addition the order rests, unfilled, exactly when there was room: behind every order of its side that is
      not worse and in front of every order that is; nothing else has changed. */
  lemma AfterAdd(capacity: nat, ops: seq<Op>, op: Op, end: Session) returns (mid: Session, k: nat)
    requires op.Add? && Runs(capacity, ops + [op], EMPTY, end)
    ensures Runs(capacity, ops, EMPTY, mid)
    ensures |mid.book.bids| + |mid.book.asks| >= capacity ==> end.book == mid.book
    ensures |mid.book.bids| + |mid.book.asks| < capacity ==>
              var s, s' := Side(mid.book, op.isBuy), Side(end.book, op.isBuy);
              && Side(end.book, !op.isBuy) == Side(mid.book, !op.isBuy)
              && k <= |s| && s' == s[..k] + [Fresh(op.id, op.symbol, op.price, op.quantity, op.isBuy)] + s[k..]
              && (forall i :: 0 <= i < k ==> if op.isBuy then s[i].price >= op.price else s[i].price <= op.price)
              && (forall i :: k <= i < |s| ==> if op.isBuy then s[i].price < op.price else s[i].price > op.price)
  {
    hide Runs;
    mid := LastOp(capacity, ops, op, EMPTY, end);
    EveryRunFromEmpty(capacity, ops, mid);
    var s := Side(mid.book, op.isBuy);
    k := UpperBound(Prices(s), op.price, op.isBuy);
    InsertionPoint(s, op.price, op.isBuy);
  }

  lemma InsertionPoint(s: seq<Rec>, price: real, isBuy: bool)
    requires SortedSide(s, isBuy)
    ensures var k := UpperBound(Prices(s), price, isBuy);
            && (forall i :: 0 <= i < k ==> if isBuy then s[i].price >= price else s[i].price <= price)
            && (forall i :: k <= i < |s| ==> if isBuy then s[i].price < price else s[i].price > price)
  {
    var k := UpperBound(Prices(s), price, isBuy);
    assert forall i :: 0 <= i < k ==> !Before(isBuy, price, Prices(s)[i]);
    assert k < |s| ==> Before(isBuy, price, Prices(s)[k]);
  }
}
