/** The tick loop of the latency test: each tick adds one order and matches. */
module TickLoop {
  import opened Orders
  import opened Matching
  import opened BookOps
  import opened Crossings
  import opened Layout
  import opened MatchingEngine
  import opened Sessions

  /** Runs one tick per order; the book ends as the run of ticks says, and tick `k` makes exactly the trades of that
      run's tick `k`. */
  method RunTicks(engine: Engine, orders: seq<Rec>) returns (log: seq<seq<Trade>>)
    requires engine.orderBook.Valid() && Ready(engine.orderBook.book, orders)
    requires forall i :: 0 <= i < |orders| ==> orders[i].filled == 0
    modifies engine.orderBook, engine.orderBook.pool.inUse, engine.orderBook.pool.slots
    ensures engine.orderBook.Valid()
    ensures var capacity, start := |engine.orderBook.pool.slots|, old(engine.orderBook.book);
            && engine.orderBook.book == AfterTicks(capacity, start, orders, |orders|)
            && |log| == |orders|
            && forall k :: 0 <= k < |orders| ==>
                 log[k] == TickOf(capacity, start, orders, k).trades
                 && forall i :: 0 <= i < |log[k]| ==> WithNewcomer(log[k][i], orders[k])
  {
    hide Ready, WellFormed, Tradable, Holds, TickOf, Tick, Match, BookOps.AddOrder, IsResting, WithNewcomer;
    log := [];
    assert engine.orderBook.book == AfterTicks(|engine.orderBook.pool.slots|, engine.orderBook.book, orders, 0);
    ghost var capacity, start := |engine.orderBook.pool.slots|, engine.orderBook.book;
    for k := 0 to |orders|
      invariant engine.orderBook.Valid() && |log| == k
      invariant engine.orderBook.book == AfterTicks(capacity, start, orders, k)
      invariant forall j :: 0 <= j < k ==> log[j] == TickOf(capacity, start, orders, j).trades
      invariant forall j :: 0 <= j < k ==> forall i :: 0 <= i < |log[j]| ==> WithNewcomer(log[j][i], orders[j])
    {
      HoldsFacts(engine.orderBook.Contents(), engine.orderBook.book);
      EveryTick(capacity, start, orders, k);
      NextTick(capacity, start, orders, k);
      var r := orders[k];
      assert r == Fresh(r.id, r.symbol, r.price, r.quantity, r.isBuy);
      var ok := engine.orderBook.AddOrder(r.id, r.symbol, r.price, r.quantity, r.isBuy);
      TradableEnds(Whole, engine.orderBook.book);
      var trades := engine.MatchOrders();
      log := log + [trades];
    }
  }
}
