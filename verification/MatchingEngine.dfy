/** The matching engine: crosses the two heads of the book until they no longer cross. */
module MatchingEngine {
  import opened Orders
  import opened Matching
  import opened BookOps
  import opened Crossings
  import opened Layout
  import opened OrderBook

  class Engine {
    const orderBook: LimitOrderBook

    constructor (orderBook: LimitOrderBook)
      ensures this.orderBook == orderBook
    {
      this.orderBook := orderBook;
    }

    /** One crossing of the two best orders, in place. */
    method Cross(bid: Order, ask: Order) returns (trade: Trade)
      requires orderBook.Valid() && Crossed(orderBook.book)
      requires orderBook.buyOrders != [] && bid == orderBook.buyOrders[0].order && bid in orderBook.pool.slots
      requires orderBook.sellOrders != [] && ask == orderBook.sellOrders[0].order && ask in orderBook.pool.slots
      requires bid.View() == orderBook.book.bids[0] && ask.View() == orderBook.book.asks[0]
      modifies orderBook, orderBook.pool.inUse, orderBook.pool.slots
      ensures orderBook.Valid()
      ensures trade == TradeOf(Whole, old(orderBook.book))
      ensures orderBook.book == Step(Whole, old(orderBook.book))
    {
      hide Holds, WellFormed;
      HoldsFacts(orderBook.Contents(), orderBook.book);
      ghost var b, w := orderBook.book, orderBook.Contents();
      var tradeQty := Min(bid.quantity, ask.quantity);
      trade := Trade(bid.id, ask.id, ask.price, tradeQty);
      FillBothHold(w, b, tradeQty);
      bid.UpdateFilled(tradeQty);
      ask.UpdateFilled(tradeQty);
      orderBook.store := orderBook.store[bid.slot := bid.View()][ask.slot := ask.View()];
      orderBook.book := Book(FillHead(b.bids, tradeQty), FillHead(b.asks, tradeQty));
      assert orderBook.Contents() == w.(store := orderBook.store);
      if bid.status == Filled {
        HoldsFacts(orderBook.Contents(), orderBook.book);
        HeadLeaves(orderBook.book, true);
        orderBook.RemoveOrder(bid.id);
      }
      if ask.status == Filled {
        HoldsFacts(orderBook.Contents(), orderBook.book);
        HeadLeaves(orderBook.book, false);
        orderBook.RemoveOrder(ask.id);
      }
    }

    /** The loop as coded, on every book on which it ends. How often it runs is fixed by the book: `crossings` only
        counts down. */
    method MatchOrders() returns (trades: seq<Trade>)
      requires orderBook.Valid() && Ends(Whole, orderBook.book)
      modifies orderBook, orderBook.pool.inUse, orderBook.pool.slots
      ensures orderBook.Valid() && !Crossed(orderBook.book)
      ensures forall n :: !Crossed(Reach(Whole, old(orderBook.book), n)) ==>
                && orderBook.book == Reach(Whole, old(orderBook.book), n)
                && trades == TradesIn(Whole, old(orderBook.book), n)
      ensures Tradable(old(orderBook.book)) ==>
                var o := Match(Whole, old(orderBook.book)); trades == o.trades && orderBook.book == o.book
    {
      hide Holds, WellFormed, Tradable, Match, Reach, TradesIn, Step;
      trades := [];
      ghost var b := orderBook.book;
      ghost var total: nat :| !Crossed(Reach(Whole, b, total));
      ghost var crossings := total;
      while true
        invariant orderBook.Valid()
        invariant Reach(Whole, orderBook.book, crossings) == Reach(Whole, b, total)
        invariant trades + TradesIn(Whole, orderBook.book, crossings) == TradesIn(Whole, b, total)
        decreases crossings
      {
        var bestBid := orderBook.GetBestBid();
        var bestAsk := orderBook.GetBestAsk();
        if bestBid == null || bestAsk == null {
          break;
        }
        if bestBid.price < bestAsk.price {
          break;
        }
        ReachCrossed(Whole, orderBook.book, crossings);
        ghost var rest := TradesIn(Whole, Step(Whole, orderBook.book), crossings - 1);
        var trade := Cross(bestBid, bestAsk);
        assert trades + ([trade] + rest) == trades + [trade] + rest;
        trades := trades + [trade];
        crossings := crossings - 1;
      }
      ReachUncrossed(Whole, orderBook.book, crossings);
      assert trades + [] == trades;
      ExitUnique(Whole, b, total);
      if Tradable(b) {
        TradableEnds(Whole, b);
      }
    }
  }

  /** Removing the head by its id leaves the rest of its side. */
  lemma HeadLeaves(b: Book, buy: bool)
    requires WellFormed(b)
    requires Side(b, buy) != []
    ensures var s := Side(b, buy);
            RemoveOrder(b, s[0].id) == if buy then b.(bids := s[1..]) else b.(asks := s[1..])
  {
    var s := Side(b, buy);
    assert DropAt(s, 0) == s[1..];
    NotRestingElsewhere(b, s[0].id, buy);
  }
}
