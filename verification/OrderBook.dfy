/** The limit order book object: pooled orders, two ordered multimaps and an index by id. */
module OrderBook {
  import opened Orders
  import opened Matching
  import opened BookOps
  import opened Pool
  import opened Layout

  class LimitOrderBook {
    const pool: MemoryPool
    var buyOrders: seq<Entry>
    var sellOrders: seq<Entry>
    var idLookup: map<int, Order>
    ghost var store: seq<Rec>
    ghost var book: Book

    ghost function Contents(): Snapshot
      reads this, pool.inUse
    {
      Snapshot(pool.slots, store, pool.inUse[..], idLookup, buyOrders, sellOrders)
    }

    /** `store` is what the slots contain, and slots, index and multimaps together hold `book`. */
    ghost predicate Valid()
      reads this, pool.inUse, pool.slots
    {
      && pool.Valid()
      && Holds(Contents(), book)
      && forall k :: 0 <= k < |pool.slots| ==> pool.slots[k].View() == store[k]
    }

    constructor (poolSize: nat)
      ensures Valid() && book == Book([], []) && |pool.slots| == poolSize
      ensures fresh(pool) && fresh(pool.inUse) && forall i :: 0 <= i < poolSize ==> fresh(pool.slots[i])
    {
      var p := new MemoryPool(poolSize);
      pool := p;
      buyOrders, sellOrders, idLookup := [], [], map[];
      book := Book([], []);
      store := seq(poolSize, i requires 0 <= i < |p.slots| reads p.slots => p.slots[i].View());
    }

    /** Refused exactly when every slot is taken, and then the book is unchanged. */
    method AddOrder(id: int, symbol: string, price: real, quantity: int, isBuy: bool) returns (ok: bool)
      requires Valid() && !IsResting(book, id)
      modifies this, pool.inUse, pool.slots
      ensures Valid()
      ensures ok <==> Size(old(book)) < |pool.slots|
      ensures book == if ok then BookOps.AddOrder(old(book), Fresh(id, symbol, price, quantity, isBuy)) else old(book)
    {
      hide Holds, WellFormed, IsResting, BookOps.AddOrder, InsertAt, UpperBound, Keys, Added, Used, Shaped;
      HoldsFacts(Contents(), book);
      var order := pool.Allocate(id, symbol, price, quantity, isBuy);
      if order == null {
        assert Contents() == old(Contents());
        return false;
      }
      ghost var r := Fresh(id, symbol, price, quantity, isBuy);
      AddHolds(old(Contents()), book, r, order.slot);
      Emplace(price, order, isBuy);
      idLookup := idLookup[id := order];
      store := store[order.slot := r];
      book := BookOps.AddOrder(book, r);
      AddedIs(old(Contents()), r, order.slot, Contents());
      return true;
    }

    /** Puts a node into the side's multimap, behind every node of an equal or better price. */
    method Emplace(price: real, order: Order, isBuy: bool)
      modifies this`buyOrders, this`sellOrders
      ensures buyOrders == if isBuy
        then InsertAt(old(buyOrders), UpperBound(Keys(old(buyOrders)), price, true), Entry(price, order))
        else old(buyOrders)
      ensures sellOrders == if isBuy then old(sellOrders)
        else InsertAt(old(sellOrders), UpperBound(Keys(old(sellOrders)), price, false), Entry(price, order))
    {
      if isBuy {
        buyOrders := InsertAt(buyOrders, UpperBound(Keys(buyOrders), price, true), Entry(price, order));
      } else {
        sellOrders := InsertAt(sellOrders, UpperBound(Keys(sellOrders), price, false), Entry(price, order));
      }
    }

    method RemoveOrder(id: int)
      requires Valid()
      modifies this, pool.inUse
      ensures Valid()
      ensures book == BookOps.RemoveOrder(old(book), id)
      ensures store == old(store)
    {
      hide Holds, WellFormed, DropAt, NodeOf, Used;
      HoldsFacts(Contents(), book);
      if id !in idLookup {
        assert !IsResting(book, id);
        return;
      }
      var order := idLookup[id];
      ghost var i, j := Position(book.bids, id), Position(book.asks, id);
      ghost var buy := i < |book.bids|;
      assert IsResting(book, id);
      RemoveHolds(Contents(), book, id, buy, if buy then i else j);
      assert order.View() == store[order.slot];
      if order.isBuy {
        buyOrders := DropAt(buyOrders, NodeOf(buyOrders, order));
      } else {
        sellOrders := DropAt(sellOrders, NodeOf(sellOrders, order));
      }
      pool.Deallocate(order);
      idLookup := idLookup - {id};
      book := BookOps.RemoveOrder(book, id);
      assert Contents() == Removed(old(Contents()), id, order, buy);
    }

    method GetBestBid() returns (best: Order?)
      requires Valid()
      ensures best == null <==> book.bids == []
      ensures best != null ==>
        && buyOrders != [] && best == buyOrders[0].order && best in pool.slots && best.View() == book.bids[0]
    {
      if buyOrders == [] {
        return null;
      }
      assert EntryHolds(Contents(), buyOrders[0], book.bids[0]);
      return buyOrders[0].order;
    }

    method GetBestAsk() returns (best: Order?)
      requires Valid()
      ensures best == null <==> book.asks == []
      ensures best != null ==>
        && sellOrders != [] && best == sellOrders[0].order && best in pool.slots && best.View() == book.asks[0]
    {
      if sellOrders == [] {
        return null;
      }
      assert EntryHolds(Contents(), sellOrders[0], book.asks[0]);
      return sellOrders[0].order;
    }
  }
}
