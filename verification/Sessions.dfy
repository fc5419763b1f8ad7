/** Whole runs of the book: every sequence of additions, removals and matching calls, and the add-then-match tick
    loop. */
module Sessions {
  import opened Orders
  import opened Matching
  import opened MatchTheorems
  import opened Priority
  import opened BookOps

  // ---------- time priority over every run ----------

  datatype Op =
    | Add(id: int, symbol: string, price: real, quantity: int, isBuy: bool)
    | Remove(id: int)
    | MatchAll

  /** A book together with the moment each id last entered it. */
  datatype Session = Session(book: Book, clock: nat, stamps: map<int, nat>)

  /** Entries of equal price stand in the order of their arrival. */
  predicate TimeOrdered(s: seq<Rec>, st: Session) {
    && (forall i :: 0 <= i < |s| ==> s[i].id in st.stamps && st.stamps[s[i].id] < st.clock)
    && (forall i, j :: 0 <= i < j < |s| && s[i].price == s[j].price ==> st.stamps[s[i].id] < st.stamps[s[j].id])
  }

  ghost predicate Good(capacity: nat, st: Session) {
    && WellFormed(st.book) && Tradable(st.book) && Size(st.book) <= capacity
    && TimeOrdered(st.book.bids, st) && TimeOrdered(st.book.asks, st)
  }

  /** What the book asks of its callers: ids are unique among resting orders and quantities are positive. */
  predicate Legal(op: Op, st: Session) {
    op.Add? ==> op.quantity > 0 && !IsResting(st.book, op.id)
  }

  function Apply(capacity: nat, op: Op, st: Session): Session
    requires Tradable(st.book)
  {
    match op
    case Add(id, symbol, price, quantity, isBuy) =>
      if Size(st.book) == capacity then st
      else
        var r := Fresh(id, symbol, price, quantity, isBuy);
        Session(AddOrder(st.book, r), st.clock + 1, st.stamps[id := st.clock])
    case Remove(id) => st.(book := RemoveOrder(st.book, id))
    case MatchAll => st.(book := Match(Whole, st.book).book)
  }

  /** Everything behind the insertion point has a strictly worse price. */
  lemma WorseBehind(s: seq<Rec>, r: Rec)
    requires SortedSide(s, r.isBuy)
    ensures forall i :: UpperBound(Prices(s), r.price, r.isBuy) <= i < |s| ==> s[i].price != r.price
  {
    var k := UpperBound(Prices(s), r.price, r.isBuy);
    assert k < |s| ==> Before(r.isBuy, r.price, Prices(s)[k]);
  }

  lemma InsertPair(s: seq<Rec>, r: Rec, k: nat, st: Session, i: nat, j: nat)
    requires TimeOrdered(s, st) && k <= |s| && forall m :: k <= m < |s| ==> s[m].price != r.price
    requires forall m :: 0 <= m < |s| ==> s[m].id != r.id
    requires i < j <= |s| && InsertAt(s, k, r)[i].price == InsertAt(s, k, r)[j].price
    ensures var stamps := st.stamps[r.id := st.clock]; var x, y := InsertAt(s, k, r)[i].id, InsertAt(s, k, r)[j].id;
            x in stamps && y in stamps && stamps[x] < stamps[y]
  {
    InsertAtElements(s, k, r, i);
    InsertAtElements(s, k, r, j);
    if j == k {
      assert st.stamps[s[i].id] < st.clock;
    } else if i != k {
      var i', j' := if i < k then i else i - 1, if j < k then j else j - 1;
      assert s[i'].price == s[j'].price && st.stamps[s[i'].id] < st.stamps[s[j'].id];
    }
  }

  lemma InsertTimeOrdered(s: seq<Rec>, r: Rec, st: Session)
    requires SortedSide(s, r.isBuy) && TimeOrdered(s, st)
    requires forall i :: 0 <= i < |s| ==> s[i].id != r.id
    ensures TimeOrdered(Insert(s, r), Session(st.book, st.clock + 1, st.stamps[r.id := st.clock]))
  {
    var s', stamps := Insert(s, r), st.stamps[r.id := st.clock];
    forall i | 0 <= i < |s'| ensures s'[i].id in stamps && stamps[s'[i].id] < st.clock + 1 {
      InsertAtElements(s, UpperBound(Prices(s), r.price, r.isBuy), r, i);
    }
    WorseBehind(s, r);
    forall i, j | 0 <= i < j < |s'| && s'[i].price == s'[j].price ensures stamps[s'[i].id] < stamps[s'[j].id] {
      InsertPair(s, r, UpperBound(Prices(s), r.price, r.isBuy), st, i, j);
    }
  }

  lemma InsertLive(s: seq<Rec>, r: Rec)
    requires AllLive(s) && Live(r)
    ensures AllLive(Insert(s, r))
  {
    forall i | 0 <= i <= |s| ensures Live(Insert(s, r)[i]) {
      InsertAtElements(s, UpperBound(Prices(s), r.price, r.isBuy), r, i);
    }
  }

  lemma AddKeepsGood(capacity: nat, r: Rec, st: Session)
    requires Good(capacity, st) && !IsResting(st.book, r.id) && Live(r) && Size(st.book) < capacity
    ensures Good(capacity, Session(AddOrder(st.book, r), st.clock + 1, st.stamps[r.id := st.clock]))
  {
    var st' := Session(AddOrder(st.book, r), st.clock + 1, st.stamps[r.id := st.clock]);
    AddWellFormed(st.book, r);
    NotResting(st.book, r.id);
    var s := Side(st.book, r.isBuy);
    InsertTimeOrdered(s, r, st);
    assert Side(st'.book, r.isBuy) == Insert(s, r) && Side(st'.book, !r.isBuy) == Side(st.book, !r.isBuy);
    assert TimeOrdered(Side(st'.book, true), st') && TimeOrdered(Side(st'.book, false), st');
    InsertLive(s, r);
  }

  lemma DropKeepsGood(s: seq<Rec>, k: nat, st: Session, st': Session)
    requires k < |s| && TimeOrdered(s, st) && AllLive(s) && st'.clock == st.clock && st'.stamps == st.stamps
    ensures TimeOrdered(DropAt(s, k), st') && AllLive(DropAt(s, k))
  {
    assert forall i :: 0 <= i < |DropAt(s, k)| ==> DropAt(s, k)[i] == s[if i < k then i else i + 1];
  }

  lemma RemoveKeepsGood(capacity: nat, id: int, st: Session)
    requires Good(capacity, st)
    ensures Good(capacity, st.(book := RemoveOrder(st.book, id)))
  {
    RemoveWellFormed(st.book, id);
    var st' := st.(book := RemoveOrder(st.book, id));
    var i, j := Position(st.book.bids, id), Position(st.book.asks, id);
    if i < |st.book.bids| {
      DropKeepsGood(st.book.bids, i, st, st');
    } else if j < |st.book.asks| {
      DropKeepsGood(st.book.asks, j, st, st');
    }
  }

  /** A side of which a matching call left a tail is still in time order. */
  lemma TailTimeOrdered(s: seq<Rec>, s': seq<Rec>, gone: seq<Rec>, trades: seq<Trade>, buy: bool,
                        st: Session, st': Session)
    requires TimeOrdered(s, st) && FilledBy(s, gone + s', trades, buy)
    requires st'.clock == st.clock && st'.stamps == st.stamps
    ensures TimeOrdered(s', st')
  {
    var d := |gone|;
    forall i | 0 <= i < |s'| ensures s'[i].id == s[d + i].id && s'[i].price == s[d + i].price {
      assert (gone + s')[d + i] == s'[i];
    }
  }

  lemma MatchKeepsGood(capacity: nat, st: Session)
    requires Good(capacity, st)
    ensures Good(capacity, st.(book := Match(Whole, st.book).book))
  {
    var o := Match(Whole, st.book);
    var st' := st.(book := o.book);
    MatchUncrosses(Whole, st.book);
    MatchTradeCount(Whole, st.book);
    MatchSettles(Whole, st.book, true);
    MatchSettles(Whole, st.book, false);
    TailTimeOrdered(st.book.bids, o.book.bids, o.goneBids, o.trades, true, st, st');
    TailTimeOrdered(st.book.asks, o.book.asks, o.goneAsks, o.trades, false, st, st');
  }

  lemma ApplyKeepsGood(capacity: nat, op: Op, st: Session)
    requires Good(capacity, st) && Legal(op, st)
    ensures Good(capacity, Apply(capacity, op, st))
  {
    match op
    case Add(id, symbol, price, quantity, isBuy) =>
      if Size(st.book) < capacity {
        AddKeepsGood(capacity, Fresh(id, symbol, price, quantity, isBuy), st);
      }
    case Remove(id) => RemoveKeepsGood(capacity, id, st);
    case MatchAll => MatchKeepsGood(capacity, st);
  }

  /** `end` is reached from `st` by running the operations in order, each legal when it is applied. */
  ghost predicate Runs(capacity: nat, ops: seq<Op>, st: Session, end: Session) {
    if ops == [] then end == st
    else Tradable(st.book) && Legal(ops[0], st) && Runs(capacity, ops[1..], Apply(capacity, ops[0], st), end)
  }

  /** Over every run the book stays well formed and within the pool, and both sides stay in price-time order. */
  lemma {:induction false} RunKeepsGood(capacity: nat, ops: seq<Op>, st: Session, end: Session)
    requires Good(capacity, st) && Runs(capacity, ops, st, end)
    ensures Good(capacity, end)
    decreases |ops|
  {
    if ops != [] {
      ApplyKeepsGood(capacity, ops[0], st);
      RunKeepsGood(capacity, ops[1..], Apply(capacity, ops[0], st), end);
    }
  }

  const EMPTY: Session := Session(Book([], []), 0, map[])

  lemma EveryRunFromEmpty(capacity: nat, ops: seq<Op>, end: Session)
    requires Runs(capacity, ops, EMPTY, end)
    ensures Good(capacity, end)
  {
    RunKeepsGood(capacity, ops, EMPTY, end);
  }

  // ---------- the tick loop ----------

  /** No bid crosses an ask unless one of the two is the order `id`. */
  predicate OnlyCrosses(b: Book, id: int) {
    forall i, j :: 0 <= i < |b.bids| && 0 <= j < |b.asks| && b.bids[i].id != id && b.asks[j].id != id
      ==> b.bids[i].price < b.asks[j].price
  }

  predicate AllName(trades: seq<Trade>, id: int) {
    forall i :: 0 <= i < |trades| ==> trades[i].buyId == id || trades[i].sellId == id
  }

  lemma {:induction false} OnlyNewcomerTrades(b: Book, id: int)
    requires Tradable(b) && OnlyCrosses(b, id)
    ensures AllName(Match(Whole, b).trades, id)
    decreases Size(b)
  {
    if Crossed(b) {
      StepProgress(Whole, b);
      var c, n := Step(Whole, b), TradeOf(Whole, b).quantity;
      SettlePositions(b.bids, n);
      SettlePositions(b.asks, n);
      assert OnlyCrosses(c, id);
      OnlyNewcomerTrades(c, id);
      assert b.bids[0].id == id || b.asks[0].id == id;
      var t, rest := TradeOf(Whole, b), Match(Whole, c).trades;
      assert AllName([t] + rest, id);
    }
  }

  /** One tick: add the order if the pool has room, then match. */
  function Tick(capacity: nat, b: Book, r: Rec): Outcome
    requires Tradable(b) && WellFormed(b) && Live(r) && !IsResting(b, r.id)
  {
    if Size(b) == capacity then Match(Whole, b)
    else
      AddTradable(b, r);
      Match(Whole, AddOrder(b, r))
  }

  lemma AddTradable(b: Book, r: Rec)
    requires Tradable(b) && WellFormed(b) && Live(r) && !IsResting(b, r.id)
    ensures Tradable(AddOrder(b, r)) && WellFormed(AddOrder(b, r))
  {
    AddWellFormed(b, r);
    var s := Side(b, r.isBuy);
    InsertLive(s, r);
  }

  /** The newcomer is one party of the trade, which is at the ask's limit and so no worse for the newcomer than its
      own. */
  predicate WithNewcomer(t: Trade, r: Rec) {
    && Party(t, r.isBuy) == r.id
    && (if r.isBuy then t.price <= r.price else t.price == r.price)
  }

  lemma AddCrossesOnlyNewcomer(b: Book, r: Rec)
    requires WellFormed(b) && !IsResting(b, r.id) && !Crossed(b)
    ensures OnlyCrosses(AddOrder(b, r), r.id)
  {
    var c, s := AddOrder(b, r), Side(b, r.isBuy);
    forall i, j | 0 <= i < |c.bids| && 0 <= j < |c.asks| && c.bids[i].id != r.id && c.asks[j].id != r.id
      ensures c.bids[i].price < c.asks[j].price
    {
      InsertAtElements(s, UpperBound(Prices(s), r.price, r.isBuy), r, if r.isBuy then i else j);
      assert c.bids[i].price <= b.bids[0].price && b.asks[0].price <= c.asks[j].price;
    }
  }

  lemma CrossesNewcomer(b: Book, r: Rec, t: Trade, x: nat, y: nat)
    requires WellFormed(b) && !IsResting(b, r.id) && Crosses(AddOrder(b, r), t, x, y)
    requires t.buyId == r.id || t.sellId == r.id
    ensures WithNewcomer(t, r)
  {
    var s := Side(b, r.isBuy);
    NotResting(b, r.id);
    InsertAtElements(s, UpperBound(Prices(s), r.price, r.isBuy), r, if r.isBuy then x else y);
  }

  /** On an uncrossed book every trade of a tick has the new order as one party, and the tick leaves the book
      uncrossed. */
  lemma TickTradesNewcomer(capacity: nat, b: Book, r: Rec)
    requires Tradable(b) && WellFormed(b) && Live(r) && !IsResting(b, r.id) && !Crossed(b)
    ensures var o := Tick(capacity, b, r);
            && !Crossed(o.book) && Tradable(o.book) && WellFormed(o.book)
            && (forall i :: 0 <= i < |o.trades| ==> WithNewcomer(o.trades[i], r))
            && forall i :: 0 <= i < |o.trades| ==>
                 if r.isBuy then o.trades[i].buyId == r.id && o.trades[i].price <= r.price
                 else o.trades[i].sellId == r.id && o.trades[i].price == r.price
  {
    if Size(b) != capacity {
      var c := AddOrder(b, r);
      AddTradable(b, r);
      MatchUncrosses(Whole, c);
      AddCrossesOnlyNewcomer(b, r);
      OnlyNewcomerTrades(c, r.id);
      var xs, ys := MatchWalks(Whole, c);
      var trades := Match(Whole, c).trades;
      forall i | 0 <= i < |trades| ensures WithNewcomer(trades[i], r) {
        assert Crosses(c, trades[i], xs[i], ys[i]);
        CrossesNewcomer(b, r, trades[i], xs[i], ys[i]);
      }
    }
  }

  /** A book between two ticks, and orders still to come: positive quantities and ids of their own. */
  ghost predicate Ready(b: Book, rs: seq<Rec>) {
    && WellFormed(b) && Tradable(b) && !Crossed(b)
    && (forall i :: 0 <= i < |rs| ==> Live(rs[i]) && !IsResting(b, rs[i].id))
    && DistinctIds(rs)
  }

  /** Every sequence of new orders with positive quantities and ids of their own can be run tick by tick from the empty
      book. */
  lemma NewOrdersAreReady(rs: seq<Rec>)
    requires forall i :: 0 <= i < |rs| ==> rs[i].quantity > 0 && rs[i].filled == 0 && rs[i].status == New
    requires forall i, j :: 0 <= i < j < |rs| ==> rs[i].id != rs[j].id
    ensures Ready(Book([], []), rs)
  {
    var b := Book([], []);
    forall i | 0 <= i < |rs| ensures Live(rs[i]) && !IsResting(b, rs[i].id) {
      assert |b.bids| == 0 && |b.asks| == 0;
    }
  }

  lemma MatchRestsOnlyOld(b: Book, id: int)
    requires WellFormed(b) && Tradable(b) && !IsResting(b, id)
    ensures !IsResting(Match(Whole, b).book, id)
  {
    hide Match, Tradable;
    var o := Match(Whole, b);
    NotResting(b, id);
    MatchSettles(Whole, b, true);
    MatchSettles(Whole, b, false);
    forall i | 0 <= i < |o.book.bids| ensures o.book.bids[i].id != id {
      assert (o.goneBids + o.book.bids)[|o.goneBids| + i] == o.book.bids[i];
    }
    forall i | 0 <= i < |o.book.asks| ensures o.book.asks[i].id != id {
      assert (o.goneAsks + o.book.asks)[|o.goneAsks| + i] == o.book.asks[i];
    }
  }

  lemma AddRestsOnlyNew(b: Book, r: Rec, id: int)
    requires !IsResting(b, id) && id != r.id
    ensures !IsResting(AddOrder(b, r), id)
  {
    var s := Side(b, r.isBuy);
    NotResting(b, id);
    forall i | 0 <= i <= |s| ensures Insert(s, r)[i].id != id {
      InsertAtElements(s, UpperBound(Prices(s), r.price, r.isBuy), r, i);
    }
  }

  lemma TickKeepsReady(capacity: nat, b: Book, rs: seq<Rec>)
    requires Ready(b, rs) && rs != []
    ensures Ready(Tick(capacity, b, rs[0]).book, rs[1..])
  {
    var r := rs[0];
    TickTradesNewcomer(capacity, b, r);
    var c := if Size(b) == capacity then b else AddOrder(b, r);
    AddTradable(b, r);
    forall i | 0 <= i < |rs[1..]| ensures Live(rs[1..][i]) && !IsResting(Match(Whole, c).book, rs[1..][i].id) {
      assert rs[1..][i] == rs[i + 1];
      AddRestsOnlyNew(b, r, rs[i + 1].id);
      MatchRestsOnlyOld(c, rs[i + 1].id);
    }
  }

  /** The book after the first `k` ticks of a run. */
  ghost function AfterTicks(capacity: nat, b: Book, rs: seq<Rec>, k: nat): (c: Book)
    requires Ready(b, rs) && k <= |rs|
    ensures Ready(c, rs[k..])
  {
    if k == 0 then assert rs[0..] == rs; b
    else
      var c := AfterTicks(capacity, b, rs, k - 1);
      TickKeepsReady(capacity, c, rs[k - 1..]);
      assert rs[k - 1..][1..] == rs[k..];
      Tick(capacity, c, rs[k - 1]).book
  }

  lemma ReadyNext(capacity: nat, b: Book, rs: seq<Rec>, k: nat)
    requires Ready(b, rs) && k < |rs|
    ensures var c := AfterTicks(capacity, b, rs, k);
            && Tradable(c) && WellFormed(c) && !Crossed(c) && Live(rs[k]) && !IsResting(c, rs[k].id)
            && Tradable(AddOrder(c, rs[k]))
  {
    var c := AfterTicks(capacity, b, rs, k);
    assert rs[k..][0] == rs[k];
    AddTradable(c, rs[k]);
  }

  /** Tick `k` of a run. */
  ghost function TickOf(capacity: nat, b: Book, rs: seq<Rec>, k: nat): Outcome
    requires Ready(b, rs) && k < |rs|
  {
    ReadyNext(capacity, b, rs, k);
    Tick(capacity, AfterTicks(capacity, b, rs, k), rs[k])
  }

  lemma NextTick(capacity: nat, b: Book, rs: seq<Rec>, k: nat)
    requires Ready(b, rs) && k < |rs|
    ensures var c, o := AfterTicks(capacity, b, rs, k), TickOf(capacity, b, rs, k);
            && Tradable(c) && Live(rs[k]) && !IsResting(c, rs[k].id) && Tradable(AddOrder(c, rs[k]))
            && o == Match(Whole, if Size(c) == capacity then c else AddOrder(c, rs[k]))
            && AfterTicks(capacity, b, rs, k + 1) == o.book
  {
    ReadyNext(capacity, b, rs, k);
  }

  /** In every run of the tick loop, the book is uncrossed before and after each tick and each trade of a tick is with
      the order that the tick added. */
  lemma EveryTick(capacity: nat, b: Book, rs: seq<Rec>, k: nat)
    requires Ready(b, rs) && k < |rs|
    ensures !Crossed(AfterTicks(capacity, b, rs, k)) && !Crossed(AfterTicks(capacity, b, rs, k + 1))
    ensures forall i :: 0 <= i < |TickOf(capacity, b, rs, k).trades| ==>
              WithNewcomer(TickOf(capacity, b, rs, k).trades[i], rs[k])
  {
    ReadyNext(capacity, b, rs, k);
    TickTradesNewcomer(capacity, AfterTicks(capacity, b, rs, k), rs[k]);
  }
}
