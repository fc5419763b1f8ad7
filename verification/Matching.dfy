/** The book as a value, one crossing of its heads, and a whole matching call. */
module Matching {
  import opened Orders

  /** Both sides in matching order: best price first, earlier arrival first among equal prices. */
  datatype Book = Book(bids: seq<Rec>, asks: seq<Rec>)

  function Side(b: Book, buy: bool): seq<Rec> {
    if buy then b.bids else b.asks
  }

  datatype Trade = Trade(buyId: int, sellId: int, price: real, quantity: int)

  /** How much one crossing trades: the code takes the smaller whole quantity (`Whole`);
      `Remaining` is the quantity that is still unfilled. */
  datatype Rule = Whole | Remaining

  /** The book left by a call, the trades in order, and the orders removed from each side, in order. */
  datatype Outcome = Outcome(book: Book, trades: seq<Trade>, goneBids: seq<Rec>, goneAsks: seq<Rec>)

  function Min(a: int, b: int): int {
    if a <= b then a else b
  }

  /** Does price `p` come strictly before price `q` on this side? */
  predicate Before(isBuy: bool, p: real, q: real) {
    if isBuy then p > q else p < q
  }

  predicate SortedSide(s: seq<Rec>, isBuy: bool) {
    forall i, j :: 0 <= i < j < |s| ==> !Before(isBuy, s[j].price, s[i].price)
  }

  predicate DistinctIds(s: seq<Rec>) {
    forall i, j :: 0 <= i < j < |s| ==> s[i].id != s[j].id
  }

  predicate Disjoint(s: seq<Rec>, t: seq<Rec>) {
    forall i, j :: 0 <= i < |s| && 0 <= j < |t| ==> s[i].id != t[j].id
  }

  /** Shape of a book: correct side, sorted, ids unique over the whole book. */
  predicate WellFormed(b: Book) {
    && (forall i :: 0 <= i < |b.bids| ==> b.bids[i].isBuy)
    && (forall i :: 0 <= i < |b.asks| ==> !b.asks[i].isBuy)
    && SortedSide(b.bids, true) && SortedSide(b.asks, false)
    && DistinctIds(b.bids) && DistinctIds(b.asks) && Disjoint(b.bids, b.asks)
  }

  predicate AllLive(s: seq<Rec>) {
    forall i :: 0 <= i < |s| ==> Live(s[i])
  }

  /** A book whose orders all have something left to trade. */
  predicate Tradable(b: Book) {
    AllLive(b.bids) && AllLive(b.asks)
  }

  predicate Crossed(b: Book) {
    |b.bids| > 0 && |b.asks| > 0 && b.bids[0].price >= b.asks[0].price
  }

  function Left(r: Rec): int {
    r.quantity - r.filled
  }

  function TradeQuantity(rule: Rule, bid: Rec, ask: Rec): int {
    match rule
    case Whole => Min(bid.quantity, ask.quantity)
    case Remaining => Min(Left(bid), Left(ask))
  }

  function TradeOf(rule: Rule, b: Book): Trade
    requires Crossed(b)
  {
    Trade(b.bids[0].id, b.asks[0].id, b.asks[0].price, TradeQuantity(rule, b.bids[0], b.asks[0]))
  }

  /** The side after its head traded `n`: a filled head leaves. */
  function Settle(s: seq<Rec>, n: int): seq<Rec>
    requires |s| > 0
  {
    var r := Fill(s[0], n);
    if r.status == Filled then s[1..] else [r] + s[1..]
  }

  function Leaver(s: seq<Rec>, n: int): seq<Rec>
    requires |s| > 0
  {
    var r := Fill(s[0], n);
    if r.status == Filled then [r] else []
  }

  function Step(rule: Rule, b: Book): Book
    requires Crossed(b)
  {
    var n := TradeOf(rule, b).quantity;
    Book(Settle(b.bids, n), Settle(b.asks, n))
  }

  function Size(b: Book): nat {
    |b.bids| + |b.asks|
  }

  /** A whole matching call. */
  function Match(rule: Rule, b: Book): Outcome
    requires Tradable(b)
    decreases Size(b)
  {
    if !Crossed(b) then
      Outcome(b, [], [], [])
    else
      StepProgress(rule, b);
      var t := TradeOf(rule, b);
      var rest := Match(rule, Step(rule, b));
      Outcome(rest.book, [t] + rest.trades,
              Leaver(b.bids, t.quantity) + rest.goneBids, Leaver(b.asks, t.quantity) + rest.goneAsks)
  }

  /** One crossing trades a positive quantity and removes at least one of the two heads. */
  lemma StepProgress(rule: Rule, b: Book)
    requires Tradable(b) && Crossed(b)
    ensures TradeOf(rule, b).quantity > 0
    ensures Tradable(Step(rule, b))
    ensures Size(Step(rule, b)) < Size(b)
    ensures Step(rule, b).bids == b.bids[1..] || Step(rule, b).asks == b.asks[1..]
  {
    var n := TradeOf(rule, b).quantity;
    assert Live(b.bids[0]) && Live(b.asks[0]);
    SettleLive(b.bids, n);
    SettleLive(b.asks, n);
  }

  lemma SettleLive(s: seq<Rec>, n: int)
    requires |s| > 0 && AllLive(s) && n > 0
    ensures AllLive(Settle(s, n))
  {
    assert Live(s[0]);
    var r := Fill(s[0], n);
    assert r.status != Filled ==> Live(r);
  }

  /** One crossing keeps the shape of the book. */
  lemma StepWellFormed(rule: Rule, b: Book)
    requires WellFormed(b) && Crossed(b)
    ensures WellFormed(Step(rule, b))
  {
  }
}
