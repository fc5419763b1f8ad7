/** The matching loop crossing by crossing: on which books it ends, and where. */
module Crossings {
  import opened Orders
  import opened Matching
  import opened BookOps

  /** The book after `n` crossings, or after fewer if the loop stops before. */
  function Reach(rule: Rule, b: Book, n: nat): Book
    decreases n
  {
    if n == 0 || !Crossed(b) then b else Reach(rule, Step(rule, b), n - 1)
  }

  function TradesIn(rule: Rule, b: Book, n: nat): seq<Trade>
    decreases n
  {
    if n == 0 || !Crossed(b) then [] else [TradeOf(rule, b)] + TradesIn(rule, Step(rule, b), n - 1)
  }

  /** The loop ends: after some number of crossings the heads no longer cross. */
  ghost predicate Ends(rule: Rule, b: Book) {
    exists n :: !Crossed(Reach(rule, b, n))
  }

  lemma ReachUncrossed(rule: Rule, b: Book, n: nat)
    requires !Crossed(b)
    ensures Reach(rule, b, n) == b && TradesIn(rule, b, n) == []
  {
  }

  lemma ReachCrossed(rule: Rule, b: Book, n: nat)
    requires Crossed(b) && !Crossed(Reach(rule, b, n))
    ensures n > 0 && Reach(rule, b, n) == Reach(rule, Step(rule, b), n - 1)
    ensures TradesIn(rule, b, n) == [TradeOf(rule, b)] + TradesIn(rule, Step(rule, b), n - 1)
  {
  }

  /** Where the loop ends does not depend on how the crossings are counted. */
  lemma {:induction false} SameExit(rule: Rule, b: Book, m: nat, n: nat)
    requires !Crossed(Reach(rule, b, m)) && !Crossed(Reach(rule, b, n))
    ensures Reach(rule, b, m) == Reach(rule, b, n) && TradesIn(rule, b, m) == TradesIn(rule, b, n)
    decreases m
  {
    if Crossed(b) {
      SameExit(rule, Step(rule, b), m - 1, n - 1);
    }
  }

  lemma ExitUnique(rule: Rule, b: Book, m: nat)
    requires !Crossed(Reach(rule, b, m))
    ensures forall n :: !Crossed(Reach(rule, b, n)) ==>
              Reach(rule, b, n) == Reach(rule, b, m) && TradesIn(rule, b, n) == TradesIn(rule, b, m)
  {
    forall n | !Crossed(Reach(rule, b, n))
      ensures Reach(rule, b, n) == Reach(rule, b, m) && TradesIn(rule, b, n) == TradesIn(rule, b, m)
    {
      SameExit(rule, b, n, m);
    }
  }

  /** Every tradable book is uncrossed after as many crossings as the call makes trades, and those are the call. */
  lemma {:induction false} ReachIsMatch(rule: Rule, b: Book)
    requires Tradable(b)
    ensures var o := Match(rule, b);
            Reach(rule, b, |o.trades|) == o.book && TradesIn(rule, b, |o.trades|) == o.trades && !Crossed(o.book)
    decreases Size(b)
  {
    if Crossed(b) {
      StepProgress(rule, b);
      ReachIsMatch(rule, Step(rule, b));
      var o, rest := Match(rule, b), Match(rule, Step(rule, b));
      assert o.trades == [TradeOf(rule, b)] + rest.trades && |o.trades| - 1 == |rest.trades|;
    }
  }

  lemma TradableEnds(rule: Rule, b: Book)
    requires Tradable(b)
    ensures Ends(rule, b)
    ensures forall n :: !Crossed(Reach(rule, b, n)) ==>
              Reach(rule, b, n) == Match(rule, b).book && TradesIn(rule, b, n) == Match(rule, b).trades
  {
    ReachIsMatch(rule, b);
    ExitUnique(rule, b, |Match(rule, b).trades|);
  }

  // ---------- a quantity of zero ----------

  /** An order the fill routine has brought to its present state, of any quantity that is not negative. */
  predicate Resting(r: Rec) {
    Live(r) || (r.quantity == 0 && r.filled == 0 && r.status == New)
  }

  /** One crossing removes an order exactly when both head quantities are positive; otherwise it changes nothing at
      all. */
  lemma ProgressExactly(rule: Rule, b: Book)
    requires Crossed(b) && Resting(b.bids[0]) && Resting(b.asks[0])
    ensures Size(Step(rule, b)) < Size(b) <==> b.bids[0].quantity > 0 && b.asks[0].quantity > 0
    ensures Step(rule, b) == b <==> b.bids[0].quantity == 0 || b.asks[0].quantity == 0
  {
    assert [b.bids[0]] + b.bids[1..] == b.bids && [b.asks[0]] + b.asks[1..] == b.asks;
  }

  /** A head of quantity 0 that crosses stops the book for ever: the loop makes empty trades and never ends. */
  lemma {:induction false} ZeroHeadLoops(rule: Rule, b: Book, n: nat)
    requires Crossed(b) && Resting(b.bids[0]) && Resting(b.asks[0])
    requires b.bids[0].quantity == 0 || b.asks[0].quantity == 0
    ensures Reach(rule, b, n) == b
    ensures |TradesIn(rule, b, n)| == n
    ensures forall i :: 0 <= i < n ==> TradesIn(rule, b, n)[i].quantity == 0
  {
    if n > 0 {
      ProgressExactly(rule, b);
      ZeroHeadLoops(rule, b, n - 1);
    }
  }

  lemma ZeroHeadNeverEnds(rule: Rule, b: Book)
    requires Crossed(b) && Resting(b.bids[0]) && Resting(b.asks[0])
    requires b.bids[0].quantity == 0 || b.asks[0].quantity == 0
    ensures !Ends(rule, b)
  {
    forall n ensures Crossed(Reach(rule, b, n)) {
      ZeroHeadLoops(rule, b, n);
    }
  }

  lemma UncrossedEnds(rule: Rule, b: Book)
    requires !Crossed(b)
    ensures Ends(rule, b)
  {
    assert !Crossed(Reach(rule, b, 0));
  }

  /** An order that makes an uncrossed book cross is the head of its side, in front of the side as it was. */
  lemma CrossingNewcomerLeads(b: Book, r: Rec)
    requires !Crossed(b) && Crossed(AddOrder(b, r))
    ensures AddOrder(b, r) == if r.isBuy then b.(bids := [r] + b.bids) else b.(asks := [r] + b.asks)
  {
    var s := Side(b, r.isBuy);
    var k := UpperBound(Prices(s), r.price, r.isBuy);
    InsertAtElements(s, k, r, 0);
    assert k == 0;
    assert s[..0] + [r] + s[0..] == [r] + s;
  }

  predicate AllResting(s: seq<Rec>) {
    forall i :: 0 <= i < |s| ==> Resting(s[i])
  }

  /** A book left by additions of quantities that are not negative and by calls that ended. */
  predicate RestingBook(b: Book) {
    WellFormed(b) && AllResting(b.bids) && AllResting(b.asks)
  }

  /** Such books are closed under additions and under any number of crossings. */
  lemma {:induction false} StaysResting(rule: Rule, b: Book, n: nat)
    requires RestingBook(b)
    ensures RestingBook(Reach(rule, b, n))
    decreases n
  {
    if n > 0 && Crossed(b) {
      var bid, ask := b.bids[0], b.asks[0];
      if bid.quantity == 0 || ask.quantity == 0 {
        ProgressExactly(rule, b);
      } else {
        StepWellFormed(rule, b);
        var n := TradeOf(rule, b).quantity;
        SettleResting(b.bids, n);
        SettleResting(b.asks, n);
      }
      StaysResting(rule, Step(rule, b), n - 1);
    }
  }

  lemma SettleResting(s: seq<Rec>, n: int)
    requires |s| > 0 && AllResting(s) && s[0].quantity > 0 && n > 0
    ensures AllResting(Settle(s, n))
  {
    var r := Fill(s[0], n);
    assert r.status != Filled ==> Live(r);
  }

  lemma AddStaysResting(b: Book, r: Rec)
    requires RestingBook(b) && Resting(r) && !IsResting(b, r.id)
    ensures RestingBook(AddOrder(b, r))
  {
    AddWellFormed(b, r);
    var s := Side(b, r.isBuy);
    forall i | 0 <= i <= |s| ensures Resting(Insert(s, r)[i]) {
      InsertAtElements(s, UpperBound(Prices(s), r.price, r.isBuy), r, i);
    }
  }

  lemma RemoveStaysResting(b: Book, id: int)
    requires RestingBook(b)
    ensures RestingBook(RemoveOrder(b, id))
  {
    RemoveWellFormed(b, id);
    RemoveTakesOnly(b, id);
    WithoutResting(b.bids, id);
    WithoutResting(b.asks, id);
  }

  lemma {:induction false} WithoutResting(s: seq<Rec>, id: int)
    requires AllResting(s)
    ensures AllResting(Without(s, id))
  {
    if s != [] {
      assert Resting(s[0]);
      WithoutResting(s[1..], id);
    }
  }

  // ---------- on which books the loop ends ----------

  /** The orders in front of the first one of quantity 0. */
  function Front(s: seq<Rec>): (r: seq<Rec>)
    ensures |r| <= |s|
  {
    if s == [] || s[0].quantity == 0 then [] else [s[0]] + Front(s[1..])
  }

  function Behind(s: seq<Rec>): seq<Rec> {
    s[|Front(s)|..]
  }

  lemma {:induction false} FrontLive(s: seq<Rec>)
    requires AllResting(s)
    ensures AllLive(Front(s)) && Front(s) + Behind(s) == s
  {
    if s != [] && s[0].quantity != 0 {
      assert Resting(s[0]);
      FrontLive(s[1..]);
      assert Behind(s) == Behind(s[1..]);
      assert s == [s[0]] + s[1..];
    }
  }

  /** What is left when the fronts of the two sides have been matched against each other. */
  function FrontsMatched(rule: Rule, b: Book): Book
    requires AllResting(b.bids) && AllResting(b.asks)
  {
    FrontLive(b.bids);
    FrontLive(b.asks);
    var rest := Match(rule, Book(Front(b.bids), Front(b.asks))).book;
    Book(rest.bids + Behind(b.bids), rest.asks + Behind(b.asks))
  }

  lemma FrontSettles(s: seq<Rec>, n: int)
    requires s != [] && s[0].quantity != 0
    ensures Front(s) != [] && Front(s)[0] == s[0]
    ensures Front(Settle(s, n)) == Settle(Front(s), n) && Behind(Settle(s, n)) == Behind(s)
  {
    var r := Fill(s[0], n);
    assert Front(s)[1..] == Front(s[1..]) && Behind(s) == Behind(s[1..]);
    if r.status != Filled {
      assert ([r] + s[1..])[1..] == s[1..];
      assert Behind([r] + s[1..]) == Behind(s[1..]);
    }
  }

  lemma FrontsStep(rule: Rule, b: Book)
    requires RestingBook(b) && Crossed(b) && b.bids[0].quantity != 0 && b.asks[0].quantity != 0
    ensures RestingBook(Step(rule, b)) && Size(Step(rule, b)) < Size(b)
    ensures FrontsMatched(rule, b) == FrontsMatched(rule, Step(rule, b))
  {
    var c, n := Step(rule, b), TradeOf(rule, b).quantity;
    StaysResting(rule, b, 1);
    assert Reach(rule, b, 1) == Reach(rule, c, 0) == c;
    assert Resting(b.bids[0]) && Resting(b.asks[0]);
    ProgressExactly(rule, b);
    FrontLive(b.bids);
    FrontLive(b.asks);
    FrontSettles(b.bids, n);
    FrontSettles(b.asks, n);
    assert Step(rule, Book(Front(b.bids), Front(b.asks))) == Book(Front(c.bids), Front(c.asks));
  }

  /** On every book without negative quantities, crossed or not: match the orders in front of the first quantity 0 of
      each side; the loop ends if and only if what is left, with the rest of both sides behind it, does not cross. */
  lemma {:induction false} EndsOnAnyBook(rule: Rule, b: Book)
    requires RestingBook(b)
    ensures Ends(rule, b) <==> !Crossed(FrontsMatched(rule, b))
    decreases Size(b)
  {
    FrontLive(b.bids);
    FrontLive(b.asks);
    if Crossed(b) && b.bids[0].quantity != 0 && b.asks[0].quantity != 0 {
      FrontsStep(rule, b);
      EndsLater(rule, b);
      EndsOnAnyBook(rule, Step(rule, b));
    } else {
      assert !Crossed(Book(Front(b.bids), Front(b.asks)));
      assert FrontsMatched(rule, b) == b;
      if Crossed(b) {
        ZeroHeadNeverEnds(rule, b);
      } else {
        UncrossedEnds(rule, b);
      }
    }
  }

  lemma EndsLater(rule: Rule, b: Book)
    requires Crossed(b)
    ensures Ends(rule, b) <==> Ends(rule, Step(rule, b))
  {
    if Ends(rule, b) {
      var n: nat :| !Crossed(Reach(rule, b, n));
      assert !Crossed(Reach(rule, Step(rule, b), n - 1));
    }
    if Ends(rule, Step(rule, b)) {
      var n: nat :| !Crossed(Reach(rule, Step(rule, b), n));
      assert !Crossed(Reach(rule, b, n + 1));
    }
  }

  // ---------- which additions the next call survives ----------

  /** The order's price crosses a price of the other side. */
  predicate Reaches(r: Rec, price: real) {
    if r.isBuy then r.price >= price else price >= r.price
  }

  /** How much an order that trades with all of `s` is filled by it. */
  function Supply(rule: Rule, s: seq<Rec>): int {
    if s == [] then 0
    else (if rule == Whole then s[0].quantity else Left(s[0])) + Supply(rule, s[1..])
  }

  /** Every order of quantity 0 whose price `r` crosses stands behind enough orders to fill `r`. */
  predicate Clear(rule: Rule, r: Rec, s: seq<Rec>) {
    forall j :: 0 <= j < |s| && s[j].quantity == 0 && Reaches(r, s[j].price)
      ==> r.filled + Supply(rule, s[..j]) >= r.quantity
  }

  /** A book seen from one of its sides. */
  function Facing(buy: bool, own: seq<Rec>, other: seq<Rec>): Book {
    if buy then Book(own, other) else Book(other, own)
  }

  lemma {:induction false} SupplyNotNegative(rule: Rule, s: seq<Rec>)
    requires AllResting(s)
    ensures Supply(rule, s) >= 0
  {
    if s != [] {
      assert Resting(s[0]);
      SupplyNotNegative(rule, s[1..]);
    }
  }

  lemma SupplyUnfold(rule: Rule, s: seq<Rec>, j: nat)
    requires 0 < j <= |s|
    ensures Supply(rule, s[..j])
         == (if rule == Whole then s[0].quantity else Left(s[0])) + Supply(rule, s[1..][..j - 1])
  {
    assert s[..j][1..] == s[1..][..j - 1];
  }

  /** Clearance behind the head of the other side, once it has been traded away. */
  lemma ClearUnfold(rule: Rule, r: Rec, n: int, s: seq<Rec>)
    requires s != [] && s[0].quantity != 0 && n == (if rule == Whole then s[0].quantity else Left(s[0]))
    ensures Clear(rule, r, s) <==> Clear(rule, Fill(r, n), s[1..])
  {
    var r', rest := Fill(r, n), s[1..];
    forall j | 0 < j < |s| ensures Supply(rule, s[..j]) == n + Supply(rule, rest[..j - 1]) {
      SupplyUnfold(rule, s, j);
    }
    if Clear(rule, r, s) {
      forall j | 0 <= j < |rest| && rest[j].quantity == 0 && Reaches(r', rest[j].price)
        ensures r'.filled + Supply(rule, rest[..j]) >= r'.quantity
      {
        assert s[j + 1] == rest[j];
      }
    }
    if Clear(rule, r', rest) {
      forall j | 0 <= j < |s| && s[j].quantity == 0 && Reaches(r, s[j].price)
        ensures r.filled + Supply(rule, s[..j]) >= r.quantity
      {
        assert rest[j - 1] == s[j];
      }
    }
  }

  /** An order that the head of the other side fills is clear of everything behind. */
  lemma FilledIsClear(rule: Rule, r: Rec, s: seq<Rec>)
    requires s != [] && AllResting(s) && s[0].quantity > 0
    requires r.filled + (if rule == Whole then s[0].quantity else Left(s[0])) >= r.quantity
    ensures Clear(rule, r, s)
  {
    forall j | 0 <= j < |s| && s[j].quantity == 0 && Reaches(r, s[j].price)
      ensures r.filled + Supply(rule, s[..j]) >= r.quantity
    {
      SupplyUnfold(rule, s, j);
      assert AllResting(s[1..][..j - 1]);
      SupplyNotNegative(rule, s[1..][..j - 1]);
    }
  }

  /** One crossing of a leader with the head of the other side, both with something left: either the leader is filled
      and leaves the heads uncrossed, or the head is gone and the leader goes on. */
  lemma LeaderStep(rule: Rule, r: Rec, own: seq<Rec>, other: seq<Rec>)
    requires Live(r) && other != [] && Live(other[0]) && Reaches(r, other[0].price)
    requires SortedSide(other, !r.isBuy) && !Crossed(Facing(r.isBuy, own, other))
    ensures var b := Facing(r.isBuy, [r] + own, other);
            var n := if rule == Whole then other[0].quantity else Left(other[0]);
            Crossed(b) && if r.filled + n >= r.quantity then !Crossed(Step(rule, b))
            else && Live(Fill(r, n)) && Step(rule, b) == Facing(r.isBuy, [Fill(r, n)] + own, other[1..])
                 && !Crossed(Facing(r.isBuy, own, other[1..]))
  {
    assert ([r] + own)[1..] == own;
  }

  lemma NothingReached(rule: Rule, r: Rec, s: seq<Rec>)
    requires SortedSide(s, !r.isBuy) && (s != [] ==> !Reaches(r, s[0].price))
    ensures Clear(rule, r, s)
  {
    assert forall j :: 0 <= j < |s| ==> !Reaches(r, s[j].price);
  }

  lemma ZeroHeadNotClear(rule: Rule, r: Rec, s: seq<Rec>)
    requires r.filled < r.quantity && s != [] && s[0].quantity == 0 && Reaches(r, s[0].price)
    ensures !Clear(rule, r, s)
  {
    assert Supply(rule, s[..0]) == 0;
  }

  /** The leader of a side, in front of a book that does not cross without it. */
  lemma {:induction false} LeaderEnds(rule: Rule, r: Rec, own: seq<Rec>, other: seq<Rec>)
    requires Live(r) && AllResting(other) && SortedSide(other, !r.isBuy)
    requires !Crossed(Facing(r.isBuy, own, other))
    ensures Ends(rule, Facing(r.isBuy, [r] + own, other)) <==> Clear(rule, r, other)
    decreases |other|
  {
    hide Ends, Clear, Step, Supply;
    var b := Facing(r.isBuy, [r] + own, other);
    if !Crossed(b) {
      UncrossedEnds(rule, b);
      NothingReached(rule, r, other);
    } else if other[0].quantity == 0 {
      ZeroHeadNeverEnds(rule, b);
      ZeroHeadNotClear(rule, r, other);
    } else {
      var n := if rule == Whole then other[0].quantity else Left(other[0]);
      LeaderStep(rule, r, own, other);
      EndsLater(rule, b);
      if r.filled + n >= r.quantity {
        FilledIsClear(rule, r, other);
        UncrossedEnds(rule, Step(rule, b));
      } else {
        ClearUnfold(rule, r, n, other);
        LeaderEnds(rule, Fill(r, n), own, other[1..]);
      }
    }
  }

  /** A newcomer of negative quantity that crosses is filled by its first trade and leaves the heads as uncrossed as
      they were. */
  lemma NegativeLeaderEnds(rule: Rule, r: Rec, own: seq<Rec>, other: seq<Rec>)
    requires r.quantity < 0 && r.filled == 0 && other != [] && Resting(other[0]) && Reaches(r, other[0].price)
    requires !Crossed(Facing(r.isBuy, own, other))
    ensures Ends(rule, Facing(r.isBuy, [r] + own, other))
  {
    var b := Facing(r.isBuy, [r] + own, other);
    assert ([r] + own)[1..] == own;
    UncrossedEnds(rule, Step(rule, b));
    EndsLater(rule, b);
  }

  /** Exactly which additions the next matching call survives, for a newcomer of any quantity: it crosses nothing, or
      its quantity is negative, or it is positive and filled by the orders in front of any order of quantity 0 that it
      crosses. */
  lemma EndsExactly(rule: Rule, b: Book, r: Rec)
    requires RestingBook(b) && !Crossed(b) && r.filled == 0 && r.status == New
    ensures Ends(rule, AddOrder(b, r))
        <==> || !Crossed(AddOrder(b, r))
             || r.quantity < 0
             || (r.quantity > 0 && Clear(rule, r, Side(b, !r.isBuy)))
  {
    var c, own, other := AddOrder(b, r), Side(b, r.isBuy), Side(b, !r.isBuy);
    if !Crossed(c) {
      UncrossedEnds(rule, c);
    } else {
      CrossingNewcomerLeads(b, r);
      assert c == Facing(r.isBuy, [r] + own, other);
      if r.quantity > 0 {
        LeaderEnds(rule, r, own, other);
      } else if r.quantity < 0 {
        NegativeLeaderEnds(rule, r, own, other);
      } else {
        ZeroHeadNeverEnds(rule, c);
      }
    }
  }
}
