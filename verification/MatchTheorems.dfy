/** What a whole matching call guarantees: termination bound, uncrossed exit, volume accounting, price-time priority. */
module MatchTheorems {
  import opened Orders
  import opened Matching

  function Gone(o: Outcome, buy: bool): seq<Rec> {
    if buy then o.goneBids else o.goneAsks
  }

  function Party(t: Trade, buy: bool): int {
    if buy then t.buyId else t.sellId
  }

  /** Total quantity of the trades that name `id` as the buyer (as the seller). */
  function Traded(trades: seq<Trade>, buy: bool, id: int): int {
    if trades == [] then 0
    else (if Party(trades[0], buy) == id then trades[0].quantity else 0) + Traded(trades[1..], buy, id)
  }

  function Volume(trades: seq<Trade>): int {
    if trades == [] then 0 else trades[0].quantity + Volume(trades[1..])
  }

  function TotalFilled(s: seq<Rec>): int {
    if s == [] then 0 else s[0].filled + TotalFilled(s[1..])
  }

  predicate HasId(s: seq<Rec>, id: int) {
    exists i :: 0 <= i < |s| && s[i].id == id
  }

  // ---------- exit state and length of the run ----------

  /** The call ends uncrossed, keeps the shape of the book, and leaves only orders with something to trade. */
  lemma {:induction false} MatchUncrosses(rule: Rule, b: Book)
    requires Tradable(b)
    ensures !Crossed(Match(rule, b).book)
    ensures Tradable(Match(rule, b).book)
    ensures WellFormed(b) ==> WellFormed(Match(rule, b).book)
    decreases Size(b)
  {
    if Crossed(b) {
      StepProgress(rule, b);
      if WellFormed(b) {
        StepWellFormed(rule, b);
      }
      MatchUncrosses(rule, Step(rule, b));
    }
  }

  /** Every trade has positive quantity and fills at least one order, so `n` resting orders give fewer than `n`
      trades. */
  lemma {:induction false} MatchTradeCount(rule: Rule, b: Book)
    requires Tradable(b)
    ensures var o := Match(rule, b);
            && (forall i :: 0 <= i < |o.trades| ==> o.trades[i].quantity > 0)
            && |o.goneBids| + |o.goneAsks| + Size(o.book) == Size(b)
            && |o.trades| <= |o.goneBids| + |o.goneAsks| <= 2 * |o.trades|
            && (o.trades != [] ==> |o.trades| < Size(b))
    decreases Size(b)
  {
    if Crossed(b) {
      StepProgress(rule, b);
      MatchTradeCount(rule, Step(rule, b));
    }
  }

  // ---------- volume accounting and price-time priority ----------

  /** `all` is `s` in the same order, each order filled further by the trades that name it. */
  predicate FilledBy(s: seq<Rec>, all: seq<Rec>, trades: seq<Trade>, buy: bool) {
    && |all| == |s|
    && forall i :: 0 <= i < |s| ==> all[i] == Fill(s[i], Traded(trades, buy, s[i].id))
  }

  lemma StepSide(rule: Rule, b: Book, buy: bool)
    requires Tradable(b) && Crossed(b)
    ensures var n := TradeOf(rule, b).quantity; var o, o' := Match(rule, b), Match(rule, Step(rule, b));
            && o.trades == [TradeOf(rule, b)] + o'.trades && o.book == o'.book
            && Side(Step(rule, b), buy) == Settle(Side(b, buy), n)
            && Gone(o, buy) == Leaver(Side(b, buy), n) + Gone(o', buy)
            && Party(TradeOf(rule, b), buy) == Side(b, buy)[0].id
  {
  }

  lemma SettleNames(s: seq<Rec>, n: int, id: int)
    requires |s| > 0 && !HasId(s, id)
    ensures s[0].id != id && !HasId(Settle(s, n), id)
  {
    var s' := Settle(s, n);
    forall i | 0 <= i < |s'| ensures s'[i].id != id {
      assert s'[i].id == s[i + |s| - |s'|].id;
    }
  }

  /** No trade names an order that was not on that side. */
  lemma {:induction false} TradesNameResting(rule: Rule, b: Book, buy: bool, id: int)
    requires Tradable(b)
    requires !HasId(Side(b, buy), id)
    ensures Traded(Match(rule, b).trades, buy, id) == 0
    decreases Size(b)
  {
    if Crossed(b) {
      StepProgress(rule, b);
      StepSide(rule, b, buy);
      SettleNames(Side(b, buy), TradeOf(rule, b).quantity, id);
      TradesNameResting(rule, Step(rule, b), buy, id);
    }
  }

  /** Induction step of the settlement: the head's trade is added in front of the trades that follow. */
  lemma SettleFills(s: seq<Rec>, t: Trade, buy: bool, rest: seq<Rec>, trades: seq<Trade>)
    requires |s| > 0 && DistinctIds(s) && AllLive(s)
    requires Party(t, buy) == s[0].id
    requires FilledBy(Settle(s, t.quantity), rest, trades, buy)
    requires Fill(s[0], t.quantity).status == Filled ==> Traded(trades, buy, s[0].id) == 0
    ensures FilledBy(s, Leaver(s, t.quantity) + rest, [t] + trades, buy)
  {
    var n := t.quantity;
    var all := Leaver(s, n) + rest;
    assert ([t] + trades)[1..] == trades;
    forall i | 0 <= i < |s| ensures all[i] == Fill(s[i], Traded([t] + trades, buy, s[i].id)) {
      assert Live(s[i]);
      if i > 0 {
        assert Settle(s, n)[i - |Leaver(s, n)|] == s[i];
      } else if Fill(s[0], n).status != Filled {
        assert Settle(s, n)[0] == Fill(s[0], n);
      }
    }
  }

  lemma SettleIds(s: seq<Rec>, n: int)
    requires |s| > 0 && DistinctIds(s)
    ensures DistinctIds(Settle(s, n))
    ensures Fill(s[0], n).status == Filled ==> !HasId(Settle(s, n), s[0].id)
  {
  }

  lemma FillNothing(s: seq<Rec>, buy: bool)
    requires AllLive(s)
    ensures FilledBy(s, s, [], buy)
  {
    forall i | 0 <= i < |s| ensures s[i] == Fill(s[i], 0) {
      assert Live(s[i]);
    }
  }

  /** The same step, read on the outcomes before and after the head's trade is put in front. */
  lemma SettleOutcome(s: seq<Rec>, t: Trade, buy: bool, o: Outcome, o': Outcome)
    requires |s| > 0 && DistinctIds(s) && AllLive(s)
    requires Party(t, buy) == s[0].id
    requires o.trades == [t] + o'.trades && o.book == o'.book
    requires Gone(o, buy) == Leaver(s, t.quantity) + Gone(o', buy)
    requires FilledBy(Settle(s, t.quantity), Gone(o', buy) + Side(o'.book, buy), o'.trades, buy)
    requires Fill(s[0], t.quantity).status == Filled ==> Traded(o'.trades, buy, s[0].id) == 0
    ensures FilledBy(s, Gone(o, buy) + Side(o.book, buy), o.trades, buy)
  {
    hide FilledBy, Traded, AllLive, DistinctIds, Settle, Leaver;
    SettleFills(s, t, buy, Gone(o', buy) + Side(o'.book, buy), o'.trades);
    assert Leaver(s, t.quantity) + Gone(o', buy) + Side(o'.book, buy)
        == Leaver(s, t.quantity) + (Gone(o', buy) + Side(o'.book, buy));
  }

  /** Settlement. On each side the removed orders followed by the survivors are exactly the side at entry, in the same
      order, and each order's filled quantity grew by exactly the trades that name it. */
  lemma {:induction false} MatchSettles(rule: Rule, b: Book, buy: bool)
    requires Tradable(b) && DistinctIds(Side(b, buy))
    ensures var o := Match(rule, b);
            FilledBy(Side(b, buy), Gone(o, buy) + Side(o.book, buy), o.trades, buy)
    decreases Size(b)
  {
    var s := Side(b, buy);
    if !Crossed(b) {
      FillNothing(s, buy);
      assert [] + s == s;
    } else {
      StepProgress(rule, b);
      var c, t := Step(rule, b), TradeOf(rule, b);
      SettleIds(s, t.quantity);
      StepSide(rule, b, buy);
      MatchSettles(rule, c, buy);
      if Fill(s[0], t.quantity).status == Filled {
        TradesNameResting(rule, c, buy, s[0].id);
      }
      SettleOutcome(s, t, buy, Match(rule, b), Match(rule, c));
    }
  }
}
