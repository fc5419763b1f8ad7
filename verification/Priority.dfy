/** Price-time priority over a whole matching call. */
module Priority {
  import opened Orders
  import opened Matching
  import opened MatchTheorems

  // ---------- survivors ----------

  /** Past its head, the surviving side is the untouched tail of the side at entry. */
  predicate TailUntouched(s: seq<Rec>, s': seq<Rec>, k: nat) {
    && |s| == k + |s'|
    && forall i :: 0 < i < |s'| ==> s'[i] == s[k + i]
  }

  /** The surviving side is exactly the tail of the side at entry. */
  predicate Untouched(s: seq<Rec>, s': seq<Rec>, k: nat) {
    k <= |s| && s' == s[k..]
  }

  /** If the head of a side survives a call that trades, its fill grew. */
  lemma HeadGrows(rule: Rule, b: Book, buy: bool)
    requires Tradable(b) && Crossed(b) && DistinctIds(Side(b, buy))
    requires Gone(Match(rule, b), buy) == []
    ensures var s' := Side(Match(rule, b).book, buy);
            |s'| == |Side(b, buy)| && s'[0].filled > Side(b, buy)[0].filled
  {
    var o, s := Match(rule, b), Side(b, buy);
    MatchSettles(rule, b, buy);
    MatchTradeCount(rule, b);
    StepProgress(rule, b);
    StepSide(rule, b, buy);
    assert [] + Side(o.book, buy) == Side(o.book, buy);
    var rest := Match(rule, Step(rule, b)).trades;
    assert o.trades[1..] == rest;
    MatchTradeCount(rule, Step(rule, b));
    TradedNonNegative(rest, buy, s[0].id);
  }

  lemma {:induction false} TradedNonNegative(trades: seq<Trade>, buy: bool, id: int)
    requires forall i :: 0 <= i < |trades| ==> trades[i].quantity > 0
    ensures Traded(trades, buy, id) >= 0
  {
    if trades != [] {
      TradedNonNegative(trades[1..], buy, id);
    }
  }

  /** What is left of the settled side, seen from the side before the head traded. */
  lemma TailBack(s: seq<Rec>, n: int, s': seq<Rec>, k: nat)
    requires |s| > 0 && TailUntouched(Settle(s, n), s', k)
    ensures TailUntouched(s, s', |Leaver(s, n)| + k)
    ensures (Untouched(Settle(s, n), s', k) && (Settle(s, n) == s[1..] || k > 0))
      ==> Untouched(s, s', |Leaver(s, n)| + k)
  {
    if Settle(s, n) != s[1..] {
      assert Settle(s, n)[1..] == s[1..];
      if k > 0 {
        assert Settle(s, n)[k..] == s[k..];
      }
    } else {
      assert s[1..][k..] == s[1 + k..];
    }
  }

  lemma TailBackMatch(rule: Rule, b: Book, buy: bool)
    requires Tradable(b) && Crossed(b) && Tradable(Step(rule, b))
    requires var o' := Match(rule, Step(rule, b));
             TailUntouched(Side(Step(rule, b), buy), Side(o'.book, buy), |Gone(o', buy)|)
    ensures var c, o, o' := Step(rule, b), Match(rule, b), Match(rule, Step(rule, b));
            && TailUntouched(Side(b, buy), Side(o.book, buy), |Gone(o, buy)|)
            && ((Untouched(Side(c, buy), Side(o'.book, buy), |Gone(o', buy)|)
                 && (Side(c, buy) == Side(b, buy)[1..] || |Gone(o', buy)| > 0))
                ==> Untouched(Side(b, buy), Side(o.book, buy), |Gone(o, buy)|))
  {
    hide Tradable, Match, Step, Settle, Leaver, TailUntouched, Untouched;
    StepSide(rule, b, buy);
    var o' := Match(rule, Step(rule, b));
    TailBack(Side(b, buy), TradeOf(rule, b).quantity, Side(o'.book, buy), |Gone(o', buy)|);
  }

  /** At most one order that traded survives in the whole book, and it is the head of its side: past the heads nothing
      changed, and at least one side's head did not change either. */
  lemma {:induction false} AtMostOnePartial(rule: Rule, b: Book)
    requires Tradable(b) && DistinctIds(b.bids) && DistinctIds(b.asks)
    ensures var o := Match(rule, b);
            && TailUntouched(b.bids, o.book.bids, |o.goneBids|)
            && TailUntouched(b.asks, o.book.asks, |o.goneAsks|)
            && (Untouched(b.bids, o.book.bids, |o.goneBids|) || Untouched(b.asks, o.book.asks, |o.goneAsks|))
    decreases Size(b)
  {
    if Crossed(b) {
      StepProgress(rule, b);
      var c, n := Step(rule, b), TradeOf(rule, b).quantity;
      SettleIds(b.bids, n);
      SettleIds(b.asks, n);
      AtMostOnePartial(rule, c);
      TailBackMatch(rule, b, true);
      TailBackMatch(rule, b, false);
      if Crossed(c) && Match(rule, c).goneBids == [] {
        HeadGrows(rule, c, true);
      }
      if Crossed(c) && Match(rule, c).goneAsks == [] {
        HeadGrows(rule, c, false);
      }
    }
  }

  // ---------- the order of the trades ----------

  /** Trade `t` crosses bid `x` with ask `y` at the ask's limit, which is not above the bid's. */
  predicate Crosses(b: Book, t: Trade, x: nat, y: nat) {
    && x < |b.bids| && y < |b.asks|
    && t.buyId == b.bids[x].id && t.sellId == b.asks[y].id
    && t.price == b.asks[y].price <= b.bids[x].price
  }

  /** From one trade to the next, one side or both move on by one order. */
  predicate MovesOn(x: nat, y: nat, x': nat, y': nat) {
    x <= x' <= x + 1 && y <= y' <= y + 1 && x + y < x' + y'
  }

  /** The trades walk down both sides, from the two heads, one order at a time. */
  ghost predicate Walk(b: Book, trades: seq<Trade>, xs: seq<nat>, ys: seq<nat>) {
    && |xs| == |ys| == |trades|
    && (forall i :: 0 <= i < |trades| ==> Crosses(b, trades[i], xs[i], ys[i]))
    && (trades != [] ==> xs[0] == 0 && ys[0] == 0)
    && (forall i :: 0 < i < |trades| ==> MovesOn(xs[i - 1], ys[i - 1], xs[i], ys[i]))
  }

  function Shift(xs: seq<nat>, d: nat): (r: seq<nat>)
    ensures |r| == |xs| + 1 && r[0] == 0
    ensures forall i :: 0 <= i < |xs| ==> r[i + 1] == xs[i] + d
  {
    [0] + seq(|xs|, i requires 0 <= i < |xs| => xs[i] + d)
  }

  /** `s'` is `s` or its tail, as far as ids and prices go. */
  predicate SameButHead(s: seq<Rec>, s': seq<Rec>) {
    && |s'| <= |s| <= |s'| + 1
    && forall i :: 0 <= i < |s'| ==>
         s'[i].id == s[i + |s| - |s'|].id && s'[i].price == s[i + |s| - |s'|].price
  }

  /** Positions on a settled side, translated back to the side before the head's trade. */
  lemma SettlePositions(s: seq<Rec>, n: int)
    requires |s| > 0
    ensures SameButHead(s, Settle(s, n))
  {
    var r, s' := Fill(s[0], n), Settle(s, n);
    assert s' == (if r.status == Filled then [] else [r]) + s[1..];
  }

  lemma WalkNothing(b: Book)
    ensures Walk(b, [], [], [])
  {
  }

  /** The trades of a call: none, or the first and those of the call that goes on from there. */
  lemma TradesUnfold(rule: Rule, b: Book)
    requires Tradable(b)
    ensures !Crossed(b) ==> Match(rule, b).trades == []
    ensures Crossed(b) ==>
      && Tradable(Step(rule, b)) && Size(Step(rule, b)) < Size(b)
      && Match(rule, b).trades == [TradeOf(rule, b)] + Match(rule, Step(rule, b)).trades
  {
    if Crossed(b) {
      StepProgress(rule, b);
    }
  }

  lemma {:induction false} MatchWalks(rule: Rule, b: Book) returns (xs: seq<nat>, ys: seq<nat>)
    requires Tradable(b)
    ensures Walk(b, Match(rule, b).trades, xs, ys)
    decreases Size(b)
  {
    hide Tradable, Match, Walk, Settle, SameButHead;
    TradesUnfold(rule, b);
    if !Crossed(b) {
      xs, ys := [], [];
      WalkNothing(b);
    } else {
      var c, t := Step(rule, b), TradeOf(rule, b);
      var xs', ys' := MatchWalks(rule, c);
      SettlePositions(b.bids, t.quantity);
      SettlePositions(b.asks, t.quantity);
      xs, ys := WalkStep(b, c, t, Match(rule, c).trades, xs', ys');
    }
  }

  lemma WalkStep(b: Book, c: Book, t: Trade, rest: seq<Trade>, xs': seq<nat>, ys': seq<nat>)
    returns (xs: seq<nat>, ys: seq<nat>)
    requires Crossed(b) && t.buyId == b.bids[0].id && t.sellId == b.asks[0].id && t.price == b.asks[0].price
    requires SameButHead(b.bids, c.bids) && SameButHead(b.asks, c.asks) && Size(c) < Size(b)
    requires Walk(c, rest, xs', ys')
    ensures Walk(b, [t] + rest, xs, ys)
  {
    xs, ys := Shift(xs', |b.bids| - |c.bids|), Shift(ys', |b.asks| - |c.asks|);
    var trades := [t] + rest;
    forall i | 0 < i < |trades| ensures Crosses(b, trades[i], xs[i], ys[i]) {
      assert Crosses(c, rest[i - 1], xs'[i - 1], ys'[i - 1]);
      assert xs[i - 1 + 1] == xs'[i - 1] + |b.bids| - |c.bids| && ys[i - 1 + 1] == ys'[i - 1] + |b.asks| - |c.asks|;
    }
    forall i | 0 < i < |trades| ensures MovesOn(xs[i - 1], ys[i - 1], xs[i], ys[i]) {
      assert xs[i - 1 + 1] == xs'[i - 1] + |b.bids| - |c.bids| && ys[i - 1 + 1] == ys'[i - 1] + |b.asks| - |c.asks|;
      if i > 1 {
        assert MovesOn(xs'[i - 2], ys'[i - 2], xs'[i - 1], ys'[i - 1]);
        assert xs[i - 2 + 1] == xs'[i - 2] + |b.bids| - |c.bids| && ys[i - 2 + 1] == ys'[i - 2] + |b.asks| - |c.asks|;
      }
    }
  }

  lemma {:induction false} WalkMonotone(b: Book, trades: seq<Trade>, xs: seq<nat>, ys: seq<nat>, i: nat, j: nat)
    requires Walk(b, trades, xs, ys) && i <= j < |trades|
    ensures xs[i] <= xs[j] && ys[i] <= ys[j]
    decreases j
  {
    if i < j {
      assert MovesOn(xs[j - 1], ys[j - 1], xs[j], ys[j]);
      WalkMonotone(b, trades, xs, ys, i, j - 1);
    }
  }

  lemma TradesContiguous(b: Book, trades: seq<Trade>, xs: seq<nat>, ys: seq<nat>, i: nat, j: nat, k: nat, buy: bool)
    requires WellFormed(b) && Walk(b, trades, xs, ys) && i < j < k < |trades|
    requires Party(trades[i], buy) == Party(trades[k], buy)
    ensures Party(trades[j], buy) == Party(trades[i], buy)
  {
    WalkMonotone(b, trades, xs, ys, i, j);
    WalkMonotone(b, trades, xs, ys, j, k);
    assert Crosses(b, trades[i], xs[i], ys[i]) && Crosses(b, trades[j], xs[j], ys[j])
        && Crosses(b, trades[k], xs[k], ys[k]);
  }

  /** Trade prices never fall, no trade is above its bid's limit, and the trades of one order are contiguous: an order
      that stops trading never trades again in the call. */
  lemma TradesInPriority(rule: Rule, b: Book)
    requires Tradable(b) && WellFormed(b)
    ensures var trades := Match(rule, b).trades;
            && (forall i, j :: 0 <= i < j < |trades| ==> trades[i].price <= trades[j].price)
            && (forall i, j, k, buy :: 0 <= i < j < k < |trades| && Party(trades[i], buy) == Party(trades[k], buy)
                  ==> Party(trades[j], buy) == Party(trades[i], buy))
    ensures exists xs, ys :: Walk(b, Match(rule, b).trades, xs, ys) && forall i, j :: 0 <= i < j < |xs| ==>
              b.bids[xs[i]].price >= b.bids[xs[j]].price
  {
    var xs, ys := MatchWalks(rule, b);
    var trades := Match(rule, b).trades;
    forall i, j | 0 <= i < j < |trades|
      ensures trades[i].price <= trades[j].price && b.bids[xs[i]].price >= b.bids[xs[j]].price
    {
      WalkMonotone(b, trades, xs, ys, i, j);
      assert Crosses(b, trades[i], xs[i], ys[i]) && Crosses(b, trades[j], xs[j], ys[j]);
    }
    forall i, j, k, buy | 0 <= i < j < k < |trades| && Party(trades[i], buy) == Party(trades[k], buy)
      ensures Party(trades[j], buy) == Party(trades[i], buy)
    {
      TradesContiguous(b, trades, xs, ys, i, j, k, buy);
    }
  }
}
