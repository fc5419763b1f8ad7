/** How far a removed order is filled: exact with the remaining quantity, up to almost double with the whole quantity,
    and exactly when the whole-quantity rule overfills nothing. */
module Fills {
  import opened Orders
  import opened Matching
  import opened MatchTheorems

  predicate AllExact(s: seq<Rec>) {
    forall i :: 0 <= i < |s| ==> s[i].filled == s[i].quantity
  }

  /** No order removed by the call was filled beyond its quantity. */
  predicate NoOverfill(o: Outcome) {
    AllExact(o.goneBids) && AllExact(o.goneAsks)
  }

  predicate FilledOut(rule: Rule, r: Rec) {
    && r.quantity <= r.filled <= 2 * r.quantity - 1
    && r.status == Filled
    && (rule == Remaining ==> r.filled == r.quantity)
  }

  predicate AllFilledOut(rule: Rule, s: seq<Rec>) {
    forall i :: 0 <= i < |s| ==> FilledOut(rule, s[i])
  }

  /** A removed order is filled at least to its quantity and short of twice its quantity; with the remaining quantity
      it is filled exactly. */
  lemma {:induction false} RemovedFill(rule: Rule, b: Book, buy: bool)
    requires Tradable(b)
    ensures AllFilledOut(rule, Gone(Match(rule, b), buy))
    ensures forall i :: 0 <= i < |Gone(Match(rule, b), buy)| ==>
              var r := Gone(Match(rule, b), buy)[i];
              r.quantity <= r.filled <= 2 * r.quantity - 1 && (rule == Remaining ==> r.filled == r.quantity)
    decreases Size(b)
  {
    if Crossed(b) {
      StepProgress(rule, b);
      StepSide(rule, b, buy);
      LeaverFilledOut(rule, b, buy);
      RemovedFill(rule, Step(rule, b), buy);
    }
    FilledOutMeans(rule, Gone(Match(rule, b), buy));
  }

  lemma FilledOutMeans(rule: Rule, s: seq<Rec>)
    requires AllFilledOut(rule, s)
    ensures forall i :: 0 <= i < |s| ==>
              && s[i].quantity <= s[i].filled <= 2 * s[i].quantity - 1
              && (rule == Remaining ==> s[i].filled == s[i].quantity)
  {
    assert forall i :: 0 <= i < |s| ==> FilledOut(rule, s[i]);
  }

  lemma LeaverFilledOut(rule: Rule, b: Book, buy: bool)
    requires Tradable(b) && Crossed(b)
    ensures AllFilledOut(rule, Leaver(Side(b, buy), TradeOf(rule, b).quantity))
  {
    assert Live(b.bids[0]) && Live(b.asks[0]);
  }

  /** True conservation with the remaining quantity: every removed order is filled to its quantity and no further. */
  lemma RemainingExact(b: Book)
    requires Tradable(b)
    ensures NoOverfill(Match(Remaining, b))
  {
    var o := Match(Remaining, b);
    RemovedFill(Remaining, b, true);
    RemovedFill(Remaining, b, false);
    assert Gone(o, true) == o.goneBids && Gone(o, false) == o.goneAsks;
    assert forall i :: 0 <= i < |o.goneBids| ==> FilledOut(Remaining, o.goneBids[i]);
    assert forall i :: 0 <= i < |o.goneAsks| ==> FilledOut(Remaining, o.goneAsks[i]);
  }

  /** The upper bound is attained: for every quantity above 1, by orders that enter the book unfilled. */
  lemma OverfillAttained(q: int) returns (b: Book)
    requires q > 1
    ensures WellFormed(b) && Tradable(b) && (forall i :: 0 <= i < |b.asks| ==> b.asks[i].filled == 0)
    ensures |b.bids| == 1 && b.bids[0].filled == 0 && b.bids[0].quantity == q
    ensures |Match(Whole, b).goneBids| == 1 && Match(Whole, b).goneBids[0].filled == 2 * q - 1
    ensures !NoOverfill(Match(Whole, b))
  {
    var bid := Fresh(1, "", 10.0, q, true);
    var ask1, ask2 := Fresh(2, "", 10.0, q - 1, false), Fresh(3, "", 10.0, q, false);
    b := Book([bid], [ask1, ask2]);
    var c := Step(Whole, b);
    assert c == Book([Fill(bid, q - 1)], [ask2]);
    StepProgress(Whole, b);
    var d := Step(Whole, c);
    assert d == Book([], []);
    StepProgress(Whole, c);
    assert Match(Whole, d) == Outcome(d, [], [], []);
    assert Match(Whole, c).goneBids == [Fill(Fill(bid, q - 1), q)];
  }

  // ---------- the balance of the two sides ----------

  lemma {:induction false} TotalFilledConcat(s: seq<Rec>, t: seq<Rec>)
    ensures TotalFilled(s + t) == TotalFilled(s) + TotalFilled(t)
  {
    if s == [] {
      assert s + t == t;
    } else {
      assert (s + t)[1..] == s[1..] + t;
      TotalFilledConcat(s[1..], t);
    }
  }

  /** Each side's filled volume, removed orders included, grows by the volume of the trades. */
  lemma {:induction false} SidesBalance(rule: Rule, b: Book, buy: bool)
    requires Tradable(b)
    ensures var o := Match(rule, b);
            TotalFilled(Gone(o, buy)) + TotalFilled(Side(o.book, buy)) == TotalFilled(Side(b, buy)) + Volume(o.trades)
    decreases Size(b)
  {
    if Crossed(b) {
      StepProgress(rule, b);
      StepSide(rule, b, buy);
      var c, t, s := Step(rule, b), TradeOf(rule, b), Side(b, buy);
      SidesBalance(rule, c, buy);
      TotalFilledConcat(Leaver(s, t.quantity), Gone(Match(rule, c), buy));
      assert Match(rule, b).trades[1..] == Match(rule, c).trades;
      assert Settle(s, t.quantity) == [Fill(s[0], t.quantity)] + s[1..] || Settle(s, t.quantity) == s[1..];
      assert ([Fill(s[0], t.quantity)] + s[1..])[1..] == s[1..];
      assert TotalFilled([Fill(s[0], t.quantity)]) == s[0].filled + t.quantity + TotalFilled([]);
    }
  }

  // ---------- exactly when whole quantities are exact ----------

  /** Where order `k` of a side begins when what the orders have left is laid end to end on one line. */
  function Start(s: seq<Rec>, k: nat): int
    requires k <= |s|
  {
    if k == 0 then 0 else Start(s, k - 1) + Left(s[k - 1])
  }

  /** Order `i` of `s` is unfilled and its stretch of the line lies within that of order `j` of `t`. */
  predicate Inside(s: seq<Rec>, i: nat, t: seq<Rec>, j: nat)
    requires i < |s| && j < |t|
  {
    s[i].filled == 0 && Start(t, j) <= Start(s, i) && Start(s, i + 1) <= Start(t, j + 1)
  }

  predicate Overlap(s: seq<Rec>, i: nat, t: seq<Rec>, j: nat)
    requires i < |s| && j < |t|
  {
    Start(s, i) < Start(t, j + 1) && Start(t, j) < Start(s, i + 1)
  }

  /** If the two orders' prices cross and their stretches overlap, one is unfilled and lies within the other. */
  predicate PairNested(b: Book, i: nat, j: nat)
    requires i < |b.bids| && j < |b.asks|
  {
    b.bids[i].price >= b.asks[j].price && Overlap(b.bids, i, b.asks, j)
    ==> Inside(b.bids, i, b.asks, j) || Inside(b.asks, j, b.bids, i)
  }

  predicate Nested(b: Book) {
    forall i, j :: 0 <= i < |b.bids| && 0 <= j < |b.asks| ==> PairNested(b, i, j)
  }

  lemma {:induction false} StartMonotone(s: seq<Rec>, i: nat, j: nat)
    requires AllLive(s) && i <= j <= |s|
    ensures Start(s, i) <= Start(s, j)
    decreases j
  {
    if i < j {
      assert Live(s[j - 1]);
      StartMonotone(s, i, j - 1);
    }
  }

  lemma {:induction false} StartWithoutHead(s: seq<Rec>, k: nat)
    requires |s| > 0 && k < |s|
    ensures Start(s[1..], k) == Start(s, k + 1) - Left(s[0])
  {
    if k > 0 {
      StartWithoutHead(s, k - 1);
    } else {
      assert Start(s, 1) == Start(s, 0) + Left(s[0]);
    }
  }

  lemma {:induction false} StartFilledHead(s: seq<Rec>, n: int, k: nat)
    requires |s| > 0 && 0 < k <= |s|
    ensures Start([Fill(s[0], n)] + s[1..], k) == Start(s, k) - n
  {
    var s' := [Fill(s[0], n)] + s[1..];
    if k > 1 {
      StartFilledHead(s, n, k - 1);
    } else {
      assert Start(s, 1) == Start(s, 0) + Left(s[0]);
      assert Start(s', 1) == Start(s', 0) + Left(s'[0]);
    }
  }

  /** Settling the head without overfilling it moves the line left by the traded quantity; only a head that stays keeps
      its beginning at 0. */
  lemma SettleStart(s: seq<Rec>, n: int, k: nat)
    requires |s| > 0 && AllLive(s)
    requires 0 < n <= Left(s[0])
    requires k <= |Settle(s, n)|
    ensures Start(Settle(s, n), k)
         == if k == 0 then 0 else Start(s, k + |s| - |Settle(s, n)|) - n
    ensures |Settle(s, n)| < |s| ==> n == Left(s[0])
  {
    assert Live(s[0]);
    if k > 0 {
      if Fill(s[0], n).status == Filled {
        StartWithoutHead(s, k);
      } else {
        StartFilledHead(s, n, k);
      }
    }
  }

  /** At the heads, nesting is the same as trading no more than either has left; otherwise a head is overfilled. */
  lemma HeadsNested(b: Book)
    requires Tradable(b) && Crossed(b)
    ensures PairNested(b, 0, 0)
        <==> TradeQuantity(Whole, b.bids[0], b.asks[0]) == TradeQuantity(Remaining, b.bids[0], b.asks[0])
    ensures !PairNested(b, 0, 0) ==> !NoOverfill(Match(Whole, b))
  {
    var bid, ask := b.bids[0], b.asks[0];
    assert Live(bid) && Live(ask);
    assert Start(b.bids, 1) == Start(b.bids, 0) + Left(bid) && Start(b.asks, 1) == Start(b.asks, 0) + Left(ask);
    if !PairNested(b, 0, 0) {
      StepProgress(Whole, b);
      var n := TradeOf(Whole, b).quantity;
      var o := Match(Whole, b);
      if n > Left(bid) {
        assert o.goneBids[0] == Fill(bid, n);
      } else {
        assert o.goneAsks[0] == Fill(ask, n);
      }
    }
  }

  /** Order `i` of a settled side, seen on the line of the side before: the same stretch moved left by `n`, unless it
      is a head that stays, which loses its beginning and counts as partly filled. */
  lemma SettledStretch(s: seq<Rec>, n: int, i: nat)
    requires |s| > 0 && AllLive(s) && 0 < n <= Left(s[0]) && i < |Settle(s, n)|
    ensures var s' := Settle(s, n); var k := i + |s| - |s'|;
            && s'[i].price == s[k].price && Start(s', i + 1) == Start(s, k + 1) - n
            && (k > 0 ==> Start(s', i) == Start(s, k) - n && s'[i].filled == s[k].filled && Start(s, k) >= n)
            && (k == 0 ==> Start(s', i) == 0 && s'[i].filled > 0 && Start(s, k) == 0 && Start(s, k + 1) > n)
  {
    SettleStart(s, n, i);
    SettleStart(s, n, i + 1);
    StartAfterHead(s, i + |s| - |Settle(s, n)|);
    assert Live(s[0]);
  }

  /** Moving two stretches left by `n` keeps `Overlap` and `Inside`; here `s'` and `t'` are the settled sides. */
  lemma SettledPair(s: seq<Rec>, t: seq<Rec>, n: int, i: nat, j: nat)
    requires |s| > 0 && AllLive(s) && 0 < n <= Left(s[0]) && i < |Settle(s, n)|
    requires |t| > 0 && AllLive(t) && 0 < n <= Left(t[0]) && j < |Settle(t, n)|
    requires |Settle(s, n)| < |s| || |Settle(t, n)| < |t|
    ensures var s', t' := Settle(s, n), Settle(t, n); var k, l := i + |s| - |s'|, j + |t| - |t'|;
            (Overlap(s', i, t', j) <==> Overlap(s, k, t, l)) && (Inside(s', i, t', j) <==> Inside(s, k, t, l))
  {
    SettledStretch(s, n, i);
    SettledStretch(t, n, j);
    StartAfterHead(s, i + |s| - |Settle(s, n)|);
    StartAfterHead(t, j + |t| - |Settle(t, n)|);
  }

  /** After an exact crossing, nesting of the pairs that are left does not change. */
  lemma StepPairs(b: Book, i: nat, j: nat)
    requires Tradable(b) && Crossed(b) && PairNested(b, 0, 0)
    requires var c := Step(Whole, b); i < |c.bids| && j < |c.asks|
    ensures var c := Step(Whole, b);
            PairNested(c, i, j) <==> PairNested(b, i + |b.bids| - |c.bids|, j + |b.asks| - |c.asks|)
  {
    hide AllLive, Overlap, Inside;
    var n := TradeOf(Whole, b).quantity;
    HeadsNested(b);
    StepProgress(Whole, b);
    SettledStretch(b.bids, n, i);
    SettledStretch(b.asks, n, j);
    SettledPair(b.bids, b.asks, n, i, j);
    SettledPair(b.asks, b.bids, n, j, i);
  }

  /** An order behind the head begins where the head ends, or later. */
  lemma StartAfterHead(s: seq<Rec>, i: nat)
    requires |s| > 0 && AllLive(s) && i < |s|
    ensures Start(s, 1) == Left(s[0]) > 0
    ensures i == 0 ==> Start(s, i) == 0
    ensures i > 0 ==> Start(s, i) >= Left(s[0])
    ensures Start(s, i + 1) > Start(s, i)
  {
    assert Live(s[0]) && Live(s[i]);
    assert Start(s, 1) == Start(s, 0) + Left(s[0]);
    if i > 0 {
      StartMonotone(s, 1, i);
    }
  }

  /** A pair with a head that leaves in an exact crossing is nested, or does not overlap. */
  lemma LeavingPairs(b: Book, i: nat, j: nat)
    requires Tradable(b) && Crossed(b) && PairNested(b, 0, 0)
    requires i < |b.bids| && j < |b.asks|
    requires var c := Step(Whole, b); i < |b.bids| - |c.bids| || j < |b.asks| - |c.asks|
    ensures PairNested(b, i, j)
  {
    var n := TradeOf(Whole, b).quantity;
    HeadsNested(b);
    StepProgress(Whole, b);
    SettleStart(b.bids, n, 0);
    SettleStart(b.asks, n, 0);
    StartAfterHead(b.bids, i);
    StartAfterHead(b.asks, j);
  }

  lemma StepNested(b: Book)
    requires Tradable(b) && Crossed(b) && PairNested(b, 0, 0)
    ensures Nested(b) <==> Nested(Step(Whole, b))
  {
    var c := Step(Whole, b);
    var dx, dy := |b.bids| - |c.bids|, |b.asks| - |c.asks|;
    if Nested(b) {
      forall i, j | 0 <= i < |c.bids| && 0 <= j < |c.asks| ensures PairNested(c, i, j) {
        StepPairs(b, i, j);
        assert PairNested(b, i + dx, j + dy);
      }
    }
    if Nested(c) {
      forall i, j | 0 <= i < |b.bids| && 0 <= j < |b.asks| ensures PairNested(b, i, j) {
        if i < dx || j < dy {
          LeavingPairs(b, i, j);
        } else {
          assert PairNested(c, i - dx, j - dy);
          StepPairs(b, i - dx, j - dy);
        }
      }
    }
  }

  lemma UncrossedNested(b: Book)
    requires WellFormed(b) && !Crossed(b)
    ensures Nested(b)
  {
    forall i, j | 0 <= i < |b.bids| && 0 <= j < |b.asks| ensures PairNested(b, i, j) {
      assert b.bids[0].price >= b.bids[i].price && b.asks[0].price <= b.asks[j].price;
    }
  }

  /** The whole-quantity rule overfills nothing exactly when crossing orders nest on the line; and then, and only then,
      it makes the very same trades as the remaining-quantity rule. */
  lemma {:induction false} NoOverfillExactly(b: Book)
    requires Tradable(b) && WellFormed(b)
    ensures NoOverfill(Match(Whole, b)) <==> Nested(b)
    ensures Match(Whole, b) == Match(Remaining, b) <==> Nested(b)
    decreases Size(b)
  {
    if Crossed(b) {
      HeadsNested(b);
      StepProgress(Whole, b);
      StepProgress(Remaining, b);
      RemainingExact(b);
      if PairNested(b, 0, 0) {
        StepNested(b);
        StepWellFormed(Whole, b);
        NoOverfillExactly(Step(Whole, b));
        ExactStep(b);
      } else {
        assert !Nested(b);
      }
    } else {
      UncrossedNested(b);
    }
  }

  lemma ExactStep(b: Book)
    requires Tradable(b) && Crossed(b) && Tradable(Step(Whole, b))
    requires TradeQuantity(Whole, b.bids[0], b.asks[0]) == TradeQuantity(Remaining, b.bids[0], b.asks[0])
    ensures Step(Whole, b) == Step(Remaining, b)
    ensures NoOverfill(Match(Whole, b)) <==> NoOverfill(Match(Whole, Step(Whole, b)))
    ensures Match(Whole, b) == Match(Remaining, b)
        <==> Match(Whole, Step(Whole, b)) == Match(Remaining, Step(Whole, b))
  {
    var n, c := TradeOf(Whole, b).quantity, Step(Whole, b);
    assert Live(b.bids[0]) && Live(b.asks[0]);
    var o, o', r, r' := Match(Whole, b), Match(Whole, c), Match(Remaining, b), Match(Remaining, c);
    assert AllExact(Leaver(b.bids, n)) && AllExact(Leaver(b.asks, n));
    AllExactConcat(Leaver(b.bids, n), o'.goneBids);
    AllExactConcat(Leaver(b.asks, n), o'.goneAsks);
    assert o'.trades == o.trades[1..] && r'.trades == r.trades[1..];
    assert o'.goneBids == o.goneBids[|Leaver(b.bids, n)|..] && r'.goneBids == r.goneBids[|Leaver(b.bids, n)|..];
    assert o'.goneAsks == o.goneAsks[|Leaver(b.asks, n)|..] && r'.goneAsks == r.goneAsks[|Leaver(b.asks, n)|..];
  }

  lemma AllExactConcat(s: seq<Rec>, t: seq<Rec>)
    requires AllExact(s)
    ensures AllExact(s + t) <==> AllExact(t)
  {
    if AllExact(s + t) {
      forall i | 0 <= i < |t| ensures t[i].filled == t[i].quantity {
        assert (s + t)[|s| + i] == t[i];
      }
    }
  }

  // ---------- equal quantities ----------

  lemma {:induction false} StartOfEqual(s: seq<Rec>, q: int, k: nat)
    requires k <= |s| && forall i :: 0 <= i < |s| ==> Left(s[i]) == q
    ensures Start(s, k) == k * q
  {
    if k > 0 {
      StartOfEqual(s, q, k - 1);
      assert k * q == (k - 1) * q + q;
    }
  }

  lemma MultipleMonotone(i: int, j: int, q: int)
    requires q > 0 && i <= j
    ensures i * q <= j * q
  {
  }

  lemma OverlapIsSame(i: int, j: int, q: int)
    requires q > 0 && i * q < (j + 1) * q && j * q < (i + 1) * q
    ensures i == j
  {
    if i > j {
      MultipleMonotone(j + 1, i, q);
    } else if j > i {
      MultipleMonotone(i + 1, j, q);
    }
  }

  /** With equal quantities and no order filled in part, the whole-quantity rule already conserves. */
  lemma EqualQuantitiesExact(b: Book, q: int)
    requires Tradable(b) && WellFormed(b)
    requires forall i :: 0 <= i < |b.bids| ==> b.bids[i].quantity == q && b.bids[i].filled == 0
    requires forall i :: 0 <= i < |b.asks| ==> b.asks[i].quantity == q && b.asks[i].filled == 0
    ensures NoOverfill(Match(Whole, b)) && Match(Whole, b) == Match(Remaining, b)
  {
    forall i, j | 0 <= i < |b.bids| && 0 <= j < |b.asks| ensures PairNested(b, i, j) {
      assert Live(b.bids[i]);
      StartOfEqual(b.bids, q, i);
      StartOfEqual(b.bids, q, i + 1);
      StartOfEqual(b.asks, q, j);
      StartOfEqual(b.asks, q, j + 1);
      if i * q < (j + 1) * q && j * q < (i + 1) * q {
        OverlapIsSame(i, j, q);
      }
    }
    NoOverfillExactly(b);
  }
}
