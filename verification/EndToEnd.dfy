/** From broadcast to verdict: an honest reply to the current, unwon challenge is always accepted. */
module EndToEnd {
  import opened Decimals
  import opened Prices
  import opened Broadcast
  import opened Client
  import opened Replies
  import opened RoundTrip
  import opened Server

  function MarketOf(qs: seq<Quote>): map<string, (real, real)> {
    if qs == [] then map[] else MarketOf(qs[1..])[qs[0].ticker := (qs[0].bid, qs[0].ask)]
  }

  lemma {:induction false} MarketHas(qs: seq<Quote>, i: nat)
    requires DistinctTickers(qs) && i < |qs|
    ensures qs[i].ticker in MarketOf(qs) && MarketOf(qs)[qs[i].ticker] == (qs[i].bid, qs[i].ask)
  {
    if i > 0 {
      MarketHas(qs[1..], i - 1);
    }
  }

  lemma {:induction false} LookupFinds(qs: seq<Quote>, i: nat)
    requires AreQuotes(qs) && DistinctTickers(qs) && i < |qs|
    ensures LookupPrice(DisplayedAll(qs), qs[i].ticker) == (Shown(qs[i].bid), Shown(qs[i].ask))
  {
    hide Shown;
    if i > 0 {
      LookupFinds(qs[1..], i - 1);
      assert DisplayedAll(qs)[1..] == DisplayedAll(qs[1..]);
    }
  }

  // ---------- the whole way round ----------

  lemma FixedLength(n: nat)
    requires n < 1000000000
    ensures |FixedDigits(n)| <= 10
  {
    Powers();
    DigitsLength(Whole(n, 6), 3);
  }

  lemma IdLength(id: nat)
    requires id < 0x8000_0000
    ensures |Digits(id)| <= 10
  {
    assert Pow10(5) == 100000;
    assert Pow10(10) == 10000000000;
    DigitsLength(id, 10);
  }

  lemma {:induction false} NoTerminator(s: string, p: nat)
    requires forall i :: p <= i < |s| ==> s[i] != NUL
    ensures Terminator(s, p) == PastEnd
    decreases |s| - p
  {
    if p < |s| {
      NoTerminator(s, p + 1);
    }
  }

  lemma TickerIsWord(t: string)
    requires IsTicker(t)
    ensures IsWord(t) && CString(t) == t
  {
    assert t == t[..3] + t[3..];
    NoTerminator(t, 0);
  }

  /** The client's reply to a broadcast: one line with the id, the target and the two shown prices. */
  lemma ReplyWritten(buf: string, qs: seq<Quote>, i: nat, id: nat, memory: Memory, name: string)
    returns (m: nat, n: nat)
    requires AreQuotes(qs) && DistinctTickers(qs) && i < |qs| && i < 10 && id < 0x8000_0000
    requires Receives(buf, qs, id, qs[i].ticker)
    ensures Scaled(m, 6) == Shown(qs[i].bid) && Scaled(n, 6) == Shown(qs[i].ask)
    ensures var text := ReplyLine(IntText(id), qs[i].ticker, FixedSigned(m), FixedSigned(n), name) + "\n";
            && Answer(buf, memory, name) == (if |text| <= 127 then Replied(text) else OutOfBounds)
            && (|name| <= 66 ==> |text| <= 127)
  {
    hide Scaled, FixedDigits, FixedText, Shown, IsTicker, Receives, Digits, CString;
    hide ScanEntries, ReadHeader, LookupPrice, DisplayedAll;
    var q := qs[i];
    EntriesRecovered(buf, qs, id, q.ticker);
    HeaderRecovered(buf, qs, id, q.ticker, memory);
    LookupFinds(FirstTen(qs), i);
    m := ShownFixed(q.bid);
    n := ShownFixed(q.ask);
    FixedLength(m);
    FixedLength(n);
    IdLength(id);
    TickerIsWord(q.ticker);
    assert |q.ticker| == 7 by {
      TickerLength(q.ticker);
    }
    assert ReplyText(Memory(id, q.ticker), Shown(q.bid), Shown(q.ask), name)
        == ReplyLine(IntText(id), q.ticker, FixedSigned(m), FixedSigned(n), name) + "\n";
  }

  lemma TickerLength(t: string)
    requires IsTicker(t)
    ensures |t| == 7
  {
  }

  predicate OneLine(s: string) {
    forall i :: 0 <= i < |s| ==> s[i] != '\n'
  }

  lemma {:induction false} GetLineBehind(s: string, t: string)
    requires OneLine(s)
    ensures GetLine(s + t) == s + GetLine(t)
  {
    if s == "" {
      assert s + t == t;
    } else {
      assert (s + t)[1..] == s[1..] + t;
      GetLineBehind(s[1..], t);
    }
  }

  lemma {:induction false} GetLineStops(s: string)
    ensures GetLine(s + "\n") == GetLine(s)
  {
    if s != "" {
      assert (s + "\n")[1..] == s[1..] + "\n";
      GetLineStops(s[1..]);
    }
  }

  lemma OneLineConcat(s: string, t: string)
    requires OneLine(s) && OneLine(t)
    ensures OneLine(s + t)
  {
  }

  /** The line the server gets is the reply with the first line of the name. */
  lemma ReplyIsOneLine(id: string, target: string, bid: string, ask: string, name: string)
    requires IsWord(id) && IsWord(target) && IsWord(bid) && IsWord(ask)
    ensures GetLine(ReplyLine(id, target, bid, ask, name) + "\n") == ReplyLine(id, target, bid, ask, GetLine(name))
  {
    var toId := HEADER + " ";
    var toTarget := toId + id + " ";
    var toBid := toTarget + target + " ";
    var toAsk := toBid + bid + " ";
    var toName := toAsk + ask + " ";
    assert OneLine(toId) && OneLine(" ");
    WordJoins(toId, id);
    WordJoins(toTarget, target);
    WordJoins(toBid, bid);
    WordJoins(toAsk, ask);
    assert toName + name + "\n" == toName + (name + "\n");
    GetLineBehind(toName, name + "\n");
    GetLineStops(name);
  }

  lemma WordJoins(s: string, w: string)
    requires OneLine(s) && IsWord(w)
    ensures OneLine(s + w + " ")
  {
    assert OneLine(w);
    OneLineConcat(s, w);
    OneLineConcat(s + w, " ");
  }

  lemma Millionths(n: nat)
    ensures Scaled(n, 6) == n as real / 1000000.0
  {
    Powers();
  }

  /** End to end: whatever the prices, their order in the broadcast, the rest of the receive buffer and the trader's
      name, the honest reply, if it fits the client's reply buffer, moves each price by at most half a thousandth and
      wins the current, unwon challenge for the first word of the name. */
  lemma HonestReplyWins(buf: string, qs: seq<Quote>, i: nat, id: nat, memory: Memory, name: string, c: Challenge)
    returns (text: string)
    requires forall k :: 0 <= k < |qs| ==>
      IsTicker(qs[k].ticker) && 10.0 <= qs[k].bid < 100.0 && 0.1 <= qs[k].ask - qs[k].bid < 1.0
    requires DistinctTickers(qs) && i < |qs| && i < 10 && id < 0x8000_0000
    requires Receives(buf, qs, id, qs[i].ticker)
    requires c == Challenge(id, qs[i].ticker, MarketOf(qs), false, "")
    ensures Answer(buf, memory, name) == if |text| <= 127 then Replied(text) else OutOfBounds
    ensures |name| <= 66 ==> |text| <= 127
    ensures var r := ReadResponse(GetLine(text));
            && r.Response? && -0.0005 <= r.bid - qs[i].bid <= 0.0005 && -0.0005 <= r.ask - qs[i].ask <= 0.0005
            && Judge(c, r) == c.(winnerDeclared := true, winnerName := FirstWord(GetLine(name)))
  {
    hide FixedSigned, IntText, Shown, IsTicker, Receives, Answer, MarketOf, ReadResponse, ReplyLine, GetLine, FirstWord;
    hide IsWord, Scaled;
    var m, n := ReplyWritten(buf, qs, i, id, memory, name);
    Millionths(m);
    Millionths(n);
    text := ReplyLine(IntText(id), qs[i].ticker, FixedSigned(m), FixedSigned(n), name) + "\n";
    TickerIsWord(qs[i].ticker);
    SignedIsWord(id);
    SignedIsWord(m);
    SignedIsWord(n);
    ReplyIsOneLine(IntText(id), qs[i].ticker, FixedSigned(m), FixedSigned(n), name);
    ReplyReads(id, qs[i].ticker, m, n, GetLine(name));
    ShownClose(qs[i].bid);
    ShownClose(qs[i].ask);
    MarketHas(qs, i);
  }
}
