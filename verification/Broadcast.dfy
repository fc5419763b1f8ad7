/** The challenge message the server broadcasts and its split into datagrams. */
module Broadcast {
  import opened Decimals
  import opened Prices

  datatype Quote = Quote(ticker: string, bid: real, ask: real)

  /** `SEC` and four digits. */
  predicate IsTicker(t: string) {
    |t| == 7 && t[..3] == "SEC" && AllDigits(t[3..])
  }

  /** The ticker the server generates for security number `i`. */
  function Ticker(i: nat): string
    requires i < 10000
  {
    FourDigits();
    "SEC" + Pad(i, 4)
  }

  lemma FourDigits()
    ensures Pow10(4) == 10000
  {
    Powers();
  }

  /** Generated tickers are well formed and distinct. */
  lemma TickersDistinct(i: nat, j: nat)
    requires i < 10000 && j < 10000
    ensures IsTicker(Ticker(i)) && (Ticker(i) == Ticker(j) ==> i == j)
  {
    FourDigits();
    assert Ticker(i)[3..] == Pad(i, 4) && Ticker(j)[3..] == Pad(j, 4);
  }

  /** A generated security: bid in [10, 100) and ask above it by an amount in [0.1, 1). */
  predicate IsQuote(q: Quote) {
    IsTicker(q.ticker) && 10.0 <= q.bid < 100.0 && 0.1 <= q.ask - q.bid < 1.0
  }

  predicate AreQuotes(qs: seq<Quote>) {
    forall i :: 0 <= i < |qs| ==> IsQuote(qs[i])
  }

  predicate DistinctTickers(qs: seq<Quote>) {
    forall i, j :: 0 <= i < j < |qs| ==> qs[i].ticker != qs[j].ticker
  }

  function Line(q: Quote): string
    requires IsQuote(q)
  {
    "SEC|" + q.ticker + "|BID|" + GeneralText(q.bid) + "|ASK|" + GeneralText(q.ask) + "\n"
  }

  /** The lines of the securities, in whatever order the hash map yields them. */
  function Lines(qs: seq<Quote>): string
    requires AreQuotes(qs)
  {
    if qs == [] then "" else Line(qs[0]) + Lines(qs[1..])
  }

  function IdLine(id: nat): string {
    "CHALLENGE_ID:" + Digits(id) + "\n"
  }

  function TargetLine(target: string): string {
    "TARGET:" + target + "\n"
  }

  function Message(qs: seq<Quote>, id: nat, target: string): string
    requires AreQuotes(qs)
  {
    Lines(qs) + IdLine(id) + TargetLine(target)
  }

  // ---------- length ----------

  lemma {:induction false} DigitsLength(n: nat, k: nat)
    requires k > 0 && n < Pow10(k)
    ensures |Digits(n)| <= k
  {
    if k > 1 && n >= 10 {
      DigitsLength(n / 10, k - 1);
    }
  }

  lemma GeneralTextLength(v: real)
    requires Printable(v)
    ensures |GeneralText(v)| <= 7
  {
    Powers();
    assert Pow10(2) == 100;
    var n := Units(v);
    if Decimals6(v) == 4 {
      PlainTextLength(n, 4, 2);
    } else {
      PlainTextLength(n, 3, 3);
    }
  }

  lemma PlainTextLength(n: nat, k: nat, w: nat)
    requires w > 0 && Whole(n, k) < Pow10(w)
    ensures |PlainText(n, k)| <= w + 1 + k
  {
    hide Pow10, Value, Fraction, AllDigits, Strip, Digits, Whole, Behind;
    DigitsLength(Whole(n, k), w);
    StripKeepsFraction(Pad(Behind(n, k), k));
  }

  lemma {:induction false} LinesLength(qs: seq<Quote>)
    requires AreQuotes(qs)
    ensures |Lines(qs)| <= 36 * |qs|
  {
    if qs != [] {
      GeneralTextLength(qs[0].bid);
      GeneralTextLength(qs[0].ask);
      LinesLength(qs[1..]);
    }
  }

  const MAX_UDP_PAYLOAD: nat := 1400

  /** A challenge of at most ten securities fits one datagram. */
  lemma MessageFitsOneDatagram(qs: seq<Quote>, id: nat, target: string)
    requires AreQuotes(qs) && |qs| <= 10 && id < 0x8000_0000 && IsTicker(target)
    ensures 0 < |Message(qs, id, target)| <= 399
  {
    LinesLength(qs);
    assert Pow10(5) == 100000;
    assert Pow10(10) == 10000000000;
    DigitsLength(id, 10);
  }

  function Concat(fragments: seq<string>): string {
    if fragments == [] then "" else Concat(fragments[..|fragments| - 1]) + fragments[|fragments| - 1]
  }

  lemma ConcatNone()
    ensures Concat([]) == ""
  {
  }

  lemma ConcatAppend(fragments: seq<string>, fragment: string)
    ensures Concat(fragments + [fragment]) == Concat(fragments) + fragment
  {
    assert (fragments + [fragment])[..|fragments|] == fragments;
  }

  lemma PrefixGrows(s: string, start: nat, len: nat)
    requires start + len <= |s|
    ensures s[..start] + s[start..start + len] == s[..start + len]
  {
  }

  /** The fragments joined are the message, each but the last is full, and one datagram suffices when the message
      fits. */
  method Fragment(message: string) returns (fragments: seq<string>)
    ensures Concat(fragments) == message
    ensures forall i :: 0 <= i < |fragments| ==> 0 < |fragments[i]| <= 1400
    ensures forall i :: 0 <= i < |fragments| - 1 ==> |fragments[i]| == 1400
    ensures 0 < |message| <= 1400 ==> fragments == [message]
  {
    hide Concat;
    var totalSize := |message|;
    assert message[..0] == "";
    var numFragments := (totalSize + MAX_UDP_PAYLOAD - 1) / MAX_UDP_PAYLOAD;
    fragments := [];
    ConcatNone();
    for i := 0 to numFragments
      invariant |fragments| == i
      invariant Concat(fragments)
        == message[..if i * MAX_UDP_PAYLOAD < totalSize then i * MAX_UDP_PAYLOAD else totalSize]
      invariant forall k :: 0 <= k < i ==> 0 < |fragments[k]| <= MAX_UDP_PAYLOAD
      invariant forall k :: 0 <= k < i && k < numFragments - 1 ==> |fragments[k]| == MAX_UDP_PAYLOAD
    {
      var start := i * MAX_UDP_PAYLOAD;
      var len := if MAX_UDP_PAYLOAD <= totalSize - start then MAX_UDP_PAYLOAD else totalSize - start;
      var fragment := message[start..start + len];
      ConcatAppend(fragments, fragment);
      PrefixGrows(message, start, len);
      fragments := fragments + [fragment];
    }
    if 0 < totalSize <= MAX_UDP_PAYLOAD {
      ConcatNone();
      ConcatAppend([], fragments[0]);
      assert [] + [fragments[0]] == fragments;
      assert message[..totalSize] == message;
    }
  }
}
