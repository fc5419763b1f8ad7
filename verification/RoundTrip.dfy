/** The client recovers from every broadcast exactly what the server printed. */
module RoundTrip {
  import opened Decimals
  import opened Prices
  import opened Broadcast
  import opened Client

  /** What a broadcast line shows of a security. */
  function Displayed(q: Quote): Quote
    requires IsQuote(q)
  {
    Quote(q.ticker, Shown(q.bid), Shown(q.ask))
  }

  function DisplayedAll(qs: seq<Quote>): (r: seq<Quote>)
    requires AreQuotes(qs)
    ensures |r| == |qs|
  {
    if qs == [] then [] else [Displayed(qs[0])] + DisplayedAll(qs[1..])
  }

  // ---------- characters of the message ----------

  /** No terminator, and no letter that only the last two lines use. */
  predicate Quiet(s: string) {
    forall i :: 0 <= i < |s| ==> s[i] != NUL && s[i] != 'H' && s[i] != 'T'
  }

  lemma {:induction false} StripQuiet(s: string)
    requires Quiet(s)
    ensures Quiet(Strip(s))
  {
    if s != "" && s[|s| - 1] == '0' {
      StripQuiet(s[..|s| - 1]);
    }
  }

  lemma PlainTextQuiet(n: nat, k: nat)
    ensures Quiet(PlainText(n, k))
  {
    hide Value, Digits, Pad, Strip, Whole, Behind;
    var whole, rest := Digits(Whole(n, k)), Pad(Behind(n, k), k);
    DigitsQuiet(whole);
    DigitsQuiet(rest);
    StripQuiet(rest);
    QuietConcat(".", Strip(rest));
    QuietConcat(whole, if Behind(n, k) == 0 then "" else "." + Strip(rest));
  }

  lemma DigitsQuiet(s: string)
    requires AllDigits(s)
    ensures Quiet(s)
  {
  }

  lemma QuietConcat(s: string, t: string)
    requires Quiet(s) && Quiet(t)
    ensures Quiet(s + t)
  {
  }

  lemma LineQuiet(q: Quote)
    requires IsQuote(q)
    ensures Quiet(Line(q)) && Line(q)[|Line(q)| - 1] == '\n'
  {
    var bid, ask := GeneralText(q.bid), GeneralText(q.ask);
    PlainTextQuiet(Units(q.bid), Decimals6(q.bid));
    PlainTextQuiet(Units(q.ask), Decimals6(q.ask));
    assert q.ticker == q.ticker[..3] + q.ticker[3..];
    DigitsQuiet(q.ticker[3..]);
    QuietConcat("SEC", q.ticker[3..]);
    QuietConcat("SEC|", q.ticker);
    QuietConcat("SEC|" + q.ticker, "|BID|");
    QuietConcat("SEC|" + q.ticker + "|BID|", bid);
    QuietConcat("SEC|" + q.ticker + "|BID|" + bid, "|ASK|");
    QuietConcat("SEC|" + q.ticker + "|BID|" + bid + "|ASK|", ask);
    QuietConcat("SEC|" + q.ticker + "|BID|" + bid + "|ASK|" + ask, "\n");
  }

  lemma {:induction false} LinesQuiet(qs: seq<Quote>)
    requires AreQuotes(qs)
    ensures Quiet(Lines(qs)) && (Lines(qs) != "" ==> Lines(qs)[|Lines(qs)| - 1] == '\n')
  {
    if qs != [] {
      LineQuiet(qs[0]);
      LinesQuiet(qs[1..]);
      QuietConcat(Line(qs[0]), Lines(qs[1..]));
    }
  }

  // ---------- one line ----------

  /** A line of the message read at `p` yields the displayed security and the pointer behind the line. */
  lemma LineScans(buf: string, p: nat, q: Quote, es: seq<Quote>)
    requires IsQuote(q) && HasAt(buf, p, Line(q)) && |es| < MAX_ENTRIES
    ensures ScanEntries(buf, p, es) == ScanEntries(buf, p + |Line(q)|, es + [Displayed(q)])
  {
    hide ParseDouble, GeneralText, Shown, Printable, IsDigit;
    var a, b := LineEntry(buf, p, q);
    assert buf[p] == 'S' by {
      assert buf[p..p + 4][0] == 'S';
    }
    assert SkipLine(buf, b) == At(b + 1);
  }

  lemma LineEntry(buf: string, p: nat, q: Quote) returns (a: nat, b: nat)
    requires IsQuote(q) && HasAt(buf, p, Line(q))
    ensures p + 16 <= |buf| && buf[p..p + 4] == "SEC|" && ReadEntry(buf, p) == EntryRead(Displayed(q), b)
    ensures b + 1 == p + |Line(q)| && b < |buf| && buf[b] == '\n'
  {
    hide ParseDouble, GeneralText, Shown, IsDigit;
    var bid, ask := GeneralText(q.bid), GeneralText(q.ask);
    LineParts(buf, p, q.ticker, bid, ask);
    a := p + 16 + |bid|;
    b := a + 5 + |ask|;
    PriceParses(buf, p + 16, q.bid);
    PriceParses(buf, a + 5, q.ask);
  }

  lemma PriceParses(buf: string, p: nat, v: real)
    requires Printable(v) && HasAt(buf, p, GeneralText(v))
    requires var e := p + |GeneralText(v)|; e < |buf| && (buf[e] == '|' || buf[e] == '\n')
    ensures ParseDouble(buf, p) == Parsed(Shown(v), p + |GeneralText(v)|)
  {
    PlainTextParses(buf, p, Units(v), Decimals6(v));
  }

  lemma LineParts(buf: string, p: nat, ticker: string, bid: string, ask: string)
    requires |ticker| == 7
    requires HasAt(buf, p, "SEC|" + ticker + "|BID|" + bid + "|ASK|" + ask + "\n")
    ensures var a := p + 16 + |bid|; var b := a + 5 + |ask|;
            && b + 1 <= |buf| && buf[p..p + 4] == "SEC|" && buf[p + 4..p + 11] == ticker
            && HasAt(buf, p + 16, bid) && buf[a] == '|' && HasAt(buf, a + 5, ask) && buf[b] == '\n'
  {
    var a := p + 16 + |bid|;
    var b := a + 5 + |ask|;
    HasAtConcat(buf, p, "SEC|" + ticker + "|BID|" + bid + "|ASK|" + ask, "\n");
    HasAtConcat(buf, p, "SEC|" + ticker + "|BID|" + bid + "|ASK|", ask);
    HasAtConcat(buf, p, "SEC|" + ticker + "|BID|" + bid, "|ASK|");
    HasAtConcat(buf, p, "SEC|" + ticker + "|BID|", bid);
    HasAtConcat(buf, p, "SEC|" + ticker, "|BID|");
    HasAtConcat(buf, p, "SEC|", ticker);
    assert HasAt(buf, a, "|ASK|") && HasAt(buf, b, "\n");
    HasAtCharacters(buf, a, "|ASK|");
    HasAtCharacters(buf, b, "\n");
    assert buf[a + 0] == "|ASK|"[0] && buf[b + 0] == "\n"[0];
  }

  // ---------- the whole message ----------

  lemma Unfold(qs: seq<Quote>)
    requires AreQuotes(qs) && qs != []
    ensures IsQuote(qs[0]) && AreQuotes(qs[1..])
    ensures Lines(qs) == Line(qs[0]) + Lines(qs[1..]) && DisplayedAll(qs) == [Displayed(qs[0])] + DisplayedAll(qs[1..])
  {
  }

  lemma UnfoldNone()
    ensures Lines([]) == "" && DisplayedAll([]) == []
  {
  }

  lemma {:induction false} LinesScan(buf: string, p: nat, qs: seq<Quote>, es: seq<Quote>)
    requires AreQuotes(qs) && HasAt(buf, p, Lines(qs)) && |es| + |qs| <= MAX_ENTRIES
    ensures ScanEntries(buf, p, es) == ScanEntries(buf, p + |Lines(qs)|, es + DisplayedAll(qs))
    decreases |qs|
  {
    hide *;
    if qs == [] {
      UnfoldNone();
      assert es + [] == es;
    } else {
      var q, rest := qs[0], qs[1..];
      Unfold(qs);
      HasAtConcat(buf, p, Line(q), Lines(rest));
      LineScans(buf, p, q, es);
      LinesScan(buf, p + |Line(q)|, rest, es + [Displayed(q)]);
      assert es + [Displayed(q)] + DisplayedAll(rest) == es + DisplayedAll(qs);
    }
  }

  /** A line that is not a security is skipped. */
  lemma {:induction false} SkipsText(buf: string, p: nat, s: string)
    requires HasAt(buf, p, s + "\n") && forall i :: 0 <= i < |s| ==> s[i] != NUL && s[i] != '\n'
    ensures SkipLine(buf, p) == At(p + |s| + 1)
    decreases |s|
  {
    HasAtConcat(buf, p, s, "\n");
    if s != "" {
      assert buf[p] == s[0] by {
        assert buf[p..p + |s|][0] == buf[p];
      }
      assert buf[p + 1..p + 1 + |s[1..] + "\n"|] == s[1..] + "\n" by {
        assert buf[p..p + |s + "\n"|][1..] == buf[p + 1..p + |s + "\n"|];
        assert (s + "\n")[1..] == s[1..] + "\n";
      }
      SkipsText(buf, p + 1, s[1..]);
    } else {
      assert buf[p..p + 1][0] == '\n';
    }
  }

  lemma SkipsLine(buf: string, p: nat, s: string, es: seq<Quote>)
    requires HasAt(buf, p, s + "\n") && forall i :: 0 <= i < |s| ==> s[i] != NUL && s[i] != '\n'
    requires |s| >= 4 && s[0] != 'S' && |es| < MAX_ENTRIES
    ensures ScanEntries(buf, p, es) == ScanEntries(buf, p + |s| + 1, es)
  {
    SkipsText(buf, p, s);
    HasAtConcat(buf, p, s, "\n");
    assert buf[p..p + |s|][0] == buf[p];
    assert buf[p..p + 4][0] == buf[p] && "SEC|"[0] == 'S';
  }

  /** The buffer holds the message, terminated, with anything behind it. */
  predicate Receives(buf: string, qs: seq<Quote>, id: nat, target: string)
    requires AreQuotes(qs)
  {
    HasAt(buf, 0, Message(qs, id, target) + [NUL])
  }

  /** A receive buffer holds the message in front of whatever an earlier, longer message left behind. */
  lemma AnyLeftover(qs: seq<Quote>, id: nat, target: string, leftover: string)
    requires AreQuotes(qs)
    ensures Receives(Message(qs, id, target) + [NUL] + leftover, qs, id, target)
  {
    var m := Message(qs, id, target) + [NUL];
    assert (m + leftover)[0..|m|] == m;
  }

  lemma MessageParts(buf: string, qs: seq<Quote>, id: nat, target: string)
    requires AreQuotes(qs) && Receives(buf, qs, id, target)
    ensures var a := |Lines(qs)|; var b := a + |IdLine(id)|; var c := b + |TargetLine(target)|;
            && HasAt(buf, 0, Lines(qs)) && HasAt(buf, a, IdLine(id)) && HasAt(buf, b, TargetLine(target))
            && c == |Message(qs, id, target)| < |buf| && buf[c] == NUL && buf[..c] == Message(qs, id, target)
  {
    hide HasAt, Lines, IdLine, TargetLine;
    var m := Message(qs, id, target);
    HasAtConcat(buf, 0, m, [NUL]);
    HasAtConcat(buf, 0, Lines(qs) + IdLine(id), TargetLine(target));
    HasAtConcat(buf, 0, Lines(qs), IdLine(id));
    HasAtCharacters(buf, |m|, [NUL]);
    assert buf[|m| + 0] == [NUL][0];
    PrefixIs(buf, m);
  }

  lemma PrefixIs(buf: string, m: string)
    requires HasAt(buf, 0, m)
    ensures |m| <= |buf| && buf[..|m|] == m
  {
  }

  lemma {:induction false} LinesSplit(qs: seq<Quote>, k: nat)
    requires AreQuotes(qs) && k <= |qs|
    ensures AreQuotes(qs[..k]) && AreQuotes(qs[k..]) && Lines(qs) == Lines(qs[..k]) + Lines(qs[k..])
  {
    if k > 0 {
      assert qs[..k][1..] == qs[1..][..k - 1] && qs[k..] == qs[1..][k - 1..];
      LinesSplit(qs[1..], k - 1);
    } else {
      assert qs[..0] == [] && qs[0..] == qs;
    }
  }

  /** The securities the client has room for: the first ten printed. */
  function FirstTen(qs: seq<Quote>): seq<Quote> {
    if |qs| <= 10 then qs else qs[..10]
  }

  /** The client reads exactly the displayed securities, in the order printed, and of a broadcast of more than ten
      exactly the first ten. */
  lemma EntriesRecovered(buf: string, qs: seq<Quote>, id: nat, target: string)
    requires AreQuotes(qs) && IsTicker(target) && Receives(buf, qs, id, target)
    ensures |qs| <= 10 ==> ScanEntries(buf, 0, []) == Scanned(DisplayedAll(qs))
    ensures |qs| > 10 ==> ScanEntries(buf, 0, []) == Scanned(DisplayedAll(qs[..10]))
  {
    hide ScanEntries, HasAt, Lines, DisplayedAll, Message, IdLine, TargetLine, Receives, IsTicker, IsQuote;
    MessageParts(buf, qs, id, target);
    var few := FirstTen(qs);
    LinesSplit(qs, |few|);
    assert qs[..|few|] == few;
    HasAtConcat(buf, 0, Lines(few), Lines(qs[|few|..]));
    LinesScan(buf, 0, few, []);
    var es, a := DisplayedAll(few), |Lines(few)|;
    assert [] + es == es;
    if |qs| < 10 {
      UnfoldNone();
      assert qs[|few|..] == [];
      SkipsIdLine(buf, a, id, es);
      SkipsTargetLine(buf, a + |IdLine(id)|, target, es);
      ScanStops(buf, a + |IdLine(id)| + |TargetLine(target)|, es);
    } else {
      ScanStops(buf, a, es);
    }
  }

  lemma SkipsIdLine(buf: string, p: nat, id: nat, es: seq<Quote>)
    requires HasAt(buf, p, IdLine(id)) && |es| < MAX_ENTRIES
    ensures ScanEntries(buf, p, es) == ScanEntries(buf, p + |IdLine(id)|, es)
  {
    hide ScanEntries, HasAt, Digits;
    SkipsLine(buf, p, "CHALLENGE_ID:" + Digits(id), es);
  }

  lemma SkipsTargetLine(buf: string, p: nat, target: string, es: seq<Quote>)
    requires HasAt(buf, p, TargetLine(target)) && IsTicker(target) && |es| < MAX_ENTRIES
    ensures ScanEntries(buf, p, es) == ScanEntries(buf, p + |TargetLine(target)|, es)
  {
    hide ScanEntries, HasAt;
    TickerChars(target);
    SkipsLine(buf, p, "TARGET:" + target, es);
  }

  lemma ScanStops(buf: string, p: nat, es: seq<Quote>)
    requires p < |buf| && (buf[p] == NUL || |es| >= MAX_ENTRIES)
    ensures ScanEntries(buf, p, es) == Scanned(es)
  {
  }

  lemma TickerChars(t: string)
    requires IsTicker(t)
    ensures forall i :: 0 <= i < |t| ==> t[i] != NUL && t[i] != '\n' && t[i] != ' '
  {
    assert t == t[..3] + t[3..];
  }

  // ---------- id and target ----------

  /** The first search never matches inside the security lines, where no letter `H` occurs. */
  lemma NoEarlyId(qs: seq<Quote>, id: nat, target: string, k: nat)
    requires AreQuotes(qs) && k < |Lines(qs)|
    ensures !HasAt(Message(qs, id, target), k, "CHALLENGE_ID:")
  {
    hide Lines;
    var m, lines := Message(qs, id, target), Lines(qs);
    LinesQuiet(qs);
    if k == |lines| - 1 {
      assert m[k] == '\n';
    } else {
      assert m[k + 1] == lines[k + 1] && m[k + 1] != 'H';
    }
    if HasAt(m, k, "CHALLENGE_ID:") {
      HasAtCharacters(m, k, "CHALLENGE_ID:");
    }
  }

  lemma IdLineHasNoT(id: nat)
    ensures forall i :: 0 <= i < |IdLine(id)| ==> IdLine(id)[i] != 'T'
  {
    hide Digits;
    DigitsQuiet(Digits(id));
  }

  /** No letter `T` occurs before the target line. */
  lemma NoTBefore(lines: string, idLine: string, rest: string, k: nat)
    requires Quiet(lines) && (forall i :: 0 <= i < |idLine| ==> idLine[i] != 'T') && k < |lines| + |idLine|
    ensures (lines + idLine + rest)[k] != 'T'
  {
    if k < |lines| {
      assert (lines + idLine + rest)[k] == lines[k];
    } else {
      assert (lines + idLine + rest)[k] == idLine[k - |lines|];
    }
  }

  /** The second search never matches before its own line. */
  lemma NoEarlyTarget(qs: seq<Quote>, id: nat, target: string, k: nat)
    requires AreQuotes(qs) && k < |Lines(qs)| + |IdLine(id)|
    ensures !HasAt(Message(qs, id, target), k, "TARGET:")
  {
    hide Lines, IdLine, TargetLine, Quiet, HasAt;
    LinesQuiet(qs);
    IdLineHasNoT(id);
    NoTBefore(Lines(qs), IdLine(id), TargetLine(target), k);
    var m := Message(qs, id, target);
    if HasAt(m, k, "TARGET:") {
      StartsAt(m, k, "TARGET:");
    }
  }

  lemma AtoiReads(s: string, n: nat, rest: string)
    requires s == Digits(n) + rest && (rest != "" ==> !IsDigit(rest[0]))
    ensures Atoi(s) == n
  {
    assert HasAt(s, 0, Digits(n));
    assert IsDigit(s[0]) by {
      assert s[0] == Digits(n)[0];
    }
    RunEndText(s, 0, Digits(n));
  }

  /** The client recovers the challenge id and the target, whatever it remembered before. */
  lemma HeaderRecovered(buf: string, qs: seq<Quote>, id: nat, target: string, m: Memory)
    requires AreQuotes(qs) && IsTicker(target) && Receives(buf, qs, id, target)
    ensures ReadHeader(buf, m) == Recalled(Memory(id, target))
  {
    hide Search, Terminator, Lines, Atoi, ReadHeader;
    MessageParts(buf, qs, id, target);
    var text, a := Message(qs, id, target), |Lines(qs)|;
    var b := a + |IdLine(id)|;
    TerminatorFound(buf, qs, id, target);
    SearchFinds(text, "CHALLENGE_ID:", a, qs, id, target);
    SearchFinds(text, "TARGET:", b, qs, id, target);
    TextAfterId(qs, id, target);
    AtoiReads(text[a + 13..], id, "\n" + TargetLine(target));
    HasAtConcat(buf, b, "TARGET:" + target, "\n");
    HasAtConcat(buf, b, "TARGET:", target);
    HeaderIs(buf, m, |text|, a, b);
  }

  lemma TextAfterId(qs: seq<Quote>, id: nat, target: string)
    requires AreQuotes(qs)
    ensures var a := |Lines(qs)| + 13;
            a <= |Message(qs, id, target)| && Message(qs, id, target)[a..] == Digits(id) + ("\n" + TargetLine(target))
  {
    hide Lines, Digits, TargetLine;
    var before, behind := Lines(qs) + "CHALLENGE_ID:", Digits(id) + ("\n" + TargetLine(target));
    assert Message(qs, id, target) == before + behind;
    assert (before + behind)[|before|..] == behind;
  }

  lemma HeaderIs(buf: string, m: Memory, n: nat, i: nat, j: nat)
    requires Terminator(buf, 0) == At(n) && i + 13 <= n && j + 14 <= |buf| && j <= n
    requires Search(buf[..n], "CHALLENGE_ID:", 0) == i && Search(buf[..n], "TARGET:", 0) == j
    ensures ReadHeader(buf, m) == Recalled(Memory(Atoi(buf[..n][i + 13..]), buf[j + 7..j + 14]))
  {
    hide Search, Terminator, HeaderAt;
    HeaderParts(buf, m, n, i, j);
  }

  lemma HeaderParts(buf: string, m: Memory, n: nat, i: nat, j: nat)
    requires i + 13 <= n <= |buf| && j + 7 <= n && j + 14 <= |buf|
    ensures HeaderAt(buf, n, i, j, m) == Recalled(Memory(Atoi(buf[..n][i + 13..]), buf[j + 7..j + 14]))
  {
  }

  lemma SearchFinds(text: string, pattern: string, k: nat, qs: seq<Quote>, id: nat, target: string)
    requires AreQuotes(qs) && text == Message(qs, id, target)
    requires (pattern == "CHALLENGE_ID:" && k == |Lines(qs)|)
          || (pattern == "TARGET:" && k == |Lines(qs)| + |IdLine(id)|)
    ensures Search(text, pattern, 0) == k
  {
    hide Search, Message, Lines, IdLine, HasAt;
    HeadersInPlace(qs, id, target);
    var r := Search(text, pattern, 0);
    SearchIsFirst(text, pattern, k);
    if r < |Lines(qs)| {
      NoEarlyId(qs, id, target, r);
    }
    if r < |Lines(qs)| + |IdLine(id)| {
      NoEarlyTarget(qs, id, target, r);
    }
  }

  lemma SearchIsFirst(text: string, pattern: string, k: nat)
    requires HasAt(text, k, pattern)
    ensures Search(text, pattern, 0) <= k && HasAt(text, Search(text, pattern, 0), pattern)
  {
  }

  lemma HeadersInPlace(qs: seq<Quote>, id: nat, target: string)
    requires AreQuotes(qs)
    ensures HasAt(Message(qs, id, target), |Lines(qs)|, "CHALLENGE_ID:")
    ensures HasAt(Message(qs, id, target), |Lines(qs)| + |IdLine(id)|, "TARGET:")
  {
    hide HasAt, Lines, Digits;
    var text := Message(qs, id, target);
    assert HasAt(text, 0, text) by {
      WholeAt(text);
    }
    HasAtConcat(text, 0, Lines(qs) + IdLine(id), TargetLine(target));
    HasAtConcat(text, 0, Lines(qs), IdLine(id));
    HasAtConcat(text, |Lines(qs)|, "CHALLENGE_ID:" + Digits(id), "\n");
    HasAtConcat(text, |Lines(qs)|, "CHALLENGE_ID:", Digits(id));
    HasAtConcat(text, |Lines(qs)| + |IdLine(id)|, "TARGET:" + target, "\n");
    HasAtConcat(text, |Lines(qs)| + |IdLine(id)|, "TARGET:", target);
  }

  lemma TerminatorFound(buf: string, qs: seq<Quote>, id: nat, target: string)
    requires AreQuotes(qs) && IsTicker(target) && Receives(buf, qs, id, target)
    ensures Terminator(buf, 0) == At(|Message(qs, id, target)|)
  {
    hide HasAt, Message;
    MessageParts(buf, qs, id, target);
    MessageText(qs, id, target);
    var m := Message(qs, id, target);
    forall i | 0 <= i < |m| ensures buf[i] != NUL {
      assert buf[i] == buf[..|m|][i];
    }
    TerminatorUnique(buf, 0, |m|);
  }

  predicate NoNul(s: string) {
    forall i :: 0 <= i < |s| ==> s[i] != NUL
  }

  lemma NoNulConcat(s: string, t: string)
    requires NoNul(s) && NoNul(t)
    ensures NoNul(s + t)
  {
  }

  /** The message contains no terminator of its own. */
  lemma MessageText(qs: seq<Quote>, id: nat, target: string)
    requires AreQuotes(qs) && IsTicker(target)
    ensures NoNul(Message(qs, id, target))
  {
    hide Lines, Digits;
    LinesQuiet(qs);
    DigitsQuiet(Digits(id));
    TickerChars(target);
    NoNulConcat("CHALLENGE_ID:", Digits(id));
    NoNulConcat("CHALLENGE_ID:" + Digits(id), "\n");
    NoNulConcat("TARGET:", target);
    NoNulConcat("TARGET:" + target, "\n");
    NoNulConcat(Lines(qs), IdLine(id));
    NoNulConcat(Lines(qs) + IdLine(id), TargetLine(target));
  }

  lemma {:induction false} TerminatorUnique(buf: string, p: nat, n: nat)
    requires p <= n < |buf| && buf[n] == NUL && forall i :: p <= i < n ==> buf[i] != NUL
    ensures Terminator(buf, p) == At(n)
    decreases n - p
  {
    if p < n {
      TerminatorUnique(buf, p + 1, n);
    }
  }
}
