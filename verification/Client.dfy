/** The trading client: reads a broadcast out of its receive buffer, looks the target up and writes the reply. */
module Client {
  import opened Decimals
  import opened Prices
  import opened Broadcast

  const NUL: char := '\0'
  const MAX_ENTRIES: nat := 10

  /** A pointer into the buffer, or a read past its end. */
  datatype Position = At(p: nat) | PastEnd

  datatype Scan = Scanned(entries: seq<Quote>) | ScanPastEnd

  datatype EntryRead = EntryRead(entry: Quote, next: nat) | EntryPastEnd

  /** The pointer behind the next line feed, or at the terminator if that comes first. */
  function SkipLine(buf: string, p: nat): (r: Position)
    ensures r.At? ==> p <= r.p <= |buf| && (p < |buf| && buf[p] != NUL ==> p < r.p)
    decreases |buf| - p
  {
    if p >= |buf| then PastEnd
    else if buf[p] == NUL then At(p)
    else if buf[p] == '\n' then At(p + 1)
    else SkipLine(buf, p + 1)
  }

  /** The entry of a line that starts with `SEC|` at `p`: seven bytes of ticker, then two numbers found by fixed
      skips. */
  function ReadEntry(buf: string, p: nat): (r: EntryRead)
    ensures r.EntryRead? ==> p < r.next
  {
    if p + 11 > |buf| then EntryPastEnd
    else
      match ParseDouble(buf, p + 16)
      case OutOfBuffer => EntryPastEnd
      case Parsed(bid, b) =>
        match ParseDouble(buf, b + 5)
        case OutOfBuffer => EntryPastEnd
        case Parsed(ask, a) => EntryRead(Quote(buf[p + 4..p + 11], bid, ask), a)
  }

  /** The parse loop, from pointer `p` with `es` already read. */
  function ScanEntries(buf: string, p: nat, es: seq<Quote>): Scan
    decreases |buf| - p
  {
    if p >= |buf| then ScanPastEnd
    else if buf[p] == NUL || |es| >= MAX_ENTRIES then Scanned(es)
    else if p + 4 > |buf| then ScanPastEnd
    else if buf[p..p + 4] == "SEC|" then
      match ReadEntry(buf, p)
      case EntryPastEnd => ScanPastEnd
      case EntryRead(e, next) =>
        match SkipLine(buf, next)
        case PastEnd => ScanPastEnd
        case At(q) => ScanEntries(buf, q, es + [e])
    else
      match SkipLine(buf, p)
      case PastEnd => ScanPastEnd
      case At(q) => ScanEntries(buf, q, es)
  }

  method SkipLineAt(buf: array<char>, start: nat) returns (r: Position)
    ensures r == SkipLine(buf[..], start)
  {
    var p := start;
    while p < buf.Length && buf[p] != NUL
      invariant start <= p && SkipLine(buf[..], p) == SkipLine(buf[..], start)
      decreases buf.Length - p
    {
      p := p + 1;
      if buf[p - 1] == '\n' {
        return At(p);
      }
    }
    return if p < buf.Length then At(p) else PastEnd;
  }

  method ReadEntries(buf: array<char>) returns (r: Scan)
    ensures r == ScanEntries(buf[..], 0, [])
  {
    hide SkipLine, ParseDouble;
    var p, entries := 0, [];
    while p < buf.Length && buf[p] != NUL && |entries| < MAX_ENTRIES
      invariant ScanEntries(buf[..], p, entries) == ScanEntries(buf[..], 0, [])
      decreases buf.Length - p
    {
      if p + 4 > buf.Length {
        return ScanPastEnd;
      }
      ghost var line := p;
      if buf[p..p + 4] == "SEC|" {
        if p + 11 > buf.Length {
          return ScanPastEnd;
        }
        var ticker := buf[p + 4..p + 11];
        var bid := ParseDoubleAt(buf, p + 16);
        if bid == OutOfBuffer {
          return ScanPastEnd;
        }
        var ask := ParseDoubleAt(buf, bid.next + 5);
        if ask == OutOfBuffer {
          return ScanPastEnd;
        }
        assert ReadEntry(buf[..], p) == EntryRead(Quote(ticker, bid.value, ask.value), ask.next);
        entries := entries + [Quote(ticker, bid.value, ask.value)];
        p := ask.next;
      }
      var q := SkipLineAt(buf, p);
      if q == PastEnd {
        return ScanPastEnd;
      }
      p := q.p;
    }
    return if p < buf.Length then Scanned(entries) else ScanPastEnd;
  }

  // ---------- challenge id, target and reply ----------

  function Terminator(buf: string, p: nat): (r: Position)
    ensures r.At? ==> p <= r.p < |buf| && buf[r.p] == NUL && forall i :: p <= i < r.p ==> buf[i] != NUL
    decreases |buf| - p
  {
    if p >= |buf| then PastEnd else if buf[p] == NUL then At(p) else Terminator(buf, p + 1)
  }

  /** First occurrence of `pattern` in `text` from `i` on; behind the end of the text if there is none. */
  function Search(text: string, pattern: string, i: nat): (r: nat)
    ensures r <= |text| ==> HasAt(text, r, pattern) && i <= r && forall k :: i <= k < r ==> !HasAt(text, k, pattern)
    ensures r > |text| ==> forall k :: i <= k ==> !HasAt(text, k, pattern)
    decreases |text| - i
  {
    if i > |text| then i
    else if HasAt(text, i, pattern) then i
    else Search(text, pattern, i + 1)
  }

  /** Leading blanks, an optional sign and the digits that follow; 0 when there are none. */
  function Atoi(s: string): int {
    var a := SkipBlanks(s, 0);
    var signed := a < |s| && (s[a] == '-' || s[a] == '+');
    var b := if signed then a + 1 else a;
    var n: int := Value(s[b..RunEnd(s, b)]);
    if signed && s[a] == '-' then -n else n
  }

  /** What the client remembers from one broadcast to the next. */
  datatype Memory = Memory(challengeId: int, target: string)

  datatype Recall = Recalled(memory: Memory) | RecallPastEnd

  function ReadHeader(buf: string, m: Memory): Recall {
    match Terminator(buf, 0)
    case PastEnd => RecallPastEnd
    case At(n) =>
      var text := buf[..n];
      HeaderAt(buf, n, Search(text, "CHALLENGE_ID:", 0), Search(text, "TARGET:", 0), m)
  }

  /** The id and the target behind their markers at `i` and `j`, or what is remembered if a marker is missing. */
  function HeaderAt(buf: string, n: nat, i: nat, j: nat, m: Memory): Recall
    requires n <= |buf| && (i <= n ==> i + 13 <= n) && (j <= n ==> j + 7 <= n)
  {
    var id := if i <= n then Atoi(buf[..n][i + 13..]) else m.challengeId;
    if j > n then Recalled(Memory(id, m.target))
    else if j + 14 > |buf| then RecallPastEnd
    else Recalled(Memory(id, buf[j + 7..j + 14]))
  }

  /** Bid and ask of the first entry with this ticker; zeros when there is none. */
  function LookupPrice(es: seq<Quote>, target: string): (real, real) {
    if es == [] then (0.0, 0.0)
    else if es[0].ticker == target then (es[0].bid, es[0].ask)
    else LookupPrice(es[1..], target)
  }

  function IntText(n: int): string {
    if n < 0 then "-" + Digits(-n) else Digits(n)
  }

  /** A C string ends at its first terminator. */
  function CString(s: string): string {
    match Terminator(s, 0)
    case At(n) => s[..n]
    case PastEnd => s
  }

  function ReplyText(m: Memory, bid: real, ask: real, name: string): string {
    "CHALLENGE_RESPONSE " + IntText(m.challengeId) + " " + CString(m.target) + " "
      + FixedText(bid) + " " + FixedText(ask) + " " + name + "\n"
  }

  const OUT_SIZE: nat := 128

  /** A reply, or a read past the receive buffer or past `out`, which holds one byte less than its size. */
  datatype Outcome = Replied(text: string) | OutOfBounds

  function Answer(buf: string, m: Memory, name: string): Outcome {
    match ScanEntries(buf, 0, [])
    case ScanPastEnd => OutOfBounds
    case Scanned(es) =>
      match ReadHeader(buf, m)
      case RecallPastEnd => OutOfBounds
      case Recalled(m') =>
        var price := LookupPrice(es, m'.target);
        var text := ReplyText(m', price.0, price.1, name);
        if |text| < OUT_SIZE then Replied(text) else OutOfBounds
  }

  class TradingClient {
    const name: string
    var challengeId: int
    var target: string

    constructor (name: string)
      ensures this.name == name && challengeId == 0
    {
      this.name, challengeId, target := name, 0, "";
    }

    method Lookup(entries: seq<Quote>, target: string) returns (bid: real, ask: real)
      ensures (bid, ask) == LookupPrice(entries, target)
    {
      bid, ask := 0.0, 0.0;
      for i := 0 to |entries|
        invariant (bid, ask) == (0.0, 0.0) && LookupPrice(entries, target) == LookupPrice(entries[i..], target)
      {
        assert entries[i..][1..] == entries[i + 1..];
        if entries[i].ticker == target {
          bid, ask := entries[i].bid, entries[i].ask;
          break;
        }
      }
    }

    method Receive(buf: array<char>) returns (r: Outcome)
      modifies this
      ensures r == Answer(buf[..], Memory(old(challengeId), old(target)), name)
      ensures ReadHeader(buf[..], Memory(old(challengeId), old(target))) == Recalled(Memory(challengeId, target))
        || (r == OutOfBounds && challengeId == old(challengeId) && target == old(target))
    {
      var scan := ReadEntries(buf);
      if scan == ScanPastEnd {
        return OutOfBounds;
      }
      var header := ReadHeader(buf[..], Memory(challengeId, target));
      if header == RecallPastEnd {
        return OutOfBounds;
      }
      challengeId, target := header.memory.challengeId, header.memory.target;
      var bid, ask := Lookup(scan.entries, target);
      var text := ReplyText(Memory(challengeId, target), bid, ask, name);
      return if |text| < OUT_SIZE then Replied(text) else OutOfBounds;
    }
  }
}
