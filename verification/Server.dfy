/** The challenge server: publishing challenges and judging responses. */
module Server {
  import opened Decimals

  datatype Challenge = Challenge(id: int, target: string, market: map<string, (real, real)>,
                                 winnerDeclared: bool, winnerName: string)

  /** A response line as the stream extraction leaves it. A malformed one breaks off before both prices are read and
      counts as matching nothing. */
  datatype Response = Response(id: int, ticker: string, bid: real, ask: real, name: string) | Malformed | OtherHeader

  const HEADER: string := "CHALLENGE_RESPONSE"
  const TOLERANCE: real := 0.001

  // ---------- reading a response line ----------

  /** What arrives up to the first line feed. */
  function GetLine(s: string): string {
    if s == "" || s[0] == '\n' then "" else [s[0]] + GetLine(s[1..])
  }

  function WordEnd(s: string, p: nat): (r: nat)
    requires p <= |s|
    ensures p <= r <= |s|
    decreases |s| - p
  {
    if p < |s| && !IsBlank(s[p]) then WordEnd(s, p + 1) else p
  }

  /** Behind an optional sign. */
  function SignEnd(s: string, p: nat): (r: nat)
    requires p <= |s|
    ensures p <= r <= |s| && r <= p + 1
  {
    if p < |s| && (s[p] == '-' || s[p] == '+') then p + 1 else p
  }

  /** A number extracted from the stream and the place behind it, or a failed extraction. */
  datatype Extracted<N> = Extracted(value: N, next: nat) | Failed

  const INT_LIMIT: int := 0x8000_0000

  /** An optional sign and digits; the extraction fails without a digit and outside the range of `int`. */
  function ExtractInt(s: string, p: nat): (r: Extracted<int>)
    requires p <= |s|
    ensures r.Extracted? ==> p < r.next <= |s|
  {
    var a := SignEnd(s, p);
    var b := RunEnd(s, a);
    if a == b then Failed else
    var n: int := Value(s[a..b]);
    var value := if s[p] == '-' then -n else n;
    if -INT_LIMIT <= value < INT_LIMIT then Extracted(value, b) else Failed
  }

  /** An optional sign, digits with at most one point among them, and an optional exponent; the extraction fails
      without a digit before the exponent or in it. */
  function ExtractDouble(s: string, p: nat): (r: Extracted<real>)
    requires p <= |s|
    ensures r.Extracted? ==> p < r.next <= |s|
  {
    var a := SignEnd(s, p);
    var m := ParseDouble(s + ['\0'], a);
    if m == OutOfBuffer || m.next <= a || m.next > |s| || s[a..m.next] == "." then Failed
    else ExtractExponent(s, m.next, if s[p] == '-' then -m.value else m.value)
  }

  function MovePoint(value: real, places: nat, left: bool): real {
    if left then value / Pow10(places) as real else value * Pow10(places) as real
  }

  function ExtractExponent(s: string, p: nat, value: real): (r: Extracted<real>)
    requires p <= |s|
    ensures r.Extracted? ==> p <= r.next <= |s|
  {
    if p < |s| && (s[p] == 'e' || s[p] == 'E') then
      var a := SignEnd(s, p + 1);
      var b := RunEnd(s, a);
      if a == b then Failed
      else Extracted(MovePoint(value, Value(s[a..b]), s[p + 1] == '-'), b)
    else
      Extracted(value, p)
  }

  function ReadResponse(line: string): Response {
    var a := SkipBlanks(line, 0);
    var b := WordEnd(line, a);
    if line[a..b] != HEADER then OtherHeader else
    match ExtractInt(line, SkipBlanks(line, b))
    case Failed => Malformed
    case Extracted(id, c) => ReadPrices(line, c, id)
  }

  function ReadPrices(line: string, p: nat, id: int): Response
    requires p <= |line|
  {
    var a := SkipBlanks(line, p);
    var b := WordEnd(line, a);
    if a == b then Malformed else
    match ExtractDouble(line, SkipBlanks(line, b))
    case Failed => Malformed
    case Extracted(bid, c) =>
      match ExtractDouble(line, SkipBlanks(line, c))
      case Failed => Malformed
      case Extracted(ask, d) =>
        var e := SkipBlanks(line, d);
        Response(id, line[a..b], bid, ask, line[e..WordEnd(line, e)])
  }

  // ---------- judging ----------

  predicate Near(x: real, y: real) {
    -TOLERANCE <= x - y <= TOLERANCE
  }

  /** The response names the challenge and its target and both prices are within the tolerance. */
  predicate Correct(c: Challenge, r: Response) {
    && r.Response? && r.id == c.id && r.ticker == c.target
    && r.ticker in c.market && Near(r.bid, c.market[r.ticker].0) && Near(r.ask, c.market[r.ticker].1)
  }

  function Judge(c: Challenge, r: Response): Challenge {
    if Correct(c, r) && !c.winnerDeclared then c.(winnerDeclared := true, winnerName := r.name) else c
  }

  datatype State = State(current: Challenge, lastId: int)

  datatype Event = Published(market: map<string, (real, real)>, target: string) | Responded(r: Response)

  const INITIAL: State := State(Challenge(0, "", map[], false, ""), 0)

  function Issued(id: int, e: Event): Challenge
    requires e.Published?
  {
    Challenge(id, e.target, e.market, false, "")
  }

  function Step(s: State, e: Event): State {
    match e
    case Published(_, _) => State(Issued(s.lastId + 1, e), s.lastId + 1)
    case Responded(r) => s.(current := Judge(s.current, r))
  }

  /** The server after a run of events, in the order in which they take the lock. */
  function After(es: seq<Event>): State {
    if es == [] then INITIAL else Step(After(es[..|es| - 1]), es[|es| - 1])
  }

  class ChallengeServer {
    var current: Challenge
    var globalChallengeId: int

    function Snapshot(): State
      reads this
    {
      State(current, globalChallengeId)
    }

    constructor ()
      ensures Snapshot() == INITIAL
    {
      current, globalChallengeId := INITIAL.current, 0;
    }

    method Publish(market: map<string, (real, real)>, target: string)
      modifies this
      ensures Snapshot() == Step(old(Snapshot()), Published(market, target))
    {
      globalChallengeId := globalChallengeId + 1;
      current := Challenge(globalChallengeId, target, market, false, "");
    }

    /** The challenge is judged under the lock; the reply text never says so: it is the same for every response. */
    method ProcessOrder(msg: string) returns (reply: string)
      modifies this
      ensures Snapshot() == Step(old(Snapshot()), Responded(ReadResponse(msg)))
      ensures reply == if ReadResponse(msg).OtherHeader? then "" else "INCORRECT\n"
    {
      var r := ReadResponse(msg);
      if r.OtherHeader? {
        return "";
      }
      var correct := false;
      var clientName := if r.Response? then r.name else "";
      if r.Response? && current.id == r.id && !current.winnerDeclared {
        if current.target == r.ticker {
          if r.ticker in current.market {
            var expected := current.market[r.ticker];
            if Near(r.bid, expected.0) && Near(r.ask, expected.1) {
              if !current.winnerDeclared {
                current := current.(winnerDeclared := true, winnerName := clientName);
              }
            }
          }
        }
      }
      reply := if correct then "WINNER " + clientName + "\n" else "INCORRECT\n";
    }
  }

  // ---------- winners over every run ----------

  function Publications(es: seq<Event>): nat {
    if es == [] then 0
    else Publications(es[..|es| - 1]) + if es[|es| - 1].Published? then 1 else 0
  }

  /** Challenge ids count the publications, so they strictly increase. */
  lemma {:induction false} IdsCountPublications(es: seq<Event>)
    ensures After(es).current.id == After(es).lastId == Publications(es)
  {
    if es != [] {
      IdsCountPublications(es[..|es| - 1]);
    }
  }

  /** Just behind the last publication; 0 when there is none. */
  function SincePublished(es: seq<Event>): (k: nat)
    ensures k <= |es| && (k > 0 ==> es[k - 1].Published?)
    ensures forall i :: k <= i < |es| ==> es[i].Responded?
  {
    if es == [] then 0
    else if es[|es| - 1].Published? then |es|
    else SincePublished(es[..|es| - 1])
  }

  /** The first correct response to `c` among the events from `k` on; the length of the run when there is none. */
  function FirstCorrect(c: Challenge, es: seq<Event>, k: nat): (j: nat)
    requires k <= |es|
    ensures k <= j <= |es|
    ensures j < |es| ==> es[j].Responded? && Correct(c, es[j].r)
    ensures forall i :: k <= i < j ==> !(es[i].Responded? && Correct(c, es[i].r))
    decreases |es| - k
  {
    if k == |es| || (es[k].Responded? && Correct(c, es[k].r)) then k else FirstCorrect(c, es, k + 1)
  }

  /** The challenge as it was published; the empty one when nothing was. */
  function Current(es: seq<Event>): Challenge {
    var k := SincePublished(es);
    if k == 0 then INITIAL.current else Issued(Publications(es), es[k - 1])
  }

  /** Winner safety: after every run the current challenge is the last one published, it has a winner exactly when a
      correct response followed its publication, and the winner is the first such response in lock order. */
  lemma {:induction false} WinnerIsFirstCorrect(es: seq<Event>)
    ensures var c, k := Current(es), SincePublished(es);
            var j := FirstCorrect(c, es, k);
            After(es).current == if j < |es| then c.(winnerDeclared := true, winnerName := es[j].r.name) else c
  {
    if es != [] {
      hide Correct, FirstCorrect;
      var n := |es| - 1;
      var pre := es[..n];
      WinnerIsFirstCorrect(pre);
      IdsCountPublications(pre);
      if es[n].Responded? {
        assert pre + [es[n]] == es;
        RespondedKeepsCurrent(pre, es[n]);
        FirstCorrectExtends(Current(pre), pre, es[n], SincePublished(pre));
      }
    }
  }

  lemma RespondedKeepsCurrent(pre: seq<Event>, e: Event)
    requires e.Responded?
    ensures SincePublished(pre + [e]) == SincePublished(pre) && Current(pre + [e]) == Current(pre)
  {
    assert (pre + [e])[..|pre|] == pre;
  }

  lemma {:induction false} FirstCorrectExtends(c: Challenge, pre: seq<Event>, e: Event, k: nat)
    requires k <= |pre| && e.Responded?
    ensures FirstCorrect(c, pre + [e], k) == if FirstCorrect(c, pre, k) < |pre| then FirstCorrect(c, pre, k)
                                             else if Correct(c, e.r) then |pre| else |pre| + 1
    decreases |pre| - k
  {
    if k < |pre| {
      FirstCorrectExtends(c, pre, e, k + 1);
    } else {
      assert (pre + [e])[k] == e;
    }
  }

  /** At most one winner for each challenge: once declared, the winner stays until another challenge replaces it. */
  lemma {:induction false} WinnerIsFinal(es: seq<Event>, i: nat, j: nat)
    requires i <= j <= |es|
    requires After(es[..i]).current.winnerDeclared
    requires After(es[..i]).current.id == After(es[..j]).current.id
    ensures After(es[..j]).current == After(es[..i]).current
    decreases j
  {
    if i < j {
      var pre := es[..j - 1];
      assert es[..j][..j - 1] == pre;
      IdsCountPublications(es[..i]);
      IdsCountPublications(pre);
      IdsCountPublications(es[..j]);
      PublicationsMonotone(es, i, j - 1);
      WinnerIsFinal(es, i, j - 1);
    }
  }

  lemma {:induction false} PublicationsMonotone(es: seq<Event>, i: nat, j: nat)
    requires i <= j <= |es|
    ensures Publications(es[..i]) <= Publications(es[..j])
    decreases j
  {
    if i < j {
      assert es[..j][..j - 1] == es[..j - 1];
      PublicationsMonotone(es, i, j - 1);
    }
  }

  /** A response to another challenge than the current one changes nothing. */
  lemma StaleResponseNeverWins(es: seq<Event>, r: Response)
    requires !r.Response? || r.id != Publications(es)
    ensures After(es + [Responded(r)]) == After(es)
  {
    IdsCountPublications(es);
    assert (es + [Responded(r)])[..|es|] == es;
  }
}
