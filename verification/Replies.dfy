/** Reply lines read back by the server, and its verdict on every one of them. */
module Replies {
  import opened Decimals
  import opened Prices
  import opened Client
  import opened Server

  // ---------- words of a line ----------

  predicate IsWord(s: string) {
    s != "" && forall i :: 0 <= i < |s| ==> !IsBlank(s[i]) && s[i] != NUL
  }

  /** `p` is where a token ends: at the end of the line or at a blank. */
  predicate EndsAt(line: string, p: nat) {
    p <= |line| && (p < |line| ==> line[p] == ' ')
  }

  lemma {:induction false} WordEndUnique(line: string, p: nat, e: nat)
    requires p <= e && EndsAt(line, e) && forall i :: p <= i < e ==> !IsBlank(line[i])
    ensures WordEnd(line, p) == e
    decreases e - p
  {
    if p < e {
      WordEndUnique(line, p + 1, e);
    }
  }

  lemma ReadsWord(line: string, p: nat, w: string)
    requires IsWord(w) && HasAt(line, p, w) && EndsAt(line, p + |w|)
    ensures SkipBlanks(line, p) == p && WordEnd(line, p) == p + |w| && line[p..p + |w|] == w
  {
    HasAtCharacters(line, p, w);
    assert !IsBlank(line[p + 0]);
    forall i | p <= i < p + |w| ensures !IsBlank(line[i]) {
      assert line[p + (i - p)] == w[i - p];
    }
    WordEndUnique(line, p, p + |w|);
  }

  lemma SkipsOneBlank(line: string, p: nat)
    requires p + 1 <= |line| && line[p] == ' ' && (p + 1 < |line| ==> !IsBlank(line[p + 1]))
    ensures SkipBlanks(line, p) == p + 1
  {
  }

  lemma DigitsAreWord(s: string)
    requires AllDigits(s) && s != ""
    ensures IsWord(s)
  {
  }

  lemma FixedIsWord(n: nat)
    ensures IsWord(FixedDigits(n)) && IsDigit(FixedDigits(n)[0])
  {
    var whole, rest := Digits(Whole(n, 6)), Pad(Behind(n, 6), 6);
    DigitsAreWord(whole);
    DigitsAreWord(rest);
    assert FixedDigits(n)[0] == whole[0];
  }

  /** A token at `p` and the blank behind it. */
  predicate TokenAt(line: string, p: nat, w: string) {
    HasAt(line, p, w) && p + |w| < |line| && line[p + |w|] == ' '
  }

  lemma WordNotEmpty(w: string)
    requires IsWord(w)
    ensures |w| > 0
  {
  }

  lemma TokenEnds(line: string, p: nat, w: string)
    requires TokenAt(line, p, w)
    ensures HasAt(line, p, w) && EndsAt(line, p + |w|) && p + |w| < |line| && line[p + |w|] == ' '
  {
  }

  lemma SplitToken(line: string, before: string, w: string)
    requires HasAt(line, 0, before + w + " ")
    ensures HasAt(line, 0, before) && TokenAt(line, |before|, w)
  {
    HasAtConcat(line, 0, before + w, " ");
    HasAtConcat(line, 0, before, w);
    HasAtCharacters(line, |before| + |w|, " ");
    assert line[|before| + |w| + 0] == ' ';
  }

  /** The first word of a text; nothing if it has none. */
  function FirstWord(s: string): string {
    var a := SkipBlanks(s, 0);
    s[a..WordEnd(s, a)]
  }

  /** Reading words at the end of a line is reading them in the text that ends it. */
  lemma {:induction false} EndOfLineReads(line: string, e: nat, s: string, k: nat)
    requires HasAt(line, e, s) && e + |s| == |line| && k <= |s|
    ensures SkipBlanks(line, e + k) == e + SkipBlanks(s, k) && WordEnd(line, e + k) == e + WordEnd(s, k)
    decreases |s| - k
  {
    if k < |s| {
      HasAtCharacters(line, e, s);
      assert line[e + k] == s[k];
      EndOfLineReads(line, e, s, k + 1);
    }
  }

  /** From the blank before the last text of a line, its first word is what is read next. */
  lemma LastWordReads(line: string, p: nat, s: string)
    requires p < |line| && line[p] == ' ' && HasAt(line, p + 1, s) && p + 1 + |s| == |line|
    ensures var e := SkipBlanks(line, p); line[e..WordEnd(line, e)] == FirstWord(s)
  {
    EndOfLineReads(line, p + 1, s, 0);
    BlankSkipped(line, p);
    hide SkipBlanks, WordEnd, HasAt;
    var a := SkipBlanks(s, 0);
    EndOfLineReads(line, p + 1, s, a);
    SliceAt(line, p + 1, s, a, WordEnd(s, a));
  }

  lemma BlankSkipped(line: string, p: nat)
    requires p < |line| && line[p] == ' '
    ensures SkipBlanks(line, p) == SkipBlanks(line, p + 1)
  {
  }

  lemma SliceAt(line: string, e: nat, s: string, a: nat, b: nat)
    requires HasAt(line, e, s) && a <= b <= |s|
    ensures e + |s| <= |line| && line[e + a..e + b] == s[a..b]
  {
    HasAtCharacters(line, e, s);
    forall k | 0 <= k < b - a ensures line[e + a..e + b][k] == s[a..b][k] {
      assert line[e + (a + k)] == s[a + k];
    }
  }

  /** From the blank before a token, the token is what is read next. */
  lemma NextToken(line: string, p: nat, w: string)
    requires IsWord(w) && p < |line| && line[p] == ' ' && HasAt(line, p + 1, w) && EndsAt(line, p + 1 + |w|)
    ensures SkipBlanks(line, p) == p + 1 && WordEnd(line, p + 1) == p + 1 + |w| && line[p + 1..p + 1 + |w|] == w
  {
    ReadsWord(line, p + 1, w);
    StartsAt(line, p + 1, w);
    SkipsOneBlank(line, p);
  }

  // ---------- numbers ----------

  predicate IsSign(s: string) {
    s == "" || s == "-" || s == "+"
  }

  function Signed(sign: string, x: real): real {
    if sign == "-" then -x else x
  }

  lemma SignPassed(line: string, p: nat, sign: string, rest: string)
    requires IsSign(sign) && HasAt(line, p, sign + rest) && rest != "" && IsDigit(rest[0])
    ensures p < |line| && SignEnd(line, p) == p + |sign| && HasAt(line, p + |sign|, rest)
    ensures line[p] == '-' <==> sign == "-"
  {
    HasAtConcat(line, p, sign, rest);
    StartsAt(line, p + |sign|, rest);
    if sign != "" {
      StartsAt(line, p, sign);
    }
  }

  /** An integer is read with its sign, and fails outside the range of `int`. */
  lemma IntReads(line: string, p: nat, sign: string, n: nat)
    requires IsSign(sign) && HasAt(line, p, sign + Digits(n))
    requires var e := p + |sign| + |Digits(n)|; e < |line| ==> !IsDigit(line[e])
    ensures var v: int := if sign == "-" then -(n as int) else n;
            ExtractInt(line, p) == if -0x8000_0000 <= v < 0x8000_0000
                                   then Extracted(v, p + |sign| + |Digits(n)|) else Failed
  {
    hide Digits, Value, HasAt;
    SignPassed(line, p, sign, Digits(n));
    RunEndText(line, p + |sign|, Digits(n));
  }

  lemma MantissaParses(line: string, p: nat, n: nat)
    requires HasAt(line, p, FixedDigits(n))
    requires var e := p + |FixedDigits(n)|; e < |line| ==> !IsDigit(line[e])
    ensures var e := p + |FixedDigits(n)|;
            && p < e <= |line| && line[p..e] != "."
            && ParseDouble(line + ['\0'], p) == Parsed(n as real / 1000000.0, e)
  {
    hide FixedDigits, ParseDouble;
    var s, e := FixedDigits(n), p + |FixedDigits(n)|;
    Powers();
    FixedIsWord(n);
    StartsAt(line, p, s);
    assert (line + ['\0'])[p..e] == line[p..e];
    FixedDigitsParse(line + ['\0'], p, n);
    assert line[p..e][0] == s[0];
  }

  /** The value behind the sign goes to the exponent. */
  lemma DoubleIs(line: string, p: nat, a: nat, e: nat, x: real)
    requires p < |line| && SignEnd(line, p) == a < e <= |line| && line[a..e] != "."
    requires ParseDouble(line + ['\0'], a) == Parsed(x, e)
    ensures ExtractDouble(line, p) == ExtractExponent(line, e, if line[p] == '-' then -x else x)
  {
  }

  /** A number of six decimals is read exactly, with its sign. */
  lemma DoubleReads(line: string, p: nat, sign: string, n: nat)
    requires IsSign(sign) && HasAt(line, p, sign + FixedDigits(n))
    requires var e := p + |sign| + |FixedDigits(n)|;
             e < |line| ==> !IsDigit(line[e]) && line[e] != 'e' && line[e] != 'E'
    ensures ExtractDouble(line, p) == Extracted(Signed(sign, n as real / 1000000.0), p + |sign| + |FixedDigits(n)|)
  {
    hide FixedDigits, ParseDouble, HasAt;
    FixedIsWord(n);
    SignPassed(line, p, sign, FixedDigits(n));
    MantissaParses(line, p + |sign|, n);
  }

  /** Moving the point multiplies by a power of ten, or is undone by it. */
  lemma PointMoves(x: real, k: nat)
    ensures MovePoint(x, k, false) == x * Pow10(k) as real
    ensures MovePoint(x, k, true) * Pow10(k) as real == x
  {
    Cancels(x, Pow10(k) as real);
  }

  lemma Cancels(x: real, power: real)
    requires power > 0.0
    ensures x / power * power == x
  {
  }

  /** An exponent behind the number moves its point to the right, a negative one to the left. */
  lemma ScientificReads(line: string, p: nat, sign: string, n: nat, mark: string, expSign: string, k: nat)
    requires IsSign(sign) && IsSign(expSign) && (mark == "e" || mark == "E")
    requires HasAt(line, p, sign + FixedDigits(n) + mark + expSign + Digits(k))
    requires var e := p + |sign + FixedDigits(n) + mark + expSign + Digits(k)|; e < |line| ==> !IsDigit(line[e])
    ensures ExtractDouble(line, p)
         == Extracted(MovePoint(Signed(sign, n as real / 1000000.0), k, expSign == "-"),
                      p + |sign + FixedDigits(n) + mark + expSign + Digits(k)|)
  {
    hide FixedDigits, ParseDouble, HasAt, Digits, Value, ExtractExponent, ExtractDouble, SignEnd, Signed, MovePoint;
    var exp, x := expSign + Digits(k), n as real / 1000000.0;
    var e := p + |sign| + |FixedDigits(n)|;
    assert sign + FixedDigits(n) + mark + expSign + Digits(k) == sign + FixedDigits(n) + (mark + exp);
    HasAtConcat(line, p, sign + FixedDigits(n), mark + exp);
    HasAtConcat(line, e, mark, exp);
    StartsAt(line, e, mark);
    FixedIsWord(n);
    SignPassed(line, p, sign, FixedDigits(n));
    MantissaParses(line, p + |sign|, n);
    DoubleIs(line, p, p + |sign|, e, x);
    SignedIs(sign, x);
    ExponentReads(line, e, Signed(sign, x), expSign, k);
  }

  lemma SignedIs(sign: string, x: real)
    ensures Signed(sign, x) == if sign == "-" then -x else x
  {
  }

  lemma ExponentReads(line: string, p: nat, x: real, expSign: string, k: nat)
    requires p < |line| && (line[p] == 'e' || line[p] == 'E') && IsSign(expSign)
    requires HasAt(line, p + 1, expSign + Digits(k))
    requires var e := p + 1 + |expSign| + |Digits(k)|; e < |line| ==> !IsDigit(line[e])
    ensures ExtractExponent(line, p, x)
         == Extracted(MovePoint(x, k, expSign == "-"), p + 1 + |expSign| + |Digits(k)|)
  {
    hide Digits, Value, HasAt, MovePoint;
    SignPassed(line, p + 1, expSign, Digits(k));
    RunEndText(line, p + 1 + |expSign|, Digits(k));
  }

  // ---------- reply lines ----------

  function ReplyLine(id: string, target: string, bid: string, ask: string, name: string): string {
    HEADER + " " + id + " " + target + " " + bid + " " + ask + " " + name
  }

  /** Millionths, printed with six decimals. */
  function FixedSigned(n: int): string {
    if n < 0 then "-" + FixedDigits(-n) else FixedDigits(n)
  }

  /** Where the six tokens of a reply line stand. */
  lemma ReplyParts(id: string, target: string, bid: string, ask: string, name: string)
    ensures var line := ReplyLine(id, target, bid, ask, name);
            var a := |HEADER| + 1; var b := a + |id| + 1; var c := b + |target| + 1;
            var d := c + |bid| + 1; var e := d + |ask| + 1;
            && TokenAt(line, 0, HEADER) && TokenAt(line, a, id) && TokenAt(line, b, target)
            && TokenAt(line, c, bid) && TokenAt(line, d, ask) && HasAt(line, e, name) && e + |name| == |line|
  {
    hide TokenAt, HasAt;
    var line := ReplyLine(id, target, bid, ask, name);
    var toId := HEADER + " ";
    var toTarget := toId + id + " ";
    var toBid := toTarget + target + " ";
    var toAsk := toBid + bid + " ";
    WholeAt(line);
    HasAtConcat(line, 0, toAsk + ask + " ", name);
    SplitToken(line, toAsk, ask);
    SplitToken(line, toBid, bid);
    SplitToken(line, toTarget, target);
    SplitToken(line, toId, id);
    assert "" + HEADER + " " == toId;
    SplitToken(line, "", HEADER);
  }

  lemma SignedIsWord(n: int)
    ensures IsWord(FixedSigned(n)) && IsWord(IntText(n))
  {
    hide Digits, FixedDigits;
    FixedIsWord(if n < 0 then -n else n);
    DigitsAreWord(Digits(if n < 0 then -n else n));
  }

  lemma IntTextReads(line: string, p: nat, id: int)
    requires TokenAt(line, p, IntText(id))
    ensures ExtractInt(line, p)
         == if -0x8000_0000 <= id < 0x8000_0000 then Extracted(id, p + |IntText(id)|) else Failed
  {
    hide Digits, ExtractInt;
    var sign, n := if id < 0 then "-" else "", if id < 0 then -id else id;
    assert IntText(id) == sign + Digits(n);
    IntReads(line, p, sign, n);
  }

  lemma FixedSignedReads(line: string, p: nat, n: int)
    requires TokenAt(line, p, FixedSigned(n))
    ensures ExtractDouble(line, p) == Extracted(n as real / 1000000.0, p + |FixedSigned(n)|)
  {
    hide FixedDigits, ExtractDouble;
    var sign, k := if n < 0 then "-" else "", if n < 0 then -n else n;
    assert FixedSigned(n) == sign + FixedDigits(k);
    DoubleReads(line, p, sign, k);
  }

  /** Whatever number the client prints with six decimals, the server reads within half a millionth. */
  lemma FixedTextReads(line: string, p: nat, x: real)
    requires TokenAt(line, p, FixedText(x))
    ensures var r := ExtractDouble(line, p);
            && r.Extracted? && r.next == p + |FixedText(x)|
            && -0.0000005 <= r.value - x <= 0.0000005
  {
    hide FixedDigits, ExtractDouble;
    var sign, y := if x < 0.0 then "-" else "", if x < 0.0 then -x else x;
    RoundAtLeast(y * 1000000.0, 0);
    var n := Round(y * 1000000.0);
    assert FixedText(x) == sign + FixedDigits(n);
    DoubleReads(line, p, sign, n);
  }

  /** The header and the challenge id are read; what follows is read by `ReadPrices`. */
  lemma HeaderReads(line: string, id: int)
    requires TokenAt(line, 0, HEADER) && TokenAt(line, |HEADER| + 1, IntText(id))
    ensures var p := |HEADER| + 1 + |IntText(id)|;
            && p <= |line|
            && ReadResponse(line) == if -0x8000_0000 <= id < 0x8000_0000 then ReadPrices(line, p, id) else Malformed
  {
    hide IntText, ReadPrices, ExtractInt, HasAt;
    ReadsWord(line, 0, HEADER);
    SignedIsWord(id);
    NextToken(line, |HEADER|, IntText(id));
    IntTextReads(line, |HEADER| + 1, id);
  }

  /** From the blank before a printed number, the number is what is read next. */
  lemma NumberReads(line: string, p: nat, n: int)
    requires p < |line| && line[p] == ' ' && TokenAt(line, p + 1, FixedSigned(n))
    ensures SkipBlanks(line, p) == p + 1
    ensures ExtractDouble(line, p + 1) == Extracted(n as real / 1000000.0, p + 1 + |FixedSigned(n)|)
    ensures p + 1 + |FixedSigned(n)| < |line| && line[p + 1 + |FixedSigned(n)|] == ' '
  {
    hide HasAt, FixedSigned, ExtractDouble;
    SignedIsWord(n);
    NextToken(line, p, FixedSigned(n));
    FixedSignedReads(line, p + 1, n);
  }

  lemma PricesRead(line: string, p: nat, id: int, target: string, m: int, n: int, name: string)
    requires IsWord(target) && p < |line| && line[p] == ' '
    requires var c := p + 1 + |target| + 1; var d := c + |FixedSigned(m)| + 1; var e := d + |FixedSigned(n)| + 1;
             && TokenAt(line, p + 1, target) && TokenAt(line, c, FixedSigned(m)) && TokenAt(line, d, FixedSigned(n))
             && HasAt(line, e, name) && e + |name| == |line|
    ensures ReadPrices(line, p, id)
         == Response(id, target, m as real / 1000000.0, n as real / 1000000.0, FirstWord(name))
  {
    hide ExtractDouble, FixedSigned, HasAt, IsWord, TokenAt, FirstWord;
    var c := p + 1 + |target| + 1;
    var d := c + |FixedSigned(m)| + 1;
    var e := d + |FixedSigned(n)| + 1;
    TokenEnds(line, p + 1, target);
    NextToken(line, p, target);
    WordNotEmpty(target);
    NumberReads(line, c - 1, m);
    NumberReads(line, d - 1, n);
    LastWordReads(line, e - 1, name);
  }

  /** The server reads from a reply line exactly the fields written, and of the name, whatever it is, the first word; a
      line with an id that is no `int` is malformed. */
  lemma ReplyReads(id: int, target: string, m: int, n: int, name: string)
    requires IsWord(target)
    ensures ReadResponse(ReplyLine(IntText(id), target, FixedSigned(m), FixedSigned(n), name))
         == if -0x8000_0000 <= id < 0x8000_0000
            then Response(id, target, m as real / 1000000.0, n as real / 1000000.0, FirstWord(name))
            else Malformed
  {
    hide FixedSigned, ReplyLine, IsWord, IntText, ReadResponse, ReadPrices, HasAt, TokenAt;
    var line := ReplyLine(IntText(id), target, FixedSigned(m), FixedSigned(n), name);
    ReplyParts(IntText(id), target, FixedSigned(m), FixedSigned(n), name);
    HeaderReads(line, id);
    TokenEnds(line, |HEADER| + 1, IntText(id));
    PricesRead(line, |HEADER| + 1 + |IntText(id)|, id, target, m, n, name);
  }

  // ---------- the verdict ----------

  /** The verdict on every reply line: it wins exactly an unwon challenge with its id and target, both of whose prices
      it meets within a thousandth; otherwise it changes nothing. */
  lemma VerdictExactly(c: Challenge, id: int, target: string, m: int, n: int, name: string)
    requires IsWord(target) && -0x8000_0000 <= c.id < 0x8000_0000
    ensures var line := ReplyLine(IntText(id), target, FixedSigned(m), FixedSigned(n), name);
            Judge(c, ReadResponse(line)) ==
            if && !c.winnerDeclared && id == c.id && target == c.target && target in c.market
               && -0.001 <= m as real / 1000000.0 - c.market[target].0 <= 0.001
               && -0.001 <= n as real / 1000000.0 - c.market[target].1 <= 0.001
            then c.(winnerDeclared := true, winnerName := FirstWord(name)) else c
  {
    hide ReadResponse, ReplyLine, FixedSigned, IntText, FirstWord, IsWord;
    ReplyReads(id, target, m, n, name);
  }
}
