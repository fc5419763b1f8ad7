/** What client and server do with text that is not a regular message. */
module OddText {
  import opened Decimals
  import opened Broadcast
  import opened Client
  import opened Server
  import opened Replies

  // ---------- the client ----------

  /** The six characters that separate words. */
  lemma BlanksAre(c: char)
    ensures IsBlank(c) <==> c as int in {9, 10, 11, 12, 13, 32}
  {
  }

  lemma AllDigitsUpTo(buf: string, p: nat, r: nat)
    requires p <= |buf| && RunEnd(buf, p) < r <= |buf|
    ensures !AllDigits(buf[p..r])
  {
    assert buf[p..r][RunEnd(buf, p) - p] == buf[RunEnd(buf, p)];
  }

  /** The parser reads past the buffer exactly when nothing but digits, with at most one point among them, follows. */
  lemma ParsesPastEnd(buf: string, p: nat)
    ensures ParseDouble(buf, p) == OutOfBuffer
        <==> || p > |buf|
             || AllDigits(buf[p..])
             || (exists dot :: p <= dot < |buf| && buf[dot] == '.'
                   && AllDigits(buf[p..dot]) && AllDigits(buf[dot + 1..]))
  {
    if p <= |buf| {
      var a := RunEnd(buf, p);
      assert buf[p..] == buf[p..|buf|];
      if a < |buf| {
        AllDigitsUpTo(buf, p, |buf|);
        if buf[a] == '.' {
          assert buf[a + 1..] == buf[a + 1..|buf|];
          if RunEnd(buf, a + 1) < |buf| {
            AllDigitsUpTo(buf, a + 1, |buf|);
          }
        }
        forall dot | p <= dot < |buf| && buf[dot] == '.' && AllDigits(buf[p..dot]) ensures dot == a {
          RunEndUnique(buf, p, dot);
        }
      }
    }
  }

  /** Lines without a security are skipped; at least three bytes behind the terminator belong to the buffer. */
  lemma {:induction false} OtherLinesSkipped(buf: string, p: nat, n: nat, es: seq<Quote>)
    requires p <= n && n + 3 <= |buf| && buf[n] == NUL && |es| < 10
    requires forall k :: p <= k < n ==> buf[k] != NUL && !HasAt(buf, k, "SEC|")
    ensures ScanEntries(buf, p, es) == Scanned(es)
    decreases n - p
  {
    if p < n {
      assert !HasAt(buf, p, "SEC|");
      SkipLineWithin(buf, p, n);
      OtherLinesSkipped(buf, SkipLine(buf, p).p, n, es);
    }
  }

  lemma {:induction false} SkipLineWithin(buf: string, p: nat, n: nat)
    requires p <= n < |buf| && buf[n] == NUL && forall k :: p <= k < n ==> buf[k] != NUL
    ensures SkipLine(buf, p).At? && p <= SkipLine(buf, p).p <= n
    decreases n - p
  {
    if p < n && buf[p] != '\n' {
      SkipLineWithin(buf, p + 1, n);
    }
  }

  predicate Contains(text: string, pattern: string) {
    exists k :: 0 <= k <= |text| && HasAt(text, k, pattern)
  }

  lemma SearchMisses(text: string, pattern: string)
    ensures Search(text, pattern, 0) <= |text| <==> Contains(text, pattern)
  {
  }

  /** Without an id line the remembered id stays, without a target line the remembered target. */
  lemma MissingHeaderKept(buf: string, n: nat, m: Memory)
    requires Terminator(buf, 0) == At(n)
    ensures !Contains(buf[..n], "TARGET:") ==>
              ReadHeader(buf, m).Recalled? && ReadHeader(buf, m).memory.target == m.target
    ensures !Contains(buf[..n], "CHALLENGE_ID:") && ReadHeader(buf, m).Recalled? ==>
              ReadHeader(buf, m).memory.challengeId == m.challengeId
  {
    hide Search, Terminator, Atoi, Contains;
    SearchMisses(buf[..n], "TARGET:");
    SearchMisses(buf[..n], "CHALLENGE_ID:");
  }

  /** The number behind the id marker: blanks, a sign and digits. */
  lemma AtoiReads(blanks: string, sign: string, n: nat, rest: string)
    requires (forall i :: 0 <= i < |blanks| ==> IsBlank(blanks[i])) && IsSign(sign)
    requires rest != "" ==> !IsDigit(rest[0])
    ensures Atoi(blanks + sign + Digits(n) + rest) == if sign == "-" then -(n as int) else n
  {
    hide Digits, Value, HasAt, Atoi, SkipBlanks;
    var s := blanks + sign + Digits(n) + rest;
    WholeAt(s);
    HasAtConcat(s, 0, blanks + sign + Digits(n), rest);
    assert blanks + sign + Digits(n) == blanks + (sign + Digits(n));
    HasAtConcat(s, 0, blanks, sign + Digits(n));
    HasAtCharacters(s, 0, blanks);
    forall i | 0 <= i < |blanks| ensures IsBlank(s[i]) {
      assert s[0 + i] == blanks[i];
    }
    StartsAt(s, |blanks|, sign + Digits(n));
    BlanksPassed(s, 0, |blanks|);
    if rest != "" {
      StartsAt(s, |blanks + sign + Digits(n)|, rest);
    }
    AtoiAt(s, |blanks|, sign, n);
  }

  lemma AtoiAt(s: string, a: nat, sign: string, n: nat)
    requires IsSign(sign) && a <= |s| && SkipBlanks(s, 0) == a && HasAt(s, a, sign + Digits(n))
    requires var e := a + |sign| + |Digits(n)|; e < |s| ==> !IsDigit(s[e])
    ensures Atoi(s) == if sign == "-" then -(n as int) else n
  {
    hide Digits, Value, HasAt, SkipBlanks;
    SignPassed(s, a, sign, Digits(n));
    RunEndText(s, a + |sign|, Digits(n));
  }

  lemma {:induction false} BlanksPassed(s: string, p: nat, e: nat)
    requires p <= e < |s| && !IsBlank(s[e]) && forall i :: p <= i < e ==> IsBlank(s[i])
    ensures SkipBlanks(s, p) == e
    decreases e - p
  {
    if p < e {
      BlanksPassed(s, p + 1, e);
    }
  }

  /** The first entry with the ticker decides; without one both prices are 0. */
  lemma {:induction false} LookupIsFirst(es: seq<Quote>, target: string, i: nat)
    requires i <= |es| && forall k :: 0 <= k < i ==> es[k].ticker != target
    ensures i == |es| ==> LookupPrice(es, target) == (0.0, 0.0)
    ensures i < |es| && es[i].ticker == target ==> LookupPrice(es, target) == (es[i].bid, es[i].ask)
  {
    if i > 0 {
      LookupIsFirst(es[1..], target, i - 1);
    }
  }

  /** A C string stops at its first terminator. */
  lemma CStringStops(s: string, t: string)
    requires forall i :: 0 <= i < |s| ==> s[i] != NUL
    ensures CString(s + [NUL] + t) == s
  {
    TerminatorAt(s + [NUL] + t, 0, |s|);
    assert (s + [NUL] + t)[..|s|] == s;
  }

  lemma {:induction false} TerminatorAt(s: string, p: nat, n: nat)
    requires p <= n < |s| && s[n] == NUL && forall i :: p <= i < n ==> s[i] != NUL
    ensures Terminator(s, p) == At(n)
    decreases n - p
  {
    if p < n {
      TerminatorAt(s, p + 1, n);
    }
  }

  // ---------- the server ----------

  /** A line whose first word is not the header is ignored. */
  lemma OtherHeaderIgnored(c: Challenge, word: string, rest: string)
    requires IsWord(word) && word != "CHALLENGE_RESPONSE"
    ensures ReadResponse(word + " " + rest) == OtherHeader && Judge(c, ReadResponse(word + " " + rest)) == c
  {
    var line := word + " " + rest;
    WholeAt(line);
    HasAtConcat(line, 0, word + " ", rest);
    SplitToken(line, "", word);
    assert "" + word + " " == word + " ";
    ReadsWord(line, 0, word);
  }

  /** A sign or a point without a digit is no number. */
  lemma NoDigitFails(line: string, p: nat, sign: string, point: string)
    requires IsSign(sign) && (point == "" || point == ".") && HasAt(line, p, sign + point)
    requires var e := p + |sign| + |point|;
             e < |line| ==> !IsDigit(line[e]) && (point == "" ==> line[e] != '.')
                            && (sign + point == "" ==> line[e] != '-' && line[e] != '+')
    requires p < |line|
    ensures ExtractDouble(line, p) == Failed
  {
    var e := p + |sign| + |point|;
    HasAtConcat(line, p, sign, point);
    if sign != "" {
      StartsAt(line, p, sign);
    }
    if point != "" {
      StartsAt(line, p + |sign|, point);
    }
    var a := SignEnd(line, p);
    var buf := line + ['\0'];
    assert buf[|line|] == '\0';
    if a == p + |sign| {
      RunEndUnique(buf, a, a);
      if point != "" {
        RunEndUnique(buf, a + 1, a + 1);
      }
    }
  }
}
