/** Decimal text: digit strings and their values, the client's decimal parser and the two printf forms in use. */
module Decimals {

  // ---------- digit strings ----------

  predicate IsDigit(c: char) {
    '0' <= c <= '9'
  }

  predicate AllDigits(s: string) {
    forall i :: 0 <= i < |s| ==> IsDigit(s[i])
  }

  function DigitValue(c: char): nat
    requires IsDigit(c)
  {
    c as int - '0' as int
  }

  function DigitChar(d: nat): (c: char)
    requires d < 10
    ensures IsDigit(c) && DigitValue(c) == d
  {
    (d + '0' as int) as char
  }

  function Value(s: string): nat
    requires AllDigits(s)
  {
    if s == "" then 0 else Value(s[..|s| - 1]) * 10 + DigitValue(s[|s| - 1])
  }

  function Pow10(k: nat): (r: nat)
    ensures r > 0
  {
    if k == 0 then 1 else 10 * Pow10(k - 1)
  }

  /** The decimal digits of `n`, without leading zeros. */
  function Digits(n: nat): (s: string)
    ensures AllDigits(s) && s != "" && Value(s) == n
    ensures n < 10 <==> |s| == 1
  {
    if n < 10 then
      var s := [DigitChar(n)];
      assert s[..0] == "";
      s
    else
      var s := Digits(n / 10);
      assert (s + [DigitChar(n % 10)])[..|s|] == s;
      s + [DigitChar(n % 10)]
  }

  /** Exactly `k` digits, zero-padded on the left. */
  function Pad(n: nat, k: nat): (s: string)
    requires n < Pow10(k)
    ensures AllDigits(s) && |s| == k && Value(s) == n
  {
    if k == 0 then "" else
      var s := Pad(n / 10, k - 1);
      assert (s + [DigitChar(n % 10)])[..|s|] == s;
      s + [DigitChar(n % 10)]
  }

  /** The number written as the integer `n` with the point moved `k` places to the left. */
  function Scaled(n: nat, k: nat): real {
    n as real / Pow10(k) as real
  }

  /** The value of the digits behind a decimal point. */
  function Fraction(s: string): real
    requires AllDigits(s)
  {
    if s == "" then 0.0 else Fraction(s[..|s| - 1]) + DigitValue(s[|s| - 1]) as real * Place(|s|)
  }

  /** The weight of the `k`-th digit behind the point, as the parser builds it. */
  function Place(k: nat): real {
    if k == 0 then 1.0 else Place(k - 1) * 0.1
  }

  /** `x * y == z`, named so that proofs can pass products on without multiplying. */
  predicate Product(x: real, y: real, z: real) {
    x * y == z
  }

  lemma {:induction false} PlaceIsInverse(k: nat)
    ensures Product(Place(k), Pow10(k) as real, 1.0)
  {
    if k > 0 {
      PlaceIsInverse(k - 1);
      var p, q := Place(k - 1), Pow10(k - 1) as real;
      assert Place(k) * Pow10(k) as real == (p * 0.1) * (10.0 * q) == (p * q) * (0.1 * 10.0);
    }
  }

  lemma LastDigit(s: string)
    requires AllDigits(s) && s != ""
    ensures var h, d := s[..|s| - 1], DigitValue(s[|s| - 1]);
            && Value(s) as real == Value(h) as real * 10.0 + d as real
            && Fraction(s) == Fraction(h) + d as real * Place(|s|)
            && Pow10(|s|) as real == 10.0 * Pow10(|h|) as real
  {
  }

  /** The parser's digit-by-digit fraction is the digits' value over the power of ten, exactly. */
  lemma {:induction false} FractionExact(s: string)
    requires AllDigits(s)
    ensures Product(Fraction(s), Pow10(|s|) as real, Value(s) as real)
  {
    if s != "" {
      var h, d := s[..|s| - 1], DigitValue(s[|s| - 1]);
      FractionExact(h);
      PlaceIsInverse(|s|);
      LastDigit(s);
      hide *;
      FractionStep(Fraction(h), d as real, Place(|s|), Pow10(|h|) as real, Value(h) as real,
                   Fraction(s), Pow10(|s|) as real);
    }
  }

  lemma FractionStep(f: real, d: real, place: real, q: real, v: real, f': real, q': real)
    requires Product(f, q, v) && Product(place, q', 1.0) && f' == f + d * place && q' == 10.0 * q
    ensures Product(f', q', v * 10.0 + d)
  {
    assert f' * q' == f * q' + d * (place * q');
    assert f * q' == 10.0 * (f * q);
  }

  /** Trailing zeros removed. */
  function Strip(s: string): (r: string) {
    if s != "" && s[|s| - 1] == '0' then Strip(s[..|s| - 1]) else s
  }

  /** Stripping leaves no trailing zero, and something unless all digits were zero. */
  lemma {:induction false} StripEnd(s: string)
    requires AllDigits(s)
    ensures Strip(s) != "" ==> Strip(s)[|Strip(s)| - 1] != '0' && IsDigit(Strip(s)[|Strip(s)| - 1])
    ensures Value(s) > 0 ==> Strip(s) != ""
  {
    if s != "" && s[|s| - 1] == '0' {
      StripEnd(s[..|s| - 1]);
    }
  }

  lemma {:induction false} StripKeepsFraction(s: string)
    requires AllDigits(s)
    ensures AllDigits(Strip(s)) && Fraction(Strip(s)) == Fraction(s) && |Strip(s)| <= |s|
  {
    if s != "" && s[|s| - 1] == '0' {
      StripKeepsFraction(s[..|s| - 1]);
    }
  }

  // ---------- the client's parser ----------

  /** What a parse of a number yields: the value and the pointer behind it, or a read past the end of the buffer. */
  datatype Parsed = Parsed(value: real, next: nat) | OutOfBuffer

  function RunEnd(buf: string, p: nat): (r: nat)
    requires p <= |buf|
    ensures p <= r <= |buf| && AllDigits(buf[p..r]) && (r < |buf| ==> !IsDigit(buf[r]))
    decreases |buf| - p
  {
    if p == |buf| || !IsDigit(buf[p]) then p else
      var r := RunEnd(buf, p + 1);
      assert buf[p..r] == [buf[p]] + buf[p + 1..r];
      r
  }

  function ParseDouble(buf: string, p: nat): Parsed {
    if p > |buf| then OutOfBuffer else
    var a := RunEnd(buf, p);
    if a == |buf| then OutOfBuffer
    else if buf[a] != '.' then Parsed(Value(buf[p..a]) as real, a)
    else
      var b := RunEnd(buf, a + 1);
      if b == |buf| then OutOfBuffer
      else Parsed(Value(buf[p..a]) as real + Fraction(buf[a + 1..b]), b)
  }

  lemma {:induction false} RunEndUnique(buf: string, p: nat, r: nat)
    requires p <= r <= |buf| && AllDigits(buf[p..r]) && (r < |buf| ==> !IsDigit(buf[r]))
    ensures RunEnd(buf, p) == r
    decreases r - p
  {
    if p < r {
      assert buf[p..r][0] == buf[p];
      assert buf[p + 1..r] == buf[p..r][1..];
      RunEndUnique(buf, p + 1, r);
    }
  }

  method ParseDoubleAt(buf: array<char>, start: nat) returns (r: Parsed)
    ensures r == ParseDouble(buf[..], start)
  {
    if start > buf.Length {
      return OutOfBuffer;
    }
    ghost var text := buf[..];
    var ptr, value := start, 0.0;
    while ptr < buf.Length && IsDigit(buf[ptr])
      invariant start <= ptr <= buf.Length && AllDigits(text[start..ptr])
      invariant value == Value(text[start..ptr]) as real
    {
      ValueAppend(text, start, ptr);
      value := value * 10.0 + (buf[ptr] as int - '0' as int) as real;
      ptr := ptr + 1;
    }
    RunEndUnique(text, start, ptr);
    hide Value, Fraction, RunEnd, Place;
    if ptr == buf.Length {
      return OutOfBuffer;
    }
    if buf[ptr] == '.' {
      value, ptr := AddFraction(buf, ptr + 1, value);
      if ptr == buf.Length {
        return OutOfBuffer;
      }
    }
    return Parsed(value, ptr);
  }

  /** The parser's second loop: adds the digits behind the point. */
  method AddFraction(buf: array<char>, dot: nat, whole: real) returns (value: real, ptr: nat)
    requires dot <= buf.Length
    ensures ptr == RunEnd(buf[..], dot) && value == whole + Fraction(buf[dot..ptr])
  {
    ghost var text := buf[..];
    ptr, value := dot, whole;
    var place := 1.0;
    while ptr < buf.Length && IsDigit(buf[ptr])
      invariant dot <= ptr <= buf.Length && AllDigits(text[dot..ptr])
      invariant place == Place(ptr - dot) && value == whole + Fraction(text[dot..ptr])
    {
      ValueAppend(text, dot, ptr);
      place := place * 0.1;
      value := value + (buf[ptr] as int - '0' as int) as real * place;
      ptr := ptr + 1;
    }
    RunEndUnique(text, dot, ptr);
    assert buf[dot..ptr] == text[dot..ptr];
  }

  lemma ValueAppend(text: string, a: nat, p: nat)
    requires a <= p < |text| && AllDigits(text[a..p]) && IsDigit(text[p])
    ensures AllDigits(text[a..p + 1])
    ensures Value(text[a..p + 1]) == Value(text[a..p]) * 10 + DigitValue(text[p])
    ensures Place(p + 1 - a) == Place(p - a) * 0.1
    ensures Fraction(text[a..p + 1]) == Fraction(text[a..p]) + DigitValue(text[p]) as real * Place(p + 1 - a)
  {
    assert text[a..p + 1] == text[a..p] + [text[p]];
    assert text[a..p + 1][..p - a] == text[a..p];
  }

  // ---------- text inside a buffer ----------

  predicate IsBlank(c: char) {
    c == ' ' || '\t' <= c <= '\r'
  }

  function SkipBlanks(s: string, p: nat): (r: nat)
    requires p <= |s|
    ensures p <= r <= |s|
    decreases |s| - p
  {
    if p < |s| && IsBlank(s[p]) then SkipBlanks(s, p + 1) else p
  }

  predicate HasAt(buf: string, p: nat, s: string) {
    p + |s| <= |buf| && buf[p..p + |s|] == s
  }

  lemma HasAtConcat(buf: string, p: nat, s: string, t: string)
    ensures HasAt(buf, p, s + t) <==> HasAt(buf, p, s) && HasAt(buf, p + |s|, t)
  {
    if HasAt(buf, p, s + t) {
      assert buf[p..p + |s|] == (s + t)[..|s|] && buf[p + |s|..p + |s| + |t|] == (s + t)[|s|..];
    }
    if HasAt(buf, p, s) && HasAt(buf, p + |s|, t) {
      assert buf[p..p + |s| + |t|] == buf[p..p + |s|] + buf[p + |s|..p + |s| + |t|];
    }
  }

  lemma HasAtCharacters(buf: string, p: nat, s: string)
    requires HasAt(buf, p, s)
    ensures p + |s| <= |buf| && forall i :: 0 <= i < |s| ==> buf[p + i] == s[i]
  {
    forall i | 0 <= i < |s| ensures buf[p + i] == s[i] {
      assert buf[p..p + |s|][i] == buf[p + i];
    }
  }

  lemma WholeAt(text: string)
    ensures HasAt(text, 0, text)
  {
  }

  lemma StartsAt(line: string, p: nat, w: string)
    requires HasAt(line, p, w) && w != ""
    ensures p < |line| && line[p] == w[0]
  {
    HasAtCharacters(line, p, w);
    assert line[p + 0] == w[0];
  }

  /** The parser returns the exact value of every digit string without a fraction. */
  lemma ParsesWhole(buf: string, p: nat, whole: string)
    requires AllDigits(whole) && HasAt(buf, p, whole)
    requires p + |whole| < |buf| && !IsDigit(buf[p + |whole|]) && buf[p + |whole|] != '.'
    ensures ParseDouble(buf, p) == Parsed(Value(whole) as real, p + |whole|)
  {
    hide Value, Fraction, AllDigits, RunEnd;
    RunEndText(buf, p, whole);
  }

  /** The parser returns the exact value of every digit string with a fraction. */
  lemma ParsesFraction(buf: string, p: nat, whole: string, fraction: string)
    requires AllDigits(whole) && AllDigits(fraction) && HasAt(buf, p, whole + "." + fraction)
    requires var e := p + |whole| + 1 + |fraction|; e < |buf| && !IsDigit(buf[e])
    ensures ParseDouble(buf, p) == Parsed(Value(whole) as real + Scaled(Value(fraction), |fraction|),
                                          p + |whole| + 1 + |fraction|)
  {
    hide Value, Fraction, Scaled, AllDigits, HasAt, RunEnd, IsDigit, ParseDouble;
    var a := p + |whole|;
    FractionText(buf, p, whole, fraction);
    RunEndText(buf, p, whole);
    RunEndText(buf, a + 1, fraction);
    FractionQuotient(fraction);
    ParsesParts(buf, p, a, a + 1 + |fraction|);
  }

  lemma ParsesParts(buf: string, p: nat, a: nat, b: nat)
    requires p <= a < b < |buf| && buf[a] == '.' && RunEnd(buf, p) == a && RunEnd(buf, a + 1) == b
    ensures ParseDouble(buf, p) == Parsed(Value(buf[p..a]) as real + Fraction(buf[a + 1..b]), b)
  {
  }

  lemma RunEndText(buf: string, p: nat, s: string)
    requires AllDigits(s) && HasAt(buf, p, s) && (p + |s| < |buf| ==> !IsDigit(buf[p + |s|]))
    ensures p + |s| <= |buf| && RunEnd(buf, p) == p + |s| && buf[p..p + |s|] == s
  {
    RunEndUnique(buf, p, p + |s|);
  }

  lemma FractionText(buf: string, p: nat, whole: string, fraction: string)
    requires HasAt(buf, p, whole + "." + fraction)
    ensures var a := p + |whole|;
            a < |buf| && buf[a] == '.' && !IsDigit(buf[a]) && HasAt(buf, p, whole) && HasAt(buf, a + 1, fraction)
  {
    HasAtConcat(buf, p, whole + ".", fraction);
    HasAtConcat(buf, p, whole, ".");
    assert buf[p + |whole|..p + |whole| + 1][0] == '.';
  }

  lemma FractionQuotient(fraction: string)
    requires AllDigits(fraction)
    ensures Fraction(fraction) == Scaled(Value(fraction), |fraction|)
  {
    FractionExact(fraction);
    hide Product, Fraction, Pow10, Value, AllDigits;
    DivideBy(Fraction(fraction), Pow10(|fraction|) as real, Value(fraction) as real);
  }

  lemma DivideBy(x: real, q: real, y: real)
    requires q > 0.0 && Product(x, q, y)
    ensures x == y / q
  {
  }
}
