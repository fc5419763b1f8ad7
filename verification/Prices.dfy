/** How prices are printed: six significant digits to the broadcast, six decimals in the reply. */
module Prices {
  import opened Decimals
  import opened Modular

  /** Nearest integer, halves to even. */
  function Round(x: real): (r: int)
    ensures x - 0.5 <= r as real <= x + 0.5
    ensures (r as real - x == 0.5 || x - r as real == 0.5) ==> r % 2 == 0
  {
    var f := x.Floor;
    var d := x - f as real;
    if d < 0.5 || (d == 0.5 && f % 2 == 0) then f else f + 1
  }

  lemma RoundInteger(n: int)
    ensures Round(n as real) == n
  {
  }

  lemma RoundAtLeast(x: real, n: int)
    requires x >= n as real
    ensures Round(x) >= n
  {
  }

  // ---------- six significant digits ----------

  /** The range of prices printed: the decimal exponent is 1 or 2. */
  predicate Printable(v: real) {
    10.0 <= v < 999.0
  }

  /** Six significant digits leave four decimals, or three when rounding to four would need a seventh digit
      (section 7.21.6.1 of ISO/IEC 9899:2011). */
  function Decimals6(v: real): nat {
    if Round(v * 10000.0) < 1000000 then 4 else 3
  }

  lemma Powers()
    ensures Pow10(3) == 1000 && Pow10(4) == 10000 && Pow10(6) == 1000000
  {
    assert Pow10(1) == 10 && Pow10(2) == 100;
  }

  function Units(v: real): (n: nat)
    requires Printable(v)
  {
    RoundAtLeast(v * 10000.0, 0);
    RoundAtLeast(v * 1000.0, 0);
    if Decimals6(v) == 4 then Round(v * 10000.0) else Round(v * 1000.0)
  }

  /** The price a reader of the printed text sees. */
  function Shown(v: real): real
    requires Printable(v)
  {
    Scaled(Units(v), Decimals6(v))
  }

  /** The digits before and behind the point when `n` has its point moved `k` places. */
  function Whole(n: nat, k: nat): nat {
    QuotientNotNegative(n, Pow10(k));
    n / Pow10(k)
  }

  function Behind(n: nat, k: nat): (r: nat)
    ensures r < Pow10(k)
  {
    n % Pow10(k)
  }

  /** The integer `n` with the point moved `k` places, trailing zeros and a bare point removed. */
  function PlainText(n: nat, k: nat): string {
    var f := Behind(n, k);
    Digits(Whole(n, k)) + if f == 0 then "" else "." + Strip(Pad(f, k))
  }

  function GeneralText(v: real): string
    requires Printable(v)
  {
    PlainText(Units(v), Decimals6(v))
  }

  /** Exactly six significant digits are kept. */
  lemma SixSignificantDigits(v: real)
    requires Printable(v)
    ensures 100000 <= Units(v) < 1000000
  {
    RoundAtLeast(v * 10000.0, 100000);
    if Decimals6(v) == 3 {
      assert v * 1000.0 >= 99999.95;
      assert Round(v * 1000.0) as real <= 999000.5;
    }
  }

  /** The text carries no trailing zeros and no bare point: a whole number has no point at all. */
  lemma PlainTextIsBare(n: nat, k: nat)
    ensures var t := PlainText(n, k);
            && t != ""
            && if Behind(n, k) == 0 then AllDigits(t) else t[|t| - 1] != '0' && t[|t| - 1] != '.'
  {
    hide Whole, Behind, Digits, Pow10;
    var f := Behind(n, k);
    if f != 0 {
      var s := Pad(f, k);
      StripKeepsFraction(s);
      StripEnd(s);
    }
  }

  /** Printing moves a price by at most half a unit in the third decimal. */
  lemma ShownClose(v: real)
    requires Printable(v)
    ensures -0.0005 <= Shown(v) - v <= 0.0005
  {
    Powers();
    var n := Units(v);
    if Decimals6(v) == 4 {
      assert v * 10000.0 - 0.5 <= n as real <= v * 10000.0 + 0.5;
      assert Shown(v) == n as real / 10000.0;
    } else {
      assert v * 1000.0 - 0.5 <= n as real <= v * 1000.0 + 0.5;
      assert Shown(v) == n as real / 1000.0;
    }
  }

  lemma {:induction false} CastProduct(q: nat, t: nat)
    ensures (q * t) as real == q as real * t as real
  {
    if q > 0 {
      CastProduct(q - 1, t);
      assert q * t == (q - 1) * t + t;
      assert q as real * t as real == (q - 1) as real * t as real + t as real;
    }
  }

  lemma ScaledSplit(n: nat, k: nat)
    ensures Scaled(n, k) == Whole(n, k) as real + Scaled(Behind(n, k), k)
  {
    hide Pow10;
    var t := Pow10(k);
    DivisionIdentity(n, t);
    SplitReal(n, t, n / t, n % t);
  }

  lemma DivisionIdentity(n: nat, t: nat)
    requires t > 0
    ensures n == (n / t) * t + n % t && n / t >= 0 && n % t >= 0
  {
  }

  lemma SplitReal(n: nat, t: nat, q: nat, r: nat)
    requires t > 0 && n == q * t + r
    ensures n as real / t as real == q as real + r as real / t as real
  {
    CastProduct(q, t);
    SplitQuotient(q as real, r as real, t as real);
  }

  lemma SplitQuotient(q: real, r: real, t: real)
    requires t > 0.0
    ensures (q * t + r) / t == q + r / t
  {
  }

  /** The client reads back from a printed price exactly the price shown. */
  lemma PlainTextParses(buf: string, p: nat, n: nat, k: nat)
    requires HasAt(buf, p, PlainText(n, k))
    requires var e := p + |PlainText(n, k)|; e < |buf| && !IsDigit(buf[e]) && buf[e] != '.'
    ensures ParseDouble(buf, p) == Parsed(Scaled(n, k), p + |PlainText(n, k)|)
  {
    hide HasAt, Scaled, Strip, IsDigit, ParseDouble, Whole, Behind;
    var f, whole := Behind(n, k), Digits(Whole(n, k));
    ScaledSplit(n, k);
    if f == 0 {
      assert PlainText(n, k) == whole;
      ParsesWhole(buf, p, whole);
      ScaledZero(k);
    } else {
      var s := Pad(f, k);
      StripKeepsFraction(s);
      FractionQuotient(s);
      FractionQuotient(Strip(s));
      assert PlainText(n, k) == whole + "." + Strip(s);
      ParsesFraction(buf, p, whole, Strip(s));
    }
  }

  lemma ScaledZero(k: nat)
    ensures Scaled(0, k) == 0.0
  {
  }

  // ---------- six decimals ----------

  function FixedDigits(n: nat): string {
    Digits(Whole(n, 6)) + "." + Pad(Behind(n, 6), 6)
  }

  /** A negative number keeps its sign also when it rounds to 0. */
  function FixedText(x: real): string {
    if x < 0.0 then
      RoundAtLeast(-x * 1000000.0, 0);
      "-" + FixedDigits(Round(-x * 1000000.0))
    else
      RoundAtLeast(x * 1000000.0, 0);
      FixedDigits(Round(x * 1000000.0))
  }

  lemma FixedDigitsParse(buf: string, p: nat, n: nat)
    requires HasAt(buf, p, FixedDigits(n))
    requires var e := p + |FixedDigits(n)|; e < |buf| && !IsDigit(buf[e])
    ensures ParseDouble(buf, p) == Parsed(Scaled(n, 6), p + |FixedDigits(n)|)
  {
    hide HasAt, Scaled, ParseDouble, IsDigit, Whole, Behind;
    ScaledSplit(n, 6);
    ParsesFraction(buf, p, Digits(Whole(n, 6)), Pad(Behind(n, 6), 6));
  }

  lemma ScaledTo6(u: nat)
    ensures Scaled(u, 4) * 1000000.0 == (u * 100) as real && Scaled(u * 100, 6) == Scaled(u, 4)
    ensures Scaled(u, 3) * 1000000.0 == (u * 1000) as real && Scaled(u * 1000, 6) == Scaled(u, 3)
  {
    Powers();
    assert (u * 100) as real == u as real * 100.0 && (u * 1000) as real == u as real * 1000.0;
  }

  /** A shown price has at most four decimals, so six decimals print it exactly. */
  lemma ShownFixed(v: real) returns (n: nat)
    requires Printable(v)
    ensures FixedText(Shown(v)) == FixedDigits(n) && Scaled(n, 6) == Shown(v) && n < 1000000000
  {
    hide Scaled, FixedDigits, Pow10;
    Powers();
    var u := Units(v);
    ScaledTo6(u);
    n := if Decimals6(v) == 4 then u * 100 else u * 1000;
    assert Shown(v) * 1000000.0 == n as real;
    RoundInteger(n);
  }
}
