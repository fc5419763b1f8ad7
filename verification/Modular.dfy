/** Facts about remainders that ring indices rest on. */
module Modular {

  lemma MulAtLeast(d: int, m: int)
    requires d >= 1 && m > 0
    ensures d * m >= m
  {
  }

  lemma QuotientNotNegative(n: nat, m: int)
    requires m > 0
    ensures n / m >= 0
  {
  }

  /** Quotient and remainder are unique. */
  lemma ModOf(x: int, q: int, r: int, m: int)
    requires m > 0 && x == q * m + r && 0 <= r < m
    ensures x % m == r
  {
    var d := x / m - q;
    assert d * m == (x / m) * m - q * m;
    if d > 0 {
      MulAtLeast(d, m);
    } else if d < 0 {
      MulAtLeast(-d, m);
    }
  }

  /** Two numbers less than `m` apart are equal when they agree modulo `m`. */
  lemma SameRemainder(a: int, b: int, m: int)
    requires m > 0 && a <= b < a + m && a % m == b % m
    ensures a == b
  {
    var d := b / m - a / m;
    assert d * m == (b / m) * m - (a / m) * m;
    if d > 0 {
      MulAtLeast(d, m);
    } else if d < 0 {
      MulAtLeast(-d, m);
    }
  }

  lemma FullTurn(a: int, m: int)
    requires m > 0
    ensures (a + m) % m == a % m
  {
    assert a + m == (a / m + 1) * m + a % m;
    ModOf(a + m, a / m + 1, a % m, m);
  }

  lemma StepMod(a: int, m: int)
    requires m > 0
    ensures (a % m + 1) % m == (a + 1) % m
  {
    var q, r := a / m, a % m;
    if r + 1 < m {
      ModOf(a + 1, q, r + 1, m);
      ModOf(r + 1, 0, r + 1, m);
    } else {
      assert a + 1 == (q + 1) * m;
      ModOf(a + 1, q + 1, 0, m);
      ModOf(m, 1, 0, m);
    }
  }
}
