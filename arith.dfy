/** Facts about integer multiplication and division that the rounding and
    penalty arithmetic rest on. */
module Arith {

  lemma MulLe(a: int, b: int, c: int)
    requires a <= b && c >= 0
    ensures a * c <= b * c
  {
    assert b * c - a * c == (b - a) * c;
  }

  /** A quotient lies between any bounds that bracket the dividend. */
  lemma DivBetween(n: int, d: int, lo: int, hi: int)
    requires d > 0 && lo * d <= n < hi * d
    ensures lo <= n / d < hi
  {
    var q := n / d;
    assert n == q * d + n % d && 0 <= n % d < d;
    if q < lo {
      MulLe(q + 1, lo, d);
    }
    if q >= hi {
      MulLe(hi, q, d);
    }
  }

  /** Division with remainder is unique. */
  lemma DivModUnique(a: int, b: int, q: int, r: int)
    requires b > 0 && a == q * b + r && 0 <= r < b
    ensures a / b == q && a % b == r
  {
    assert q * b <= a < (q + 1) * b;
    DivBetween(a, b, q, q + 1);
  }

  /** `Math.round(count / total * 100)` for non-negative counts, or 0 when
      there is nothing to divide by. */
  function RoundPercent(count: int, total: int): (p: int)
    ensures total > 0 ==> 2 * total * p <= 200 * count + total < 2 * total * (p + 1)
    ensures total <= 0 ==> p == 0
  {
    if total > 0 then (200 * count + total) / (2 * total) else 0
  }

  /** A share of at most the whole rounds to a percentage in [0, 100]. */
  lemma RoundPercentBounds(count: int, total: int)
    requires total > 0 && 0 <= count <= total
    ensures 0 <= RoundPercent(count, total) <= 100
    ensures count == total ==> RoundPercent(count, total) == 100
    ensures count == 0 ==> RoundPercent(count, total) == 0
  {
    var n, d := 200 * count + total, 2 * total;
    DivBetween(n, d, 0, 101);
    if count == total {
      DivBetween(n, d, 100, 101);
    }
    if count == 0 {
      DivBetween(n, d, 0, 1);
    }
  }
}
