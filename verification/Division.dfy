/** Facts about products and quotients of integers that the other modules cite by name. */
module Division {

  lemma MulLe(a: int, b: int, m: int)
    requires a <= b && m >= 0
    ensures a * m <= b * m
  {
    assert (b - a) * m >= 0;
  }

  lemma MulPredecessor(k: int, m: int)
    ensures k * m == (k - 1) * m + m
  {
  }

  lemma MulMinus(a: int, b: int, m: int)
    ensures (a - b) * m == a * m - b * m
  {
  }

  /** A product with a positive factor keeps the sign and the size of the other factor. */
  lemma MulSign(k: int, d: int)
    requires d > 0
    ensures k >= 1 ==> k * d >= d
    ensures k <= -1 ==> k * d <= -d
    ensures k >= 0 ==> k * d >= 0
    ensures k <= 0 ==> k * d <= 0
  {
    if k >= 1 {
      MulLe(1, k, d);
    } else if k <= -1 {
      MulLe(k, -1, d);
    }
  }

  lemma QuotientIs(n: int, d: int, q: int, r: int)
    requires d > 0 && 0 <= r < d && n == q * d + r
    ensures n / d == q && n % d == r
  {
    var k := n / d - q;
    assert n == (n / d) * d + n % d;
    assert k * d == (n / d) * d - q * d;
    MulSign(k, d);
  }

  lemma Euclid(n: int, d: int) returns (q: int, r: int)
    requires d > 0
    ensures q == n / d && r == n % d
    ensures n == q * d + r && 0 <= r < d
    ensures n >= 0 ==> q >= 0
  {
    q, r := n / d, n % d;
  }

  lemma FloorMonotone(n: nat, m: nat, d: nat)
    requires d > 0 && n <= m
    ensures n / d <= m / d
  {
    MulSign(n / d - m / d, d);
    assert n == (n / d) * d + n % d && m == (m / d) * d + m % d;
    assert (n / d - m / d) * d == (n / d) * d - (m / d) * d;
  }
}
