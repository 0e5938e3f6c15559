/** Greatest common divisors, and the remainders the multiples of a number run through. */
module Divisors {
  import opened Division

  function Gcd(a: nat, b: nat): (g: nat)
    requires a > 0 || b > 0
    ensures g > 0
    decreases b
  {
    if b == 0 then a else Gcd(b, a % b)
  }

  lemma Combine(x: int, y: int, g: int, d: int)
    requires d > 0 && x % d == 0 && y % d == 0
    ensures (x + g * y) % d == 0
  {
    var p, q := x / d, y / d;
    assert x == p * d && y == q * d;
    assert x + g * y == (p + g * q) * d;
    QuotientIs(x + g * y, d, p + g * q, 0);
  }

  /** The greatest common divisor divides both numbers and is a combination of them. */
  lemma {:induction false} Bezout(a: nat, b: nat) returns (x: int, y: int)
    requires a > 0 || b > 0
    ensures a % Gcd(a, b) == 0 && b % Gcd(a, b) == 0
    ensures x * a + y * b == Gcd(a, b)
    decreases b
  {
    var g := Gcd(a, b);
    if b == 0 {
      x, y := 1, 0;
      QuotientIs(a, a, 1, 0);
      QuotientIs(0, a, 0, 0);
    } else {
      var q, r := Euclid(a, b);
      var u, v := Bezout(b, r);
      Combine(r, b, q, g);
      BackSubstitute(a, b, q, r, u, v, g);
      x, y := v, u - q * v;
    }
  }

  lemma BackSubstitute(a: int, b: int, q: int, r: int, u: int, v: int, g: int)
    requires a == q * b + r && u * b + v * r == g
    ensures v * a + (u - q * v) * b == g
  {
    assert v * (q * b) == q * v * b;
    assert v * a == v * (q * b) + v * r;
  }

  /** The remainders of the multiples of a modulo m are exactly the multiples of their greatest
      common divisor. */
  lemma MultiplesReach(a: nat, m: nat, r: nat)
    requires m > 0 && r < m
    ensures (exists s: nat :: s * a % m == r) <==> r % Gcd(a, m) == 0
  {
    if r % Gcd(a, m) == 0 {
      var s := Reaching(a, m, r);
      assert s * a % m == r;
    }
    forall s: nat | s * a % m == r ensures r % Gcd(a, m) == 0 {
      RemainderOfMultiple(a, m, s);
    }
  }

  lemma RemainderOfMultiple(a: nat, m: nat, s: nat)
    requires m > 0
    ensures (s * a % m) % Gcd(a, m) == 0
  {
    var x, y := Bezout(a, m);
    var q, r := Euclid(s * a, m);
    DividesRemainder(a, m, Gcd(a, m), s, q, r);
  }

  lemma DividesRemainder(a: int, m: int, g: int, s: int, q: int, r: int)
    requires g > 0 && a % g == 0 && m % g == 0 && s * a == q * m + r
    ensures r % g == 0
  {
    var p, _ := Euclid(a, g);
    var n, _ := Euclid(m, g);
    MulTwice(s, p, g);
    MulTwice(q, n, g);
    MulMinus(s * p, q * n, g);
    QuotientIs(r, g, s * p - q * n, 0);
  }

  lemma MulTwice(s: int, p: int, g: int)
    ensures s * (p * g) == s * p * g
  {
  }

  lemma Reaching(a: nat, m: nat, r: nat) returns (s: nat)
    requires m > 0 && r < m && r % Gcd(a, m) == 0
    ensures s * a % m == r
  {
    var x, y := Bezout(a, m);
    var g := Gcd(a, m);
    var j := r / g;
    var q;
    q, s := Euclid(x * j, m);
    ReachesRemainder(a, m, r, x, y, g, j, q, s);
    QuotientIs(s * a, m, -(y * j) - q * a, r);
  }

  lemma ReachesRemainder(a: nat, m: nat, r: nat, x: int, y: int, g: int, j: int, q: int, s: int)
    requires x * a + y * m == g && r == j * g && x * j == q * m + s
    ensures s * a == (-(y * j) - q * a) * m + r
  {
    assert j * (x * a + y * m) == r;
    assert (x * j) * a + (y * j) * m == r;
    assert (q * m + s) * a == (q * a) * m + s * a;
  }
}
