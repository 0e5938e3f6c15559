/** Division of non-negative BigNumbers: `div` rounds the quotient to a configured number of
    decimal places, and `decimalPlaces(0, ROUND_DOWN)` then drops the fraction. */
module Decimals {
  import opened Division

  datatype RoundingMode = RoundDown | RoundHalfUp

  /** The two settings `BigNumber.config` controls and `div` obeys. */
  datatype Config = Config(places: nat, mode: RoundingMode) {
    /** Halving an odd integer keeps its half, so that truncation can drop it again. */
    predicate Sound() {
      mode.RoundDown? || places > 0
    }

    /** Divisors on which the rounding inside `div` can never reach the next integer. */
    predicate Exact(d: nat) {
      mode.RoundDown? || d < 2 * Pow10(places)
    }
  }

  /** The library default, which the suites restore when they end. */
  const STOCK := Config(20, RoundHalfUp)

  /** What the scenario and liquidation suites set before they start. */
  const SCENARIO := Config(0, RoundDown)

  function Pow10(k: nat): (p: nat)
    ensures p > 0
  {
    if k == 0 then 1 else 10 * Pow10(k - 1)
  }

  lemma Pow10OfTwenty()
    ensures Pow10(20) == 100_000_000_000_000_000_000
  {
    assert Pow10(10) == 10_000_000_000;
    assert Pow10(15) == 1_000_000_000_000_000;
  }

  lemma {:induction false} Pow10Adds(i: nat, j: nat)
    ensures Pow10(i + j) == Pow10(i) * Pow10(j)
  {
    if i == 0 {
    } else {
      Pow10Adds(i - 1, j);
      assert Pow10(i + j) == 10 * Pow10(i - 1 + j);
    }
  }

  lemma Pow10AtLeastTen(k: nat)
    requires k > 0
    ensures Pow10(k) >= 10
  {
    assert Pow10(k) == 10 * Pow10(k - 1);
  }

  /** `decimalPlaces(0, ROUND_DOWN)` of a number counted in t-ths. */
  function WholePart(scaled: nat, t: nat): nat
    requires t > 0
  {
    scaled / t
  }

  /** The quotient `n.div(d)`, counted in units of 10^-places. */
  function DivScaled(c: Config, n: nat, d: nat): nat
    requires d > 0
  {
    match c.mode
    case RoundDown => WholePart(n * Pow10(c.places), d)
    case RoundHalfUp => WholePart(2 * n * Pow10(c.places) + d, 2 * d)
  }

  /** `n.div(d).decimalPlaces(0, ROUND_DOWN)` for a non-zero divisor. */
  function DivTruncate(c: Config, n: nat, d: nat): nat
    requires d > 0
  {
    WholePart(DivScaled(c, n, d), Pow10(c.places))
  }

  /** The rounding inside `div` carries the quotient of remainder r over d up to the next integer. */
  predicate Carries(c: Config, r: int, d: int) {
    c.mode.RoundHalfUp? && 2 * Pow10(c.places) * (d - r) <= d
  }

  /** The two roundings are one floor, plus one exactly when the remainder is close enough to d. */
  lemma TwoStageRounding(c: Config, n: nat, d: nat)
    requires d > 0
    ensures DivTruncate(c, n, d) == n / d + if Carries(c, n % d, d) then 1 else 0
  {
    var t, q, r := Pow10(c.places), n / d, n % d;
    assert n == q * d + r;
    match c.mode
    case RoundDown =>
      ScaledFloor(q, r, t, d);
    case RoundHalfUp =>
      ScaledHalfUp(q, r, t, d);
  }

  lemma ScaledFloor(q: nat, r: nat, t: nat, d: nat)
    requires d > 0 && t > 0 && r < d
    ensures ((q * d + r) * t / d) / t == q
  {
    var w, y := Euclid(r * t, d);
    SplitScaled(q, r, t, d, w, y);
    QuotientIs((q * d + r) * t, d, q * t + w, y);
    QuotientIs(q * t + w, t, q, w);
  }

  lemma SplitScaled(q: nat, r: nat, t: nat, d: nat, w: nat, y: nat)
    requires r < d && t > 0 && r * t == w * d + y
    ensures (q * d + r) * t == (q * t + w) * d + y && w < t
  {
    assert q * d * t == q * t * d;
    MulLe(r + 1, d, t);
    if w >= t {
      MulLe(t, w, d);
    }
  }

  lemma ScaledHalfUp(q: nat, r: nat, t: nat, d: nat)
    requires d > 0 && t > 0 && r < d
    ensures ((2 * (q * d + r) * t + d) / (2 * d)) / t == q + if 2 * t * (d - r) <= d then 1 else 0
  {
    var w, y := Euclid(2 * r * t + d, 2 * d);
    SplitHalfUp(q, r, t, d, w, y);
    HalfUpReaches(r, t, d, w, y);
    QuotientIs(2 * (q * d + r) * t + d, 2 * d, q * t + w, y);
    WholeOf(q, t, w);
  }

  lemma SplitHalfUp(q: int, r: int, t: int, d: int, w: int, y: int)
    requires 2 * r * t + d == w * (2 * d) + y
    ensures 2 * (q * d + r) * t + d == (q * t + w) * (2 * d) + y
  {
    var a := q * d * t;
    assert q * t * d == a;
    assert (q * d + r) * t == a + r * t;
    assert (q * t + w) * (2 * d) == 2 * a + w * (2 * d);
  }

  lemma TwiceProduct(x: int, t: int)
    ensures t * (2 * x) == 2 * (x * t) == 2 * t * x
  {
  }

  /** The scaled and rounded remainder is at most t, and t exactly when it carries. */
  lemma HalfUpReaches(r: nat, t: nat, d: nat, w: nat, y: nat)
    requires r < d && t > 0 && y < 2 * d && 2 * r * t + d == w * (2 * d) + y
    ensures w <= t && (w == t <==> 2 * t * (d - r) <= d)
  {
    MulMinus(d, r, t);
    MulMinus(w, t, 2 * d);
    MulSign(d - r, t);
    MulSign(w - t, 2 * d);
    TwiceProduct(d, t);
    TwiceProduct(d - r, t);
    Reaches(r * t, d * t, w * (2 * d), (w - t) * (2 * d), (d - r) * t, d, y, w - t);
  }

  /** The linear part of the argument, with the products as numbers of their own. */
  lemma Reaches(rt: int, dt: int, wd: int, k: int, gap: int, d: int, y: int, excess: int)
    requires 2 * rt + d == wd + y && 0 <= y < 2 * d && k == wd - 2 * dt && gap == dt - rt && gap > 0
    requires (excess >= 1 ==> k >= 2 * d) && (excess <= -1 ==> k <= 0 - 2 * d) && (excess == 0 ==> k == 0)
    ensures excess <= 0 && (excess == 0 <==> 2 * gap <= d)
  {
  }

  lemma WholeOf(q: nat, t: nat, w: nat)
    requires 0 < t && w <= t
    ensures (q * t + w) / t == q + if w == t then 1 else 0
  {
    if w == t {
      assert (q + 1) * t == q * t + t;
      QuotientIs(q * t + w, t, q + 1, 0);
    } else {
      QuotientIs(q * t + w, t, q, w);
    }
  }

  /** When the quotient and remainder are known, so is the result of both roundings. */
  lemma DivTruncateIs(c: Config, n: nat, d: nat, q: nat, r: nat)
    requires d > 0 && r < d && n == q * d + r
    ensures DivTruncate(c, n, d) == q + if Carries(c, r, d) then 1 else 0
  {
    QuotientIs(n, d, q, r);
    TwoStageRounding(c, n, d);
  }

  lemma ExactNeverCarries(c: Config, r: int, d: nat)
    requires r < d && c.Exact(d)
    ensures !Carries(c, r, d)
  {
    var t := 2 * Pow10(c.places);
    MulLe(1, d - r, t);
  }

  /** Below 2 * 10^places, and whenever `div` rounds down, the two roundings are one floor. */
  lemma SmallDivisorIsFloor(c: Config, n: nat, d: nat)
    requires d > 0 && c.Exact(d)
    ensures DivTruncate(c, n, d) == n / d
  {
    var q, r := Euclid(n, d);
    DivTruncateIs(c, n, d, q, r);
    ExactNeverCarries(c, r, d);
  }

  /** And it is only there: some numerator carries as soon as the divisor is no longer exact. */
  lemma ExactIsTight(c: Config, d: nat)
    requires d > 0
    ensures c.Exact(d) <==> forall n: nat :: DivTruncate(c, n, d) == n / d
  {
    if c.Exact(d) {
      forall n: nat ensures DivTruncate(c, n, d) == n / d { SmallDivisorIsFloor(c, n, d); }
    } else {
      DivTruncateIs(c, d - 1, d, 0, d - 1);
      QuotientIs(d - 1, d, 0, d - 1);
      assert DivTruncate(c, d - 1, d) == 1;
    }
  }

  /** Whatever the settings, a larger numerator never gives a smaller result. */
  lemma DivTruncateMonotone(c: Config, n: nat, m: nat, d: nat)
    requires d > 0 && n <= m
    ensures DivTruncate(c, n, d) <= DivTruncate(c, m, d)
  {
    var t := Pow10(c.places);
    assert n * t <= m * t;
    FloorMonotone(n * t, m * t, d);
    FloorMonotone(2 * n * t + d, 2 * m * t + d, 2 * d);
    FloorMonotone(DivScaled(c, n, d), DivScaled(c, m, d), t);
  }
}
