/** Ray, wad and percentage arithmetic over non-negative integers. */
module RayMath {
  import opened Decimals
  import opened Division

  const RAY := 1_000_000_000_000_000_000_000_000_000
  const WAD := 1_000_000_000_000_000_000
  const WAD_RAY_RATIO := 1_000_000_000
  const PERCENTAGE_FACTOR := 10_000

  /** What a division of BigNumbers returns: dividing by zero is not an error there. */
  datatype Number = Finite(value: nat) | Infinity | NaN

  /** `a.div(2).decimalPlaces(0, ROUND_DOWN)`. */
  function Half(c: Config, a: nat): nat {
    DivTruncate(c, a, 2)
  }

  /** The shape of rayMul, wadMul and percentMul: half a unit, plus the product, over the unit. */
  function UnitMul(c: Config, unit: nat, x: nat, b: nat): nat
    requires unit > 0
  {
    DivTruncate(c, unit / 2 + x * b, unit)
  }

  /** The shape of rayDiv, wadDiv and percentDiv for a non-zero divisor. */
  function UnitDiv(c: Config, unit: nat, x: nat, a: nat): nat
    requires a > 0
  {
    DivTruncate(c, Half(c, a) + x * unit, a)
  }

  function UnitDivNumber(c: Config, unit: nat, x: nat, a: nat): Number {
    if a > 0 then Finite(UnitDiv(c, unit, x, a))
    else if x * unit == 0 then NaN
    else Infinity
  }

  function RayMul(c: Config, x: nat, a: nat): nat { UnitMul(c, RAY, x, a) }

  function RayDiv(c: Config, x: nat, a: nat): Number { UnitDivNumber(c, RAY, x, a) }

  function WadMul(c: Config, x: nat, b: nat): nat { UnitMul(c, WAD, x, b) }

  function WadDiv(c: Config, x: nat, a: nat): Number { UnitDivNumber(c, WAD, x, a) }

  function PercentMul(c: Config, x: nat, b: nat): nat { UnitMul(c, PERCENTAGE_FACTOR, x, b) }

  function PercentDiv(c: Config, x: nat, a: nat): Number { UnitDivNumber(c, PERCENTAGE_FACTOR, x, a) }

  function RayToWad(c: Config, r: nat): nat { DivTruncate(c, WAD_RAY_RATIO / 2 + r, WAD_RAY_RATIO) }

  function WadToRay(w: nat): nat { w * WAD_RAY_RATIO }

  lemma HalfIsFloor(c: Config, a: nat)
    requires c.Sound()
    ensures Half(c, a) == a / 2
  {
    TwoStageRounding(c, a, 2);
    if c.mode.RoundHalfUp? {
      Pow10AtLeastTen(c.places);
      MulLe(1, 2 - a % 2, 2 * Pow10(c.places));
    }
  }

  /** q is the integer nearest to n / a, a tie going up. */
  predicate IsNearest(q: int, n: int, a: int) {
    -a <= 2 * (n - q * a) < a
  }

  /** Truncating the half of an odd divisor loses nothing: the result is the nearest integer. */
  lemma FloorIsNearest(n: nat, a: nat)
    requires a > 0
    ensures IsNearest((a / 2 + n) / a, n, a)
  {
    var m := a / 2 + n;
    assert m == (m / a) * a + m % a;
  }

  /** There is only one nearest integer. */
  lemma NearestIsUnique(p: nat, q: nat, n: nat, a: nat)
    requires a > 0 && IsNearest(p, n, a) && IsNearest(q, n, a)
    ensures p == q
  {
    NearestMonotone(p, q, n, n, a, a);
    NearestMonotone(q, p, n, n, a, a);
  }

  lemma NearestFromBelow(p: nat, n: nat, a: nat, b: nat)
    requires IsNearest(p, n, a)
    ensures 2 * p * (a * b) <= 2 * (n * b) + a * b
  {
    MulLe(2 * (p * a), 2 * n + a, b);
    assert 2 * (p * a) * b == 2 * p * (a * b);
  }

  lemma NearestFromAbove(q: nat, m: nat, b: nat, a: nat)
    requires IsNearest(q, m, b) && a > 0
    ensures 2 * (m * a) + a <= (2 * q + 1) * (a * b)
  {
    MulLe(2 * m + 1, 2 * (q * b) + b, a);
    assert (2 * (q * b) + b) * a == (2 * q + 1) * (a * b);
  }

  /** A quotient that does not grow has a nearest integer that does not grow. */
  lemma NearestMonotone(p: nat, q: nat, n: nat, m: nat, a: nat, b: nat)
    requires a > 0 && b > 0 && IsNearest(p, n, a) && IsNearest(q, m, b)
    requires n * b <= m * a
    ensures p <= q
  {
    NearestFromBelow(p, n, a, b);
    NearestFromAbove(q, m, b, a);
    MulSign(a, b);
    StrictlyLess(p, q, a * b, n * b, m * a, a);
  }

  lemma StrictlyLess(p: int, q: int, k: int, n: int, m: int, a: int)
    requires k > 0 && a > 0 && n <= m && 2 * p * k <= 2 * n + k && 2 * m + a <= (2 * q + 1) * k
    ensures p <= q
  {
    MulMinus(2 * p, 2 * q + 1, k);
    MulSign(2 * p - (2 * q + 1), k);
  }

  /** Dividing more gives no less, whatever the settings. */
  lemma UnitDivMonotone(c: Config, unit: nat, x: nat, y: nat, a: nat)
    requires a > 0 && x <= y
    ensures UnitDiv(c, unit, x, a) <= UnitDiv(c, unit, y, a)
  {
    MulLe(x, y, unit);
    DivTruncateMonotone(c, Half(c, a) + x * unit, Half(c, a) + y * unit, a);
  }

  lemma UnitMulMonotone(c: Config, unit: nat, x: nat, y: nat, b: nat)
    requires unit > 0 && x <= y
    ensures UnitMul(c, unit, x, b) <= UnitMul(c, unit, y, b)
  {
    MulLe(x, y, b);
    DivTruncateMonotone(c, unit / 2 + x * b, unit / 2 + y * b, unit);
  }

  /** The rounding inside `div` lifts the quotient of x * unit by a. */
  predicate Lifted(c: Config, unit: nat, x: nat, a: nat)
    requires a > 0
  {
    Carries(c, (a / 2 + x * unit) % a, a)
  }

  lemma UnitDivParts(c: Config, unit: nat, x: nat, a: nat) returns (floor: nat)
    requires a > 0 && c.Sound()
    ensures floor == (a / 2 + x * unit) / a && IsNearest(floor, x * unit, a)
    ensures UnitDiv(c, unit, x, a) == floor + if Lifted(c, unit, x, a) then 1 else 0
  {
    HalfIsFloor(c, a);
    floor := (a / 2 + x * unit) / a;
    FloorIsNearest(x * unit, a);
    TwoStageRounding(c, a / 2 + x * unit, a);
  }

  lemma ScaledProducts(x: nat, b: nat, y: nat, a: nat, unit: nat)
    requires x * b <= y * a
    ensures (x * unit) * b <= (y * unit) * a
  {
    MulLe(x * b, y * a, unit);
    assert x * b * unit == (x * unit) * b;
    assert y * a * unit == (y * unit) * a;
  }

  /** n / b is exactly half a unit of the last place short of one half. */
  predicate OnBrink(c: Config, n: nat, b: nat) {
    c.mode.RoundHalfUp? && b % 2 == 0 && b * (Pow10(c.places) - 1) == 2 * Pow10(c.places) * n
  }

  lemma LiftedIff(c: Config, unit: nat, x: nat, b: nat) returns (q: nat, h: int)
    requires b > 0
    ensures q == (b / 2 + x * unit) / b && h == (b + 1) / 2 + q * b - x * unit
    ensures Lifted(c, unit, x, b) <==> c.mode.RoundHalfUp? && 2 * Pow10(c.places) * h <= b
  {
    var r;
    q, r := Euclid(b / 2 + x * unit, b);
    h := (b + 1) / 2 + q * b - x * unit;
    assert b - r == h;
  }

  /** Between x / b and y / b', how much the distance to being lifted shrinks. */
  lemma DistanceShrinks(q: int, b: int, b': int, e: int, f: int, x: int, y: int, unit: int, h: int, h': int)
    requires b' == b + e - f && y == x + e
    requires h == (b + 1) / 2 + q * b - x * unit && h' == (b' + 1) / 2 + q * b' - y * unit
    ensures 2 * (h - h') >= f - e - 1 + 2 * (f * q + e * (unit - q))
    ensures f == 1 && e == 0 && q == 0 ==> h - h' == (b + 1) / 2 - b / 2
  {
    assert q * b' == q * b + e * q - f * q;
    assert y * unit == x * unit + e * unit;
    assert e * (unit - q) == e * unit - e * q;
  }

  /** Only a divisor one larger can be lifted alone. */
  lemma LiftedAloneByOne(t: nat, h: int, h': int, b: int, e: nat, f: nat, p: int)
    requires t >= 10 && 2 * t * h <= b && 2 * t * h' > b + e - f
    requires p >= e && 2 * (h - h') >= f - e - 1 + 2 * p
    ensures e == 0 && f == 1 && p == 0 && h == h' && 2 * t * h == b
  {
    var k := h - h';
    assert 2 * t * k == 2 * t * h - 2 * t * h';
    if k >= 1 {
      MulLe(20, 2 * t, k);
      assert false;
    }
  }

  /** A quotient of at least one unit is too far from being lifted. */
  lemma LiftedIsBelowUnit(t: nat, b: nat, q: nat, n: nat, unit: nat, h: int)
    requires t >= 10 && b > 0 && n <= b * unit && h == (b + 1) / 2 + q * b - n && 2 * t * h <= b
    ensures q < unit
  {
    if q >= unit {
      MulLe(unit, q, b);
      assert 2 * h >= b;
      MulLe(20, 2 * t, h);
      assert false;
    }
  }

  /** Both fractions have one floor, and only the first is lifted off it. */
  predicate LiftedAway(c: Config, unit: nat, x: nat, a: nat, y: nat, b: nat)
    requires a > 0 && b > 0
  {
    (a / 2 + x * unit) / a == (b / 2 + y * unit) / b && Lifted(c, unit, x, a) && !Lifted(c, unit, y, b)
  }

  /** That happens to a fraction and a larger one of a smaller divisor only on the brink. */
  lemma LiftedAlone(c: Config, unit: nat, x: nat, b: nat, y: nat, b': nat)
    requires b > 0 && b' > 0 && c.Sound() && (x < y ==> x <= b)
    requires x <= y && b' - y <= b - x && LiftedAway(c, unit, x, b, y, b')
    ensures y == x && b' == b - 1 && OnBrink(c, x * unit, b)
  {
    var t, q, h, h' := LiftedDistances(c, unit, x, b, y, b');
    var e, f := y - x, b - x - (b' - y);
    if e > 0 { MulLe(x, b, unit); }
    var p := Shrinking(t, q, b, b', e, f, x, y, unit, h, h');
    LiftedAloneByOne(t, h, h', b, e, f, p);
    BrinkEquation(t, b, b / 2, x * unit, h);
  }

  lemma LiftedDistances(c: Config, unit: nat, x: nat, b: nat, y: nat, b': nat)
    returns (t: nat, q: nat, h: int, h': int)
    requires b > 0 && b' > 0 && c.Sound() && LiftedAway(c, unit, x, b, y, b')
    ensures c.mode.RoundHalfUp? && t == Pow10(c.places) >= 10
    ensures h == (b + 1) / 2 + q * b - x * unit && h' == (b' + 1) / 2 + q * b' - y * unit
    ensures 2 * t * h <= b && 2 * t * h' > b'
  {
    t := Pow10(c.places);
    q, h := LiftedIff(c, unit, x, b);
    var q';
    q', h' := LiftedIff(c, unit, y, b');
    Pow10AtLeastTen(c.places);
  }

  lemma Shrinking(t: nat, q: nat, b: nat, b': nat, e: nat, f: nat, x: nat, y: nat, unit: nat, h: int, h': int)
    returns (p: int)
    requires t >= 10 && b > 0 && b' == b + e - f && y == x + e && (e > 0 ==> x * unit <= b * unit)
    requires h == (b + 1) / 2 + q * b - x * unit && h' == (b' + 1) / 2 + q * b' - y * unit && 2 * t * h <= b
    ensures p >= e && 2 * (h - h') >= f - e - 1 + 2 * p
    ensures f == 1 && e == 0 && p == 0 ==> h - h' == (b + 1) / 2 - b / 2 && h == (b + 1) / 2 - x * unit
  {
    p := f * q + e * (unit - q);
    DistanceShrinks(q, b, b', e, f, x, y, unit, h, h');
    ShrinkIsPositive(t, b, e, f, q, x * unit, unit, h);
    SmallTimes(f, q);
    SmallTimes(e, unit - q);
    SmallTimes(q, b);
  }

  lemma ShrinkIsPositive(t: nat, b: nat, e: nat, f: nat, q: nat, n: nat, unit: nat, h: int)
    requires t >= 10 && b > 0 && (e > 0 ==> n <= b * unit)
    requires h == (b + 1) / 2 + q * b - n && 2 * t * h <= b
    ensures f * q + e * (unit - q) >= e
  {
    MulLe(0, f, q);
    if e > 0 {
      LiftedIsBelowUnit(t, b, q, n, unit, h);
      ScaleAtLeast(e, unit - q);
    }
  }

  lemma ScaleAtLeast(e: nat, k: int)
    requires k >= 1
    ensures e * k >= e
  {
  }

  lemma BrinkEquation(t: nat, b: nat, k: nat, n: nat, h: int)
    requires b == 2 * k && h == k - n && 2 * t * h == b
    ensures b * (t - 1) == 2 * t * n
  {
    assert 2 * t * h == 2 * t * k - 2 * t * n;
    assert b * (t - 1) == 2 * t * k - 2 * k;
  }

  lemma SmallTimes(q: int, b: int)
    ensures q == 0 ==> q * b == 0
    ensures q == 1 ==> q * b == b
  {
  }

  /** On the brink the result is one, and zero for the next smaller divisor. */
  lemma BrinkLifts(c: Config, unit: nat, x: nat, b: nat)
    requires b > 0 && c.Sound() && OnBrink(c, x * unit, b)
    ensures b > 1 && UnitDiv(c, unit, x, b) == 1 && UnitDiv(c, unit, x, b - 1) == 0
  {
    var t, n := Pow10(c.places), x * unit;
    HalfIsFloor(c, b);
    HalfIsFloor(c, b - 1);
    BrinkBelowHalf(t, b, n);
    DivTruncateIs(c, b / 2 + n, b, 0, b / 2 + n);
    DivTruncateIs(c, (b - 1) / 2 + n, b - 1, 0, (b - 1) / 2 + n);
  }

  lemma BrinkBelowHalf(t: nat, b: nat, n: nat)
    requires t > 0 && b > 0 && b % 2 == 0 && b * (t - 1) == 2 * t * n
    ensures n < b / 2 && 2 * t * (b / 2 - n) == b
  {
    assert 2 * t * (b / 2 - n) == t * b - 2 * t * n;
    assert b * (t - 1) == t * b - b;
    MulSign(b / 2 - n, 2 * t);
    assert (b / 2 - n) * (2 * t) == 2 * t * (b / 2 - n);
  }

  /** Raising the dividend, with the divisor growing by no more than the dividend, never lowers the
      quotient, except exactly for the same dividend, the next smaller divisor, and a quotient on the brink. */
  lemma MoreOfLessIff(c: Config, unit: nat, x: nat, b: nat, y: nat, b': nat)
    requires b > 0 && b' > 0 && c.Sound() && (x < y ==> x <= b)
    requires x <= y && b' - y <= b - x
    ensures UnitDiv(c, unit, x, b) <= UnitDiv(c, unit, y, b')
            <==> !(y == x && b' == b - 1 && OnBrink(c, x * unit, b))
  {
    if y == x && b' == b - 1 && OnBrink(c, x * unit, b) {
      BrinkLifts(c, unit, x, b);
    } else {
      NeverLess(c, unit, x, b, y, b');
    }
  }

  lemma NeverLess(c: Config, unit: nat, x: nat, b: nat, y: nat, b': nat)
    requires b > 0 && b' > 0 && c.Sound() && (x < y ==> x <= b)
    requires x <= y && b' - y <= b - x
    requires !(y == x && b' == b - 1 && OnBrink(c, x * unit, b))
    ensures UnitDiv(c, unit, x, b) <= UnitDiv(c, unit, y, b')
  {
    if LiftedAway(c, unit, x, b, y, b') {
      LiftedAlone(c, unit, x, b, y, b');
    }
    MoreOfLess(x, b, y, b');
    NotLiftedAway(c, unit, x, b, y, b');
  }

  /** Of two fractions the smaller one has the smaller result, unless it is lifted past the other. */
  lemma NotLiftedAway(c: Config, unit: nat, x: nat, a: nat, y: nat, b: nat)
    requires a > 0 && b > 0 && c.Sound() && x * b <= y * a && !LiftedAway(c, unit, x, a, y, b)
    ensures UnitDiv(c, unit, x, a) <= UnitDiv(c, unit, y, b)
  {
    var p := UnitDivParts(c, unit, x, a);
    var q := UnitDivParts(c, unit, y, b);
    ScaledProducts(x, b, y, a, unit);
    NearestMonotone(p, q, x * unit, y * unit, a, b);
  }

  lemma MoreOfLess(x: nat, b: nat, y: nat, b': nat)
    requires (x < y ==> x <= b) && x <= y && b' - y <= b - x
    ensures x * b' <= y * b
  {
    var e := y - x;
    MulLe(b', b + e, x);
    Expand(x, b, e);
    if e > 0 { MulLe(x, b, e); }
  }

  lemma Expand(x: int, b: int, e: int)
    ensures (b + e) * x == x * b + x * e && (x + e) * b == x * b + b * e
  {
  }

  /** Dividing by more gives no more, except exactly on the brink and then for the next smaller divisor. */
  lemma UnitDivAntitoneIff(c: Config, unit: nat, x: nat, a: nat, b: nat)
    requires 0 < a <= b && c.Sound()
    ensures UnitDiv(c, unit, x, b) <= UnitDiv(c, unit, x, a) <==> !(a == b - 1 && OnBrink(c, x * unit, b))
  {
    MoreOfLessIff(c, unit, x, b, x, a);
  }

  /** With the stock settings exactly the multiples of 2 * 10^47 are on the brink, each for one dividend. */
  lemma StockBrinkIff(x: nat, b: nat)
    requires b > 0
    ensures OnBrink(STOCK, x * RAY, b) <==> b % STOCK_BRINK == 0 && x == 99_999_999_999_999_999_999 * (b / STOCK_BRINK)
  {
    Pow10OfTwenty();
    if OnBrink(STOCK, x * RAY, b) {
      BrinkIsMultiple(x, b, b / 2 - x * RAY);
    } else if b % STOCK_BRINK == 0 {
      var m, _ := Euclid(b, STOCK_BRINK);
      assert m * STOCK_BRINK == b;
    }
  }

  const STOCK_BRINK := 200_000_000_000_000_000_000_000_000_000_000_000_000_000_000_000

  /** Dividing out the powers of ten that the ray and the scale share. */
  lemma BrinkIsMultiple(x: nat, b: nat, m: int)
    requires b % 2 == 0 && b * 99_999_999_999_999_999_999 == 200_000_000_000_000_000_000 * (x * RAY)
    requires m == b / 2 - x * RAY
    ensures b % STOCK_BRINK == 0 && x == 99_999_999_999_999_999_999 * (b / STOCK_BRINK)
  {
    var l := m - x * 10_000_000;
    var k := 10_000_000_000_000 * l - x;
    assert b == 200_000_000_000_000_000_000 * m;
    assert m == 100_000_000_000_000_000_000 * l;
    assert l == 10_000_000 * k;
    QuotientIs(b, STOCK_BRINK, k, 0);
  }

  lemma StockRayDivAntitoneIff(x: nat, a: nat, b: nat)
    requires 0 < a <= b
    ensures RayDiv(STOCK, x, b).value <= RayDiv(STOCK, x, a).value
            <==> !(a == b - 1 && b % STOCK_BRINK == 0 && x == 99_999_999_999_999_999_999 * (b / STOCK_BRINK))
  {
    UnitDivAntitoneIff(STOCK, RAY, x, a, b);
    StockBrinkIff(x, b);
  }

  /** Under the stock settings wadMul, percentMul and rayToWad are still a single floor. */
  lemma StockSingleFloors(x: nat, b: nat)
    ensures WadMul(STOCK, x, b) == (WAD / 2 + x * b) / WAD
    ensures PercentMul(STOCK, x, b) == (PERCENTAGE_FACTOR / 2 + x * b) / PERCENTAGE_FACTOR
    ensures RayToWad(STOCK, x) == (WAD_RAY_RATIO / 2 + x) / WAD_RAY_RATIO
  {
    Pow10OfTwenty();
    SmallDivisorIsFloor(STOCK, WAD / 2 + x * b, WAD);
    SmallDivisorIsFloor(STOCK, PERCENTAGE_FACTOR / 2 + x * b, PERCENTAGE_FACTOR);
    SmallDivisorIsFloor(STOCK, WAD_RAY_RATIO / 2 + x, WAD_RAY_RATIO);
  }

  /** Under the stock settings rayMul exceeds its single floor by one exactly when the remainder
      is within 5 * 10^6 of a ray. */
  lemma StockRayMulExcess(x: nat, a: nat)
    ensures RayMul(STOCK, x, a) == RayMul(SCENARIO, x, a)
              + if (RAY / 2 + x * a) % RAY >= RAY - 5_000_000 then 1 else 0
  {
    Pow10OfTwenty();
    TwoStageRounding(STOCK, RAY / 2 + x * a, RAY);
    SmallDivisorIsFloor(SCENARIO, RAY / 2 + x * a, RAY);
  }
}
