/** The indices for which the ray round trips hold on every amount, under the settings in use. */
module IndexLimits {
  import opened Decimals
  import opened Division
  import opened Divisors
  import opened RayMath
  import opened RoundTrips
  import opened RoundTripLimits

  /** In the scenario suites every trip stays within j exactly up to 2 * j + 1 rays. */
  lemma ScenarioRoundTripLimit(j: nat, a: nat)
    requires a > 0
    ensures StaysWithin(SCENARIO, RAY, j, a) <==> a <= (2 * j + 1) * RAY
  {
    RoundTripLimit(SCENARIO, RAY, j, a);
    if a <= (2 * j + 1) * RAY {
      RoundDownNeverSlips(SCENARIO, RAY, j, a);
    }
  }

  /** The round trips in ray terms. */
  lemma InRays(c: Config, a: nat)
    requires a > 0
    ensures DividingUndoes(c, RAY, a) <==> forall s: nat :: RayDiv(c, RayMul(c, s, a), a) == Finite(s)
    ensures StaysWithin(c, RAY, 0, a) <==> forall x: nat :: RayMul(c, RayDiv(c, x, a).value, a) == x
  {
    forall s: nat
      ensures RayDiv(c, RayMul(c, s, a), a) == Finite(UnitDiv(c, RAY, UnitMul(c, RAY, s, a), a))
      ensures RayMul(c, RayDiv(c, s, a).value, a) == Trip(c, RAY, s, a)
    {
    }
  }

  /** In the scenario suites dividing undoes multiplying exactly from one ray on, and multiplying
      undoes dividing exactly up to one ray. */
  lemma ScenarioUndoingIff(a: nat)
    requires a > 0
    ensures (forall s: nat :: RayDiv(SCENARIO, RayMul(SCENARIO, s, a), a) == Finite(s)) <==> a >= RAY
    ensures (forall x: nat :: RayMul(SCENARIO, RayDiv(SCENARIO, x, a).value, a) == x) <==> a <= RAY
  {
    InRays(SCENARIO, a);
    ScenarioRoundTripLimit(0, a);
    DividingUndoesIff(SCENARIO, RAY, a);
    if a >= RAY {
      RoundDownNeverClashes(SCENARIO, RAY, a);
    }
  }

  // ---------- the stock settings ----------

  /** Twice the scale of the stock settings: what `div` adds is less than one part in so many. */
  const STOCK_PART := 200_000_000_000_000_000_000

  lemma StockLift(a: nat)
    ensures Lift(STOCK, RAY) == 5_000_000 && Lift(STOCK, a) == a / STOCK_PART
  {
    Pow10OfTwenty();
  }

  lemma StockRoundTripLimit(j: nat, a: nat)
    requires a > 0 && 2 * j + 1 < Pow10(20)
    ensures StaysWithin(STOCK, RAY, j, a)
            <==> a <= (2 * j + 1) * RAY
                 && !SomeMultipleIn(a, RAY, RAY / 2 - 5_000_000, a / 2 + a / STOCK_PART - j * RAY)
  {
    RoundTripLimit(STOCK, RAY, j, a);
    SomeSlipIff(STOCK, RAY, j, a);
    StockLift(a);
  }

  lemma StockDividingUndoesIff(a: nat)
    requires a > 0
    ensures DividingUndoes(STOCK, RAY, a)
            <==> a >= RAY && !SomeMultipleIn(a, RAY, RAY / 2 - 5_000_000, RAY - (a + 1) / 2 + a / STOCK_PART)
  {
    DividingUndoesIff(STOCK, RAY, a);
    SomeClashIff(STOCK, RAY, a);
    StockLift(a);
  }

  /** With the stock settings the same limits hold, but for the indices with which a multiple leaves
      a remainder close to half a ray. */
  lemma StockUndoingIff(a: nat)
    requires a > 0
    ensures (forall s: nat :: RayDiv(STOCK, RayMul(STOCK, s, a), a) == Finite(s))
            <==> a >= RAY && !SomeMultipleIn(a, RAY, RAY / 2 - 5_000_000, RAY - (a + 1) / 2 + a / STOCK_PART)
    ensures (forall x: nat :: RayMul(STOCK, RayDiv(STOCK, x, a).value, a) == x)
            <==> a <= RAY && !SomeMultipleIn(a, RAY, RAY / 2 - 5_000_000, a / 2 + a / STOCK_PART)
  {
    InRays(STOCK, a);
    Pow10OfTwenty();
    StockRoundTripLimit(0, a);
    StockDividingUndoesIff(a);
  }

  /** There are none at a whole odd number of rays, and none far enough from it. */
  lemma StockHoldsFarFromOddRays(j: nat, a: nat)
    requires 2 * j + 1 < Pow10(20) && a > 0
    requires a == (2 * j + 1) * RAY || a < (2 * j + 1) * RAY - (j + 1) * 20_000_000
    ensures StaysWithin(STOCK, RAY, j, a)
  {
    StockRoundTripLimit(j, a);
    if a == (2 * j + 1) * RAY {
      OnlyZeroReached(2 * j + 1, RAY, RAY / 2 - 5_000_000, a / 2 + a / STOCK_PART - j * RAY);
    } else {
      FarBelow(a, a / STOCK_PART, j);
    }
  }

  lemma StockHoldsFarAboveOneRay(a: nat)
    requires a == RAY || a > RAY + 20_000_000
    ensures DividingUndoes(STOCK, RAY, a)
  {
    StockDividingUndoesIff(a);
    if a == RAY {
      OnlyZeroReached(1, RAY, RAY / 2 - 5_000_000, RAY - (a + 1) / 2 + a / STOCK_PART);
    } else {
      FarAbove(a, a / STOCK_PART);
    }
  }

  lemma OnlyZeroReached(n: nat, unit: nat, low: int, high: int)
    requires unit > 0 && low > 0
    ensures !SomeMultipleIn(n * unit, unit, low, high)
  {
    GcdOfMultiple(n, unit);
    forall r: nat | r < unit && r % unit == 0 ensures r == 0 {
      QuotientIs(r, unit, 0, r);
    }
  }

  lemma FarBelow(a: nat, q: nat, j: nat)
    requires q * STOCK_PART <= a < (2 * j + 1) * RAY - (j + 1) * 20_000_000
    ensures a / 2 + q - j * RAY < RAY / 2 - 5_000_000
  {
  }

  lemma FarAbove(a: nat, q: nat)
    requires q * STOCK_PART <= a && a > RAY + 20_000_000
    ensures RAY - (a + 1) / 2 + q < RAY / 2 - 5_000_000
  {
  }

  // ---------- indices next to a whole number of rays ----------

  function Pow2(n: nat): (p: nat)
    ensures p > 0
  {
    if n == 0 then 1 else 2 * Pow2(n - 1)
  }

  /** Of two factors the one that takes all factors of two is at least their product. */
  lemma {:induction false} OddCofactor(g: nat, m: nat, n: nat, q: nat)
    requires g > 0 && m % 2 == 1 && g * m == Pow2(n) * q
    ensures g >= Pow2(n)
  {
    if n == 0 {
    } else {
      HalveFactor(g, m, Pow2(n - 1) * q);
      assert Pow2(n) * q == 2 * (Pow2(n - 1) * q);
      OddCofactor(g / 2, m, n - 1, q);
    }
  }

  lemma HalveFactor(g: nat, m: nat, p: nat)
    requires g > 0 && m % 2 == 1 && (g * m == 2 * p)
    ensures g % 2 == 0 && g / 2 > 0 && (g / 2) * m == p
  {
    var h, l := g / 2, m / 2;
    assert m == 2 * l + 1;
    assert g * m == 2 * (g * l) + g;
    assert g == 2 * h;
    assert g * m == 2 * (h * m);
  }

  /** An index less than 2^27 from a whole number of rays leaves half a ray on some multiple. */
  lemma HalfRayReached(a: nat, n: nat, k: int)
    requires a == n * RAY + k && k != 0 && -134_217_728 < k < 134_217_728
    ensures (RAY / 2) % Gcd(a, RAY) == 0
  {
    var g := Gcd(a, RAY);
    var _, _ := Bezout(a, RAY);
    DividesRemainder(a, RAY, g, 1, n, k);
    var l, _ := Euclid(k, g);
    MulSign(l, g);
    SmallDivisorOfRay(g);
  }

  lemma SmallDivisorOfRay(g: nat)
    requires 0 < g < 134_217_728 && RAY % g == 0
    ensures (RAY / 2) % g == 0
  {
    var m, _ := Euclid(RAY, g);
    TwosOfRay();
    if m % 2 == 1 {
      OddCofactor(g, m, 27, 7_450_580_596_923_828_125);
      assert false;
    }
    MulTwice(2, m / 2, g);
    QuotientIs(RAY / 2, g, m / 2, 0);
  }

  lemma TwosOfRay()
    ensures Pow2(27) == 134_217_728 && RAY == Pow2(27) * 7_450_580_596_923_828_125
  {
    assert Pow2(10) == 1024;
    assert Pow2(20) == 1_048_576;
  }

  /** Every index just above one ray fails on some balance. */
  lemma StockFailsAboveOneRay(k: nat)
    requires 0 < k <= 10_000_000
    ensures !DividingUndoes(STOCK, RAY, RAY + k)
  {
    StockDividingUndoesIff(RAY + k);
    HalfRayReached(RAY + k, 1, k);
    assert (RAY / 2) % Gcd(RAY + k, RAY) == 0;
    assert RAY / 2 <= RAY - (RAY + k + 1) / 2 + (RAY + k) / STOCK_PART;
  }

  /** Every index just below an odd number of rays takes some amount one further than the whole
      number of rays does. */
  lemma StockFailsBelowOddRays(j: nat, k: nat)
    requires 0 < k < 134_217_728 && k <= 2 * ((2 * j + 1) * 5_000_000 - 1) && 2 * j + 1 < Pow10(20)
    ensures !StaysWithin(STOCK, RAY, j, (2 * j + 1) * RAY - k)
  {
    var a := (2 * j + 1) * RAY - k;
    StockRoundTripLimit(j, a);
    HalfRayReached(a, 2 * j + 1, 0 - k);
    assert (RAY / 2) % Gcd(a, RAY) == 0;
    assert a / STOCK_PART == (2 * j + 1) * 5_000_000 - 1;
    assert RAY / 2 <= a / 2 + a / STOCK_PART - j * RAY;
  }
}
