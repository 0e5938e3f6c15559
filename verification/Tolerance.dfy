/** The approximate comparisons of the test suites, and why the arithmetic satisfies them. */
module Tolerance {
  import opened Decimals
  import opened IndexLimits
  import opened RayMath
  import opened RoundTrips
  import opened RoundTripLimits

  /** `decimalPlaces(0, ROUND_DOWN)` of a BigNumber of either sign: towards zero. */
  function Truncated(x: real): int {
    if x >= 0.0 then x.Floor else -((-x).Floor)
  }

  /** The comparison of one BigNumber property in `almostEqualOrEqual`. */
  predicate AlmostEqualOrEqual(expected: real, actual: real) {
    var a, e := Truncated(actual), Truncated(expected);
    || a == e
    || a + 1 == e || a == e + 1
    || a + 2 == e || a == e + 2
    || a + 3 == e || a == e + 3
  }

  /** The comparison of `almostEqualAssertion`, which does not truncate. */
  predicate AlmostEqual(expected: real, actual: real) {
    || expected + 1.0 == actual
    || expected + 2.0 == actual
    || actual + 1.0 == expected
    || actual + 2.0 == expected
    || expected == actual
  }

  /** `isSimilar` with a window of one unit of the given number of decimals. */
  predicate IsSimilar(a: int, b: int, decimals: nat) {
    var unit := Pow10(decimals);
    if a == b then true
    else if a > b - unit && a < b then true
    else if a > b && a < b + unit then true
    else false
  }

  lemma TruncationWithinOne(x: real)
    ensures -1.0 < x - Truncated(x) as real < 1.0
    ensures x >= 0.0 ==> 0.0 <= x - Truncated(x) as real
    ensures x <= 0.0 ==> x - Truncated(x) as real <= 0.0
  {
  }

  /** The seven cases are one bound of three on the truncated values. Numbers within three of each
      other pass, and those that pass are less than five apart, less than four if of one sign. */
  lemma SevenCasesAreThree(expected: real, actual: real)
    ensures AlmostEqualOrEqual(expected, actual)
            <==> Abs(Truncated(actual) - Truncated(expected)) <= 3
    ensures -3.0 <= actual - expected <= 3.0 ==> AlmostEqualOrEqual(expected, actual)
    ensures AlmostEqualOrEqual(expected, actual) ==> -5.0 < actual - expected < 5.0
    ensures (AlmostEqualOrEqual(expected, actual) && expected >= 0.0 && actual >= 0.0)
            ==> -4.0 < actual - expected < 4.0
  {
    TruncationWithinOne(expected);
    TruncationWithinOne(actual);
  }

  /** On integers the five cases are one bound of two; a fractional difference never passes. */
  lemma FiveCasesAreTwo(expected: real, actual: real)
    ensures AlmostEqual(expected, actual)
            <==> exists k: int :: actual == expected + k as real && Abs(k) <= 2
  {
    if AlmostEqual(expected, actual) {
      var k := (actual - expected).Floor;
      assert actual == expected + k as real && Abs(k) <= 2;
    }
  }

  lemma SimilarIsStrictWindow(a: int, b: int, decimals: nat)
    ensures IsSimilar(a, b, decimals) <==> Abs(a - b) < Pow10(decimals)
  {
  }

  /** What comes back when an amount is divided by an index and multiplied by it again. */
  function RoundTrip(c: Config, x: nat, a: nat): nat
    requires a > 0
  {
    RayMul(c, RayDiv(c, x, a).value, a)
  }

  /** On integers the two comparisons are bounds of three and of two. */
  lemma ToleranceIsABound(c: Config, a: nat)
    requires a > 0
    ensures (forall x: nat :: AlmostEqualOrEqual(x as real, RoundTrip(c, x, a) as real))
            <==> StaysWithin(c, RAY, 3, a)
    ensures (forall x: nat :: AlmostEqual(x as real, RoundTrip(c, x, a) as real))
            <==> StaysWithin(c, RAY, 2, a)
  {
    forall x: nat
      ensures AlmostEqualOrEqual(x as real, RoundTrip(c, x, a) as real) <==> Abs(Trip(c, RAY, x, a) - x) <= 3
      ensures AlmostEqual(x as real, RoundTrip(c, x, a) as real) <==> Abs(Trip(c, RAY, x, a) - x) <= 2
    {
      WithinThree(x, RoundTrip(c, x, a));
    }
  }

  lemma WithinThree(x: nat, y: nat)
    ensures AlmostEqualOrEqual(x as real, y as real) <==> Abs(y - x) <= 3
    ensures AlmostEqual(x as real, y as real) <==> Abs(y - x) <= 2
  {
  }

  /** In the scenario suites every round trip passes the first comparison exactly for indices up to
      seven rays, and the second exactly up to five. */
  lemma ScenarioToleranceLimit(a: nat)
    requires a > 0
    ensures (forall x: nat :: AlmostEqualOrEqual(x as real, RoundTrip(SCENARIO, x, a) as real)) <==> a <= 7 * RAY
    ensures (forall x: nat :: AlmostEqual(x as real, RoundTrip(SCENARIO, x, a) as real)) <==> a <= 5 * RAY
  {
    ToleranceIsABound(SCENARIO, a);
    ScenarioRoundTripLimit(3, a);
    ScenarioRoundTripLimit(2, a);
  }

  /** With the stock settings the limits are the same, but for the indices just below them with which
      a multiple leaves a remainder close to half a ray. */
  lemma StockToleranceLimit(a: nat)
    requires a > 0
    ensures (forall x: nat :: AlmostEqualOrEqual(x as real, RoundTrip(STOCK, x, a) as real))
            <==> a <= 7 * RAY
                 && !SomeMultipleIn(a, RAY, RAY / 2 - 5_000_000, a / 2 + a / STOCK_PART - 3 * RAY)
    ensures (forall x: nat :: AlmostEqual(x as real, RoundTrip(STOCK, x, a) as real))
            <==> a <= 5 * RAY
                 && !SomeMultipleIn(a, RAY, RAY / 2 - 5_000_000, a / 2 + a / STOCK_PART - 2 * RAY)
  {
    Pow10OfTwenty();
    ToleranceIsABound(STOCK, a);
    StockRoundTripLimit(3, a);
    StockRoundTripLimit(2, a);
  }
}
