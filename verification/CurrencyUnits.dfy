/** Conversions between a token's smallest units and whole tokens. */
module CurrencyUnits {
  import opened Decimals
  import opened Division
  import opened RoundTrips

  /** A decimal number: scaled / 10^places. */
  datatype Amount = Amount(scaled: nat, places: nat)

  /** `convertToCurrencyUnits`: `div` by 10^decimals, printed in full. */
  function ToUnits(c: Config, amount: nat, decimals: nat): Amount {
    Amount(DivScaled(c, amount, Pow10(decimals)), c.places)
  }

  /** `convertToCurrencyDecimals`: `toFixed(decimals)`, which rounds with the configured mode, then
      `parseUnits`, which reads the digits as an integer. */
  function ToDecimals(c: Config, units: Amount, decimals: nat): nat {
    if units.places <= decimals then units.scaled * Pow10(decimals - units.places)
    else
      var dropped := Pow10(units.places - decimals);
      match c.mode
      case RoundDown => WholePart(units.scaled, dropped)
      case RoundHalfUp => WholePart(2 * units.scaled + dropped, 2 * dropped)
  }

  /** A string of whole tokens becomes that many times ten to the decimals. */
  lemma WholeTokens(c: Config, n: nat, decimals: nat)
    ensures ToDecimals(c, Amount(n, 0), decimals) == n * Pow10(decimals)
  {
  }

  /** q is n / d cut off, or rounded half up, as configured. */
  predicate IsQuotient(c: Config, q: int, n: int, d: int) {
    match c.mode
    case RoundDown => 0 <= n - q * d < d
    case RoundHalfUp => -d <= 2 * (n - q * d) < d
  }

  /** The printed digits are the quotient by ten to the decimals, to the configured places. */
  lemma UnitsAreTheQuotient(c: Config, amount: nat, decimals: nat)
    ensures ToUnits(c, amount, decimals).places == c.places
    ensures IsQuotient(c, ToUnits(c, amount, decimals).scaled, amount * Pow10(c.places), Pow10(decimals))
  {
    QuotientOf(c, amount * Pow10(c.places), Pow10(decimals));
    Regroup(2, amount, Pow10(c.places));
  }

  /** Reading a decimal number in is exact, or rounds away the places the token does not have. */
  lemma DecimalsAreTheQuotient(c: Config, units: Amount, decimals: nat)
    ensures units.places <= decimals ==>
              ToDecimals(c, units, decimals) * Pow10(units.places) == units.scaled * Pow10(decimals)
    ensures units.places > decimals ==>
              IsQuotient(c, ToDecimals(c, units, decimals), units.scaled, Pow10(units.places - decimals))
  {
    if units.places <= decimals {
      Pow10Adds(decimals - units.places, units.places);
      Regroup(units.scaled, Pow10(decimals - units.places), Pow10(units.places));
    } else {
      QuotientOf(c, units.scaled, Pow10(units.places - decimals));
    }
  }

  lemma QuotientOf(c: Config, n: nat, d: nat)
    requires d > 0
    ensures IsQuotient(c, if c.mode.RoundDown? then WholePart(n, d) else WholePart(2 * n + d, 2 * d), n, d)
  {
    var q, r := Euclid(n, d);
    var q', r' := Euclid(2 * n + d, 2 * d);
    Regroup(q', 2, d);
  }

  lemma Regroup(n: int, x: int, y: int)
    ensures n * x * y == n * (x * y)
  {
  }

  /** What the settings cannot represent: the distance between two convertible amounts. */
  function Step(c: Config, decimals: nat): nat {
    if decimals <= c.places then 1 else Pow10(decimals - c.places)
  }

  lemma CancelFactor(n: nat, t: nat, d: nat)
    requires t > 0 && d > 0
    ensures n * t / (d * t) == n / d
  {
    var q, r := Euclid(n, d);
    MulLe(r + 1, d, t);
    MulSign(d, t);
    assert (q * d + r) * t == q * (d * t) + r * t;
    QuotientIs(n * t, d * t, q, r * t);
  }

  /** Few decimals: the amount survives both conversions whatever its value. */
  lemma FewDecimalsAreExact(c: Config, n: nat, decimals: nat)
    requires decimals <= c.places
    ensures ToDecimals(c, ToUnits(c, n, decimals), decimals) == n
  {
    var d, m := Pow10(decimals), Pow10(c.places - decimals);
    Pow10Adds(decimals, c.places - decimals);
    ExactQuotient(n, m, d);
    var units := ToUnits(c, n, decimals);
    assert Pow10(c.places) == m * d;
    assert units.scaled == n * m;
    if units.places <= decimals {
      assert Pow10(0) == 1 && m == 1;
    } else {
      ExactQuotient(n, 1, m);
      assert n * 1 == n;
    }
  }

  /** Dividing a multiple is exact in both modes. */
  lemma ExactQuotient(n: nat, m: nat, d: nat)
    requires d > 0
    ensures n * (m * d) / d == n * m
    ensures (2 * n * (m * d) + d) / (2 * d) == n * m
    ensures (2 * (n * (m * d)) + d) / (2 * d) == n * m
  {
    assert n * (m * d) == n * m * d;
    QuotientIs(n * (m * d), d, n * m, 0);
    assert 2 * n * (m * d) == 2 * (n * (m * d)) == (n * m) * (2 * d);
    QuotientIs(2 * n * (m * d) + d, 2 * d, n * m, d);
  }

  /** How many steps of size m an amount is converted to. */
  function InSteps(c: Config, n: nat, m: nat): nat
    requires m > 0
  {
    if c.mode.RoundDown? then WholePart(n, m) else WholePart(2 * n + m, 2 * m)
  }

  /** Many decimals: the amount is rounded to a multiple of the step. */
  lemma ManyDecimalsRoundToStep(c: Config, n: nat, decimals: nat)
    requires decimals > c.places
    ensures ToDecimals(c, ToUnits(c, n, decimals), decimals)
              == InSteps(c, n, Step(c, decimals)) * Step(c, decimals)
  {
    Pow10Adds(decimals - c.places, c.places);
    ScaledInSteps(c, n, Pow10(c.places), Step(c, decimals), Pow10(decimals));
    assert DivScaled(c, n, Pow10(decimals)) == InSteps(c, n, Step(c, decimals));
  }

  lemma ScaledInSteps(c: Config, n: nat, t: nat, m: nat, d: nat)
    requires t > 0 && m > 0 && d == m * t && d > 0
    ensures n * t / d == n / m
    ensures (2 * n * t + d) / (2 * d) == (2 * n + m) / (2 * m)
  {
    CancelFactor(n, t, m);
    CancelFactor(2 * n + m, t, 2 * m);
    assert 2 * n * t + m * t == (2 * n + m) * t && 2 * (m * t) == (2 * m) * t;
  }

  /** Converting to whole tokens and back returns the amount exactly when it is a multiple of the
      step, and otherwise stays within one step, within half of one when `div` rounds half up. */
  lemma UnitsRoundTrip(c: Config, n: nat, decimals: nat)
    ensures var back, m := ToDecimals(c, ToUnits(c, n, decimals), decimals), Step(c, decimals);
      && (back == n <==> n % m == 0)
      && (c.mode.RoundDown? ==> back <= n < back + m)
      && (c.mode.RoundHalfUp? ==> 2 * Abs(back - n) <= m)
  {
    var m := Step(c, decimals);
    if decimals <= c.places {
      FewDecimalsAreExact(c, n, decimals);
    } else {
      ManyDecimalsRoundToStep(c, n, decimals);
      if c.mode.RoundDown? {
        var q, r := Euclid(n, m);
      } else {
        var q, r := Euclid(2 * n + m, 2 * m);
        NearestMultiple(n, m, q, r);
      }
    }
  }

  lemma NearestMultiple(n: nat, m: nat, q: nat, r: nat)
    requires m > 0
    requires 2 * n + m == q * (2 * m) + r && r < 2 * m
    ensures q * m == n <==> n % m == 0
    ensures 2 * Abs(q * m - n) <= m
  {
    assert q * (2 * m) == 2 * (q * m);
    var k, rest := Euclid(n, m);
    MulSign(k - q, m);
    assert (k - q) * m == k * m - q * m;
    if q * m == n { QuotientIs(n, m, q, 0); }
  }

  /** The settings in use: the stock ones return every amount of a token of at most 20 decimals;
      those of the scenario suites return exactly the whole tokens. */
  lemma UnitsRoundTripInUse(n: nat, decimals: nat)
    ensures decimals <= 20 ==> ToDecimals(STOCK, ToUnits(STOCK, n, decimals), decimals) == n
    ensures ToDecimals(SCENARIO, ToUnits(SCENARIO, n, decimals), decimals) == n
            <==> n % Pow10(decimals) == 0
  {
    UnitsRoundTrip(SCENARIO, n, decimals);
    StepWithoutPlaces(SCENARIO, decimals);
    if decimals <= 20 { FewDecimalsAreExact(STOCK, n, decimals); }
  }

  lemma StepWithoutPlaces(c: Config, decimals: nat)
    requires c.places == 0
    ensures Step(c, decimals) == Pow10(decimals)
  {
  }
}
