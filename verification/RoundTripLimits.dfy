/** For which indices the round trips hold on every amount, decided from the index alone. */
module RoundTripLimits {
  import opened Decimals
  import opened Division
  import opened Divisors
  import opened RayMath
  import opened RoundTrips

  /** Dividing by an index and multiplying by it again. */
  function Trip(c: Config, unit: nat, x: nat, a: nat): nat
    requires unit > 0 && a > 0
  {
    UnitMul(c, unit, UnitDiv(c, unit, x, a), a)
  }

  /** No amount comes back more than j off. */
  ghost predicate StaysWithin(c: Config, unit: nat, j: nat, a: nat)
    requires unit > 0 && a > 0
  {
    forall x: nat :: Abs(Trip(c, unit, x, a) - x) <= j
  }

  /** With a remainder of r both roundings of a trip go up, and together they go j units too far. */
  predicate Slips(c: Config, unit: nat, j: nat, a: nat, r: nat) {
    GoesUp(c, r, unit) && GoesUp(c, a - j * unit - r, a)
  }

  /** Some remainder that multiples of the index leave makes a trip slip. */
  ghost predicate SomeSlip(c: Config, unit: nat, j: nat, a: nat)
    requires unit > 0
  {
    exists r: nat :: r < unit && r % Gcd(a, unit) == 0 && Slips(c, unit, j, a, r)
  }

  /** Enough decimal places that the rounding inside `div` reaches no further than one unit. */
  predicate FineEnough(c: Config, j: nat) {
    c.Sound() && (c.mode.RoundHalfUp? ==> 2 * j + 1 < Pow10(c.places))
  }

  lemma GoesUpMonotone(c: Config, r: int, s: int, d: nat)
    requires r <= s && GoesUp(c, r, d)
    ensures GoesUp(c, s, d)
  {
    MulLe((d + 1) / 2 - s, (d + 1) / 2 - r, 2 * Pow10(c.places));
  }

  /** A remainder that goes up is positive, and one that stays is below half. */
  lemma UpIsPositive(c: Config, r: int, d: nat)
    requires d > 0 && c.Sound()
    ensures GoesUp(c, r, d) ==> r > 0
    ensures !GoesUp(c, r, d) ==> r < (d + 1) / 2
  {
    GoesUpAtHalf(c, r, d);
  }

  lemma TripIsTwoRounds(c: Config, unit: nat, x: nat, a: nat)
    requires unit > 0 && a > 0 && c.Sound()
    ensures Trip(c, unit, x, a) == Round(c, Round(c, x * unit, a) * a, unit)
  {
    OperationsRound(c, unit, x, a);
    OperationsRound(c, unit, UnitDiv(c, unit, x, a), a);
  }

  /** A trip whose two rounds are known by quotient and remainder. */
  lemma TripIs(c: Config, unit: nat, x: nat, a: nat, m: int, r: int, q: int, s: int)
    requires unit > 0 && a > 0 && c.Sound()
    requires 0 <= r < a && x * unit == m * a + r
    requires 0 <= s < unit && (m + if GoesUp(c, r, a) then 1 else 0) * a == q * unit + s
    ensures Trip(c, unit, x, a) == q + if GoesUp(c, s, unit) then 1 else 0
  {
    TripIsTwoRounds(c, unit, x, a);
    RoundIs(c, x * unit, a, m, r);
    RoundIs(c, Round(c, x * unit, a) * a, unit, q, s);
  }

  // ---------- an index of at most 2 * j + 1 units ----------

  /** A slip takes some amount j + 1 too far. */
  lemma SlipGoesTooFar(c: Config, unit: nat, j: nat, a: nat, r: nat) returns (x: nat)
    requires unit > 0 && a > 0 && c.Sound()
    requires r < unit && r % Gcd(a, unit) == 0 && Slips(c, unit, j, a, r)
    ensures Trip(c, unit, x, a) == x + j + 1
  {
    var m := Reaching(a, unit, r);
    var q, _ := Euclid(m * a, unit);
    UpIsPositive(c, r, unit);
    UpIsPositive(c, a - j * unit - r, a);
    SlipAmount(unit, j, a, r, m, q);
    x := q - j;
    TripIs(c, unit, x, a, m - 1, a - j * unit - r, q, r);
  }

  lemma SlipAmount(unit: nat, j: nat, a: nat, r: nat, m: nat, q: nat)
    requires 0 < r < unit && m * a == q * unit + r && a - j * unit - r > 0
    ensures q > j && (q - j) * unit == (m - 1) * a + (a - j * unit - r)
  {
    MulMinus(q, j, unit);
    MulPredecessor(m, a);
    MulSign(m - 1, a);
    MulSign(q - j, unit);
  }

  /** How far each of the two rounds of a trip goes, and in which direction. */
  lemma TwoOffsets(c: Config, unit: nat, x: nat, a: nat) returns (m: nat, y: nat, r: nat, s: nat, up: bool, upAgain: bool)
    requires unit > 0 && a > 0 && c.Sound()
    ensures y == Trip(c, unit, x, a) && r < a && s < unit && up == GoesUp(c, r, a) && upAgain == GoesUp(c, s, unit)
    ensures m * a - x * unit == if up then a - r else 0 - r
    ensures y * unit - m * a == if upAgain then unit - s else 0 - s
  {
    TripIsTwoRounds(c, unit, x, a);
    m, r := RoundOffset(c, x * unit, a);
    y, s := RoundOffset(c, m * a, unit);
    up, upAgain := GoesUp(c, r, a), GoesUp(c, s, unit);
  }

  /** How far a trip goes is the sum of both; the second one starts from a remainder of a multiple. */
  lemma Offsets(c: Config, unit: nat, x: nat, a: nat) returns (y: nat, far: int, r: nat, s: nat, up: bool, upAgain: bool)
    requires unit > 0 && a > 0 && c.Sound()
    ensures y == Trip(c, unit, x, a)
    ensures r < a && s < unit && s % Gcd(a, unit) == 0
    ensures up == GoesUp(c, r, a) && upAgain == GoesUp(c, s, unit)
    ensures far == (if up then a - r else 0 - r) + if upAgain then unit - s else 0 - s
    ensures (y - x) * unit == far
  {
    var m;
    m, y, r, s, up, upAgain := TwoOffsets(c, unit, x, a);
    far := (m * a - x * unit) + (y * unit - m * a);
    MulMinus(y, x, unit);
    RemainderReached(a, unit, m, y, s, upAgain);
  }

  lemma RemainderReached(a: nat, unit: nat, m: nat, y: int, s: nat, up: bool)
    requires unit > 0 && s < unit && y * unit - m * a == if up then unit - s else 0 - s
    ensures s % Gcd(a, unit) == 0
  {
    MulPredecessor(y, unit);
    QuotientIs(m * a, unit, if up then y - 1 else y, s);
    RemainderOfMultiple(a, unit, m);
  }

  /** Trips end at most j too low. */
  lemma NeverTooLow(c: Config, unit: nat, j: nat, a: nat, x: nat)
    requires unit > 0 && unit % 2 == 0 && c.Sound() && 0 < a <= (2 * j + 1) * unit
    ensures x - Trip(c, unit, x, a) <= j
  {
    var y, far, r, s, up, upAgain := Offsets(c, unit, x, a);
    UpIsPositive(c, r, a);
    UpIsPositive(c, s, unit);
    OddMultiple(unit, j, a);
    OffsetsBelow(unit, j * unit, a, far, r, s, up, upAgain);
    CancelUnits(y - x, j, unit);
  }

  /** Two rounds that each lose less than half of their divisor. */
  lemma OffsetsBelow(unit: nat, ju: int, a: nat, far: int, r: nat, s: nat, up: bool, upAgain: bool)
    requires unit % 2 == 0 && (a + 1) / 2 <= ju + unit / 2 && r < a && s < unit
    requires far == (if up then a - r else 0 - r) + if upAgain then unit - s else 0 - s
    requires !up ==> r < (a + 1) / 2
    requires !upAgain ==> s < (unit + 1) / 2
    ensures 0 - far < ju + unit
  {
  }

  lemma CancelUnits(k: int, j: nat, unit: nat)
    requires unit > 0
    ensures 0 - k * unit < j * unit + unit ==> k >= 0 - j
    ensures k > j ==> k * unit >= j * unit + unit
  {
    MulPredecessor(j + 1, unit);
    if k > j {
      MulLe(j + 1, k, unit);
    } else if k < 0 - j {
      MulLe(k, 0 - (j + 1), unit);
    }
  }

  /** Half of an odd multiple of an even unit. */
  lemma OddMultiple(unit: nat, j: nat, a: nat)
    requires unit % 2 == 0 && a <= (2 * j + 1) * unit
    ensures a <= 2 * (j * unit) + unit
    ensures (a + 1) / 2 <= j * unit + unit / 2
  {
    assert (2 * j + 1) * unit == 2 * (j * unit) + unit;
  }

  /** Where a trip ends more than j too high, its remainder slips. */
  lemma TooHighIsASlip(c: Config, unit: nat, j: nat, a: nat, x: nat)
    requires unit > 0 && unit % 2 == 0 && FineEnough(c, j) && 0 < a <= (2 * j + 1) * unit
    requires Trip(c, unit, x, a) - x > j
    ensures SomeSlip(c, unit, j, a)
  {
    var y, far, r, s, up, upAgain := Offsets(c, unit, x, a);
    UpIsNotFar(c, unit, j, a, r);
    UpIsPositive(c, s, unit);
    FarGoesUpTwice(unit, j, a, y - x, far, r, s, up, upAgain);
    SlipFound(c, unit, j, a, r, s);
  }

  lemma FarGoesUpTwice(unit: nat, j: nat, a: nat, k: int, far: int, r: nat, s: nat, up: bool, upAgain: bool)
    requires unit > 0 && k > j && k * unit == far && s < unit
    requires (up ==> a - r < j * unit + unit) && (upAgain ==> s > 0)
    requires far == (if up then a - r else 0 - r) + if upAgain then unit - s else 0 - s
    ensures up && upAgain && r <= a - j * unit - s
  {
    CancelUnits(k, j, unit);
    OffsetsAbove(unit, j * unit, a, far, r, s, up, upAgain);
  }

  lemma SlipFound(c: Config, unit: nat, j: nat, a: nat, r: int, s: nat)
    requires unit > 0 && s < unit && s % Gcd(a, unit) == 0
    requires r <= a - j * unit - s && GoesUp(c, r, a) && GoesUp(c, s, unit)
    ensures SomeSlip(c, unit, j, a)
  {
    GoesUpMonotone(c, r, a - j * unit - s, a);
    assert Slips(c, unit, j, a, s);
  }

  lemma UpIsNotFar(c: Config, unit: nat, j: nat, a: nat, r: nat)
    requires unit > 0 && unit % 2 == 0 && FineEnough(c, j) && 0 < a <= (2 * j + 1) * unit
    ensures GoesUp(c, r, a) ==> a - r < j * unit + unit
  {
    if a - r >= j * unit + unit {
      OneRoundIsNotEnough(c, unit, j, a, r);
    }
  }

  lemma OffsetsAbove(unit: nat, ju: nat, a: nat, far: int, r: nat, s: nat, up: bool, upAgain: bool)
    requires s < unit && far >= ju + unit
    requires far == (if up then a - r else 0 - r) + if upAgain then unit - s else 0 - s
    requires (up ==> a - r < ju + unit) && (upAgain ==> s > 0)
    ensures up && upAgain && r <= a - ju - s
  {
  }

  /** Going up by j + 1 units or more takes more than the rounding inside `div` can lift. */
  lemma OneRoundIsNotEnough(c: Config, unit: nat, j: nat, a: nat, r: nat)
    requires unit > 0 && unit % 2 == 0 && FineEnough(c, j) && 0 < a <= (2 * j + 1) * unit
    requires a - r >= j * unit + unit
    ensures !GoesUp(c, r, a)
  {
    OddMultiple(unit, j, a);
    if c.mode.RoundHalfUp? {
      MissingTooMuch(Pow10(c.places), unit, j, a, (a + 1) / 2 - r);
    }
  }

  lemma MissingTooMuch(t: nat, unit: nat, j: nat, a: nat, missing: int)
    requires unit > 0 && 2 * j + 1 < t && a <= (2 * j + 1) * unit && 2 * missing >= unit
    ensures 2 * t * missing > a
  {
    MulLe(unit, 2 * missing, t);
    MulLe(2 * j + 2, t, unit);
    MulPredecessor(2 * j + 2, unit);
    TwiceProduct(missing, t);
    assert t * unit == unit * t;
  }

  // ---------- an index above 2 * j + 1 units ----------

  /** The last m for which stepping down by m * k from a - j * unit still goes up. */
  lemma LastStepUp(c: Config, a: nat, top: int, k: nat) returns (m: nat)
    requires a > 0 && k > 0 && c.Sound() && top <= a && GoesUp(c, top, a)
    ensures GoesUp(c, top - m * k, a) && !GoesUp(c, top - (m + 1) * k, a)
  {
    m := 0;
    while GoesUp(c, top - (m + 1) * k, a)
      invariant GoesUp(c, top - m * k, a)
      decreases top - m * k
    {
      UpIsPositive(c, top - m * k, a);
      MulPredecessor(m + 1, k);
      m := m + 1;
    }
  }

  /** Above an odd number of units some amount comes back more than j off, whatever the settings. */
  lemma SomeAmountIsTooFar(c: Config, unit: nat, j: nat, a: nat) returns (x: nat)
    requires unit > 0 && c.Sound() && a > (2 * j + 1) * unit
    ensures Abs(Trip(c, unit, x, a) - x) > j
  {
    var k, m := StepsDown(c, unit, j, a);
    var w, s := Euclid(m * k, unit);
    if w == 0 && !GoesUp(c, s, unit) {
      x := StaysBelow(c, unit, j, a, k, m, s);
    } else {
      x := StaysAbove(c, unit, j, a, k, m, w, s);
    }
  }

  lemma StepsDown(c: Config, unit: nat, j: nat, a: nat) returns (k: nat, m: nat)
    requires unit > 0 && c.Sound() && a > (2 * j + 1) * unit
    ensures k > 0 && a == (2 * j + 1) * unit + k
    ensures GoesUp(c, a - j * unit - m * k, a) && !GoesUp(c, a - j * unit - (m + 1) * k, a)
  {
    k := a - (2 * j + 1) * unit;
    HalfIsUp(c, unit, j, a);
    m := LastStepUp(c, a, a - j * unit, k);
  }

  lemma HalfIsUp(c: Config, unit: nat, j: nat, a: nat)
    requires unit > 0 && a > (2 * j + 1) * unit
    ensures j * unit >= 0 && a - j * unit <= a && GoesUp(c, a - j * unit, a)
  {
    assert (2 * j + 1) * unit == 2 * (j * unit) + unit;
    GoesUpAtHalf(c, a - j * unit, a);
  }

  /** The first round of n * m + j + 1 stays down, and so does the second. */
  lemma StaysBelow(c: Config, unit: nat, j: nat, a: nat, k: nat, m: nat, s: nat) returns (x: nat)
    requires unit > 0 && c.Sound() && k > 0 && a == (2 * j + 1) * unit + k && m * k == s < unit
    requires !GoesUp(c, a - j * unit - (m + 1) * k, a) && !GoesUp(c, s, unit)
    ensures x - Trip(c, unit, x, a) > j
  {
    x := (2 * j + 1) * m + j + 1;
    var r := a - j * unit - (m + 1) * k;
    AmountAbove(unit, j, a, k, m);
    TripQuotient(unit, 2 * j + 1, a, k, m, 0, s);
    TripIs(c, unit, x, a, m, r, (2 * j + 1) * m, s);
  }

  /** The first round of n * m - j goes up, and the second one ends at n * m + 1 or more. */
  lemma StaysAbove(c: Config, unit: nat, j: nat, a: nat, k: nat, m: nat, w: nat, s: nat) returns (x: nat)
    requires unit > 0 && c.Sound() && k > 0 && a == (2 * j + 1) * unit + k
    requires GoesUp(c, a - j * unit - m * k, a)
    requires m * k == w * unit + s && s < unit && (w > 0 || GoesUp(c, s, unit))
    ensures Trip(c, unit, x, a) - x > j
  {
    UpIsPositive(c, a - j * unit - m * k, a);
    UpIsPositive(c, s, unit);
    PositiveFactor(m, k, w, unit, s);
    MulLe(1, m, 2 * j + 1);
    x := (2 * j + 1) * m - j;
    AmountBelow(unit, j, a, k, m);
    TripQuotient(unit, 2 * j + 1, a, k, m, w, s);
    TripIs(c, unit, x, a, m - 1, a - j * unit - m * k, (2 * j + 1) * m + w, s);
  }

  lemma PositiveFactor(m: nat, k: nat, w: nat, unit: nat, s: nat)
    requires unit > 0 && k > 0 && m * k == w * unit + s && (w > 0 || s > 0)
    ensures m > 0
  {
    MulSign(w, unit);
    MulSign(m, k);
  }

  lemma TripQuotient(unit: nat, n: nat, a: nat, k: nat, m: nat, w: nat, s: nat)
    requires a == n * unit + k && m * k == w * unit + s
    ensures m * a == (n * m + w) * unit + s
  {
    assert m * (n * unit) == n * m * unit;
    assert m * a == m * (n * unit) + m * k;
    assert (n * m + w) * unit == n * m * unit + w * unit;
  }

  lemma AmountAbove(unit: nat, j: nat, a: nat, k: nat, m: nat)
    requires a == (2 * j + 1) * unit + k && k > 0 && m * k < unit
    ensures ((2 * j + 1) * m + j + 1) * unit == m * a + (a - j * unit - (m + 1) * k)
    ensures 0 <= a - j * unit - (m + 1) * k < a
  {
    OddTimes(j, unit);
    MulPredecessor(m + 1, k);
    TripQuotient(unit, 2 * j + 1, a, k, m, 0, m * k);
    Distributes((2 * j + 1) * m, j + 1, unit);
    MulPredecessor(j + 1, unit);
  }

  lemma OddTimes(j: nat, unit: nat)
    ensures (2 * j + 1) * unit == 2 * (j * unit) + unit && j * unit >= 0
  {
  }

  lemma Distributes(x: int, y: int, m: int)
    ensures (x + y) * m == x * m + y * m
  {
  }

  lemma AmountBelow(unit: nat, j: nat, a: nat, k: nat, m: nat)
    requires a == (2 * j + 1) * unit + k && k > 0 && m > 0
    ensures ((2 * j + 1) * m - j) * unit == (m - 1) * a + (a - j * unit - m * k)
    ensures j * unit + m * k > 0
  {
    var n := 2 * j + 1;
    assert m * (n * unit) == n * m * unit;
    assert m * a == m * (n * unit) + m * k;
    MulMinus(n * m, j, unit);
    MulPredecessor(m, a);
    MulSign(m, k);
  }

  /** The round trip keeps every amount within j exactly for indices of at most 2 * j + 1 units with
      which no multiple leaves a remainder that slips. */
  lemma RoundTripLimit(c: Config, unit: nat, j: nat, a: nat)
    requires unit > 0 && unit % 2 == 0 && a > 0 && FineEnough(c, j)
    ensures StaysWithin(c, unit, j, a) <==> a <= (2 * j + 1) * unit && !SomeSlip(c, unit, j, a)
  {
    if a > (2 * j + 1) * unit {
      var x := SomeAmountIsTooFar(c, unit, j, a);
    } else if SomeSlip(c, unit, j, a) {
      var r: nat :| r < unit && r % Gcd(a, unit) == 0 && Slips(c, unit, j, a, r);
      var x := SlipGoesTooFar(c, unit, j, a, r);
    } else {
      forall x: nat ensures Abs(Trip(c, unit, x, a) - x) <= j {
        NeverTooLow(c, unit, j, a, x);
        if Trip(c, unit, x, a) - x > j {
          TooHighIsASlip(c, unit, j, a, x);
        }
      }
    }
  }

  // ---------- the remainders that slip, as an interval ----------

  lemma SlipsIff(c: Config, unit: nat, j: nat, a: nat, r: nat)
    requires unit % 2 == 0
    ensures Slips(c, unit, j, a, r) <==> unit / 2 - Lift(c, unit) <= r <= a / 2 + Lift(c, a) - j * unit
  {
    GoesUpIff(c, r, unit);
    GoesUpIff(c, a - j * unit - r, a);
  }

  /** Between the bounds lies a remainder that multiples of the index leave. */
  ghost predicate SomeMultipleIn(a: nat, unit: nat, low: int, high: int)
    requires unit > 0
  {
    exists r: nat :: r < unit && r % Gcd(a, unit) == 0 && low <= r <= high
  }

  lemma SomeSlipIff(c: Config, unit: nat, j: nat, a: nat)
    requires unit > 0 && unit % 2 == 0
    ensures SomeSlip(c, unit, j, a)
            <==> SomeMultipleIn(a, unit, unit / 2 - Lift(c, unit), a / 2 + Lift(c, a) - j * unit)
  {
    var low, high := unit / 2 - Lift(c, unit), a / 2 + Lift(c, a) - j * unit;
    if SomeSlip(c, unit, j, a) {
      var r: nat :| r < unit && r % Gcd(a, unit) == 0 && Slips(c, unit, j, a, r);
      SlipsIff(c, unit, j, a, r);
      assert low <= r <= high;
    }
    if SomeMultipleIn(a, unit, low, high) {
      var r: nat :| r < unit && r % Gcd(a, unit) == 0 && low <= r <= high;
      SlipsIff(c, unit, j, a, r);
      assert Slips(c, unit, j, a, r);
    }
  }

  /** No remainder slips when `div` rounds down. */
  lemma RoundDownNeverSlips(c: Config, unit: nat, j: nat, a: nat)
    requires c.mode.RoundDown? && unit > 0 && unit % 2 == 0 && a <= (2 * j + 1) * unit
    ensures !SomeSlip(c, unit, j, a)
  {
    forall r: nat | r < unit && r % Gcd(a, unit) == 0 ensures !Slips(c, unit, j, a, r) {
      SlipsIff(c, unit, j, a, r);
      OddTimes(j, unit);
      if Slips(c, unit, j, a, r) {
        assert a == (2 * j + 1) * unit;
        GcdOfMultiple(2 * j + 1, unit);
        QuotientIs(r, unit, 0, r);
      }
    }
  }

  lemma GcdOfMultiple(k: nat, unit: nat)
    requires unit > 0
    ensures Gcd(k * unit, unit) == unit
  {
    MultipleHasNoRemainder(k, unit);
    assert Gcd(unit, 0) == unit;
  }

  // ---------- dividing undoes multiplying ----------

  /** Dividing by an index undoes multiplying by it, whatever the balance. */
  ghost predicate DividingUndoes(c: Config, unit: nat, a: nat)
    requires unit > 0 && a > 0
  {
    forall s: nat :: UnitDiv(c, unit, UnitMul(c, unit, s, a), a) == s
  }

  /** Both roundings go up on a remainder that multiples of the index leave. */
  ghost predicate SomeClash(c: Config, unit: nat, a: nat)
    requires unit > 0
  {
    exists r: nat :: r < unit && r % Gcd(a, unit) == 0 && Clashes(c, unit, a, r)
  }

  predicate Clashes(c: Config, unit: nat, a: nat, r: nat) {
    GoesUp(c, r, unit) && GoesUp(c, unit - r, a)
  }

  lemma ClashesIff(c: Config, unit: nat, a: nat, r: nat)
    requires unit % 2 == 0
    ensures Clashes(c, unit, a, r) <==> unit / 2 - Lift(c, unit) <= r <= unit - (a + 1) / 2 + Lift(c, a)
  {
    GoesUpIff(c, r, unit);
    GoesUpIff(c, unit - r, a);
  }

  lemma SomeClashIff(c: Config, unit: nat, a: nat)
    requires unit > 0 && unit % 2 == 0
    ensures SomeClash(c, unit, a)
            <==> SomeMultipleIn(a, unit, unit / 2 - Lift(c, unit), unit - (a + 1) / 2 + Lift(c, a))
  {
    var low, high := unit / 2 - Lift(c, unit), unit - (a + 1) / 2 + Lift(c, a);
    if SomeClash(c, unit, a) {
      var r: nat :| r < unit && r % Gcd(a, unit) == 0 && Clashes(c, unit, a, r);
      ClashesIff(c, unit, a, r);
      assert low <= r <= high;
    }
    if SomeMultipleIn(a, unit, low, high) {
      var r: nat :| r < unit && r % Gcd(a, unit) == 0 && low <= r <= high;
      ClashesIff(c, unit, a, r);
      assert Clashes(c, unit, a, r);
    }
  }

  /** It does exactly for indices of at least one unit with which no multiple leaves a remainder
      on which both roundings go up. */
  lemma DividingUndoesIff(c: Config, unit: nat, a: nat)
    requires unit > 0 && a > 0 && c.Sound()
    ensures DividingUndoes(c, unit, a) <==> a >= unit && !SomeClash(c, unit, a)
  {
    if a < unit {
      if DividingUndoes(c, unit, a) {
        KeepsDistinct(c, unit, a, unit);
        MulOfUnit(c, unit, a);
        assert false;
      }
    } else if SomeClash(c, unit, a) {
      var r: nat :| r < unit && r % Gcd(a, unit) == 0 && Clashes(c, unit, a, r);
      var s := Reaching(a, unit, r);
      UnitDivUndoesUnitMulIff(c, unit, s, a);
    } else {
      forall s: nat ensures UnitDiv(c, unit, UnitMul(c, unit, s, a), a) == s {
        UnitDivUndoesUnitMulIff(c, unit, s, a);
        RemainderOfMultiple(a, unit, s);
        var q, r := Euclid(s * a, unit);
        assert !Clashes(c, unit, a, r);
      }
    }
  }

  /** No remainder clashes when `div` rounds down. */
  lemma RoundDownNeverClashes(c: Config, unit: nat, a: nat)
    requires c.mode.RoundDown? && 0 < unit <= a && unit % 2 == 0
    ensures !SomeClash(c, unit, a)
  {
    forall r: nat | r < unit && r % Gcd(a, unit) == 0 ensures !Clashes(c, unit, a, r) {
      ClashesIff(c, unit, a, r);
      if Clashes(c, unit, a, r) {
        GcdOfMultiple(1, unit);
        QuotientIs(r, unit, 0, r);
      }
    }
  }

  /** What can be undone tells n + 1 balances apart. */
  lemma {:induction false} KeepsDistinct(c: Config, unit: nat, a: nat, n: nat)
    requires unit > 0 && a > 0 && DividingUndoes(c, unit, a)
    ensures UnitMul(c, unit, n, a) >= n
  {
    if n == 0 {
    } else {
      KeepsDistinct(c, unit, a, n - 1);
      UnitMulMonotone(c, unit, n - 1, n, a);
      assert UnitDiv(c, unit, UnitMul(c, unit, n, a), a) == n;
      assert UnitDiv(c, unit, UnitMul(c, unit, n - 1, a), a) == n - 1;
    }
  }

  lemma MulOfUnit(c: Config, unit: nat, a: nat)
    requires unit > 0 && c.Sound()
    ensures UnitMul(c, unit, unit, a) == a
  {
    OperationsRound(c, unit, unit, a);
    GoesUpAtHalf(c, 0, unit);
    assert unit * a == a * unit;
    RoundIs(c, unit * a, unit, a, 0);
  }
}
