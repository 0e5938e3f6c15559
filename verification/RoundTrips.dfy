/** When multiplying and dividing by an index undo each other, and how far apart they can drift. */
module RoundTrips {
  import opened Decimals
  import opened Division
  import opened RayMath

  /** The rounding all six operations share: half the divisor is added before the division. */
  function Round(c: Config, n: nat, d: nat): nat
    requires d > 0
  {
    DivTruncate(c, d / 2 + n, d)
  }

  /** A remainder of r over d makes `Round` go up. */
  predicate GoesUp(c: Config, r: int, d: nat) {
    var missing := (d + 1) / 2 - r;
    if c.mode.RoundHalfUp? then 2 * Pow10(c.places) * missing <= d else missing <= 0
  }

  lemma OperationsRound(c: Config, unit: nat, x: nat, a: nat)
    requires unit > 0 && c.Sound()
    ensures UnitMul(c, unit, x, a) == Round(c, x * a, unit)
    ensures a > 0 ==> UnitDiv(c, unit, x, a) == Round(c, x * unit, a)
  {
    HalfIsFloor(c, a);
  }

  lemma RoundIs(c: Config, n: nat, d: nat, q: int, r: int)
    requires d > 0 && 0 <= r < d && n == q * d + r
    ensures Round(c, n, d) == q + if GoesUp(c, r, d) then 1 else 0
  {
    MulSign(q, d);
    if r < (d + 1) / 2 {
      DivTruncateIs(c, d / 2 + n, d, q, d / 2 + r);
      CarriesBelowHalf(c, r, d);
    } else {
      MulPredecessor(q + 1, d);
      DivTruncateIs(c, d / 2 + n, d, q + 1, r - (d + 1) / 2);
      FarFromCarrying(c, r - (d + 1) / 2, d);
      GoesUpAtHalf(c, r, d);
    }
  }

  /** Below half, going up is carrying once half is added. */
  lemma CarriesBelowHalf(c: Config, r: int, d: nat)
    ensures Carries(c, d / 2 + r, d) <==> c.mode.RoundHalfUp? && GoesUp(c, r, d)
    ensures c.mode.RoundDown? && r < (d + 1) / 2 ==> !GoesUp(c, r, d)
  {
    assert d - (d / 2 + r) == (d + 1) / 2 - r;
  }

  /** A remainder of less than half of d never carries. */
  lemma FarFromCarrying(c: Config, r: nat, d: nat)
    requires d > 0 && 2 * r < d
    ensures !Carries(c, r, d)
  {
    var t := 2 * Pow10(c.places);
    MulLe(2, t, d - r);
    assert t * (d - r) == (d - r) * t;
  }

  /** A remainder of at least half goes up, and none at all never does. */
  lemma GoesUpAtHalf(c: Config, r: int, d: nat)
    requires d > 0
    ensures r >= (d + 1) / 2 ==> GoesUp(c, r, d)
    ensures c.Sound() && r <= 0 ==> !GoesUp(c, r, d)
  {
    var missing := (d + 1) / 2 - r;
    MulSign(missing, 2 * Pow10(c.places));
    if c.mode.RoundHalfUp? && c.Sound() && r <= 0 {
      Pow10AtLeastTen(c.places);
      MulLe(20, 2 * Pow10(c.places), missing);
    }
  }

  /** How far below half the rounding inside `div` still reaches. */
  function Lift(c: Config, d: nat): nat {
    if c.mode.RoundHalfUp? then WholePart(d, 2 * Pow10(c.places)) else 0
  }

  lemma GoesUpIff(c: Config, r: int, d: nat)
    ensures GoesUp(c, r, d) <==> r >= (d + 1) / 2 - Lift(c, d)
  {
    if c.mode.RoundHalfUp? {
      AtMostQuotient((d + 1) / 2 - r, 2 * Pow10(c.places), d);
    }
  }

  lemma AtMostQuotient(k: int, t: nat, d: nat)
    requires t > 0
    ensures t * k <= d <==> k <= d / t
  {
    var q, r := Euclid(d, t);
    MulMinus(k, q, t);
    MulSign(k - q, t);
    assert t * k == k * t;
  }

  /** The result is the nearest integer, except exactly where a remainder just below half is lifted. */
  lemma RoundIsNearestIff(c: Config, n: nat, d: nat)
    requires d > 0
    ensures IsNearest(Round(c, n, d), n, d) <==> !((d + 1) / 2 - Lift(c, d) <= n % d < (d + 1) / 2)
  {
    var m, r := RoundOffset(c, n, d);
    GoesUpIff(c, r, d);
    GoesUpAtHalf(c, r, d);
  }

  lemma UnitDivIsNearestIff(c: Config, unit: nat, x: nat, a: nat)
    requires a > 0 && unit > 0 && c.Sound()
    ensures IsNearest(UnitDiv(c, unit, x, a), x * unit, a)
            <==> !((a + 1) / 2 - Lift(c, a) <= x * unit % a < (a + 1) / 2)
  {
    OperationsRound(c, unit, x, a);
    RoundIsNearestIff(c, x * unit, a);
  }

  lemma UnitMulIsNearestIff(c: Config, unit: nat, x: nat, b: nat)
    requires unit > 0 && c.Sound()
    ensures IsNearest(UnitMul(c, unit, x, b), x * b, unit)
            <==> !((unit + 1) / 2 - Lift(c, unit) <= x * b % unit < (unit + 1) / 2)
  {
    OperationsRound(c, unit, x, b);
    RoundIsNearestIff(c, x * b, unit);
  }

  /** Rounding to a multiple of d and then to a multiple of a larger e loses the e-multiple only
      when both roundings go up. Both directions of every round trip are instances of this. */
  lemma CoarserRoundUndoesFiner(c: Config, s: nat, d: nat, e: nat)
    requires 0 < d <= e && c.Sound()
    ensures Round(c, Round(c, s * e, d) * d, e) == s
            <==> !(GoesUp(c, s * e % d, d) && GoesUp(c, d - s * e % d, e))
  {
    var q, r := Euclid(s * e, d);
    RoundIs(c, s * e, d, q, r);
    SecondRound(c, s, d, e, q, r, Round(c, s * e, d));
  }

  lemma SecondRound(c: Config, s: nat, d: nat, e: nat, q: nat, r: nat, m: nat)
    requires 0 < d <= e && c.Sound() && r < d && s * e == q * d + r
    requires m == q + if GoesUp(c, r, d) then 1 else 0
    ensures Round(c, m * d, e) == s <==> !(GoesUp(c, r, d) && GoesUp(c, d - r, e))
  {
    GoesUpAtHalf(c, r, d);
    GoesUpAtHalf(c, e - r, e);
    GoesUpAtHalf(c, 0, e);
    if GoesUp(c, r, d) {
      MulPredecessor(q + 1, d);
      RoundIs(c, m * d, e, s, d - r);
    } else if r == 0 {
      RoundIs(c, m * d, e, s, 0);
    } else {
      MulPredecessor(s, e);
      RoundIs(c, m * d, e, s - 1, e - r);
    }
  }

  lemma MultipleHasNoRemainder(s: nat, d: nat)
    requires d > 0
    ensures s * d % d == 0
  {
    QuotientIs(s * d, d, s, 0);
  }

  /** Dividing undoes multiplying for an index of at least one unit, exactly under this condition on
      the product, which a caller can compute beforehand. */
  lemma UnitDivUndoesUnitMulIff(c: Config, unit: nat, s: nat, a: nat)
    requires 0 < unit <= a && c.Sound()
    ensures UnitDiv(c, unit, UnitMul(c, unit, s, a), a) == s
            <==> !(GoesUp(c, s * a % unit, unit) && GoesUp(c, unit - s * a % unit, a))
  {
    OperationsRound(c, unit, s, a);
    OperationsRound(c, unit, UnitMul(c, unit, s, a), a);
    CoarserRoundUndoesFiner(c, s, unit, a);
  }

  /** Multiplying undoes dividing for an index of at most one unit, exactly under the mirrored condition. */
  lemma UnitMulUndoesUnitDivIff(c: Config, unit: nat, x: nat, a: nat)
    requires 0 < a <= unit && c.Sound()
    ensures UnitMul(c, unit, UnitDiv(c, unit, x, a), a) == x
            <==> !(GoesUp(c, x * unit % a, a) && GoesUp(c, a - x * unit % a, unit))
  {
    OperationsRound(c, unit, x, a);
    OperationsRound(c, unit, UnitDiv(c, unit, x, a), a);
    CoarserRoundUndoesFiner(c, x, a, unit);
  }

  lemma RayDivUndoesRayMulIff(c: Config, s: nat, a: nat)
    requires a >= RAY && c.Sound()
    ensures RayDiv(c, RayMul(c, s, a), a) == Finite(s)
            <==> !(GoesUp(c, s * a % RAY, RAY) && GoesUp(c, RAY - s * a % RAY, a))
  {
    UnitDivUndoesUnitMulIff(c, RAY, s, a);
  }

  lemma RayMulUndoesRayDivIff(c: Config, x: nat, a: nat)
    requires 0 < a <= RAY && c.Sound()
    ensures RayDiv(c, x, a).Finite?
    ensures RayMul(c, RayDiv(c, x, a).value, a) == x
            <==> !(GoesUp(c, x * RAY % a, a) && GoesUp(c, a - x * RAY % a, RAY))
  {
    UnitMulUndoesUnitDivIff(c, RAY, x, a);
  }

  /** Far enough from each other, d and e cannot both go up whatever the remainder. */
  lemma FarApartNeverGoUpTwice(c: Config, r: nat, d: nat, e: nat)
    requires c.mode.RoundHalfUp? && r < d
    requires (2 * Pow10(c.places) - 2) * e > (2 * Pow10(c.places) + 2) * d
    ensures !(GoesUp(c, r, d) && GoesUp(c, d - r, e))
  {
    SumOfMissing(2 * Pow10(c.places), r, d, e, (d + 1) / 2, (e + 1) / 2);
  }

  lemma SumOfMissing(t: nat, r: int, d: nat, e: nat, hd: int, he: int)
    requires 2 * hd >= d && 2 * he >= e && (t - 2) * e > (t + 2) * d
    ensures t * (hd - r) + t * (he - (d - r)) > d + e
  {
    assert t * (hd - r) + t * (he - (d - r)) == (hd + he - d) * t;
    MulLe(e - d, 2 * (hd + he - d), t);
    assert (e - d) * t == t * e - t * d;
  }

  // ---------- error bounds ----------

  function Abs(x: int): nat { if x < 0 then -x else x }

  /** One rounding is off by at most Reach / (2 * Scale) of the divisor: a half for the scenario
      suites, and a half and half a unit of the last place for the stock settings. */
  function Scale(c: Config): nat { if c.mode.RoundHalfUp? then Pow10(c.places) else 1 }

  function Reach(c: Config): nat { if c.mode.RoundHalfUp? then Pow10(c.places) + 1 else 1 }

  lemma RoundError(c: Config, n: nat, d: nat)
    requires d > 0
    ensures 2 * Scale(c) * Abs(Round(c, n, d) * d - n) <= Reach(c) * d
  {
    var m, r := RoundOffset(c, n, d);
    RemainderError(c, r, d, Abs(m * d - n));
  }

  lemma RoundOffset(c: Config, n: nat, d: nat) returns (m: nat, r: nat)
    requires d > 0
    ensures m == Round(c, n, d) && r == n % d && r < d
    ensures m * d - n == if GoesUp(c, r, d) then d - r else 0 - r
  {
    var q;
    q, r := Euclid(n, d);
    RoundIs(c, n, d, q, r);
    m := Round(c, n, d);
    MulPredecessor(q + 1, d);
  }

  lemma RemainderError(c: Config, r: nat, d: nat, error: nat)
    requires r < d && error == if GoesUp(c, r, d) then d - r else r
    ensures 2 * Scale(c) * error <= Reach(c) * d
  {
    if GoesUp(c, r, d) {
      RemainderUp(c, r, d);
    } else {
      GoesUpAtHalf(c, r, d);
      StayError(Scale(c), Reach(c), r, d);
    }
  }

  lemma RemainderUp(c: Config, r: nat, d: nat)
    requires r < d && GoesUp(c, r, d)
    ensures 2 * Scale(c) * (d - r) <= Reach(c) * d
  {
    if c.mode.RoundHalfUp? {
      var t := Pow10(c.places);
      UpError(2 * t, r, d, (d + 1) / 2);
      assert (2 * t + 2) * d == 2 * ((t + 1) * d);
      assert 2 * (2 * t * (d - r)) == 2 * (2 * t * (d - r));
    }
  }

  lemma StayError(t: nat, reach: nat, r: nat, d: nat)
    requires 2 * r <= d && t <= reach
    ensures 2 * t * r <= reach * d
  {
    MulLe(2 * r, d, t);
    MulLe(t, reach, d);
  }

  lemma UpError(t: nat, r: int, d: nat, half: int)
    requires 2 * half <= d + 1 && d <= 2 * half && t * (half - r) <= d
    ensures 2 * (t * (d - r)) <= (t + 2) * d
  {
    assert t * (d - r) == t * (half - r) + t * (d - half);
    MulLe(2 * (d - half), d, t);
  }

  /** |x - z| <= |x - y| + |y - z|, all multiplied by w. */
  lemma WeightedTriangle(w: nat, x: int, y: int, z: int)
    ensures w * Abs(x - z) <= w * Abs(x - y) + w * Abs(y - z)
  {
    MulLe(Abs(x - z), Abs(x - y) + Abs(y - z), w);
    assert (Abs(x - y) + Abs(y - z)) * w == w * Abs(x - y) + w * Abs(y - z);
  }

  lemma AbsScales(w: nat, x: int)
    ensures Abs(x * w) == w * Abs(x)
  {
    if x < 0 {
      MulLe(x, 0, w);
      assert Abs(x * w) == -(x * w);
    } else {
      MulLe(0, x, w);
    }
  }

  /** Dividing and multiplying by any non-zero index returns within half of (index + unit) / unit. */
  lemma RoundTripError(c: Config, unit: nat, x: nat, a: nat)
    requires unit > 0 && a > 0 && c.Sound()
    ensures 2 * Scale(c) * (unit * Abs(UnitMul(c, unit, UnitDiv(c, unit, x, a), a) - x))
              <= Reach(c) * (a + unit)
  {
    var w := 2 * Scale(c);
    var m := UnitDiv(c, unit, x, a);
    var y := UnitMul(c, unit, m, a);
    OperationsRound(c, unit, x, a);
    OperationsRound(c, unit, m, a);
    RoundError(c, x * unit, a);
    RoundError(c, m * a, unit);
    WeightedTriangle(w, y * unit, m * a, x * unit);
    assert y * unit - x * unit == (y - x) * unit;
    AbsScales(unit, y - x);
    assert Reach(c) * (a + unit) == Reach(c) * a + Reach(c) * unit;
  }

  /** In the scenario suites: 2 * RAY * |rayMul(rayDiv(x, a), a) - x| <= a + RAY. */
  lemma ScenarioRayRoundTripError(x: nat, a: nat)
    requires a > 0
    ensures RayDiv(SCENARIO, x, a).Finite?
    ensures 2 * RAY * Abs(RayMul(SCENARIO, RayDiv(SCENARIO, x, a).value, a) - x) <= a + RAY
  {
    RoundTripError(SCENARIO, RAY, x, a);
  }

  // ---------- drift over a list of balances ----------

  function Sum(s: seq<nat>): nat {
    if s == [] then 0 else s[0] + Sum(s[1..])
  }

  function SumOfUnitMuls(c: Config, unit: nat, s: seq<nat>, a: nat): nat
    requires unit > 0
  {
    if s == [] then 0 else UnitMul(c, unit, s[0], a) + SumOfUnitMuls(c, unit, s[1..], a)
  }

  lemma {:induction false} SumOfUnitMulsError(c: Config, unit: nat, s: seq<nat>, a: nat)
    requires unit > 0 && c.Sound()
    ensures 2 * Scale(c) * Abs(SumOfUnitMuls(c, unit, s, a) * unit - Sum(s) * a) <= |s| * (Reach(c) * unit)
  {
    if s == [] {
    } else {
      var bound := Reach(c) * unit;
      var first, rest, restSum := UnitMul(c, unit, s[0], a), SumOfUnitMuls(c, unit, s[1..], a), Sum(s[1..]);
      SumOfUnitMulsError(c, unit, s[1..], a);
      UnitMulError(c, unit, s[0], a);
      AddErrors(2 * Scale(c), unit, a, first, s[0], rest, restSum, bound, (|s| - 1) * bound);
      MulPredecessor(|s|, bound);
    }
  }

  lemma UnitMulError(c: Config, unit: nat, x: nat, a: nat)
    requires unit > 0 && c.Sound()
    ensures 2 * Scale(c) * Abs(UnitMul(c, unit, x, a) * unit - x * a) <= Reach(c) * unit
  {
    OperationsRound(c, unit, x, a);
    RoundError(c, x * a, unit);
  }

  lemma AddErrors(w: nat, unit: nat, a: nat, m: int, x: int, n: int, y: int, e1: int, e2: int)
    requires w * Abs(m * unit - x * a) <= e1 && w * Abs(n * unit - y * a) <= e2
    ensures w * Abs((m + n) * unit - (x + y) * a) <= e1 + e2
  {
    var head, tail := m * unit - x * a, n * unit - y * a;
    WeightedTriangle(w, head + tail, tail, 0);
    assert (m + n) * unit - (x + y) * a == head + tail;
  }

  /** Rounding n balances one by one or their sum once differs by at most (n + 1) / 2, stretched
      by the last decimal place when `div` itself rounds. */
  lemma DriftOverBalances(c: Config, unit: nat, s: seq<nat>, a: nat)
    requires unit > 0 && c.Sound()
    ensures 2 * Scale(c) * Abs(SumOfUnitMuls(c, unit, s, a) - UnitMul(c, unit, Sum(s), a))
              <= (|s| + 1) * Reach(c)
  {
    var w := 2 * Scale(c);
    var each, once, exact := SumOfUnitMuls(c, unit, s, a), UnitMul(c, unit, Sum(s), a), Sum(s) * a;
    SumOfUnitMulsError(c, unit, s, a);
    OperationsRound(c, unit, Sum(s), a);
    RoundError(c, exact, unit);
    DriftFromErrors(w, unit, each, once, exact, |s|, Reach(c));
  }

  lemma CancelUnit(unit: nat, drift: int, n: nat, reach: nat)
    requires unit > 0 && drift * unit <= n * (reach * unit) + reach * unit
    ensures drift <= (n + 1) * reach
  {
    var bound := (n + 1) * reach;
    assert n * (reach * unit) + reach * unit == bound * unit;
    assert (drift - bound) * unit == drift * unit - bound * unit;
    MulSign(drift - bound, unit);
  }

  lemma DriftFromErrors(w: nat, unit: nat, each: int, once: int, exact: int, n: nat, reach: nat)
    requires unit > 0
    requires w * Abs(each * unit - exact) <= n * (reach * unit)
    requires w * Abs(once * unit - exact) <= reach * unit
    ensures w * Abs(each - once) <= (n + 1) * reach
  {
    WeightedTriangle(w, each * unit, exact, once * unit);
    assert each * unit - once * unit == (each - once) * unit;
    AbsScales(unit, each - once);
    assert w * (unit * Abs(each - once)) == w * Abs(each - once) * unit;
    CancelUnit(unit, w * Abs(each - once), n, reach);
  }

  lemma ScenarioDrift(s: seq<nat>, a: nat)
    ensures 2 * Abs(SumOfUnitMuls(SCENARIO, RAY, s, a) - RayMul(SCENARIO, Sum(s), a)) <= |s| + 1
  {
    DriftOverBalances(SCENARIO, RAY, s, a);
  }

  // ---------- wad, ray and percentage conversions ----------

  /** The settings the repository runs with. */
  predicate InUse(c: Config) { c == STOCK || c == SCENARIO }

  /** The operations in figures: a ray is 10^27, a wad 10^18, and 10^4 is all of a percentage. */
  lemma OperationsInFigures(c: Config, x: nat, b: nat)
    requires InUse(c)
    ensures IsNearest(WadMul(c, x, b), x * b, 1_000_000_000_000_000_000)
    ensures IsNearest(PercentMul(c, x, b), x * b, 10_000)
    ensures IsNearest(RayMul(SCENARIO, x, b), x * b, 1_000_000_000_000_000_000_000_000_000)
    ensures IsNearest(RayToWad(c, x), x, 1_000_000_000) && WadToRay(x) == x * 1_000_000_000
    ensures b > 0 ==> IsNearest(RayDiv(SCENARIO, x, b).value, x * 1_000_000_000_000_000_000_000_000_000, b)
    ensures b > 0 ==> IsNearest(WadDiv(SCENARIO, x, b).value, x * 1_000_000_000_000_000_000, b)
    ensures b > 0 ==> IsNearest(PercentDiv(SCENARIO, x, b).value, x * 10_000, b)
  {
    Pow10OfTwenty();
    NearestOnExact(c, WAD, x, b);
    NearestOnExact(c, PERCENTAGE_FACTOR, x, b);
    NearestOnExact(SCENARIO, RAY, x, b);
    SmallDivisorIsFloor(c, WAD_RAY_RATIO / 2 + x, WAD_RAY_RATIO);
    if b > 0 {
      UnitDivIsNearestIff(SCENARIO, RAY, x, b);
      UnitDivIsNearestIff(SCENARIO, WAD, x, b);
      UnitDivIsNearestIff(SCENARIO, PERCENTAGE_FACTOR, x, b);
    }
  }

  lemma DivisionByZero(c: Config, x: nat)
    ensures RayDiv(c, x, 0) == WadDiv(c, x, 0) == PercentDiv(c, x, 0) == if x == 0 then NaN else Infinity
  {
  }

  lemma NearestOnExact(c: Config, unit: nat, x: nat, b: nat)
    requires c.Sound() && unit > 0 && c.Exact(unit)
    ensures IsNearest(UnitMul(c, unit, x, b), x * b, unit)
  {
    UnitMulIsNearestIff(c, unit, x, b);
    if c.mode.RoundHalfUp? { QuotientIs(unit, 2 * Pow10(c.places), 0, unit); }
  }

  lemma WadToRayIsInjective(c: Config, w: nat)
    requires InUse(c)
    ensures RayToWad(c, WadToRay(w)) == w
  {
    Pow10OfTwenty();
    RoundIs(c, WadToRay(w), WAD_RAY_RATIO, w, 0);
  }

  lemma RayToWadError(c: Config, r: nat)
    requires InUse(c)
    ensures Abs(WadToRay(RayToWad(c, r)) - r) <= 500_000_000
  {
    Pow10OfTwenty();
    SmallDivisorIsFloor(c, WAD_RAY_RATIO / 2 + r, WAD_RAY_RATIO);
  }

  lemma PercentMulUndoesPercentDiv(c: Config, x: nat, p: nat)
    requires InUse(c) && 0 < p <= PERCENTAGE_FACTOR
    ensures PercentDiv(c, x, p).Finite? && PercentMul(c, PercentDiv(c, x, p).value, p) == x
  {
    Pow10OfTwenty();
    UnitMulUndoesUnitDiv(c, PERCENTAGE_FACTOR, x, p);
  }

  lemma PercentDivUndoesPercentMul(c: Config, x: nat, p: nat)
    requires InUse(c) && PERCENTAGE_FACTOR <= p
    ensures PercentDiv(c, PercentMul(c, x, p), p) == Finite(x)
  {
    UnitDivUndoesUnitMul(c, PERCENTAGE_FACTOR, x, p);
  }

  lemma WadMulUndoesWadDiv(c: Config, x: nat, a: nat)
    requires InUse(c) && 0 < a <= WAD
    ensures WadDiv(c, x, a).Finite? && WadMul(c, WadDiv(c, x, a).value, a) == x
  {
    Pow10OfTwenty();
    UnitMulUndoesUnitDiv(c, WAD, x, a);
  }

  lemma WadDivUndoesWadMul(c: Config, x: nat, a: nat)
    requires InUse(c) && WAD <= a
    ensures WadDiv(c, WadMul(c, x, a), a) == Finite(x)
  {
    UnitDivUndoesUnitMul(c, WAD, x, a);
  }

  lemma UnitMulUndoesUnitDiv(c: Config, unit: nat, x: nat, a: nat)
    requires c.Sound() && 0 < a <= unit && c.Exact(unit)
    ensures UnitMul(c, unit, UnitDiv(c, unit, x, a), a) == x
  {
    UnitMulUndoesUnitDivIff(c, unit, x, a);
    MultipleHasNoRemainder(x, unit);
    ExactGoesUp(c, x * unit % a, a);
    ExactGoesUp(c, a - x * unit % a, unit);
  }

  /** For units up to one wad there is no exception: an index that is not exact is far away. */
  lemma UnitDivUndoesUnitMul(c: Config, unit: nat, x: nat, a: nat)
    requires InUse(c) && 0 < unit <= a && unit <= WAD
    ensures UnitDiv(c, unit, UnitMul(c, unit, x, a), a) == x
  {
    Pow10OfTwenty();
    UnitDivUndoesUnitMulIff(c, unit, x, a);
    if c.Exact(a) {
      MultipleHasNoRemainder(x, unit);
      ExactGoesUp(c, x * a % unit, unit);
      ExactGoesUp(c, unit - x * a % unit, a);
    } else {
      FarApartNeverGoUpTwice(c, x * a % unit, unit, a);
    }
  }

  lemma ExactGoesUp(c: Config, r: int, d: nat)
    requires c.Exact(d) && d > 0
    ensures GoesUp(c, r, d) <==> r >= (d + 1) / 2
  {
    GoesUpAtHalf(c, r, d);
    if r < (d + 1) / 2 {
      ExactNeverCarries(c, d / 2 + r, d);
      CarriesBelowHalf(c, r, d);
    }
  }

  /** The two parts of a split amount sum to it, or to one more exactly when the cut is a tie. */
  lemma PercentSplit(c: Config, x: nat, p: nat)
    requires InUse(c) && p <= PERCENTAGE_FACTOR
    ensures PercentMul(c, x, p) + PercentMul(c, x, PERCENTAGE_FACTOR - p)
              == x + if x * p % PERCENTAGE_FACTOR == PERCENTAGE_FACTOR / 2 then 1 else 0
  {
    Pow10OfTwenty();
    UnitSplit(c, PERCENTAGE_FACTOR, x, p);
  }

  lemma UnitSplit(c: Config, unit: nat, x: nat, p: nat)
    requires c.Sound() && unit > 0 && c.Exact(unit) && p <= unit
    ensures UnitMul(c, unit, x, p) + UnitMul(c, unit, x, unit - p) == x + if 2 * (x * p % unit) == unit then 1 else 0
  {
    OperationsRound(c, unit, x, p);
    OperationsRound(c, unit, x, unit - p);
    PartsOfProduct(x, p, unit);
    SplitRounds(c, x, x * p, x * (unit - p), unit);
    ExactGoesUp(c, x * p % unit, unit);
    ExactGoesUp(c, unit - x * p % unit, unit);
  }

  lemma PartsOfProduct(x: nat, p: nat, unit: nat)
    requires p <= unit
    ensures x * (unit - p) >= 0 && x * p + x * (unit - p) == x * unit
  {
    MulMinus(unit, p, x);
  }

  /** Two parts of a multiple of d, rounded separately, sum to the multiple, or to one more exactly
      when both round up. */
  lemma SplitRounds(c: Config, x: nat, left: nat, right: nat, d: nat)
    requires d > 0 && c.Sound() && left + right == x * d
    ensures Round(c, left, d) + Round(c, right, d)
              == x + if GoesUp(c, left % d, d) && GoesUp(c, d - left % d, d) then 1 else 0
  {
    var q, r := Euclid(left, d);
    RoundIs(c, left, d, q, r);
    MulMinus(x, q, d);
    GoesUpAtHalf(c, r, d);
    GoesUpAtHalf(c, d - r, d);
    SplitRight(c, x - q, right, r, d);
  }

  lemma SplitRight(c: Config, y: int, right: nat, r: nat, d: nat)
    requires r < d && c.Sound() && right == y * d - r
    ensures Round(c, right, d) == if r == 0 || GoesUp(c, d - r, d) then y else y - 1
  {
    if r == 0 {
      RoundIs(c, right, d, y, 0);
      GoesUpAtHalf(c, 0, d);
    } else {
      MulPredecessor(y, d);
      RoundIs(c, right, d, y - 1, d - r);
    }
  }
}
