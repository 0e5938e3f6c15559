/** The figures `getReserveData` derives from the balances it reads. */
module Utilisation {
  import opened Decimals
  import opened RayMath
  import opened RoundTrips

  datatype ReserveFigures = ReserveFigures(totalLiquidity: nat, totalDebt: nat, utilizationRate: Number)

  function Figures(c: Config, available: nat, stableDebt: nat, variableDebt: nat): ReserveFigures {
    var totalLiquidity := available + stableDebt + variableDebt;
    var totalDebt := stableDebt + variableDebt;
    ReserveFigures(totalLiquidity, totalDebt,
                   if totalLiquidity == 0 then Finite(0) else RayDiv(c, totalDebt, totalLiquidity))
  }

  /** The totals, and the rate as the rounded share of the debt in the liquidity. */
  lemma FiguresAre(c: Config, available: nat, stable: nat, variable: nat)
    requires c.Sound()
    ensures var figures := Figures(c, available, stable, variable);
      var liquidity, debt := figures.totalLiquidity, figures.totalDebt;
      && liquidity == available + debt && debt == stable + variable
      && (liquidity == 0 ==> figures.utilizationRate == Finite(0))
      && (liquidity > 0 ==>
            && figures.utilizationRate.Finite?
            && (IsNearest(figures.utilizationRate.value, debt * RAY, liquidity)
                <==> !((liquidity + 1) / 2 - Lift(c, liquidity) <= debt * RAY % liquidity < (liquidity + 1) / 2)))
  {
    if available + stable + variable > 0 {
      UnitDivIsNearestIff(c, RAY, stable + variable, available + stable + variable);
    }
  }

  /** Utilisation is a number between zero and one ray for all balances, none included; it is
      one ray once nothing is left to borrow. */
  lemma UtilisationIsBounded(c: Config, available: nat, stable: nat, variable: nat)
    requires c.Sound()
    ensures var u := Figures(c, available, stable, variable).utilizationRate;
      u.Finite? && u.value <= RAY
      && (stable + variable == 0 ==> u.value == 0)
      && (available == 0 && stable + variable > 0 ==> u.value == RAY)
  {
    var liquidity, debt := available + stable + variable, stable + variable;
    if liquidity > 0 {
      FullAndEmpty(c, liquidity);
      UnitDivMonotone(c, RAY, debt, liquidity, liquidity);
    }
  }

  lemma FullAndEmpty(c: Config, liquidity: nat)
    requires c.Sound() && liquidity > 0
    ensures UnitDiv(c, RAY, liquidity, liquidity) == RAY
    ensures UnitDiv(c, RAY, 0, liquidity) == 0
  {
    OperationsRound(c, RAY, liquidity, liquidity);
    OperationsRound(c, RAY, 0, liquidity);
    GoesUpAtHalf(c, 0, liquidity);
    RoundIs(c, liquidity * RAY, liquidity, RAY, 0);
    RoundIs(c, 0, liquidity, 0, 0);
  }

  /** More debt of either kind never lowers utilisation, and less available liquidity never does,
      except exactly where one unit less leaves the debt as it is and the ratio was on the brink. */
  lemma UtilisationIsMonotoneIff(c: Config, available: nat, available': nat,
                                 stable: nat, variable: nat, stable': nat, variable': nat)
    requires c.Sound() && stable + variable <= stable' + variable' && available' <= available
    ensures Figures(c, available, stable, variable).utilizationRate.value
            <= Figures(c, available', stable', variable').utilizationRate.value
            <==> !(stable + variable == stable' + variable' && available' == available - 1
                   && OnBrink(c, (stable + variable) * RAY, available + stable + variable))
  {
    UtilisationIsBounded(c, available, stable, variable);
    UtilisationIsBounded(c, available', stable', variable');
    var debt, debt' := stable + variable, stable' + variable';
    var l, l' := available + debt, available' + debt';
    if l > 0 && l' > 0 {
      MoreOfLessIff(c, RAY, debt, l, debt', l');
    } else if l' == 0 {
      assert debt == 0;
      NotOnBrink(c, 1);
    }
  }

  lemma NotOnBrink(c: Config, l: nat)
    requires c.Sound() && l % 2 == 1
    ensures !OnBrink(c, 0, l)
  {
  }

  /** The used and the unused part sum to one ray, or to one more exactly when both round up. */
  lemma UsedAndUnusedSumToOneRay(c: Config, available: nat, debt: nat)
    requires c.Sound() && available + debt > 0
    ensures var l := available + debt;
      RayDiv(c, debt, l).value + RayDiv(c, available, l).value
      == RAY + if GoesUp(c, debt * RAY % l, l) && GoesUp(c, l - debt * RAY % l, l) then 1 else 0
  {
    var l := available + debt;
    OperationsRound(c, RAY, debt, l);
    OperationsRound(c, RAY, available, l);
    SplitRounds(c, RAY, debt * RAY, available * RAY, l);
  }

  /** In the scenario suites both round up exactly on a tie. */
  lemma ScenarioSumsToOneRay(available: nat, debt: nat)
    requires available + debt > 0
    ensures var l := available + debt;
      RayDiv(SCENARIO, debt, l).value + RayDiv(SCENARIO, available, l).value
      == RAY + if 2 * (debt * RAY % l) == l then 1 else 0
  {
    UsedAndUnusedSumToOneRay(SCENARIO, available, debt);
  }
}
