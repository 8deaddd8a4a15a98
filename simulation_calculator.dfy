/**
 * The year-step model of the climate simulation: emissions growth, CO2
 * absorption by the reforested area, the CO2-to-temperature formula and the
 * step from one year's state to the next, with the area ceiling.
 *
 * All quantities are exact reals. The natural logarithm is not modelled: it
 * is a parameter `ln`, and lemmas that need its properties say which.
 */
module SimulationCalculator {
  import opened ForestationPotentials

  /** The state of one simulated year. */
  datatype YearlyData = YearlyData(co2: real, treesPlantedInHa: real, globalEmissions: real, temperatureIncrease: real)

  /** The CO2 pool and the emissions of the following year, before reforestation. */
  datatype NextYear = NextYear(nextCO2: real, nextGlobalEmissions: real)

  /** Once the cumulative reforested area has reached this many hectares, no more is added. */
  const AREA_CEILING: real := 566000000.0
  /** Tonnes per gigatonne. */
  const TONNES_PER_GT: real := 1000000000.0
  /** Gigatonnes of CO2 per ppm of atmospheric concentration. */
  const GT_PER_PPM: real := 7.81
  const PRE_INDUSTRIAL_PPM: real := 280.0
  /** Radiative forcing coefficient (W/m^2 per unit of ln concentration ratio). */
  const FORCING_SCALAR: real := 5.35
  /** Warming per unit of forcing (degrees C per W/m^2). */
  const CLIMATE_SENSITIVITY: real := 0.5
  /** The CO2 pool, in tonnes, at the pre-industrial concentration. */
  const PRE_INDUSTRIAL_CO2: real := 2186800000000.0

  // ---------------------------------------------------------------------------
  // Emissions
  // ---------------------------------------------------------------------------

  /** Emissions grow by `co2GrowthRate` percent and are added in full to the CO2 pool. */
  function CalculateNextYearCO2AndEmissions(currentCO2: real, co2GrowthRate: real, globalEmissions: real): (r: NextYear)
    ensures r.nextGlobalEmissions - globalEmissions == globalEmissions * co2GrowthRate / 100.0
    ensures r.nextCO2 - currentCO2 == r.nextGlobalEmissions
  {
    var growthFactor := 1.0 + co2GrowthRate / 100.0;
    var nextGlobalEmissions := globalEmissions * growthFactor;
    var nextCO2 := currentCO2 + nextGlobalEmissions;
    NextYear(nextCO2, nextGlobalEmissions)
  }

  /** With a zero growth rate the emissions stay as they are; with a positive one they grow. */
  lemma EmissionsGrowth(currentCO2: real, co2GrowthRate: real, globalEmissions: real)
    ensures var r := CalculateNextYearCO2AndEmissions(currentCO2, co2GrowthRate, globalEmissions);
            && (co2GrowthRate == 0.0 ==> r.nextGlobalEmissions == globalEmissions)
            && (co2GrowthRate > 0.0 && globalEmissions > 0.0 ==> r.nextGlobalEmissions > globalEmissions)
            && (co2GrowthRate >= -100.0 && globalEmissions >= 0.0 ==> r.nextCO2 >= currentCO2)
  {
    var r := CalculateNextYearCO2AndEmissions(currentCO2, co2GrowthRate, globalEmissions);
    if co2GrowthRate > 0.0 && globalEmissions > 0.0 {
      assert globalEmissions * co2GrowthRate > 0.0;
    }
    if co2GrowthRate >= -100.0 && globalEmissions >= 0.0 {
      assert globalEmissions * (co2GrowthRate + 100.0) >= 0.0;
      assert r.nextGlobalEmissions == globalEmissions * (co2GrowthRate + 100.0) / 100.0;
    }
  }

  // ---------------------------------------------------------------------------
  // Reforestation
  // ---------------------------------------------------------------------------

  /** Total plantable area of the table. */
  function TotalPotentialHa(p: Potentials): real
    requires Known(p.keys, p.at)
  {
    SumHa(p.keys, |p.keys|, p.at)
  }

  /** Total absorption capacity of the table. */
  function TotalPotentialTco2e(p: Potentials): real
    requires Known(p.keys, p.at)
  {
    SumTco2e(p.keys, |p.keys|, p.at)
  }

  /** The reforested area that is credited: the planted area, but no more than the table can take. */
  function EffectiveHa(totalHa: real, p: Potentials): real
    requires Known(p.keys, p.at)
  {
    Min(totalHa, TotalPotentialHa(p))
  }

  /** Every country of the enumeration has a positive area, so the total area is positive. */
  lemma PositiveTotal(p: Potentials)
    requires Known(p.keys, p.at) && p.PositiveAreas() && 0 < |p.keys|
    ensures 0.0 < TotalPotentialHa(p)
  {
    assert forall i :: 0 <= i < |p.keys| ==> p.at[p.keys[i]].ha > 0.0;
  }

  /** The part `e * t / h` of a whole `t` that earns an area `e` out of a total area `h`. */
  function Proportion(e: real, t: real, h: real): real
    requires 0.0 < h
  {
    e * t / h
  }

  /**
   * CO2 absorbed by the first `n` countries of the enumeration: the
   * credited area is spread over the whole table in proportion to each
   * country's area, so these countries absorb the credited area times their
   * capacity over the total area. An empty table absorbs nothing.
   */
  function AbsorbedBy(totalHa: real, p: Potentials, n: nat): real
    requires n <= |p.keys| && Known(p.keys, p.at) && p.PositiveAreas()
  {
    if |p.keys| == 0 then 0.0
    else
      PositiveTotal(p);
      Proportion(EffectiveHa(totalHa, p), SumTco2e(p.keys, n, p.at), TotalPotentialHa(p))
  }

  /** CO2 absorbed by the whole reforested area `totalHa`. */
  function ReforestationAbsorption(totalHa: real, p: Potentials): real
    requires Known(p.keys, p.at) && p.PositiveAreas()
  {
    AbsorbedBy(totalHa, p, |p.keys|)
  }

  /**
   * Subtracts from `currentCO2` what the reforested area `totalHa` absorbs,
   * country by country: each gets the share of the credited area
   * proportional to its plantable area, and absorbs its capacity per hectare
   * on it.
   */
  method ApplyReforestationEffect(currentCO2: real, totalHa: real, forestationPotentials: Potentials)
    returns (co2After: real)
    requires Known(forestationPotentials.keys, forestationPotentials.at) && forestationPotentials.PositiveAreas()
    ensures co2After == currentCO2 - ReforestationAbsorption(totalHa, forestationPotentials)
  {
    var p := forestationPotentials;
    co2After := currentCO2;
    var totalPotentialHa := SumHa(p.keys, |p.keys|, p.at);
    var effectiveHa := Min(totalHa, totalPotentialHa);

    for i := 0 to |p.keys|
      invariant co2After == currentCO2 - AbsorbedBy(totalHa, p, i)
    {
      var pot := p.at[p.keys[i]];
      PositiveTotal(p);
      var absorptionPerHa := pot.tco2e / pot.ha;
      var share := pot.ha / totalPotentialHa;
      var allocatedHa := effectiveHa * share;
      AbsorptionStep(AbsorbedBy(totalHa, p, i), SumTco2e(p.keys, i, p.at), SumTco2e(p.keys, i + 1, p.at),
                     pot.tco2e, pot.ha, effectiveHa, totalPotentialHa);
      co2After := co2After - absorptionPerHa * allocatedHa;
    }
  }

  /**
   * One country absorbs the credited area times its own capacity over the
   * total area, so adding it to the countries before it keeps the closed form.
   */
  lemma AbsorptionStep(before: real, sumBefore: real, sumAfter: real, tco2e: real, ha: real, effective: real, total: real)
    requires 0.0 < ha && 0.0 < total
    requires before == Proportion(effective, sumBefore, total) && sumAfter == sumBefore + tco2e
    ensures before + (tco2e / ha) * (effective * (ha / total)) == Proportion(effective, sumAfter, total)
  {
    calc {
      (tco2e / ha) * (effective * (ha / total));
      == (tco2e / ha) * ha * (effective / total);
      == { assert (tco2e / ha) * ha == tco2e; }
      tco2e * (effective / total);
    }
  }

  /** A whole over itself. */
  lemma Cancel(t: real, h: real)
    requires 0.0 < h
    ensures Proportion(h, t, h) == t
  {
  }

  /** No reforested area absorbs nothing; an area at least the table's total absorbs its whole capacity. */
  lemma AbsorptionLimits(totalHa: real, p: Potentials)
    requires Known(p.keys, p.at) && p.PositiveAreas()
    ensures totalHa == 0.0 ==> ReforestationAbsorption(totalHa, p) == 0.0
    ensures totalHa >= TotalPotentialHa(p) ==> ReforestationAbsorption(totalHa, p) == TotalPotentialTco2e(p)
  {
    if 0 < |p.keys| {
      PositiveTotal(p);
      var t, h := SumTco2e(p.keys, |p.keys|, p.at), TotalPotentialHa(p);
      assert ReforestationAbsorption(totalHa, p) == Proportion(EffectiveHa(totalHa, p), t, h);
      assert TotalPotentialTco2e(p) == t;
      if totalHa == 0.0 {
        assert EffectiveHa(totalHa, p) == 0.0;
      }
      if totalHa >= h {
        assert EffectiveHa(totalHa, p) == h;
        Cancel(t, h);
      }
    }
  }

  /** A non-negative part of a non-negative whole over a positive total. */
  lemma NonNegativeShare(e: real, t: real, h: real)
    requires 0.0 <= e && 0.0 <= t && 0.0 < h
    ensures 0.0 <= Proportion(e, t, h)
  {
    assert 0.0 <= e * t;
  }

  /**
   * A non-negative reforested area never raises the CO2 pool, when no
   * country has a negative capacity.
   */
  lemma ReforestationNeverRaisesCO2(totalHa: real, p: Potentials)
    requires Known(p.keys, p.at) && p.PositiveAreas()
    requires forall iso :: iso in p.at ==> p.at[iso].tco2e >= 0.0
    requires 0.0 <= totalHa
    ensures 0.0 <= ReforestationAbsorption(totalHa, p)
  {
    if 0 < |p.keys| {
      PositiveTotal(p);
      var e, t, h := EffectiveHa(totalHa, p), SumTco2e(p.keys, |p.keys|, p.at), TotalPotentialHa(p);
      assert 0.0 <= e;
      assert 0.0 <= t by {
        assert forall i :: 0 <= i < |p.keys| ==> p.at[p.keys[i]].tco2e >= 0.0;
      }
      NonNegativeShare(e, t, h);
      assert ReforestationAbsorption(totalHa, p) == Proportion(e, t, h);
    }
  }

  // ---------------------------------------------------------------------------
  // Temperature
  // ---------------------------------------------------------------------------

  /**
   * Warming above pre-industrial for a CO2 pool of `currentCO2` tonnes: the
   * climate sensitivity times the forcing of the pool's ratio to the
   * pre-industrial pool.
   */
  function CalculateTemperatureIncrease(currentCO2: real, ln: real -> real): (t: real)
    ensures t == CLIMATE_SENSITIVITY * FORCING_SCALAR * ln(currentCO2 / PRE_INDUSTRIAL_CO2)
  {
    ConcentrationRatio(currentCO2);
    var co2Gt := currentCO2 / TONNES_PER_GT;
    var co2Ppm := co2Gt / GT_PER_PPM;
    var radiativeForcing := FORCING_SCALAR * ln(co2Ppm / PRE_INDUSTRIAL_PPM);
    CLIMATE_SENSITIVITY * radiativeForcing
  }

  /** The concentration ratio to pre-industrial is the pool over the pre-industrial pool. */
  lemma ConcentrationRatio(currentCO2: real)
    ensures currentCO2 / TONNES_PER_GT / GT_PER_PPM / PRE_INDUSTRIAL_PPM == currentCO2 / PRE_INDUSTRIAL_CO2
  {
  }

  /** At the pre-industrial pool the warming is zero, when `ln(1) = 0`. */
  lemma PreIndustrialBaseline(ln: real -> real)
    requires ln(1.0) == 0.0
    ensures CalculateTemperatureIncrease(PRE_INDUSTRIAL_CO2, ln) == 0.0
  {
    ConcentrationRatio(PRE_INDUSTRIAL_CO2);
  }

  /** More CO2 means no less warming, when `ln` is increasing. */
  lemma TemperatureMonotone(c1: real, c2: real, ln: real -> real)
    requires forall x, y :: 0.0 < x <= y ==> ln(x) <= ln(y)
    requires 0.0 < c1 <= c2
    ensures CalculateTemperatureIncrease(c1, ln) <= CalculateTemperatureIncrease(c2, ln)
  {
    ConcentrationRatio(c1);
    ConcentrationRatio(c2);
    assert c1 / PRE_INDUSTRIAL_CO2 <= c2 / PRE_INDUSTRIAL_CO2;
  }

  /** Every doubling of the pool adds the same warming, `0.5 * 5.35 * ln 2`, when `ln` turns products into sums. */
  lemma DoublingAddsFixedWarming(c: real, ln: real -> real)
    requires forall x, y :: 0.0 < x && 0.0 < y ==> ln(x * y) == ln(x) + ln(y)
    requires 0.0 < c
    ensures CalculateTemperatureIncrease(2.0 * c, ln) ==
              CalculateTemperatureIncrease(c, ln) + CLIMATE_SENSITIVITY * FORCING_SCALAR * ln(2.0)
  {
    ConcentrationRatio(c);
    ConcentrationRatio(2.0 * c);
    var r := c / PRE_INDUSTRIAL_CO2;
    assert 2.0 * c / PRE_INDUSTRIAL_CO2 == r * 2.0;
    assert ln(r * 2.0) == ln(r) + ln(2.0);
  }

  // ---------------------------------------------------------------------------
  // One year
  // ---------------------------------------------------------------------------

  /** The cumulative reforested area after a year: it grows only while it is below the ceiling. */
  function NextArea(treesPlantedInHa: real, reforestationInHa: real): real
  {
    if treesPlantedInHa < AREA_CEILING then treesPlantedInHa + reforestationInHa else treesPlantedInHa
  }

  /**
   * The state of the next year: emissions grow, the CO2 pool gains them and
   * loses what the whole reforested area absorbs, and the temperature is
   * recomputed from the new pool.
   */
  function SimulateYear(previousYearData: YearlyData, co2GrowthRate: real, reforestationInHa: real,
                        forestationPotentials: Potentials, ln: real -> real): (next: YearlyData)
    requires Known(forestationPotentials.keys, forestationPotentials.at) && forestationPotentials.PositiveAreas()
    ensures previousYearData.treesPlantedInHa < AREA_CEILING ==>
              next.treesPlantedInHa == previousYearData.treesPlantedInHa + reforestationInHa
    ensures previousYearData.treesPlantedInHa >= AREA_CEILING ==>
              next.treesPlantedInHa == previousYearData.treesPlantedInHa
    ensures next.co2 == previousYearData.co2 + next.globalEmissions
                        - ReforestationAbsorption(next.treesPlantedInHa, forestationPotentials)
    ensures next.temperatureIncrease == CalculateTemperatureIncrease(next.co2, ln)
  {
    var step := CalculateNextYearCO2AndEmissions(previousYearData.co2, co2GrowthRate, previousYearData.globalEmissions);
    var totalTreesInHa := NextArea(previousYearData.treesPlantedInHa, reforestationInHa);
    var co2AfterReforestation := step.nextCO2 - ReforestationAbsorption(totalTreesInHa, forestationPotentials);
    YearlyData(co2AfterReforestation, totalTreesInHa, step.nextGlobalEmissions,
               CalculateTemperatureIncrease(co2AfterReforestation, ln))
  }

  /**
   * The emissions of the next year are this year's grown by the rate, and
   * the reforested area never shrinks under a non-negative yearly input and
   * passes the ceiling by less than one year's input.
   */
  lemma YearStep(previousYearData: YearlyData, co2GrowthRate: real, reforestationInHa: real,
                 p: Potentials, ln: real -> real)
    requires Known(p.keys, p.at) && p.PositiveAreas()
    ensures var next := SimulateYear(previousYearData, co2GrowthRate, reforestationInHa, p, ln);
            && next.globalEmissions == previousYearData.globalEmissions * (1.0 + co2GrowthRate / 100.0)
            && (reforestationInHa >= 0.0 ==> next.treesPlantedInHa >= previousYearData.treesPlantedInHa)
            && (previousYearData.treesPlantedInHa < AREA_CEILING ==>
                  next.treesPlantedInHa < AREA_CEILING + reforestationInHa)
  {
  }

  /** Without any reforested area the CO2 pool only accumulates the year's emissions. */
  lemma NoReforestationYear(previousYearData: YearlyData, co2GrowthRate: real, p: Potentials, ln: real -> real)
    requires Known(p.keys, p.at) && p.PositiveAreas()
    requires previousYearData.treesPlantedInHa == 0.0
    ensures var next := SimulateYear(previousYearData, co2GrowthRate, 0.0, p, ln);
            && next.treesPlantedInHa == 0.0
            && next.co2 == previousYearData.co2 + next.globalEmissions
  {
    AbsorptionLimits(0.0, p);
  }

  /** Once the area covers the table's whole potential, each year absorbs exactly the total capacity. */
  lemma SaturatedYear(previousYearData: YearlyData, co2GrowthRate: real, reforestationInHa: real,
                      p: Potentials, ln: real -> real)
    requires Known(p.keys, p.at) && p.PositiveAreas()
    requires SimulateYear(previousYearData, co2GrowthRate, reforestationInHa, p, ln).treesPlantedInHa >= TotalPotentialHa(p)
    ensures var next := SimulateYear(previousYearData, co2GrowthRate, reforestationInHa, p, ln);
            next.co2 == previousYearData.co2 + next.globalEmissions - TotalPotentialTco2e(p)
  {
    var next := SimulateYear(previousYearData, co2GrowthRate, reforestationInHa, p, ln);
    AbsorptionLimits(next.treesPlantedInHa, p);
  }

  // ---------------------------------------------------------------------------
  // Consequences of the area ceiling over several years
  // ---------------------------------------------------------------------------

  /** The state after `years` steps with fixed parameters. */
  function Run(start: YearlyData, years: nat, co2GrowthRate: real, reforestationInHa: real,
               p: Potentials, ln: real -> real): YearlyData
    requires Known(p.keys, p.at) && p.PositiveAreas()
  {
    if years == 0 then start
    else SimulateYear(Run(start, years - 1, co2GrowthRate, reforestationInHa, p, ln), co2GrowthRate, reforestationInHa, p, ln)
  }

  /** Under a non-negative yearly input the area never passes the ceiling by a whole year's input. */
  lemma {:induction false} RunAreaBounded(start: YearlyData, years: nat, co2GrowthRate: real, reforestationInHa: real,
                                          p: Potentials, ln: real -> real)
    requires Known(p.keys, p.at) && p.PositiveAreas()
    requires 0.0 <= reforestationInHa && start.treesPlantedInHa < AREA_CEILING + reforestationInHa
    ensures Run(start, years, co2GrowthRate, reforestationInHa, p, ln).treesPlantedInHa < AREA_CEILING + reforestationInHa
  {
    if years > 0 {
      RunAreaBounded(start, years - 1, co2GrowthRate, reforestationInHa, p, ln);
    }
  }

  /** Once the area has reached the ceiling it stays where it is. */
  lemma {:induction false} RunAreaFrozen(start: YearlyData, years: nat, co2GrowthRate: real, reforestationInHa: real,
                                         p: Potentials, ln: real -> real)
    requires Known(p.keys, p.at) && p.PositiveAreas()
    requires start.treesPlantedInHa >= AREA_CEILING
    ensures Run(start, years, co2GrowthRate, reforestationInHa, p, ln).treesPlantedInHa == start.treesPlantedInHa
  {
    if years > 0 {
      RunAreaFrozen(start, years - 1, co2GrowthRate, reforestationInHa, p, ln);
    }
  }

  /** Under a non-negative yearly input the area never shrinks from one year to any later one. */
  lemma {:induction false} RunAreaMonotone(start: YearlyData, m: nat, n: nat, co2GrowthRate: real, reforestationInHa: real,
                                           p: Potentials, ln: real -> real)
    requires Known(p.keys, p.at) && p.PositiveAreas()
    requires 0.0 <= reforestationInHa && m <= n
    ensures Run(start, m, co2GrowthRate, reforestationInHa, p, ln).treesPlantedInHa
              <= Run(start, n, co2GrowthRate, reforestationInHa, p, ln).treesPlantedInHa
  {
    if m < n {
      RunAreaMonotone(start, m, n - 1, co2GrowthRate, reforestationInHa, p, ln);
    }
  }

  /** Below the ceiling, the area grows by exactly one input per year. */
  lemma {:induction false} RunAreaLinear(start: YearlyData, years: nat, co2GrowthRate: real, reforestationInHa: real,
                                         p: Potentials, ln: real -> real)
    requires Known(p.keys, p.at) && p.PositiveAreas()
    requires 0.0 <= reforestationInHa
    requires 0 < years ==> start.treesPlantedInHa + (years - 1) as real * reforestationInHa < AREA_CEILING
    ensures Run(start, years, co2GrowthRate, reforestationInHa, p, ln).treesPlantedInHa ==
              start.treesPlantedInHa + years as real * reforestationInHa
  {
    if years > 0 {
      var k := (years - 1) as real;
      if years > 1 {
        assert (years - 2) as real * reforestationInHa <= k * reforestationInHa;
      }
      RunAreaLinear(start, years - 1, co2GrowthRate, reforestationInHa, p, ln);
      assert k * reforestationInHa + reforestationInHa == years as real * reforestationInHa;
    }
  }

  /** With no reforestation from a bare start, every year's pool is the last one plus that year's emissions. */
  lemma {:induction false} RunWithoutReforestation(start: YearlyData, years: nat, co2GrowthRate: real,
                                                   p: Potentials, ln: real -> real)
    requires Known(p.keys, p.at) && p.PositiveAreas()
    requires start.treesPlantedInHa == 0.0
    ensures var prev := Run(start, years, co2GrowthRate, 0.0, p, ln);
            var next := Run(start, years + 1, co2GrowthRate, 0.0, p, ln);
            && prev.treesPlantedInHa == 0.0
            && next.co2 == prev.co2 + next.globalEmissions
  {
    if years > 0 {
      RunWithoutReforestation(start, years - 1, co2GrowthRate, p, ln);
    }
    NoReforestationYear(Run(start, years, co2GrowthRate, 0.0, p, ln), co2GrowthRate, p, ln);
  }

  /**
   * The ceiling is checked against the previous year only: starting just
   * below it, one year's input takes the area past it.
   */
  lemma CeilingOvershoot(start: YearlyData, co2GrowthRate: real, p: Potentials, ln: real -> real)
    requires Known(p.keys, p.at) && p.PositiveAreas()
    requires start.treesPlantedInHa == 565000000.0
    ensures SimulateYear(start, co2GrowthRate, 14000000.0, p, ln).treesPlantedInHa == 579000000.0
    ensures SimulateYear(start, co2GrowthRate, 14000000.0, p, ln).treesPlantedInHa > AREA_CEILING
  {
  }
}
