# 1 Trillion Trees — verified model of the simulation core

1 Trillion Trees is a browser simulation. A user sets a yearly reforestation
area, and the app projects CO2, emissions and warming year by year. It draws
tree objects on a world map and reports the year each climate tipping point
would be reached. This project models the computational core in Dafny and
proves its properties:

- **Tree-object allocator** (`tree_objects.dfy`, module `TreeObjects`).
  The cumulative reforested area is turned into whole tree objects, one per
  1,000,000 ha. They are handed out to countries in rounds. Each round gives
  every country still in play `floor(remaining / countries in play)` objects,
  or the room the country has left when that is less. A full country leaves
  play. The model is imperative, like the source: a `while` loop over rounds
  and a `for` loop over the countries of a round.
- **Year step** (`simulation_calculator.dfy`, module `SimulationCalculator`).
  - Emissions grow by a rate and are added to the CO2 pool.
  - The reforested area absorbs CO2 in proportion to each country's share of
    the total plantable area, with the credited area capped at that total.
    This is a `for` loop, proved against a closed form.
  - CO2 maps to warming by `0.5 * 5.35 * ln(co2 / 1e9 / 7.81 / 280)`.
  - `simulateYear` composes these steps. It adds the year's area only while
    the previous cumulative area is below 566,000,000 ha.
- **Tipping-point detector** (`tipping_points.dfy`, module
  `TippingPointsPanel`). This is the fixed table of seven tipping points in
  four warming groups. Each group is dated by the first simulated year whose
  warming reaches its threshold.
- **Forestation potential table** (`potentials.dfy`, module
  `ForestationPotentials`). Both the allocator and the absorption step read
  this per-country table of tCO2e and ha. It is modelled as the enumeration
  order of its keys plus a map.

All quantities of the year step are exact `real`s. The natural logarithm is a
parameter `ln: real -> real`. Each lemma about temperature states what it
assumes of `ln`: `ln(1) = 0`, monotone, or turning products into sums.

## Model

| member | source | states |
|---|---|---|
| `TreeObjects.CalculateTreeObjectsPerCountry` | src/calculations/SimulationCalculator.ts:4-54 | Every stored count is positive, belongs to a country of the table and is at most `floor(ha / 1,000,000)` for that country, so a country under 1,000,000 ha never appears. The counts are water-filled: some common level `L` exists with every country holding `min(cap, L)`. Any two countries that still have room hold the same count. The total handed out is at most `floor(treesPlantedInHa / 1,000,000)`. Fewer objects than countries yields the empty result. Otherwise, at exit, either no country has room or the leftover is smaller than the number of countries with room. The loop stops after at most as many rounds as there are countries. |
| `TreeObjects.GiveRound` | src/calculations/SimulationCalculator.ts:20-47 | One round gives every country in play its turn, in order. What the counts gain, the pool loses. The pool never goes negative and shrinks by at least one per country that stays in play. The next round holds exactly the countries of this round that still have room, in the same order. A round that keeps every country in play leaves a pool smaller than the number of countries, so the next share is zero and the loop ends. |
| `TreeObjects.GiveTurn` | src/calculations/SimulationCalculator.ts:24-43 | A country receives `min(share, room left)` when that is positive and nothing otherwise. The pool loses exactly that amount. The country stays in play exactly when it has a count below its cap; a country without a count never stays. A country that stays in play took the whole share. |
| `TreeObjects.EvenShare` | src/calculations/SimulationCalculator.ts:16-19 | The round's share is the largest amount every country in play can receive from the pool. It is zero exactly when the pool is smaller than the number of countries in play, which is when the rounds stop. |
| `TreeObjects.ShareIsFloor` | src/calculations/SimulationCalculator.ts:16-18 | `floor(pool / n)` can be given to `n` countries, and one more per country cannot. |
| `TreeObjects.AffordsIsProduct` | src/calculations/SimulationCalculator.ts:16-18 | Handing `share` to `n` countries in turn never overdraws the pool exactly when `share * n` is at most the pool. |
| `TreeObjects.DeductedIsProduct` | src/calculations/SimulationCalculator.ts:33-37 | After `n` countries each take `share`, the pool is `total - share * n`. |
| `TreeObjects.FullRoundLeavesLittle` | src/calculations/SimulationCalculator.ts:16-37 | When every country of a round takes the share `floor(pool / n)`, what is left is less than `n`. |
| `TreeObjects.AffordsLess` | src/calculations/SimulationCalculator.ts:33-37 | A turn that takes no more than the share leaves enough for the remaining countries of the round. |
| `TreeObjects.RoundKeepsInvariant` | src/calculations/SimulationCalculator.ts:15-51 | A round started between rounds ends between rounds: within caps, water-filled at the level raised by the share, pool plus handed-out equal to the budget, and the countries in play equal to the open countries of the table. |
| `TreeObjects.RoundsDone` | src/calculations/SimulationCalculator.ts:15-53 | When the loop stops, whether on an empty pool, no countries left or a zero share, the allocation has every property promised by `CalculateTreeObjectsPerCountry`. |
| `TreeObjects.RoundLevel` | src/calculations/SimulationCalculator.ts:22-45 | After a round from a water-filled state at level `L`, every country holds `min(cap, L + share)`, so each country in play gains the full share until it is full. |
| `TreeObjects.RoundNext` | src/calculations/SimulationCalculator.ts:40-47 | The list of countries kept for the next round is duplicate-free and equals the countries of the whole table that still have room. |
| `TreeObjects.WaterFilledFair` | src/calculations/SimulationCalculator.ts:33-43 | In a water-filled state every country with room holds exactly the common level, and no country holds more. |
| `TreeObjects.TurnGives` | src/calculations/SimulationCalculator.ts:29-43 | A turn hands out between 0 and the share, stores `already + min(share, room)` when positive, and leaves the country in play only if it received the whole share. |
| `TreeObjects.TurnTotal` | src/calculations/SimulationCalculator.ts:35-38 | A turn raises the table's total by exactly what it hands out. |
| `TreeObjects.TurnOpenAmong` | src/calculations/SimulationCalculator.ts:40-43 | The next-round list grows by the current country exactly when it still has room after its turn. |
| `TreeObjects.TurnsWithinCaps` | src/calculations/SimulationCalculator.ts:33-36 | Turns never push a count past its cap and store only positive counts. |
| `TreeObjects.TurnsLifted` | src/calculations/SimulationCalculator.ts:22-38 | A country whose turn has come holds `min(cap, L + share)`. |
| `TreeObjects.TurnsUntouched` | src/calculations/SimulationCalculator.ts:22-38 | A country whose turn has not come keeps its count. |
| `TreeObjects.StepCountry` | src/calculations/SimulationCalculator.ts:29-36 | One turn moves a country from `min(cap, L)` to `min(cap, L + share)`. |
| `TreeObjects.TotalUpdate` | src/calculations/SimulationCalculator.ts:36 | Setting one country's count moves the table's total by the difference. |
| `TreeObjects.StillOpenRefines` | src/calculations/SimulationCalculator.ts:40-47 | Because a full country stays full, filtering last round's list gives the same countries as filtering the whole table. |
| `ForestationPotentials.SumHa` | src/calculations/SimulationCalculator.ts:80 | The total plantable area is positive for a non-empty table of positive areas. |
| `ForestationPotentials.SumTco2e` | src/calculations/SimulationCalculator.ts:85-92 | The total absorption capacity is not negative when no country's capacity is. |
| `SimulationCalculator.CalculateNextYearCO2AndEmissions` | src/calculations/SimulationCalculator.ts:58-63 | Emissions grow by `rate` percent of themselves, and the CO2 pool grows by exactly the new emissions. |
| `SimulationCalculator.EmissionsGrowth` | src/calculations/SimulationCalculator.ts:58-63 | A zero rate leaves emissions unchanged. A positive rate raises positive emissions. With a rate of at least -100% and non-negative emissions the pool does not shrink. |
| `SimulationCalculator.ApplyReforestationEffect` | src/calculations/SimulationCalculator.ts:71-95 | The loop (its closed form is `ReforestationAbsorption`) that subtracts each country's `(tco2e / ha) * (min(totalHa, total ha) * ha / total ha)` ends at `currentCO2 - min(totalHa, total ha) * total tco2e / total ha`, and at `currentCO2` for an empty table. |
| `SimulationCalculator.AbsorptionStep` | src/calculations/SimulationCalculator.ts:86-91 | A country's absorption `(tco2e / ha) * (effective * ha / total)` equals `effective * tco2e / total`, so its ha cancels and only its capacity counts. |
| `SimulationCalculator.PositiveTotal` | src/calculations/SimulationCalculator.ts:80-88 | The total plantable area of a non-empty table of positive areas is positive, so the shares are defined. |
| `SimulationCalculator.ReforestationNeverRaisesCO2` | src/calculations/SimulationCalculator.ts:80-91 | A non-negative area over a table with no negative capacity absorbs a non-negative amount, so the reforestation step never raises CO2. |
| `SimulationCalculator.AbsorptionLimits` | src/calculations/SimulationCalculator.ts:82-91 | No reforested area leaves CO2 unchanged. An area at least the table's total removes exactly the total capacity (saturation). |
| `SimulationCalculator.CalculateTemperatureIncrease` | src/calculations/SimulationCalculator.ts:98-109 | The warming is `0.5 * 5.35 * ln(pool / 2,186,800,000,000 t)`: the climate sensitivity times the forcing of the pool's ratio to the pre-industrial pool. |
| `SimulationCalculator.ConcentrationRatio` | src/calculations/SimulationCalculator.ts:100-107 | The argument of the logarithm is the pool over the pre-industrial pool of 2,186,800,000,000 t. |
| `SimulationCalculator.PreIndustrialBaseline` | src/calculations/SimulationCalculator.ts:98-109 | At the pre-industrial pool the warming is zero. |
| `SimulationCalculator.TemperatureMonotone` | src/calculations/SimulationCalculator.ts:98-109 | More CO2 never means less warming. |
| `SimulationCalculator.DoublingAddsFixedWarming` | src/calculations/SimulationCalculator.ts:98-109 | Every doubling of the pool adds the same `0.5 * 5.35 * ln 2` degrees. |
| `SimulationCalculator.SimulateYear` | src/calculations/SimulationCalculator.ts:113-141 | Through its helper `NextArea`, the area gains the year's input only when the previous area is below 566,000,000 ha, and is unchanged otherwise. The new pool is the old pool plus the new emissions minus what the new cumulative area absorbs. The temperature is recomputed from that new pool. |
| `SimulationCalculator.YearStep` | src/calculations/SimulationCalculator.ts:120-138 | Emissions become `prev * (1 + rate / 100)`. The area never shrinks under a non-negative input. An area below the ceiling ends below the ceiling plus one year's input. |
| `SimulationCalculator.NoReforestationYear` | src/calculations/SimulationCalculator.ts:120-136 | With no area and no input, the pool only accumulates the year's emissions. |
| `SimulationCalculator.SaturatedYear` | src/calculations/SimulationCalculator.ts:126-136 | Once the area covers the whole table, a year removes exactly the table's total capacity. |
| `SimulationCalculator.RunAreaBounded` | src/calculations/SimulationCalculator.ts:124-127 | Over any number of years with a fixed non-negative input, the area stays below the ceiling plus one year's input. |
| `SimulationCalculator.RunAreaFrozen` | src/calculations/SimulationCalculator.ts:124-127 | Once at or above the ceiling, the area never changes again. |
| `SimulationCalculator.RunAreaMonotone` | src/calculations/SimulationCalculator.ts:124-127 | With a non-negative input, the area of a later year is at least that of an earlier one. |
| `SimulationCalculator.RunAreaLinear` | src/calculations/SimulationCalculator.ts:124-127 | While the area is below the ceiling it grows by exactly one input per year. |
| `SimulationCalculator.RunWithoutReforestation` | src/calculations/SimulationCalculator.ts:120-136 | With no reforestation from a bare start, every year's pool is the previous pool plus that year's emissions. |
| `SimulationCalculator.CeilingOvershoot` | src/calculations/SimulationCalculator.ts:126-127 | From 565,000,000 ha with an input of 14,000,000 ha the area becomes 579,000,000 ha, above the ceiling. |
| `TippingPointsPanel.GroupsOrdered` | src/ui/TippingPointsPanel.tsx:6-62 | The thresholds increase strictly (1.5, 1.8, 3.5, 4.0), and every group is non-empty. |
| `TippingPointsPanel.FirstReaching` | src/ui/TippingPointsPanel.tsx:78-80 | The index found is the first entry whose warming reaches the threshold. None is found only when no entry reaches it. |
| `TippingPointsPanel.GetTippingPointYearsGroups` | src/ui/TippingPointsPanel.tsx:65-92 | Without results the list is empty. With results there is one dated group per group of the table. |
| `TippingPointsPanel.YearReachedIsFirst` | src/ui/TippingPointsPanel.tsx:77-87 | A group has no year exactly when no simulated year reaches its threshold. Otherwise its year is the year of the first entry that reaches it. |
| `TippingPointsPanel.YearReachedIsEarliest` | src/ui/TippingPointsPanel.tsx:78-80 | With years in increasing order, the year reported is the smallest year whose warming reaches the threshold. |
| `TippingPointsPanel.YearReachedMonotone` | src/ui/TippingPointsPanel.tsx:78-80 | If a higher threshold is reached, every lower one is too, and with years in increasing order no later. |
| `TippingPointsPanel.GroupsDated` | src/ui/TippingPointsPanel.tsx:77-91 | Each output group keeps its threshold and its tipping points in order, with their id, name and icon. Each point carries the year its group's threshold is first reached. |
| `TippingPointsPanel.GroupSharesYear` | src/ui/TippingPointsPanel.tsx:83-89 | All tipping points of one group carry the same year. |
| `TippingPointsPanel.LaterGroupsNoEarlier` | src/ui/TippingPointsPanel.tsx:6-91 | If a later group is dated, every earlier group is too, and with years in increasing order no later. |

## Left out

- IEEE-754 floating point is not modelled. All year-step arithmetic is exact
  `real` arithmetic, so rounding, infinities and NaN do not arise.
- `Math.log` is not modelled. It is the parameter `ln`. The temperature lemmas
  state what they assume of it, and a logarithm of a non-positive argument
  (NaN in the source) is whatever `ln` returns.
- `ApplyReforestationEffect`, `SimulateYear`, `ReforestationAbsorption`: they
  require every area to be positive. With an entry of `ha = 0` the source
  divides by zero and produces NaN or an infinity, which the model does not
  represent. The same requirement also excludes negative areas, which the
  source would accept; a negative plantable area is treated as invalid data.
- The per-country table is a record in the source. Its key enumeration order
  (`Object.keys`, `Object.values`) is the explicit `keys` sequence, and the
  allocator requires those keys to be distinct and to be exactly the record's
  keys. The absorption loop only needs every enumerated key to have an entry.
- `TreeObjects.CalculateTreeObjectsPerCountry`: the amount of the leftover is
  bounded, not computed. The contract pins the allocation down up to the
  final common level, and does not state that level as a function of the
  input.
- The division `remainingTrees / remainingCountries.length` and the per-country
  turn are separate methods (`EvenShare`, `GiveRound`, `GiveTurn`) called from
  the loops, instead of being written inline.
- `SimulationCalculator.SimulateYear` is a function. It uses
  `ReforestationAbsorption`, the closed form that `ApplyReforestationEffect` is
  proved to compute, since a function cannot call a method.
- The ceiling of 566,000,000 ha is checked against the previous year's area
  only, so the area can pass it by up to one year's input
  (`CeilingOvershoot`, `RunAreaBounded`): the test at
  src/calculations/SimulationCalculator.ts:126 reads the previous year's area.
- `calculateTreesPlantedThisYear` (src/calculations/SimulationCalculator.ts:66-68)
  is unused by the year step and is not modelled.
- The progress message written to the console
  (src/calculations/SimulationCalculator.ts:46) is left out.
- `getTippingPointYearsGroups` reads the per-year results from the simulation
  store. Here they are a parameter: `None` for an absent store value, and
  otherwise the record's entries in enumeration order as (year, state) pairs.
  For integer-like keys that order is ascending year, and the key is the year
  `parseInt` would return. The ordering lemmas take ascending years as a
  hypothesis.
- The store itself, the CSV loaders, the React components, the three.js
  rendering and the random placement of trees on the map are not part of this
  model.
