# B3TR emissions simulator, modelled in Dafny

The B3TR Emissions Simulator computes, cycle by cycle, how many tokens go to
four pools: XAllocations, Vote2Earn, Treasury and GM-NFT. It stops just
before the cumulative emissions plus the testnet migration airdrop would
pass the hard cap `B3TR_CAP`. This project models that engine and proves
properties of it:

- the two decay rules;
- the bootstrap cycle 1;
- the per-cycle computation with its GM-NFT carve-out from treasury;
- the look-ahead cap check of the simulation loop;
- the per-pool totals shown below the chart.

Amounts are integers counted in micro-units (10^-6 B3TR; the unused
`SCALING_FACTOR` of the source). Every `round(x, 6)` of the source is
`Rounding.RoundDiv`. It rounds a quotient to the nearest micro-unit, and a
tie goes up. The slider values form an immutable `Emissions.Config`.
`Emissions.ValidConfig` holds the ranges the sliders allow. Percentages lie
in 0..100. `treasuryPercentage` is the slider value times 100 and is divided
by 10000, as in the source. Periods are at least 1.

Files:

- `Rounding.dfy`: the one rounding rule and its facts.
- `Emissions.dfy`: the constants, the configuration, the two decay functions,
  the bootstrap record and the candidate record of a cycle, with their lemmas.
- `Simulation.dfy`: the simulation loop as a method. `IsTrace` says which
  tables the loop can produce. The lemmas cover cycle numbering, monotonicity,
  the cap, determinism and maximality, and when the loop ends or does not.
- `Totals.dfy`: the per-pool sums up to a selected cycle.
- `Scenario.dfy`: facts about the default slider settings.

Notes on what the code does:

- The default GM-NFT start round is 44 (emissions_chart_app.py:23).
- Cumulative emissions are only non-decreasing, not strictly increasing.
  A cycle can emit 0: with a 100% XAllocations decay, or once rounding takes
  the allocation to 0.
- There is no configuration error path. The sliders bound the inputs.
- The loop is not guaranteed to halt (`Simulation.FullDecayNeverReachesCap`).

## Model

| member | source | states |
|---|---|---|
| `Rounding.RoundDiv` | emissions_chart_app.py:39 | the result is within half a unit of the exact quotient (ties up); this is the model's `round(x, 6)` on micro-units |
| `Rounding.RoundingIsUnique` | emissions_chart_app.py:39 | only one integer is the rounding of a given quotient |
| `Rounding.RoundExact` | emissions_chart_app.py:39 | rounding an amount that is already a whole number of micro-units leaves it unchanged |
| `Rounding.ShareBounds` | emissions_chart_app.py:72-77 | a share p/d of an amount, with 0 <= p <= d, rounded, lies between 0 and the amount whenever the amount is non-negative |
| `Emissions.DefaultConfigIsValid` | emissions_chart_app.py:15-24 | the slider defaults (4, 12, 20, 50, 80, 25 x 100, 44, 25) lie within the ranges the sidebar allows |
| `Emissions.Vote2EarnDecayPercentage` | emissions_chart_app.py:27-32 | 0 for cycle <= 1; always within 0..max decay; never above decay x whole elapsed periods |
| `Emissions.Vote2EarnDecayMonotone` | emissions_chart_app.py:30-32 | the Vote2Earn decay percentage never decreases as the cycle grows |
| `Emissions.Vote2EarnDecayStepsAtPeriods` | emissions_chart_app.py:30-32 | the percentage changes between consecutive cycles only where (cycle-1) is a multiple of the period: within one period it is flat |
| `Emissions.Vote2EarnDecaySaturates` | emissions_chart_app.py:31-32 | once decay x elapsed periods reaches the maximum, the percentage equals the maximum (it is clamped, not compounded) |
| `Emissions.DefaultVote2EarnDecayCap` | emissions_chart_app.py:17-32 | with 20% per 50 cycles capped at 80%, the percentage is 60 at cycle 200 and 80 from cycle 201 on |
| `Emissions.NextXAllocation` | emissions_chart_app.py:34-39 | INITIAL_X_APP_ALLOCATION for cycle < 2; the previous amount unchanged off a decay boundary; on a boundary the previous amount x (1 - decay/100) rounded; never above a non-negative previous amount |
| `Emissions.NoDecayKeepsAllocation` | emissions_chart_app.py:37-39 | with 0% decay the allocation is carried over unchanged even on a boundary |
| `Emissions.FullDecayEmptiesAllocation` | emissions_chart_app.py:37-39 | with 100% decay the allocation becomes 0 on a boundary |
| `Emissions.DecayedAllocation` | emissions_chart_app.py:34-39 | the allocation after k whole decay periods lies between 0 and the initial allocation |
| `Emissions.DecayedAllocationMonotone` | emissions_chart_app.py:37-38 | more elapsed decay periods never give a larger allocation |
| `Emissions.TreasuryShare` | emissions_chart_app.py:73 | the treasury share is (XAllocations + Vote2Earn) x treasury_percentage/10000 rounded, and lies between 0 and that sum when the sum is non-negative |
| `Emissions.Bootstrap` | emissions_chart_app.py:48-64 | cycle 1 has XAllocations = Vote2Earn = 2,000,000, GM-NFT = 0, treasury the rounded share of 4,000,000, Total the sum of the four pools and Cumulative = Total |
| `Emissions.Candidate` | emissions_chart_app.py:69-80 | a candidate cycle takes its allocation from the decay rule, Vote2Earn as the allocation scaled by the decay percentage, GM-NFT 0 before the start round and otherwise the rounded share of treasury; treasury + GM-NFT equals the pre-carve-out treasury; Total is the pool sum and Cumulative the previous one plus Total |
| `Emissions.CandidateBounds` | emissions_chart_app.py:69-80 | from a non-negative previous allocation every pool is non-negative, the allocation does not grow, Vote2Earn is at most XAllocations, and Cumulative does not go down |
| `Emissions.Vote2EarnUndecayed` | emissions_chart_app.py:71-72 | while the decay percentage is 0, Vote2Earn equals XAllocations |
| `Emissions.CapCheck` | emissions_chart_app.py:82-84 | the next candidate is kept (`Fits`) exactly when total_emissions + cycle_total + migration_amount does not exceed B3TR_CAP, i.e. when the loop does not break |
| `Emissions.CarveOutKeepsTotal` | emissions_chart_app.py:75-80 | the GM-NFT carve-out leaves the cycle total equal to allocation + Vote2Earn + pre-carve-out treasury |
| `Simulation.Simulate` | emissions_chart_app.py:43-98 | the output is a trace (bootstrap first, each later record the next candidate and within the cap); on CapReached the next candidate would exceed the cap and no trace is longer; with 0% allocation decay it stops at the cap within 498 cycles; with 100% decay every cycle it never reaches the cap |
| `Simulation.TraceAt` | emissions_chart_app.py:66-96 | record i is cycle i+1; its allocation is within 0..initial, at most the previous one, and equal to the allocation after i div period decay periods; pools are non-negative; Total is the pool sum; Cumulative is the previous Cumulative plus Total and never decreases |
| `Simulation.TraceCycle` | emissions_chart_app.py:88-98 | record i of a trace is for cycle i+1 |
| `Simulation.TraceMonotone` | emissions_chart_app.py:69-86 | along the output XAllocations never increases and Cumulative never decreases |
| `Simulation.TraceRespectsCap` | emissions_chart_app.py:82-86 | every record after the bootstrap has Cumulative + migration amount <= B3TR_CAP; this is part of what a trace is (`IsTrace`), and `Simulate`'s loop establishes it |
| `Simulation.BootstrapFits` | emissions_chart_app.py:48-56 | the unchecked bootstrap record is within the cap for every setting |
| `Simulation.TracePrefix` | emissions_chart_app.py:86-96 | a prefix of an output table is itself an output table |
| `Simulation.TraceExtend` | emissions_chart_app.py:82-96 | appending the next candidate, when it passes the cap check, gives an output table |
| `Simulation.TracesAgree` | emissions_chart_app.py:43-98 | the simulation is deterministic: of two tables for one setting, the shorter is a prefix of the longer |
| `Simulation.LongerTraceContinues` | emissions_chart_app.py:68-96 | a longer table continues a shorter one with its next candidate, and that candidate passed the cap check |
| `Simulation.CapStopIsMaximal` | emissions_chart_app.py:82-84 | when the next candidate fails the cap check, no table is longer: the output is the maximal prefix |
| `Simulation.NoDecayTraceBound` | emissions_chart_app.py:68-86 | with 0% XAllocations decay no table has more than 498 cycles, so the loop reaches the cap |
| `Simulation.NoDecayCumulative` | emissions_chart_app.py:69-86 | with 0% XAllocations decay the allocation stays 2,000,000 and Cumulative after i+1 cycles is at least (i+1) x 2,000,000 |
| `Simulation.FullDecayNeverReachesCap` | emissions_chart_app.py:68-86 | with 100% decay every cycle, every table can be extended by its next candidate: `while True` never stops |
| `Simulation.FullDecayNextFits` | emissions_chart_app.py:82-86 | with 100% decay every cycle, the next candidate always passes the cap check |
| `Simulation.FullDecayNextCumulative` | emissions_chart_app.py:69-80 | with 100% decay every cycle, the next candidate's Cumulative is that of cycle 1 |
| `Simulation.FullDecayCumulative` | emissions_chart_app.py:69-86 | with 100% decay every cycle, the allocation is 0 from cycle 2 and Cumulative stays at cycle 1's |
| `Simulation.ZeroAllocationEmitsNothing` | emissions_chart_app.py:72-80 | a cycle whose allocation is 0 puts 0 into each of XAllocations, Vote2Earn, Treasury and GM-NFT, so its Total is 0 and Cumulative is unchanged |
| `Totals.PoolTotalsUpTo` | emissions_chart_app.py:112-118 | the per-pool sums over records with cycle <= selected are all 0 when every record is later, and none is negative when no record has a negative pool |
| `Totals.TotalSupply` | emissions_chart_app.py:128 | the displayed supply is at least the migration amount when no pool is negative, and exactly it when no record is selected |
| `Totals.TracePoolsNonNegative` | emissions_chart_app.py:69-80 | no pool of any output record is negative |
| `Totals.TotalsMatchCumulative` | emissions_chart_app.py:112-128 | over an output table, the four pool sums over cycles <= the selected one add up to that record's Cumulative and none is negative; the displayed supply is that plus the migration amount and is within the cap |
| `Totals.LaterCyclesExcluded` | emissions_chart_app.py:112 | records after the selected cycle add nothing to the totals |
| `Totals.PrefixSum` | emissions_chart_app.py:115-118 | over the first n records, the pool sums add up to record n's Cumulative |
| `Scenario.DefaultBootstrap` | emissions_chart_app.py:48-64 | with default settings cycle 1 is 2,000,000 / 2,000,000 / 1,000,000 / 0, total and cumulative 5,000,000 |
| `Scenario.DefaultAllocationSchedule` | emissions_chart_app.py:15-16 | with 4% every 12 cycles the allocation is 2,000,000 for cycles 1-12 and 1,920,000 for cycles 13-24 |
| `Scenario.DefaultGmNftActivation` | emissions_chart_app.py:23-24 | with start round 44 and a 25% share, GM-NFT is 0 through cycle 43 and from cycle 44 takes the rounded quarter of treasury, which keeps the rest |

## Left out

- The Streamlit interface is not modelled: page setup, sliders, number input, metrics and columns. The slider values become the `Config` record, and their ranges become `ValidConfig`.
- The Plotly chart is not modelled. It only presents the table.
- The pandas DataFrame and the `int(...):,` formatting of the totals are not modelled. The totals are kept exact, in micro-units.
- IEEE floating point and Python's `round` are not modelled. Amounts are exact micro-units with one fixed rounding rule: to the nearest micro-unit, ties up. On boundary-free cycles the source re-rounds an amount that already has 6 decimals; the model keeps that amount unchanged. `treasury -= gm_nft` and the sums are exact.
- Simulation.Simulate: the source loops `while True` without a bound. The method also stops after cycle `maxCycle` and then reports `CycleLimit`, because the source loop does not always end: `FullDecayNeverReachesCap` shows a setting where it never stops.
- Emissions.Vote2EarnDecayPercentage: its contract gives bounds only. Its closed form, the minimum of decay x periods and the maximum, is what `Vote2EarnDecaySaturates` and the body state.
