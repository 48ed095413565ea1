# MSTL decomposition driver, modelled in Dafny

This project models the MSTL (multiple seasonal-trend decomposition by loess)
driver of the `augurs-mstl` crate. The driver decomposes a time series `y`
into a trend, one seasonal component per period, residuals and robust weights.
It does so by running single-season STL repeatedly, in ascending period
order, over one or two outer passes.

- `fit` first normalises the caller's periods:
  - it sorts them ascending;
  - it rejects an empty list, or one whose smallest period is at most 1, with
    "non-seasonal data not supported";
  - it drops every period longer than half the series.
- Each period gets a seasonal window: 11 for the first, then 4 wider for each
  later one.
- The loop then works on a deseasonalised copy of `y`. For each period it:
  - adds that period's held seasonal back;
  - fits STL;
  - keeps the new seasonal and the fit;
  - subtracts the new seasonal again.
- The trend and the robust weights of the last fit win. The residuals are the
  deseasonalised series minus that trend.
- If no STL call was ever made, the run fails with "no STL fit".

Layout:

- `errors.dfy`: `Option`, `Result` and the crate error with its two messages.
- `stl.dfy`: the interface of the STL primitive. It is a function value,
  closed over the shared smoothing parameters. Its length contract is
  `LengthPreserving`.
- `periods.dfy`: `process_periods` as a pure function, `Normalise`. This
  covers the sort, the rejection and `retain`.
- `windows.dfy`: `seasonal_windows` and the choice of one or two passes.
- `decomposition.dfy`: `MSTLDecomposition` and its accessors.
- `engine.dfy`: the refitting loop as a functional specification. `Step` is
  one STL call, `Pass` one sweep over the periods and `Run` the outer loop.
  The file also holds the loop invariant `Tracks`:
  `deseas[i] == y[i] - Σ seasonals[p][i]`.
  It also records the order of the STL calls and which fit is kept.
- `mstl.dfy`: the imperative driver. The class `Mstl` holds `y`, the caller's
  mutable period vector and the STL primitive. Its methods `ProcessPeriods`
  and `Fit` update `periods` in place. `Fit`'s loop runs over an `array`
  buffer for `deseas` and is proved equal to `Decompose`, the function that
  specifies it.
- `properties.dfy`: what a run promises:
  - the error cases;
  - the shape of the result;
  - the reconstruction identity;
  - "last fit wins";
  - that STL errors are propagated;
  - independence of the periods' order;
  - the configuration of the comparison with R in the crate's test.

## Model

| member | source | states |
|---|---|---|
| Windows.SeasonalWindows | crates/augurs-mstl/src/mstl.rs:112-114 | one window per period; the first is 11 and each later one is 4 wider; every window is odd and at least 11 |
| Windows.OuterIterations | crates/augurs-mstl/src/mstl.rs:58 | one pass exactly when one period is left, otherwise two |
| Periods.Sort | crates/augurs-mstl/src/mstl.rs:124 | the result is ascending and a permutation of the input |
| Periods.SortedUnique | crates/augurs-mstl/src/mstl.rs:124 | two ascending sequences with the same elements are equal, so an unstable sort of integers has one possible outcome |
| Periods.SortHeadIsMinimum | crates/augurs-mstl/src/mstl.rs:124-127 | the first sorted period is an input period and no input period is smaller |
| Periods.Retain | crates/augurs-mstl/src/mstl.rs:131 | keeps each period of at most the bound as often as it occurs and drops the rest |
| Periods.RetainMembers | crates/augurs-mstl/src/mstl.rs:131 | a period survives iff it was present and is at most the bound |
| Periods.RetainKeepsOrder | crates/augurs-mstl/src/mstl.rs:131 | retain keeps sorted periods sorted |
| Periods.NormaliseFails | crates/augurs-mstl/src/mstl.rs:122-129 | normalisation fails iff the periods are empty or one is at most 1, and then with "non-seasonal data not supported" |
| Periods.NormaliseSucceeds | crates/augurs-mstl/src/mstl.rs:122-133 | on success the periods are sorted, each lies in 1 < p <= n/2, and they are exactly the input periods of at most n/2, with multiplicity |
| Periods.NormaliseIgnoresOrder | crates/augurs-mstl/src/mstl.rs:124 | permuting the input periods does not change normalisation |
| Decomposition.MstlDecomposition.Seasonal | crates/augurs-mstl/src/mstl.rs:158-160 | returns the stored component iff the period is a key, otherwise None |
| Engine.Step | crates/augurs-mstl/src/mstl.rs:71-90 | the refit of one period fails iff STL fails on the deseasonalised series plus that period's seasonal, with that error; otherwise the period's seasonal becomes STL's seasonal, every other seasonal and every key is kept, the new deseasonalised series is that input minus the new seasonal, the call is recorded and the fit is kept without its seasonal |
| Engine.Pass | crates/augurs-mstl/src/mstl.rs:69-91 | a pass keeps the keys and makes one call per period, after the earlier calls |
| Engine.Run | crates/augurs-mstl/src/mstl.rs:68-92 | `iterations` passes keep the keys and make `iterations` times as many calls as there are periods |
| Engine.StartTracks | crates/augurs-mstl/src/mstl.rs:60-67 | the initial state, with zero seasonals and `deseas == y`, satisfies the invariant `deseas == y - Σ seasonals` |
| Engine.StepTracks | crates/augurs-mstl/src/mstl.rs:71-90 | add-back, fit and subtract preserve that invariant and the lengths, for a length-preserving STL |
| Engine.PassTracks | crates/augurs-mstl/src/mstl.rs:69-91 | a whole pass preserves the invariant |
| Engine.RunTracks | crates/augurs-mstl/src/mstl.rs:68-92 | the whole loop preserves the invariant |
| Engine.PassCallOrder | crates/augurs-mstl/src/mstl.rs:69-83 | a pass calls STL on `periods[j]` with `windows[j]`, in that order |
| Engine.RunCallOrder | crates/augurs-mstl/src/mstl.rs:58-83 | every pass of the run repeats that call order |
| Engine.RunLastCall | crates/augurs-mstl/src/mstl.rs:68-91 | the last call of a run is on the last period with the last window |
| Engine.PassLastFit | crates/augurs-mstl/src/mstl.rs:84-85 | after a pass, `res` holds the fit of the most recent call, with its seasonal moved out |
| Engine.RunLastFit | crates/augurs-mstl/src/mstl.rs:84-85 | the same after the whole loop: `res` is None iff no call was made |
| Engine.SeasonalSumBeyondKeys | crates/augurs-mstl/src/mstl.rs:60-65 | once every key is below the bound, a larger bound gives the same sum, so the sum over periods below the length is the sum over all seasonals |
| Engine.LatestCall | crates/augurs-mstl/src/mstl.rs:71-84 | returns the index of a recorded call on the period with no later one, or None iff no call was on it |
| Engine.LatestCallIs | crates/augurs-mstl/src/mstl.rs:71-84 | a call on the period with no later one on it is the latest call |
| Engine.LatestCallAppend | crates/augurs-mstl/src/mstl.rs:71-84 | a new call becomes the latest of its own period and leaves the latest call of every other period unchanged |
| Engine.StartHeldFits | crates/augurs-mstl/src/mstl.rs:60-65 | initially no call was made and every held seasonal is zeros of the series' length |
| Engine.StepHeldFits | crates/augurs-mstl/src/mstl.rs:71-84 | after a step, each held seasonal is STL's seasonal of the latest call on its period, or zeros if there was none |
| Engine.PassHeldFits | crates/augurs-mstl/src/mstl.rs:69-91 | a pass keeps that correspondence |
| Engine.RunHeldFits | crates/augurs-mstl/src/mstl.rs:68-92 | the whole loop keeps that correspondence |
| Engine.HeldFromLastCall | crates/augurs-mstl/src/mstl.rs:71-84 | a call in the final stretch with no later call on its period holds STL's seasonal for that period |
| Engine.HeldFromLastCalls | crates/augurs-mstl/src/mstl.rs:71-84 | the same for every such call |
| Engine.PassSeasonals | crates/augurs-mstl/src/mstl.rs:69-91 | after a pass, the seasonal of each period is the one STL returned on that pass's call at the period's last position |
| Engine.RunWithoutPeriods | crates/augurs-mstl/src/mstl.rs:68-70 | with no periods the loop does nothing |
| Engine.PassFailure | crates/augurs-mstl/src/mstl.rs:78-83 | a failing pass fails with the StlFailure of an STL call on one of its periods and windows |
| Engine.RunFailure | crates/augurs-mstl/src/mstl.rs:78-83 | the same for the whole loop |
| Engine.PassSucceeds | crates/augurs-mstl/src/mstl.rs:78-83 | with an STL that never fails, a pass succeeds |
| Engine.RunSucceeds | crates/augurs-mstl/src/mstl.rs:78-83 | with an STL that never fails, the loop succeeds |
| MstlDriver.AddAssign | crates/augurs-mstl/src/mstl.rs:73-76 | the buffer becomes the zip-wise sum over the common prefix, and the rest is unchanged |
| MstlDriver.SubAssign | crates/augurs-mstl/src/mstl.rs:87-90 | the buffer becomes the zip-wise difference over the common prefix (also used for the trend at lines 95-98) |
| MstlDriver.RefitPeriod | crates/augurs-mstl/src/mstl.rs:71-90 | the in-place inner-loop body ends in the state `Step` specifies, or in its error |
| MstlDriver.RefitPass | crates/augurs-mstl/src/mstl.rs:69-91 | the inner loop ends in the state `Pass` specifies, or in its error |
| MstlDriver.Refit | crates/augurs-mstl/src/mstl.rs:57-105 | the outer loop plus result assembly returns `Refitted` |
| MstlDriver.Mstl.constructor | crates/augurs-mstl/src/mstl.rs:39-45 | stores the series, the caller's periods and the STL primitive |
| MstlDriver.Mstl.ProcessPeriods | crates/augurs-mstl/src/mstl.rs:122-133 | fails iff the periods are empty or one is at most 1, leaving them sorted; otherwise leaves them sorted and filtered, as `Normalise` specifies |
| MstlDriver.Mstl.Fit | crates/augurs-mstl/src/mstl.rs:55-106 | returns `Decompose(y, periods, stl)` and leaves the caller's periods as normalisation made them |
| MstlProperties.RefittedErrors | crates/augurs-mstl/src/mstl.rs:83-93 | after normalisation, the loop fails only with an STL error or "no STL fit" |
| MstlProperties.RefittedNoFit | crates/augurs-mstl/src/mstl.rs:93 | the loop fails with "no STL fit" iff no period survived |
| MstlProperties.RefittedKeys | crates/augurs-mstl/src/mstl.rs:60-65 | on success the seasonal map has one key per surviving period |
| MstlProperties.RejectsNonSeasonal | crates/augurs-mstl/src/mstl.rs:56 | `fit` fails with "non-seasonal data not supported" iff the periods are empty or one is at most 1, whatever STL does |
| MstlProperties.NoFitWhenEveryPeriodTooLong | crates/augurs-mstl/src/mstl.rs:93 | `fit` fails with "no STL fit" iff the periods are valid but all exceed half the series length |
| MstlProperties.FinalState | crates/augurs-mstl/src/mstl.rs:60-105 | a successful loop ends in a state that keeps the invariant and holds the last fit, and the result is built from that state |
| MstlProperties.StateReconstructs | crates/augurs-mstl/src/mstl.rs:95-105 | from such a state, trend + Σ seasonals + residual gives back `y` at every index |
| MstlProperties.RefittedReconstruction | crates/augurs-mstl/src/mstl.rs:66-105 | the reconstruction identity and the keys for the loop on normalised periods |
| MstlProperties.NormalisedBelowLength | crates/augurs-mstl/src/mstl.rs:131 | every surviving period is shorter than the series |
| MstlProperties.ResultShape | crates/augurs-mstl/src/mstl.rs:100-105 | on success all components have the series' length and the seasonal keys are exactly the input periods of at most n/2 |
| MstlProperties.Reconstruction | crates/augurs-mstl/src/mstl.rs:66-105 | on success, `y[i] == trend[i] + Σ seasonal[p][i] + residuals[i]` for every i |
| MstlProperties.RefittedLastFit | crates/augurs-mstl/src/mstl.rs:84-85 | trend and robust weights come from an STL fit for the last period and window |
| MstlProperties.LastFitWins | crates/augurs-mstl/src/mstl.rs:93-104 | on success the trend and the weights are those of a fit for the largest surviving period, which is at least every input period of at most n/2 |
| MstlProperties.RefittedSeasonals | crates/augurs-mstl/src/mstl.rs:84-102 | each seasonal of the loop's result is the seasonal STL returned for that period with that period's window, in the last pass |
| MstlProperties.PassFromStl | crates/augurs-mstl/src/mstl.rs:69-91 | a result holding the seasonals of a successful last pass satisfies that |
| MstlProperties.LastPassSeasonals | crates/augurs-mstl/src/mstl.rs:69-84 | the last pass's calls are on each period with its own window, so the held seasonals are fits with those windows |
| MstlProperties.LastFitOfState | crates/augurs-mstl/src/mstl.rs:84-85 | a result taking the kept fit of a state whose last call is on the last period has trend and weights of that fit |
| MstlProperties.SeasonalsFromLastPass | crates/augurs-mstl/src/mstl.rs:84-102 | on success `fit` returns one seasonal component per surviving period, and each is STL's seasonal for that period with its seasonal window |
| MstlProperties.NormalisedLastIsLargest | crates/augurs-mstl/src/mstl.rs:124-131 | the last normalised period is the largest input period of at most n/2 |
| MstlProperties.StlFailurePropagates | crates/augurs-mstl/src/mstl.rs:78-83 | an StlFailure result carries the very error of an STL call on a surviving period |
| MstlProperties.SucceedsWhenStlDoes | crates/augurs-mstl/src/mstl.rs:55-106 | with valid periods, at least one of them at most n/2, and an STL that never fails, `fit` succeeds |
| MstlProperties.OrderIndependent | crates/augurs-mstl/src/mstl.rs:124 | the order in which the caller gives the periods does not change the result |
| MstlProperties.SinglePeriodCalls | crates/augurs-mstl/src/mstl.rs:57-58 | a single surviving period gives one pass and one STL call, with window 11 |
| MstlProperties.SinglePeriodKeys | crates/augurs-mstl/src/mstl.rs:60-65 | a single surviving period gives a seasonal map with just that key |
| MstlProperties.HourlyAndWeeklyPeriods | crates/augurs-mstl/src/mstl.rs:221 | periods 24 and 168 on at least two weeks of data both survive, in that order |
| MstlProperties.HourlyAndWeekly | crates/augurs-mstl/src/mstl.rs:221-232 | those periods get windows 11 and 15 and two passes, and a successful fit has seasonal components for exactly 24 and 168 |

## Left out

- The STL primitive (`stlrs`, robust loess smoothing) is not part of this model. It enters as a function value `stl`, closed over the smoothing parameters. Its only assumed contract is `LengthPreserving`, required only by the lemmas about lengths and reconstruction.
- `stl_params`, the builder that replaces the parameters, and the default `stlrs::params()` are folded into the function value passed to the constructor.
- `f64` arithmetic is modelled by `real`. Rounding is not modelled, so the reconstruction identity is exact here; in the crate it holds up to floating-point error.
- `usize` is modelled by `nat`. `7 + 4 * (i + 1)` and `len / 2` cannot overflow for any realistic number of periods.
- The `tracing` span and the `instrument` attribute have no effect on results and are left out.
- The mutable borrow of the caller's `Vec<usize>` becomes the class field `periods`. The model does not track lifetimes or aliasing of the borrowed series.
- The `seasonal` map is a Dafny `map`. The iteration order of Rust's `HashMap` is never observed by the driver.
- The test fixture (the CSV of R results) and the numeric comparison with R are not modelled. Only the test's configuration is, in `HourlyAndWeekly`.
- The accessors `trend`, `seasonals`, `residuals` and `robust_weights` are the datatype's fields; only `seasonal(period)` is a member.
- `sort_unstable` is modelled by an insertion sort. `SortedUnique` shows that any sort of the same numbers yields the same sequence.
