# SFDE core in Dafny

A model of the computational core of SFDE, a tool that estimates how long star formation lasted
in globular clusters. For every cluster, the tool does the following:

- It finds an initial mass function (a segmented power law in stellar mass).
- It computes how much iron the cluster must have produced to explain the spread of its [Fe/H].
- It draws stars one at a time from the most massive down. Every star that explodes as a
  supernova pays part of that iron budget. The mass of the last exploding star, converted to a
  stellar lifetime, is the star formation duration.

The model covers the following modules:

| Dafny module | Python file | What it models |
|---|---|---|
| `Common` | `src/common.py` | the two-point linear inter/extrapolation every table lookup rests on |
| `Time` | `src/time.py` | nearest-entry searches in the built-in stellar table, on log values |
| `MassFunction` | `src/massfunction.py` | the segmented power law: constructor fallback, normalisation constants `ks`, getters, the segment walk of `ComputeIntegral`, star and mass counts, and `GetMassStarMinX` |
| `StarExtractor` | `src/StarExtractor.py` | the two-state extractor that returns the next most massive star; a class with a mutable `lastMass` |
| `RemnantCalculator` | `src/RemnantCalculator.py` | the choice and inter/extrapolation of metallicity-tagged columns, and the table lookup `GetValFromList` |
| `Data` | `src/Data.py` | the per-cluster column store (a class whose map of columns grows), `SNExplodes` and `Ejecta` |
| `DataProcessor` | `src/DataProcessor.py` | the three processing steps, the enrichment loop of `ComputeSNe`, and `ProcessData` |

Modelling choices:

- **Numbers.** Python floats are modelled as Dafny `real`s.
- **Exceptions.** Raised exceptions become `Result`/`Outcome` values. They carry the exception
  kind and, where the source raises with a message, the same message.
- **`pow`, `np.log` and `np.exp`.** These are the fields of an `Elementary` value passed in.
  Any fact about them that a lemma needs is stated as one of its hypotheses.
- **External inputs.** The loaded tables are parameters, and so are the solver that produces a
  cluster's mass function and the lifetime lookup `GetTimeFromMass`.
- **Code that changes state is imperative Dafny, checked against functions that specify it.**
  - `ComputeKs`, `ComputeIntegral`, `FindClosestInList`, `FindValues` and the three
    processing steps are methods whose loops are specified by functions.
  - `cData` is a class whose column map the steps extend.
  - `cStarExtractor` is a class whose `lastMass` each call replaces.

Behaviour of the code that the model keeps:

- **`SNExplodes` on a tie.** When a mass lies exactly halfway between two table masses, the
  test at src/Data.py:147 is strict, so the lower entry's flag wins (`Data.SNExplodesTie`).
- **Ending the enrichment loop.** The loop stops once the iron budget is paid, or at the first
  star below 8 Msun, which sets NSN and mlast to NaN; an error raised by the extractor or by
  `Ejecta` ends it as well.
- **`ComputeIntegral` on a degenerate interval.** `ComputeIntegral(b, b)` at a segment bound
  `b` below the top does not return 0. Its inner test `bounds[n] < mass2` is strict, so the
  walk runs on to the top bound. The model keeps this behaviour and states it
  (`MassFunction.IntegralAtBound`).
- **`GetMassStarMinX` at the lowest bound.** The count from `bounds[0]` to itself is
  therefore the whole range's count (`MassFunction.MassStarMinXAtLowestBound`).

## Model

| member | source | states |
|---|---|---|
| Common.LinInterExtrapolate | src/common.py:13-25 | X3 == X1 returns Y1 and X3 == X2 returns Y2 without arithmetic; otherwise (Y3-Y1)(X2-X1) == (Y2-Y1)(X3-X1), i.e. the result lies on the line through both points, inside or outside [X1, X2]; division by X2-X1 is required only when neither abscissa is hit |
| Common.LinInterSymmetric | src/common.py:20-25 | swapping the two points does not change the result |
| Common.LinInterOfOnLine | src/common.py:25 | every point of the line is what the function returns at its abscissa (the result is the unique point of the line) |
| Common.LinInterConstant | src/common.py:25 | equal ordinates Y1 == Y2 give Y1 for every X3 |
| Common.LinInterBetween | src/common.py:25 | strictly between the two abscissae the result lies between the two ordinates |
| Common.LinInterTestValues | test/test_common.py:23-27 | the five pinned values, including the extrapolations -0.2 and 3.0 |
| Time.FindClosestInList | src/time.py:6-21 | the returned index is that of an entry nearest to `val`, and no earlier entry is as near (ties go to the earliest) |
| Time.NearerRowAscending | src/time.py:31-38 | the first entry above `logmass` or its predecessor, whichever is nearer (the predecessor on a tie); row 0 below the table; the last row when no entry lies above; on an increasing column the row is the first nearest entry |
| Time.MassToTime | src/time.py:24-38 | the lifetime column minus 6 at the nearest row of the mass column; first row below, last row above the table |
| Time.MassToMfin | src/time.py:59-73 | the remnant-mass column at the nearest row of the mass column; first row below, last row above the table |
| Time.NearerRowDescending | src/time.py:49-56 | the first entry below `logtime` or its predecessor, the entry only when it is strictly nearer; row 0 above the table; the last row when no entry lies below; on a decreasing column the row is the first nearest entry |
| Time.TimeToMass | src/time.py:41-56 | the mass column at the row that `NearerRowDescending` picks on the lifetime column |
| MassFunction.Ks | src/massfunction.py:30-52 | on success there is one k per slope; a zero power in the matching step or a zero total mass is ZeroDivisionError |
| MassFunction.MatchedK | src/massfunction.py:37 | the appended preliminary k makes the two power laws meet at the shared bound |
| MassFunction.ComputeKs | src/massfunction.py:30-52 | the append loop, the segment-mass loop and the rescale compute exactly `Ks` |
| MassFunction.Create | src/massfunction.py:7-27 | wrong lengths fall back to bounds [0.08, 0.5, 150] and slopes [1.3, 2.3]; otherwise the inputs are kept; the ks are `Ks` of the kept lists and its error propagates; the result is well-formed |
| MassFunction.KsContinuous | src/massfunction.py:33-52 | the stored ks make neighbouring power laws equal at every interior bound |
| MassFunction.KsNormalised | src/massfunction.py:39-52 | the segment masses with the stored ks add up to Mtot - bounds[-1] |
| MassFunction.KsTestValues | test/test_massfunction.py:59-76 | the ks the unit test pins (0, 1/0.92, and two equal ks 1/(0.92 + ln 2)), given the values of the powers and logarithms involved |
| MassFunction.Segment | src/massfunction.py:80-82 | the first segment whose upper bound is at least the mass |
| MassFunction.SegmentOfSorted | src/massfunction.py:80-82 | with increasing bounds, the segment holds the mass in (b_a, b_a+1]; an interior bound belongs to the segment below |
| MassFunction.GetFunctionValue | src/massfunction.py:71-82 | ValueError with its message exactly when the mass is outside [bounds[0], bounds[-1]] |
| MassFunction.GetMassDensity | src/massfunction.py:85-96 | fails exactly where `GetFunctionValue` fails, with its own message, and is otherwise mass times the function value |
| MassFunction.FunctionValueContinuous | src/massfunction.py:80-82 | for a constructed function, the value at an interior bound (from the segment below) equals the segment above's power law there |
| MassFunction.GetAlpha | src/massfunction.py:99-108 | Ok exactly for 0 <= index < len(alphas), then alphas[index]; otherwise ValueError with its message |
| MassFunction.GetK | src/massfunction.py:111-120 | Ok exactly for 0 <= index < len(ks), then ks[index]; otherwise ValueError with its message |
| MassFunction.GetterTestValues | test/test_massfunction.py:35-56 | the getters return the constructor's slopes and raise for -1, 3, 0.05 and 3.0 |
| MassFunction.IntRanAdditive | src/massfunction.py:129 | the per-segment integral is additive over adjacent ranges, in both closed forms |
| MassFunction.ComputeIntegral | src/massfunction.py:123-158 | the clipping and the segment walk under the `InRange` flag compute exactly `Integral` |
| MassFunction.IntegralIsCumDifference | src/massfunction.py:123-158 | on a non-empty clipped interval the integral is the difference of the cumulative integrals at its ends |
| MassFunction.IntegralAtBound | src/massfunction.py:141-156 | `ComputeIntegral(b_i, b_i)` is the integral from b_i to the top bound, not 0 |
| MassFunction.GetNumbers | src/massfunction.py:161-177 | for increasing bounds and a non-empty clipped interval, the star count is the difference of the cumulative integral at the two ends plus exactly one star if and only if mass2 reaches bounds[-1] |
| MassFunction.GetTotNumbers | src/massfunction.py:180-183 | for increasing bounds, the total count is the integral over all segments plus the most massive star |
| MassFunction.GetMass | src/massfunction.py:186-202 | for increasing bounds and a non-empty clipped interval, the mass is the difference of the cumulative mass integral at the two ends plus bounds[-1] if and only if mass2 reaches bounds[-1] |
| MassFunction.GetMassPortion | src/massfunction.py:205-210 | ZeroDivisionError exactly when Mtot is 0; otherwise the portion times Mtot is `GetMass` |
| MassFunction.TotalMassIsMtot | src/massfunction.py:186-210 | a constructed function holds its total mass: `GetMass` over the whole range is Mtot and the mass portion is 1 |
| MassFunction.MassStarMinX | src/massfunction.py:213-238 | a mass outside the bounds is ValueError with its message; every error it raises is that ValueError, RecursionError from a search nested too deep, or ZeroDivisionError from a zero k (`SearchError`) |
| MassFunction.InvertCountInverts | src/massfunction.py:235-238 | the closed form inverts the segment's star count: `numStars` stars lie between the result and `mass` |
| MassFunction.ClosedFormInverts | src/massfunction.py:230-238 | when the stars down to the segment's lower bound suffice, `GetMassStarMinX` stops in the segment and its result has exactly `numStars` stars of that segment above it |
| MassFunction.MassStarMinXRestarts | src/massfunction.py:230-233 | otherwise the search restarts from the lower bound with the stars skipped subtracted, and that bound lies in the segment below |
| MassFunction.MassStarMinXAtLowestBound | src/massfunction.py:230 | at bounds[0] the count to the bound is the whole range's count without the top star |
| MassFunction.MassStarMinXCount | src/massfunction.py:213-238 | across any number of segment bounds, the result lies below `mass` and not below bounds[0], and exactly `numStars` stars lie between the two (cumulative counts), given power laws whose counts grow with the range and a search that inverts where the powers invert |
| StarExtractor.StarExtractor.constructor | src/StarExtractor.py:4-9 | the extractor reads the given mass function and has no last mass |
| StarExtractor.StarExtractor.GetNextMostMassiveStar | src/StarExtractor.py:12-20 | the first call returns the top bound and later calls `GetMassStarMinX(last, 1.0)`; the answer is the `drawn`-th element of `NthStar` and becomes the stored last mass; an error leaves the extractor unchanged |
| StarExtractor.NextStarCount | src/StarExtractor.py:17-18 | one step, crossing segment bounds or not, returns a strictly lighter star not below bounds[0], and one more star lies between it and the top |
| StarExtractor.NthStar | src/StarExtractor.py:12-20 | the answer of the n-th call of a fresh extractor: the first call never raises, and a later one raises only what `GetMassStarMinX` raises (`SearchError`); `StarCounts` gives the answers' star counts |
| StarExtractor.StarCounts | test/test_StarExtractor.py:54-57 | while every step is ready (`StepReady`), the n-th answer has n + 1 stars between it and the top (top star included), lies not below bounds[0], and the answers strictly decrease |
| RemnantCalculator.FindValues | src/RemnantCalculator.py:22-73 | the loop over the headings computes exactly `FindValuesSpec` |
| RemnantCalculator.FirstExactAt | src/RemnantCalculator.py:46-47 | the first column tagged exactly ZH is returned unchanged |
| RemnantCalculator.ScanBelowIsBest | src/RemnantCalculator.py:48-52 | `Below` is the column with the greatest tag strictly below ZH (the earliest on ties), unset exactly when there is none |
| RemnantCalculator.ScanAboveIsBest | src/RemnantCalculator.py:53-57 | `Above` is the column with the smallest tag strictly above ZH (the earliest on ties), unset exactly when there is none |
| RemnantCalculator.ScanOrdered | src/RemnantCalculator.py:48-57 | each record lies on its side of ZH, and a displaced record is worse than the one that displaced it |
| RemnantCalculator.UntaggedIgnored | src/RemnantCalculator.py:39-42 | a heading without the prefix or with a non-numeric suffix changes nothing, wherever it stands |
| RemnantCalculator.Rows | src/RemnantCalculator.py:73 | n rows, each on the line through the two columns' rows at ZH; IndexError when a column is shorter than n |
| RemnantCalculator.FindValuesInterpolates | src/RemnantCalculator.py:72-73 | with columns on both sides, each row lies between the two bracketing rows, with n rows, or IndexError |
| RemnantCalculator.FindValuesOneSide | src/RemnantCalculator.py:59-70 | one side only: that side's best column unchanged when nothing was displaced, else the extrapolation from it and the displaced column; no tagged column at all is KeyError |
| RemnantCalculator.FindValuesTestInterpolates | test/test_RemnantCalculator.py:22-30 | the pinned interpolation [6.25, 3.1] at ZH = -0.5 |
| RemnantCalculator.FindValuesTestExactHit | test/test_RemnantCalculator.py:32-35 | the pinned exact column [0.8, 1.2] at ZH = -1.0 |
| RemnantCalculator.Construct | src/RemnantCalculator.py:11-19 | a missing "Mstar" is KeyError; on success the masses are "Mstar" and the lifetime and remnant columns are the two searches for ZH with len(Mstar) rows; otherwise the first failing search's error |
| RemnantCalculator.GetValFromList | src/RemnantCalculator.py:76-94 | on a strictly increasing axis with one data entry per axis entry, the lookup is the piecewise-linear function through the table: on the line of every segment that holds the value, the first segment's line extended below the table and the last one's above it (`GetValFromListExact` gives the table entries) |
| RemnantCalculator.GetValFromListExact | src/RemnantCalculator.py:90-92 | at a table entry the lookup returns the matching data entry |
| RemnantCalculator.TwoEntryLine | src/RemnantCalculator.py:83-94 | for two entries every branch follows the one line through both points |
| RemnantCalculator.TwoEntryRoundTrip | src/RemnantCalculator.py:83-94 | a two-row lookup forwards then backwards returns the input |
| RemnantCalculator.GetValFromListTestValues | test/test_RemnantCalculator.py:43-51 | the six pinned lookups |
| Data.SNExplodes | src/Data.py:133-150 | on a table sorted by mass, the flag of the first nearest table mass, whichever branch answers (`SNExplodesIsNearest` shows one exists, `SNExplodesTie` settles ties) |
| Data.SNExplodesIsNearest | src/Data.py:133-150 | on a sorted table the answer is the flag of the nearest table mass, the lower of two equally near ones; first flag at or below the first mass, last above the last |
| Data.SNExplodesTie | src/Data.py:147-150 | a mass exactly halfway between neighbours takes the lower one's flag |
| Data.SlopeIsLine | src/Data.py:167-180 | the extrapolation expression of `Ejecta` is the two-point line |
| Data.Ejecta | src/Data.py:153-188 | never negative; a one-row table gives its one yield (clamped) for every mass |
| Data.EjectaMatchesLookup | src/Data.py:158-182 | for two rows or more, `Ejecta` is `GetValFromList` on the table clamped at zero, errors included |
| Data.EjectaAtTableMass | src/Data.py:163-164 | at a table mass the result is that row's yield (clamped) |
| Data.EjectaPiecewiseLinear | src/Data.py:166-182 | the line through the bracketing rows, the edge pair's line outside the table, clamped at zero |
| Data.ClusterData.Load | src/Data.py:42-48 | an empty SN table, then an empty ejecta table, is a ValueError with its message; otherwise a fresh store holding the inputs |
| Data.ClusterData.AccessGCData | src/Data.py:81-85 | the named column, KeyError exactly when it is missing |
| Data.ClusterData.AddGCData | src/Data.py:122-130 | ValueError with its message exactly when the length differs from `Name`'s, leaving the store unchanged; otherwise the column is stored, `AccessGCData` returns it and every other column is unchanged; alignment is preserved |
| DataProcessor.Classify | src/DataProcessor.py:96-104 | Light exactly below 8 Msun, Dud exactly for a non-exploding star at or above it, otherwise a supernova with the star's `Ejecta` or that lookup's error |
| DataProcessor.NextDraw | src/DataProcessor.py:94-104 | the next star of the extractor classified: the draw of the stream at the extractor's position, which advances when a star is returned |
| DataProcessor.BurnStep | src/DataProcessor.py:93-104 | one round with budget left: error and light star end the loop; a dud leaves budget, NSN and mlast; a supernova pays its ejecta, counts one and becomes mlast |
| DataProcessor.CountSupernovae | src/DataProcessor.py:86-104 | the `while` loop with NSN = 0 and mlast = the top bound computes exactly `Burn` on the cluster's draws |
| DataProcessor.Burn | src/DataProcessor.py:90-104 | the enrichment loop: a normal exit has no budget left and never lowers NSN, and with no new supernova leaves mlast and the budget as they were (`BurnPaysOff` finds the draw mlast comes from, `BurnIsTally` counts the draws) |
| DataProcessor.BurnPaysOff | src/DataProcessor.py:90-104 | a budget <= 0 at the start ends the loop at once with NSN and mlast as they were (0 and the top bound); a normal exit has no budget left and never lowers NSN; with no new supernova mlast and the budget are untouched; otherwise mlast is the mass of a supernova draw |
| DataProcessor.BurnIsTally | src/DataProcessor.py:101-104 | NSN is the number of supernovae among the draws made, none too light; the iron they eject is what left the budget; mlast is the last of them |
| DataProcessor.BurnConstantYield | test/test_DataProcessor.py:85 | with every star a supernova of yield y > 0 and enough stars, NSN = ceil(budget / y) |
| DataProcessor.BurnWitnessIrrelevant | src/DataProcessor.py:93 | the result of the loop does not depend on which stopping draw bounds it |
| DataProcessor.EnrichIsBurn | src/DataProcessor.py:86-104 | the enrichment of a cluster is the loop run on its draws |
| DataProcessor.ProducedIron | src/DataProcessor.py:63 | ZeroDivisionError exactly when SFE is 0; no spread or SFE 1 gives 0 |
| DataProcessor.ComputeIMF | src/DataProcessor.py:27-48 | succeeds exactly when the five input columns exist, hold numbers where read and `Mass` has one row per cluster (`IMFInputs`); then columns `IMF` and `Mini` with one row per cluster: the solver's mass function at [Fe/H] + 0.3 and its total mass; nothing else changes; a failure leaves the table unchanged |
| DataProcessor.IMFStepDetermines | src/DataProcessor.py:44-48 | the table `ComputeIMF` leaves is determined by its inputs (`AfterIMF`) |
| DataProcessor.ComputeIron | src/DataProcessor.py:51-66 | succeeds exactly when the four input columns exist, hold numbers, SFE is never 0 and `Mini` has one row per cluster (`IronInputs`); then column `ProducedIron`, one row per cluster by the formula; nothing else changes; a failure leaves the table unchanged |
| DataProcessor.IronStepDetermines | src/DataProcessor.py:62-66 | the table `ComputeIron` leaves is determined by its inputs (`AfterIron`) |
| DataProcessor.SNeCells | src/DataProcessor.py:106-112 | SFD is NaN exactly when mlast is, and exactly when NSN is, and exactly when a light star ended the loop |
| DataProcessor.EnrichRow | src/DataProcessor.py:85-111 | one row of the loop raises exactly when the row is not ready; a short column is IndexError, a cell in `IMF` that is not a mass function is AttributeError (`Getbounds`), a produced iron that is not a number is TypeError, and an enrichment loop that raises passes its error on; otherwise its three cells come from `Enrich` |
| DataProcessor.EnrichRows | src/DataProcessor.py:85-111 | the loop over the rows raises exactly when some row is not ready; otherwise three columns, one entry per mass function, each row as `SNeRow` says |
| DataProcessor.ComputeSNe | src/DataProcessor.py:69-117 | succeeds exactly when the three input columns exist, [Fe/H] holds numbers, every row is ready and `IMF` has one row per cluster (`SNeInputs`); then columns `NSN`, `mlast`, `SFD` with one row per mass function, each from the enrichment loop on that row's mass function and produced iron; a missing `IMF` column is KeyError; a failure leaves the table unchanged |
| DataProcessor.IMFsReadyFromRows | src/DataProcessor.py:44-48 | every mass function written by `ComputeIMF` is one the solver returns |
| DataProcessor.IronKeepsIMFs | src/DataProcessor.py:23 | `ComputeIron` leaves the mass functions alone |
| DataProcessor.StepsCompose | src/DataProcessor.py:22-24 | the three steps in this order leave every cluster row with its IMF, iron and supernova values |
| DataProcessor.ProcessData | src/DataProcessor.py:18-24 | `ComputeIMF`, then `ComputeIron`, then `ComputeSNe`; succeeds exactly when each step's inputs are ready on the table the step before left (`ProcessReady`); on success every row holds all three steps' results; a failing step leaves the table as the steps before it left it |

## Left out

- `IsNumber` (src/common.py:1-10): Python's `float(text)` is the parameter `parse`. The model
  does not decide which strings spell numbers.
- Powers, natural logarithms and exponentials are abstract. Floating-point rounding, NaN
  propagation through arithmetic and overflow are not modelled. Only the decisions made with
  the numbers are modelled.
- Division by zero is ZeroDivisionError throughout the model, as for Python floats. A
  division whose operand comes from `np.log`, `np.exp` or `np.log10` acts on numpy values
  instead and gives inf or NaN with a warning, raising nothing. The model raises in each of
  these cases:
  - `GetValFromList` on the remnant tables, whose columns hold `np.log10` values
    (src/Data.py:74-78), when two axis entries are equal.
  - `Ks` with a zero total mass once some slope is 2.0, because the segment masses then come
    from `np.log` (src/massfunction.py:44-50).
  - Every k once some slope is 2.0, because `MassTot` and so `Factor` are then numpy values
    (src/massfunction.py:49-52). A zero k then makes `NumStars / k` and
    `NumStars * (1 - alpha) / k` in `GetMassStarMinX` (src/massfunction.py:236, 238) inf
    instead of raising. For example, bounds [0.08, 1, 2], slopes [1.0, 2.0] and Mtot 2.0 give
    a factor of 0, and Python's `GetMassStarMinX(2.0, 1.0)` returns 0.0 where the model
    raises.
  - `GetMass(...) / Mtot` in `GetMassPortion` (src/massfunction.py:210) for a zero Mtot, once
    the mass is a numpy value: some slope is 2.0, as above.
  - The star count of a segment with slope 1.0, which `IntRan` computes with `np.log`
    (src/massfunction.py:129). It reaches `NumStars` after a restart of `GetMassStarMinX`, so
    the two divisions above give inf or NaN there as well.
- MassFunction.MassStarMinX: a zero k is ZeroDivisionError, the Python-float behaviour. Where
  k or `NumStars` is a numpy value, as in the line above, Python returns a mass instead.
- MassFunction.GetMassPortion: a zero Mtot is ZeroDivisionError, the Python-float behaviour.
  Where the mass is a numpy value, as in the line above, Python returns inf or NaN instead.
- A NaN input cell (for example in `Fe-H`) becomes a TypeError in the model. Python would carry
  the NaN through the arithmetic.
- The files themselves are not modelled: cDataReader, cDataWriter, `main.py`, the table
  `src.timedata` (a parameter of `Time`), and the file reading and remnant-table checks of the
  `cData` constructor (src/Data.py:18-40, 50-78). `GetRemnantData`, `AccessGCDataPrinteable`
  and the stderr message of the mass-function fallback are left out as well.
- The `np.log10` and `pow(10, ...)` conversions around the lookups of `src/time.py` and of
  `GetTimeFromMass`, `GetMassFromTime` and `GetMfinFromMass` are not modelled. The lookups
  work on log values.
- The IMF solver (src/IMFGenerator.py and src/BaseSCCalc.py) is the parameter `solve` of
  `ComputeIMF`. It is taken to be total: errors it would raise are not modelled.
- `GetTimeFromMass` on a fresh cRemnantCalculator for the row's metallicity is the parameter
  `timeFromMass` of `ComputeSNe`. It is taken to be total, and so is the construction of
  that calculator (src/DataProcessor.py:88), which runs for every row before the loop. That
  construction can raise: KeyError for a missing `Mstar` column, IndexError in its row
  comprehension, and the AttributeError of the line below. The calculators of `ComputeIMF`
  (src/DataProcessor.py:42) are likewise inside the total `solve`.
- RemnantCalculator.FindValues: modelled for list-valued columns, which is what the unit tests
  pass. The running program passes tuples:
  - `GetData` builds them (src/DataReader.py:41) and `cData` stores them (src/Data.py:74-78).
  - They reach `cRemnantCalculator` through `GetRemnantData` (src/DataProcessor.py:42, 88).
  - On a tuple, `data[Heading].copy()` raises AttributeError on the exact-hit and one-side
    paths (src/RemnantCalculator.py:47, 62, 68).

  Only the two-sided interpolation returns a list there. The same holds for
  `RemnantCalculator.Construct`, which calls it.
- The solar iron abundance `pIronSun` is not defined in src/DataProcessor.py. It is the
  parameter `ironSun`.
- `RecursionLimit`: a fixed bound of 1000 nested `GetMassStarMinX` calls stands in for
  Python's recursion limit. Python's limit also counts the callers' frames (`ProcessData`,
  `ComputeSNe`, `GetNextMostMassiveStar`, and `GetNumbers` and `ComputeIntegral` below the
  deepest call), so Python raises RecursionError a few levels earlier than the model.
- The extractor does not reach the loop's NaN exit for every mass function, so termination
  needs a hypothesis. `ComputeSNe` and `ProcessData` assume (`IMFsReady`, `SolverReady`) that
  every mass function's star stream eventually fails or drops below 8 Msun.
- StarExtractor.NextStarCount: proved under `PowerLawsIncreasing` and `StepReady`. The first
  says that the masses are positive and that every segment's star count grows with its range
  of positive masses, which the abstract powers and logarithms do not give by themselves. The second says that the search does not restart from
  bounds[0] (where the count to the bound is the whole range's, as
  `MassStarMinXAtLowestBound` states) and, from the top bound, that the top segment holds at
  least one star (there the count to the bound includes the top star but the closed form does
  not, so the inversion would leave the segment).
- StarExtractor.StarCounts: the n + 1 count and the strict decrease hold only while every
  step is ready in the sense of `NextStarCount`.
- MassFunction.MassStarMinXCount: under the same two hypotheses as `NextStarCount`, with the
  inversion of the abstract powers assumed at the point where the search stops, and that point
  a positive mass (`Reaches`). The true powers give a positive mass there.
- MassFunction.ClosedFormInverts: the closed form's inversion is assumed at the one point
  used (`InverseAt`), because the powers and logarithms are abstract.
- DataProcessor.BurnConstantYield: proved for the exact ceiling. The test's
  `int(P / y + 0.999999)` differs from the ceiling only within 1e-6 of an integer.
