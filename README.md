# orflib pricing core in Dafny

This project models four parts of the orflib quantitative-finance library and
proves properties of the models.

- **Brownian-bridge path generator** (`BrownianBridge<NRNG>`). Its
  constructor recursively bisects the time grid, with time 0 prepended, into
  bridge points. Each point holds the two neighbour indices, the split index,
  two interpolation weights, a conditional volatility and a priority that
  doubles per level. The list is then stable-sorted by priority.
  `createPath` replays the sorted list onto one column of a path matrix.
  `next` does this for every factor, turns the levels into increments in
  place (row i becomes level i+1 minus level i), drops the last row, which
  still holds the final level, and applies the correlation factor to every
  row in place.
- **Named-object registry** (`SPtrMap<T>`). This is a `std::map` from
  normalised names to a shared pointer and a version stamp. A version
  counter increments on every `set`. `get`, `version` and the removal in
  `set` look a name up through `c_str()`, so only its part before a NUL
  character counts there.
- **Barrier product** (`BarrierCallPut`). The constructor validates the terms
  and lays out the fixing schedule. `eval` at the last fixing writes the
  single payment, and before it, it recomputes the continuation flag.
- **Simple pricers**:
  - the checks of `fwdPrice`;
  - the validation and formula-selection table of `barrierOptionBS`, which
    rewrites its caller's barrier-type buffer in place for puts;
  - the arrays and leg sums of `cdsPV`.

## Files and modules

- `wrappers.dfy` (`Wrappers`) holds `Result`, `Option` and `Outcome`. These
  model C++ exceptions (`ORF_ASSERT`, `throw`) and null pointers.
- The bridge generator takes its form from the C++ source:
  - `bridge_builder.dfy` (`BridgeBuilder`) models the recursion of
    `initBridgePoints` as a pure function `Build`, with the `upper_bound`
    search and the `DBL_EPSILON` tie-break written out.
  - `bridge_order.dfy` (`BridgeOrder`) models `std::list::sort` as a stable
    insertion sort.
  - `bridge_path.dfy` (`BridgePath`) holds the specification functions of
    `createPath` and `next`.
  - `monte_carlo.dfy` (`MonteCarlo`) is the imperative generator: a
    `BrownianBridge` class whose fields are `bridgePoints_` and
    `normalDevs_`, and a `Matrix` class over an `array2<real>`. Each loop of
    the source is a method proved against those specification functions.
- `c_strings.dfy` (`CStrings`) holds `CStr`, the text of a character
  buffer before its first NUL, as `c_str()` and `char*` arguments see it.
- `sptr_map.dfy` (`ObjectRegistry`) models `SPtrMap<T>` as a class with a
  `map` field and a version counter.
- `barrier_call_put.dfy` (`BarrierProduct`) models `BarrierCallPut` as a
  class over three arrays: fixing times, payment times and payment amounts.
- `simple_pricers.dfy` (`SimplePricers`) models `fwdPrice`,
  `barrierOptionBS` and `cdsPV`.

Numbers are `real`. Routines the core calls but does not define are
parameters of the model:
- `sqrt` from `<cmath>`;
- `exp`;
- the discount curve of `cdsPV`;
- the closed-form option prices `europeanOptionBS(...)[0]`, `barrierCdiPui`,
  `barrierCdoPuo` and `barrierCuiPdi`;
- the deviates drawn by the normal random-number generator, given to `next`
  as one vector per factor;
- the Cholesky factor `sqrtCorrel_`, which the `PathGenerator` base computes.

Several specification functions stand for source code directly. The rows
below state what is proved about them:
- `ObjectRegistry.NormalisedName` is `processName` (sptrmap.hpp:75-82);
- `BridgeOrder.StableSortByPriority` is `bridgePoints_.sort()`
  (brownianbridge.hpp:93);
- `BridgePath.Assemble` is `createPath` on one column
  (brownianbridge.hpp:165-188);
- `BridgePath.NextGrid` is `next` on the whole matrix
  (brownianbridge.hpp:191-218);
- `BarrierProduct.ContinuationAsWritten` is the two assignments of
  barriercallput.hpp:116-118;
- `SimplePricers.BarrierPrice` is the selection table of
  simplepricers.cpp:225-260;
- `SimplePricers.CdsLegs` is the two leg sums of simplepricers.cpp:189-198.

## Model

| member | source | states |
|---|---|---|
| BridgeBuilder.UpperBound | orflib/methods/montecarlo/brownianbridge.hpp:131 | the binary search of `std::upper_bound` returns an index inside the searched window, and returns its end only when the window's last time is at most the key |
| BridgeBuilder.UpperBoundOnSorted | orflib/methods/montecarlo/brownianbridge.hpp:131 | on a sorted window the search returns the partition point: every earlier time is at most the key, every later one exceeds it |
| BridgeBuilder.MiddleIndex | orflib/methods/montecarlo/brownianbridge.hpp:122-142 | the split index, after the epsilon tie-break and both clamps, lies strictly inside the range |
| BridgeBuilder.MiddleIndexNearest | orflib/methods/montecarlo/brownianbridge.hpp:128-141 | on a sorted grid the split is, up to `DBL_EPSILON`, the interior grid point nearest the mean of the two end times |
| BridgeBuilder.Build | orflib/methods/montecarlo/brownianbridge.hpp:100-160 | a successful build records fewer points than the range has steps |
| BridgeBuilder.BuildBaseCases | orflib/methods/montecarlo/brownianbridge.hpp:106-155 | a range with no interior index or with equal end times records nothing; one whose left time exceeds its right time throws; otherwise a successful build starts with the range's own point, split at `MiddleIndex` |
| BridgeBuilder.BuildUnfold | orflib/methods/montecarlo/brownianbridge.hpp:144-158 | a successful build is the range's own point, then the left half's points, then the right half's, in that order |
| BridgeBuilder.BuildSplit | orflib/methods/montecarlo/brownianbridge.hpp:155-158 | a range builds exactly when both of its halves build |
| BridgeBuilder.BuildSucceedsOnSortedGrid | orflib/methods/montecarlo/brownianbridge.hpp:115-121 | the "Time steps must be increasing order" exception occurs only if some time exceeds a later one |
| BridgeBuilder.BuildWithinRange | orflib/methods/montecarlo/brownianbridge.hpp:144-147 | every point's indices satisfy first <= firstPoint < middlePoint < secondPoint <= last |
| BridgeBuilder.BuildMiddlesWithinInterior | orflib/methods/montecarlo/brownianbridge.hpp:144-158 | the split indices form a sub-multiset of the interior indices, none repeated |
| BridgeBuilder.BuildCoversInterior | orflib/methods/montecarlo/brownianbridge.hpp:100-160 | on a strictly increasing grid the build succeeds, and its split indices are exactly the interior indices, each once |
| BridgeBuilder.BuildPriorities | orflib/methods/montecarlo/brownianbridge.hpp:154-158 | a range's first point carries the priority passed in, and every point carries that priority doubled once for each other point whose range strictly encloses its own, that is, once per recursion level |
| BridgeBuilder.BuildPointsFromGrid | orflib/methods/montecarlo/brownianbridge.hpp:144-154 | every point is the record made from the grid at its own three indices, over an increasing pair of end times |
| BridgeBuilder.BuildWeights | orflib/methods/montecarlo/brownianbridge.hpp:151-153 | the two weights of every point sum to 1; on a strictly increasing grid each weight is in (0, 1) and the volatility squared is the bridge variance (Ti-T1)(T2-Ti)/(T2-T1) |
| BridgeBuilder.BuildAncestry | orflib/methods/montecarlo/brownianbridge.hpp:144-158 | each neighbour index of a point is an end of the whole range or the split of a point with a strictly smaller priority |
| BridgeBuilder.RepeatedTimesBuild | orflib/methods/montecarlo/brownianbridge.hpp:106-158 | on the grid {1, 1, 1, 2} the builder splits only indices 3 and 1, because the range [1, 3] has equal end times and records nothing |
| BridgeBuilder.ThreeStepExample | orflib/methods/montecarlo/brownianbridge.hpp:106-158 | for the grid {1, 2, 3} the builder records (0,3,2) with weights 1/3 and 2/3 at priority 1, then (0,2,1) with weights 1/2 and variance 1/2 at priority 2 |
| BridgeOrder.SortSorted | orflib/methods/montecarlo/brownianbridge.hpp:93 | the sorted list's priorities do not decrease |
| BridgeOrder.SortPermutes | orflib/methods/montecarlo/brownianbridge.hpp:93 | the sort is a permutation of the points, and so of their split indices |
| BridgeOrder.SortStable | orflib/methods/montecarlo/brownianbridge.hpp:93 | points of equal priority keep their relative order |
| BridgeOrder.SortedNeighboursFirst | orflib/methods/montecarlo/brownianbridge.hpp:93 | after the sort every neighbour of a point is a range end or the split of an earlier point in the list |
| BridgePath.SortedPointsReplayable | orflib/methods/montecarlo/brownianbridge.hpp:89-93 | the constructor's sorted list has fewer points than deviates, indexes rows of an N+1-row column, is priority-sorted, reads only rows defined before each point, and has distinct split indices in 1..N-1 |
| BridgePath.SortedPointsSplitInterior | orflib/methods/montecarlo/brownianbridge.hpp:89-93 | on a strictly increasing grid the sorted list has exactly N-1 points and splits every interior row once |
| BridgePath.AssembleSolvesBridge | orflib/methods/montecarlo/brownianbridge.hpp:173-186 | in the column `createPath` fills, row 0 is 0 and the last row is the first deviate; each point's split row is w1·(left row) + w2·(right row) + v·(its own deviate), the deviates taken in list order |
| BridgePath.AssembleIgnoresScratch | orflib/methods/montecarlo/brownianbridge.hpp:173-186 | when every interior row is some point's split, as on a strictly increasing grid, the filled column does not depend on what the path column held before |
| BridgePath.UnsplitRowKept | orflib/methods/montecarlo/brownianbridge.hpp:178-186 | an interior row that is no point's split keeps its previous value, in whatever order the points are replayed |
| BridgePath.RepeatedTimesKeepScratch | orflib/methods/montecarlo/brownianbridge.hpp:173-186 | on the grid {1, 1, 1, 2} the sorted list has two points, and the assembled row 2 is whatever the column held there before |
| BridgePath.IncrementsAddUpToFirstDeviate | orflib/methods/montecarlo/brownianbridge.hpp:176-202 | the increments of one factor's path sum to the first deviate, the end value of the path |
| BridgePath.CorrelateLowerTriangular | orflib/methods/montecarlo/brownianbridge.hpp:207-216 | for a lower-triangular (Cholesky) factor, the in-place loop that writes the last factor first computes the factor times the row |
| BridgePath.CorrelateIdentity | orflib/methods/montecarlo/brownianbridge.hpp:207-216 | the identity factor leaves a row unchanged |
| BridgePath.CorrelateNeedsTriangular | orflib/methods/montecarlo/brownianbridge.hpp:208-216 | with a non-triangular factor the in-place loop is not the product: swapping two factors maps (1, 2) to (1, 1), not (2, 1) |
| BridgePath.NextIsIncrements | orflib/methods/montecarlo/brownianbridge.hpp:193-204 | with no correlation factor, `next` leaves N rows, and row i holds every factor's increment from level i to level i+1 |
| BridgePath.NextWithTriangularFactor | orflib/methods/montecarlo/brownianbridge.hpp:193-217 | with a lower-triangular factor, each row after `next` is the factor times the increment row; with the identity it is the increment row |
| BridgePath.NextIgnoresPreviousPath | orflib/methods/montecarlo/brownianbridge.hpp:191-218 | when every interior row is some point's split, as on a strictly increasing grid, the result of `next` does not depend on the previous contents of the path matrix |
| MonteCarlo.Matrix.Resize | orflib/methods/montecarlo/brownianbridge.hpp:193 | the resized matrix keeps every old entry that fits and is zero elsewhere |
| MonteCarlo.BrownianBridge.Init | orflib/methods/montecarlo/brownianbridge.hpp:81-91 | the initialisers set N, the factor count, the factor, `sqrtLastTime_` = sqrt(last time) and the grid with time 0 prepended |
| MonteCarlo.BrownianBridge.Create | orflib/methods/montecarlo/brownianbridge.hpp:81-95 | the constructor throws exactly when the builder throws; otherwise the object holds the sorted build of [0, N], the invariant holds and the scratch vector has N entries |
| MonteCarlo.BrownianBridge.InitBridgePoints | orflib/methods/montecarlo/brownianbridge.hpp:100-160 | the recursive method succeeds exactly when `Build` does, and then it has appended `Build`'s points to the list |
| MonteCarlo.BrownianBridge.CreatePath | orflib/methods/montecarlo/brownianbridge.hpp:165-188 | fails, with the path unchanged, exactly when the row count is not the deviate count + 1; otherwise only column `factorIdx` changes, and it becomes the assembled column |
| MonteCarlo.BrownianBridge.ReplayPoints | orflib/methods/montecarlo/brownianbridge.hpp:178-186 | the loop over the sorted list leaves the column as the replay of all points, and the other columns untouched |
| MonteCarlo.BrownianBridge.Next | orflib/methods/montecarlo/brownianbridge.hpp:191-218 | the path becomes a fresh N x F matrix equal to `NextGrid` of the old path; the bridge points and the invariant are preserved; the scratch vector holds the last factor's deviates |
| MonteCarlo.BrownianBridge.AssembleFactors | orflib/methods/montecarlo/brownianbridge.hpp:195-198 | after the factor loop every column j is the path assembled from factor j's deviates |
| MonteCarlo.BrownianBridge.Difference | orflib/methods/montecarlo/brownianbridge.hpp:200-202 | the in-place loop turns rows 0..N-1 into the forward differences of the levels and keeps the last row |
| MonteCarlo.BrownianBridge.Correlate | orflib/methods/montecarlo/brownianbridge.hpp:207-217 | every row becomes the result of the in-place correlation loop on that row |
| MonteCarlo.BrownianBridge.CorrelateRow | orflib/methods/montecarlo/brownianbridge.hpp:209-215 | for row i, factor F-j-1 becomes the dot product of that row of the factor with the row as it stands, for j counting up; other rows are untouched |
| ObjectRegistry.ToUpper | orflib/sptrmap.hpp:78 | `toupper` leaves no lower-case letter and preserves whether a character is a blank |
| ObjectRegistry.NormalisedNameCases | orflib/sptrmap.hpp:75-82 | the name is refused as empty exactly when it is all blanks, and as having internal blanks exactly when its trimmed form has a blank; otherwise the result is the trimmed name upper-cased |
| ObjectRegistry.NormalisedNameShape | orflib/sptrmap.hpp:75-82 | a processed name is non-empty, blank-free and has no lower-case letter |
| ObjectRegistry.NormalisedNameIdempotent | orflib/sptrmap.hpp:75-82 | processing an already processed name gives it back unchanged |
| ObjectRegistry.NormalisedNameIgnoresCase | orflib/sptrmap.hpp:76-78 | names that agree up to letter case are processed to the same result |
| ObjectRegistry.NormalisedNameIgnoresPadding | orflib/sptrmap.hpp:76 | surrounding blanks do not change the result |
| ObjectRegistry.PaddedLowerCaseExample | orflib/sptrmap.hpp:75-82 | " abc " and "ABC" both become the key "ABC" |
| ObjectRegistry.StrLessTransitive | orflib/sptrmap.hpp:20 | the `std::string` order of the map's keys is transitive |
| ObjectRegistry.StrLessTotal | orflib/sptrmap.hpp:20 | any two distinct keys are ordered one way or the other |
| ObjectRegistry.SPtrMap.constructor | orflib/sptrmap.hpp:66-67 | the map starts empty, with the counter at whatever value it was given |
| ObjectRegistry.SPtrMap.ProcessName | orflib/sptrmap.hpp:75-82 | the trim, the empty-name check, the `toupper` loop and the `isspace` search together return exactly `NormalisedName` |
| ObjectRegistry.SPtrMap.GetPair | orflib/sptrmap.hpp:86-89 | the lookup is by the name up to its first NUL (`find(name.c_str())`): a stored key gives its entry, a missing one a null pointer with version 0, and the version is 0 exactly when the key is missing |
| ObjectRegistry.SPtrMap.RemovePair | orflib/sptrmap.hpp:93-101 | reports whether the name up to its first NUL was stored and erases that key, leaving the counter alone |
| ObjectRegistry.SPtrMap.List | orflib/sptrmap.hpp:105-110 | the names come in ascending string order, once each, and they are exactly the stored names |
| ObjectRegistry.SPtrMap.Contains | orflib/sptrmap.hpp:113-116 | throws exactly on an invalid name; otherwise tells whether the processed name is stored |
| ObjectRegistry.SPtrMap.Get | orflib/sptrmap.hpp:120-123 | throws exactly on an invalid name; otherwise returns the pointer stored under the processed name up to its first NUL, or null when there is none |
| ObjectRegistry.SPtrMap.Set | orflib/sptrmap.hpp:127-139 | throws on an invalid name and changes nothing; otherwise the counter goes up by one, the entries become `Stored` of the old ones with the pointer stamped with the new counter, and it returns the name and the new version; the invariant is kept |
| ObjectRegistry.Stored | orflib/sptrmap.hpp:130-131 | for a NUL-free name the entry under it is replaced and nothing else changes; for a name with a NUL the key before the NUL is erased and an entry already stored under the full name is kept; other keys are untouched |
| ObjectRegistry.NulNameErasesPrefix | orflib/sptrmap.hpp:94-98 | with "A" stored, storing under "A\0B" erases "A" |
| ObjectRegistry.NulNameKeepsEntry | orflib/sptrmap.hpp:131 | with "A\0B" stored and "A" absent, storing again under "A\0B" keeps the old pointer and version |
| ObjectRegistry.SPtrMap.Version | orflib/sptrmap.hpp:142-145 | throws exactly on an invalid name; otherwise the version stored under the processed name up to its first NUL, which is 0 exactly when nothing is stored there and never exceeds the counter |
| ObjectRegistry.SPtrMap.Clear | orflib/sptrmap.hpp:148-152 | the map becomes empty and the counter 0 |
| ObjectRegistry.SetStampsNewest | orflib/sptrmap.hpp:131 | after `set` under a NUL-free name, or one not yet stored, the name holds the pointer with the new version, which is greater than that of every other entry |
| BarrierProduct.TimeFactor | orflib/products/barriercallput.hpp:67-79 | the `switch` gives 12, 52 or 365.25 fixings per year, at least 12, exactly for the codes 0, 1 and 2 of MONTHLY, WEEKLY and DAILY, and the unknown-frequency exception for any other value |
| BarrierProduct.SizeCast | orflib/products/barriercallput.hpp:81 | the conversion to `size_t` truncates toward zero and gives 0 below 1 |
| BarrierProduct.NoStub | orflib/products/barriercallput.hpp:82-86 | `ceil` of the already truncated count is the count itself, so there is never a stub period or an offset |
| BarrierProduct.FixingCountFloor | orflib/products/barriercallput.hpp:81-83 | an unexpired product has floor(T·f) + 1 fixings, at least one; one that expired less than 2/f ago has none |
| BarrierProduct.ScheduleEnds | orflib/products/barriercallput.hpp:88-94 | the schedule has the fixing count as its length, starts at 0 when there are two or more fixings, ends at the expiry, and stays within [0, T] |
| BarrierProduct.ScheduleSteps | orflib/products/barriercallput.hpp:92-93 | fixings before the last are 1/f apart |
| BarrierProduct.ScheduleIncreasing | orflib/products/barriercallput.hpp:88-94 | the fixing times strictly increase |
| BarrierProduct.Payment | orflib/products/barriercallput.hpp:112-114 | the payment is never negative; it is positive exactly when the payoff is positive and the continuation value is not 1, and it is then the payoff |
| BarrierProduct.ContinuationFlag | orflib/products/barriercallput.hpp:116-119 | as intended, the flag is 0 or 1, and 1 exactly when the value was not already 1 and the barrier of the product's own direction is touched |
| BarrierProduct.UpBarrierLost | orflib/products/barriercallput.hpp:117-118 | as written, an up barrier never sets the flag |
| BarrierProduct.UpBarrierCounterexample | orflib/products/barriercallput.hpp:117-118 | with an up barrier at 100, the spot at 120 and an incoming value of 0, the code gives 0 where 1 is intended |
| BarrierProduct.DownBarrierAgrees | orflib/products/barriercallput.hpp:118 | on a down barrier the code as written agrees with the intended flag unless the incoming value was 1 |
| BarrierProduct.BarrierCallPut.Init | orflib/products/barriercallput.hpp:57-58 | the member initialisers copy the six terms |
| BarrierProduct.BarrierCallPut.Create | orflib/products/barriercallput.hpp:57-101 | the constructor throws, in the source's order, on a bad payoff type, then a negative strike, then a negative barrier, then an unknown frequency code, then expiry; it throws exactly when the terms are invalid, the frequency is unknown or T < 0; otherwise the schedule is `FixingTimes`, the single payment time is T and the single payment is 0 |
| BarrierProduct.BarrierCallPut.LayOutFixings | orflib/products/barriercallput.hpp:88-94 | the fixing loop fills the array with `FixingTimes` |
| BarrierProduct.BarrierCallPut.EvalPath | orflib/products/barriercallput.hpp:103-106 | the path overload always throws "Not implemented yet" |
| BarrierProduct.BarrierCallPut.Eval | orflib/products/barriercallput.hpp:108-120 | at the last fixing the payment becomes `Payment`; at any other fixing nothing the object holds changes; the invariant is kept |
| SimplePricers.FwdPrice | orflib/pricers/simplepricers.cpp:14-22 | fails exactly on a negative spot, time, rate or yield, with the error of the first failing check in that order, the negative-spot one first |
| SimplePricers.FwdPriceProperties | orflib/pricers/simplepricers.cpp:14-22 | the forward is never negative, and with zero time or zero carry it is the spot |
| SimplePricers.EuropeanOptionBS | orflib/pricers/simplepricers.cpp:58-67 | throws exactly when the payoff type is not 1 or -1, the strike or volatility is negative, or `fwdPrice` throws; the first failing check, in that order, gives the error, `fwdPrice`'s own error last; otherwise the European price |
| SimplePricers.BarrierCheckPasses | orflib/pricers/simplepricers.cpp:211-223 | the barrier pricer accepts exactly a payoff type of ±1, one of "uo", "ui", "do", "di", and non-negative strike, barrier, volatility, spot, time, rate and yield |
| SimplePricers.Effective | orflib/pricers/simplepricers.cpp:228-231 | for a put the barrier direction swaps and the in/out letter stays; for a call the kind is unchanged |
| SimplePricers.InOutParity | orflib/pricers/simplepricers.cpp:233-260 | whatever the closed forms, down-in plus down-out and up-in plus up-out each equal the vanilla price |
| SimplePricers.CheckedBarrier | orflib/pricers/simplepricers.cpp:221-245 | a call with the barrier at or below the strike is worth the vanilla up-in and 0 up-out; so is a put with the barrier above the strike, down-in and down-out |
| CStrings.CStrPrefix | orflib/sptrmap.hpp:87 | `c_str()` sees the longest NUL-free prefix, which is the whole string exactly when it holds no NUL |
| CStrings.CStrFirst | orflib/pricers/simplepricers.cpp:229 | rewriting the first character of the buffer rewrites the first character of its C string |
| SimplePricers.BarrierOptionBS | orflib/pricers/simplepricers.cpp:207-263 | fails exactly when a check fails, with that error, and leaves the buffer unchanged; otherwise returns `BarrierPrice`; for a put it rewrites the caller's buffer at position 0 (u and d swapped), for a call it leaves the buffer alone |
| SimplePricers.NoPayments | orflib/pricers/simplepricers.cpp:169-173 | there are no premium periods exactly at maturity 0, and then both legs are 0 |
| SimplePricers.PayTimesShape | orflib/pricers/simplepricers.cpp:168-179 | the last payment is at maturity, payments are 1/payFreq apart, and the first falls in (0, 1/payFreq] |
| SimplePricers.SurvProbsBounded | orflib/pricers/simplepricers.cpp:181-187 | survival probabilities are never negative, and with a positive spread and non-negative times they are below 1 |
| SimplePricers.DefaultProbsTelescope | orflib/pricers/simplepricers.cpp:196 | the default probabilities of the first k periods sum to 1 minus the survival probability at period k |
| SimplePricers.PeriodsTelescope | orflib/pricers/simplepricers.cpp:194 | the accrual periods of the first k payments sum to the k-th payment time |
| SimplePricers.DefaultLegUndiscounted | orflib/pricers/simplepricers.cpp:192-198 | with every discount factor 1, the default leg is (1 - recov) times the probability of default by the last period |
| SimplePricers.PremiumLegNonNegative | orflib/pricers/simplepricers.cpp:192-198 | with non-decreasing payment times from a non-negative first one, and non-negative probabilities, rate and discount factors, the premium leg is not negative |
| SimplePricers.CdsPremiumNonNegative | orflib/pricers/simplepricers.cpp:159-204 | for valid arguments and a curve with no negative discount factor, the premium leg `cdsPV` returns is not negative |
| SimplePricers.CdsPV | orflib/pricers/simplepricers.cpp:159-204 | fails exactly when a check fails, with that error; otherwise returns (default leg, premium leg) as `CdsLegs` defines them |
| SimplePricers.FillPayTimes | orflib/pricers/simplepricers.cpp:175-179 | the loop counting back from maturity fills the array with `PayTimes` |
| SimplePricers.FillSurvProbs | orflib/pricers/simplepricers.cpp:181-187 | the loop fills the array with `SurvProbs` |
| SimplePricers.AccumulateLegs | orflib/pricers/simplepricers.cpp:189-198 | the loop's two sums are the default leg and the premium leg over all periods |

## Left out

- I/O and randomness. The deviates of the normal random-number generator
  (`nrng_.next`) are a parameter of `Next`: one vector per factor, fixed per
  call.
- Floating point. All arithmetic is on reals. `DBL_EPSILON` and the `1e-12`
  of `cdsPV` are kept as exact constants; rounding is not modelled.
- `sqrt` and `exp` are parameters. The bridge weights are proved assuming
  `sqrt` is a true square root; the CDS lemmas assume `exp(0) = 1` and
  0 < exp(x) <= 1 for x <= 0.
- The closed forms `europeanOptionBS`, `barrierCdiPui`, `barrierCdoPuo` and
  `barrierCuiPdi` are parameters. `barrierOptionBS` is modelled only as its
  checks and its selection table. The European checks are modelled as far as
  the barrier pricer reaches them.
- `fwdPrice`'s value uses the `exp` parameter. `quantoFwdPrice`,
  `digitalOptionBS` and the other pricers of the file are not part of this
  model.
- The yield curve of `cdsPV` (`sprfyc->discount`) is a function parameter.
- `PathGenerator`'s computation of `sqrtCorrel_` from the correlation
  matrix is not part of this model. The factor is a constructor parameter:
  empty, or square of the factor count.
- `BrownianBridge::dim()` is declared in `brownianbridge.hpp` but not defined
  there, so it is not modelled.
- MonteCarlo.BrownianBridge.CreatePath: the last row is the first deviate
  as drawn. `sqrtLastTime_` is computed from the last time
  (brownianbridge.hpp:88) and passed to `createPath` (:197), but
  `createPath` never reads it (:176), while the interior volatilities are in
  units of time (:153). The model follows the code and states no
  distributional property of the path, so whether its scale matches the
  time grid is not stated.
- MonteCarlo.BrownianBridge.CreatePath: on a grid with repeated times some
  interior rows are no point's split (BridgeBuilder.RepeatedTimesBuild).
  `createPath` never writes them, so they keep what the path matrix held
  before `next`'s `resize`, and those values enter the increments
  (BridgePath.RepeatedTimesKeepScratch). The lemmas that `next` ignores the
  previous matrix (BridgePath.AssembleIgnoresScratch,
  BridgePath.NextIgnoresPreviousPath) are therefore stated only when every
  interior row is split, as on a strictly increasing grid.
- `int` overflow of the doubling priority in `initBridgePoints` is not
  modelled; priorities are unbounded integers.
- The template over iterators and the random-number generator type is
  replaced by sequences.
- Armadillo's matrix is modelled by the small `Matrix` class: element
  access, and a resize that keeps the entries that fit.
- ObjectRegistry.SPtrMap.Set: the `unsigned long` wrap-around of `ver_` is
  not modelled; the counter is a natural number. The counter's initial
  value, which the C++ leaves uninitialised, is a constructor parameter.
- ObjectRegistry.SetStampsNewest: stated only for a NUL-free name or one
  not yet stored; for a stored name with a NUL, `set` keeps the old entry
  (ObjectRegistry.NulNameKeepsEntry), so the returned version is not stored.
- ObjectRegistry.Trim: `trim` is defined in utils.hpp, which is not part of
  this model. It is modelled as removing leading and trailing `isspace`
  characters in the C locale.
- The raw-pointer overload `set(name, T*)` forwards to `set(name,
  ptr_type(p))`. It is covered by `Set`, with the pointer as an `Option`
  (null is `None`). Shared ownership and reference counting are not
  modelled.
- BarrierProduct.BarrierCallPut.Create requires that, when the checked terms
  and the frequency are valid, `timeToExp * factor + 1 > -1`. Below that the conversion to
  `size_t` is undefined behaviour in C++. Values too large for `size_t` are
  not modelled either.
- BarrierProduct.BarrierCallPut.Eval: the continuation value computed before
  the last fixing is a local copy of a by-value parameter and is discarded.
  The flag is computed as written (`ContinuationAsWritten`) and dropped in
  the same way. An empty
  `barrier_type_` reads as `'\0'`.
- The message text of each `ORF_ASSERT` is reduced to an error constructor.
- SimplePricers.CdsCheck: the code refuses `credSprd <= 0`, although its
  message says "must be non-negative". The model follows the code.
- SimplePricers.BarrierOptionBS: the `char[2]` barrier type is an
  `array<char>` read as a C string, up to the first NUL.

## Findings

| source | as written | input that shows it | evidently intended | confidence | as-written member | corrected member |
|---|---|---|---|---|---|---|
| orflib/products/barriercallput.hpp:117-118 | the line for a down barrier runs after the line for an up barrier and assigns `contValue` again, so an up barrier's flag is always overwritten with 0 | `barrier_type_` "uo", spot 120, barrier 100, incoming `contValue` 0: the code gives 0 | 1 when the barrier of the product's own direction is touched and the value was not already 1 (the second assignment should apply only to 'd') | not executed | BarrierProduct.ContinuationAsWritten (shown by BarrierProduct.UpBarrierCounterexample and BarrierProduct.UpBarrierLost) | BarrierProduct.ContinuationFlag |
