# The `ts_rate` kernel, modelled and proved

`ts_rate` turns the raw samples of a series (unordered, with duplicates, with counter resets) into
one rate for each point of a regular grid. The repository computes it twice: as an aggregate, whose
states are updated and merged in any order, and as a streaming operator, which holds one window of
one series at a time. It also has a from-scratch evaluator as an oracle, and an optimizer rule that
narrows the table scan to the time range the rate can read. This project models all of these and
proves that they agree.

Modules, bottom up:

| file | what it models |
|---|---|
| `Readings.dfy`, `Grids.dfy` | samples, the grid, its division, the half-open window |
| `Words.dfy`, `Doubles.dfy` | doubles as 64-bit patterns: the totalOrder key and the tie-break rank |
| `Dedup.dfy` | sort and deduplication, and the canonical form they reach |
| `Windows.dfy` | the two-pointer walk and the readings next to a window |
| `GridStreams.dfy` | the streaming walk as a class, its memory law and its amortised cost |
| `Folds.dfy` | reset rules, counter fold, extrapolation, one grid point |
| `SampleBuffers.dfy` | the paged arena and the buffer on it, on the heap |
| `Series.dfy`, `Aggregates.dfy`, `RateStates.dfy` | the aggregate: start-timestamp join, runs of update, combine, finalize and destroy, payload pointers |
| `Parity.dfy`, `SeenStamps.dfy`, `Operators.dfy` | streaming against aggregate, by readings and by answers; one hash bin, series by series |
| `Oracle.dfy` | the from-scratch evaluator and the refinement |
| `RealRates.dfy`, `Metamorphic.dfy`, `LeastSquares.dfy` | the arithmetic over the real numbers |
| `ScanBounds.dfy`, `Pushdown.dfy` | the scan bound and the plan rewrite |
| `ParallelSource.dfy` | the shared-counter protocol of the parallel source |

Two choices run through the whole project.

* A value is a 64-bit pattern, and the arithmetic on values (`Arith`) is a parameter: ten arbitrary
  operations. Every theorem about parity, determinism, the oracle and the pushdown holds for every
  choice of them, so it is a statement about bits and does not depend on how doubles round. The
  theorems about bounds and invariances instantiate the same fold and the same extrapolation with
  the real numbers.
* A tick is an unbounded integer. Where the code computes in 64 bits the range is stated:
  `TicksStayInRange` says exactly when the walk's and the count's own expressions fit, and `ScanBounds` models the
  narrowing of the bound to 64 bits with its wrap-around.

Five properties turned out to need a condition, and are proved with the exact one. For start
timestamps the condition is about what a fold can see of them (`SeenStamps.dfy`): one that lies at or
after its reading, or at the previous reading, is a reset; one strictly between the previous reading
and its own is a reset that also tells where the count began; one before the previous reading is not
seen at all, and neither is one at or after the first reading of a series.

* Stream and aggregate give the same answers, for every arithmetic, grid and window, every time order
  and every arrival order, if and only if the start timestamps are seen coherently: at each timestamp,
  the rows that carry one are seen alike, and so is every row whose value may survive there when some
  row carries one (`AnswersParityIffSeenCoherent`). `TiedStampsCanDiffer` is an input on which the
  rate of one form is NULL. The comment at `src/kernel/grid_stream.hpp:66-69` promises the same
  pairing without a condition; the code does not give it. The readings themselves are the same under
  a stronger condition, which is exact for them (`ParityIffCoherent`).
* The aggregate's answers do not depend on the arrival order if and only if the start timestamps that
  rows of one timestamp carry are seen alike (`AnswersForgetOrderIffSeenAgree`); its joined series
  does not if and only if they are equal (`OrderIsForgottenIffStAgree`).
* The oracle does not order NaNs among themselves. It keeps the kernel's readings in every arrival
  order if and only if, wherever two different NaNs meet at one timestamp, a number is there too
  (`OracleAgreesIffNaNsAreSettled`). Its comment at `test/oracle/rate_oracle.hpp:50` relies on the
  generators making no two distinct NaNs.
* The scan bound covers every read if and only if it narrows to 64 bits safely
  (`BoundsCoverReadsIffTheyFit`); when its lower end wraps, the first grid point loses the rate it has
  over unbounded ticks (`WrappedBoundLosesARate`). For the rate these are exactly the inputs on which
  the walk's own lower edges leave 64 bits (`RateFitsIsTheWalksRange`). The comment at
  `src/kernel/scan_bounds.hpp:47-55` speaks of widening so that nothing overflows before narrowing,
  but the narrowing itself can wrap.
* Re-basing a counter after a reset keeps the increase and the full-span rate if and only if the
  re-based value is a genuine drop or nothing was subtracted, and adds a reset if and only if it is a
  drop (`RebasingKeepsTheRate`).

The memory law of the stream needs its premise as well, on both sides: samples fed before the first
grid point are all kept (`BeforeTheGridEverythingIsKept`), and so are samples past the grid's end
(`AfterTheGridEverythingIsKept`). Without any premise the resident samples are at most twice those
that later windows may still admit (`ResidentIsAtMostTwiceNeeded`).

## Model

| member | source | states |
|---|---|---|
| Grids.FloorDivIsFloor | src/kernel/grid.hpp:36-43 | the truncating quotient, corrected, is the floor, for every sign of numerator and denominator |
| Grids.MakeGrid | src/kernel/grid.hpp:69-80 | a grid is built exactly for a positive step, an end not before the start and a step that divides the span, and the checks fail in this order |
| Grids.AtEnds | src/kernel/grid.hpp:86-97 | the first point is the start and the last one is the end |
| Grids.AtInRange | src/kernel/grid.hpp:86-97 | every grid point lies between the ends |
| Grids.IndexOfFindsTheCell | src/kernel/grid.hpp:103-107 | the index of an instant is the only one whose cell holds it, also before the start |
| Grids.TicksStayInRange | src/kernel/grid.hpp:86-97 | the quotient and the sum of the count, and `i * step`, `start + i * step` and `anchor - window` at every point, stay in 64 bits if and only if the grid's span and the first window's edge do and the span is not the greatest tick in steps of one |
| Doubles.SignBitOperations | src/kernel/sample_buffer.hpp:68-71 | the sign test is the test of the word's sign bit, and where it is clear the key is the word with that bit set, as numbers |
| Words.ComplementIsSubtraction | src/kernel/sample_buffer.hpp:68-71 | on words, complementing is subtraction from all ones, the identity the key states on numbers |
| Doubles.DedupPolicyIsStrictTotalOrder | src/kernel/sample_buffer.hpp:82-116 | the tie-break is a strict total order on all bit patterns, with stale below NaN below every number |
| Doubles.KeyOrderIsTotalOrder | src/kernel/sample_buffer.hpp:68-102 | on patterns that are not NaN the key order is totalOrder of section 5.10 of IEEE 754-2019, numeric with -0 below +0, and the key is injective |
| Doubles.NaNReadsTheFields | src/kernel/sample_buffer.hpp:87-95 | a pattern is NaN exactly when its exponent field is all ones and its fraction is not zero, and the stale marker is one of them |
| Doubles.GreaterNumberWins | src/kernel/sample_buffer.hpp:82-116 | of two patterns whose exponent fields are not all ones, the numerically greater is kept, and +0 over -0 |
| Doubles.NumberBeatsNaNBeatsStale | src/kernel/sample_buffer.hpp:87-95 | a pattern that is not NaN by its fields is kept over every NaN, and every other NaN over the stale marker |
| Doubles.OracleAgreesExceptBetweenNaNs | test/oracle/rate_oracle.hpp:44-56 | the oracle's tie-break differs from the kernel's exactly on pairs of NaNs that the kernel ranks |
| Dedup.CollapseIsCanonical | src/kernel/sample_buffer.hpp:313-333 | left-to-right deduplication of a time-ordered series keeps, for each timestamp, one row that nothing there beats |
| Dedup.CollapseIsStrict | src/kernel/sample_buffer.hpp:308-333 | the result is strictly increasing in time and ends with the latest row |
| Dedup.CanonicalIsUnique | src/kernel/sample_buffer.hpp:106-116 | two canonical forms of the same set of samples are equal |
| Dedup.SortDedupIsCanonical | src/kernel/sample_buffer.hpp:313-333 | sorting and deduplicating reaches the canonical form |
| Dedup.SortDedupIsTheCanonicalForm | src/kernel/sample_buffer.hpp:313-333 | a sequence is canonical for a set of samples if and only if it is what sort_dedup returns on any listing of that set: order and multiplicity are forgotten |
| Dedup.GreatestIsKept | src/kernel/sample_buffer.hpp:313-333 | of the finite numbers at one timestamp, by their fields, sort_dedup keeps the greatest |
| Dedup.StableSortIsStable | src/kernel/sample_buffer.hpp:313-318 | the sort keeps the order of readings of one timestamp |
| Dedup.SortDedupOfStandIn | src/kernel/sample_buffer.hpp:289-333 | a buffer that holds part of the rows and lost none of the winners deduplicates to the rows' canonical form |
| Dedup.DedupAfterMerge | src/kernel/sample_buffer.hpp:289-296 | merging deduplicated buffers and deduplicating equals deduplicating the concatenation; a second deduplication changes nothing |
| Windows.UpperBound | src/kernel/edge_context.hpp:62-71 | halving finds the index that splits a sorted series at a tick |
| Windows.SelectIsUpperBoundSlice | src/kernel/window.hpp:36-41 | the readings a window admits are the slice between its two upper bounds |
| Windows.WindowWalk | src/kernel/window_walk.hpp:64-84 | every range is the pair of upper bounds of its window, and the pointers advance at most 2n times over the whole grid |
| Windows.EdgeContextIsExact | src/kernel/edge_context.hpp:54-76 | before is the latest reading at or before the window's edge, after is the earliest past the anchor, and each is absent exactly when there is none |
| GridStreams.GridStream.constructor | src/kernel/grid_stream.hpp:59-60 | a new stream is valid and has emitted nothing |
| GridStreams.GridStream.FlushPending | src/kernel/grid_stream.hpp:119-125 | the contested reading moves to the buffer |
| GridStreams.GridStream.AdvanceHi | src/kernel/grid_stream.hpp:138-140 | the upper pointer reaches the first resident reading past the anchor, or the end |
| GridStreams.GridStream.EmitNext | src/kernel/grid_stream.hpp:145-151 | the emitted slice is exactly the window of the deduplicated feed at that point |
| GridStreams.GridStream.Compact | src/kernel/grid_stream.hpp:158-162 | an erase drops only readings no later window needs and moves no more than it drops |
| GridStreams.GridStream.Drain | src/kernel/grid_stream.hpp:134-164 | after draining, the emissions are those owed, in order, and no more can be made yet |
| GridStreams.GridStream.Feed | src/kernel/grid_stream.hpp:70-83 | after every feed the stream accounts for the whole feed, and the emitted points are exactly those whose anchor lies before the last confirmed reading, each with the window of the deduplicated feed |
| GridStreams.GridStream.Contest | src/kernel/grid_stream.hpp:72-76 | a reading at the contested timestamp replaces the pending one or is dropped, and the stream still accounts for the whole feed |
| GridStreams.GridStream.FeedLater | src/kernel/grid_stream.hpp:78-82 | a reading at a new timestamp confirms the pending one and emits what that settles |
| GridStreams.GridStream.End | src/kernel/grid_stream.hpp:89-92 | ending keeps the invariant and emits nothing |
| GridStreams.GridStream.Resume | src/kernel/grid_stream.hpp:99-107 | after the end every grid point has been emitted, once, in order, with its window |
| GridStreams.GridStream.DoneIff | src/kernel/grid_stream.hpp:105-107 | done means that every grid point has been emitted |
| GridStreams.ConfirmedWindowIsFinal | src/kernel/grid_stream.hpp:141-143 | once a later timestamp confirmed it, no legal continuation of the feed changes a window |
| GridStreams.GridStream.ProgressIsExact | src/kernel/grid_stream.hpp:134-164 | in every reachable state before the end, a point was emitted if and only if its window is already final |
| GridStreams.GridStream.ResidentIsBounded | src/kernel/grid_stream.hpp:109-116 | with every reading between the first edge and the grid end, the resident readings are at most twice those the pending windows need plus one, hence at most 2 * (width + step) + 1 |
| GridStreams.GridStream.BeforeTheGridEverythingIsKept | src/kernel/grid_stream.hpp:134-164 | without that premise the bound fails: readings before the grid are all resident |
| GridStreams.GridStream.AfterTheGridEverythingIsKept | src/kernel/grid_stream.hpp:134-164 | and so are readings past the end of the grid |
| GridStreams.GridStream.ResidentIsAtMostTwiceNeeded | src/kernel/grid_stream.hpp:153-162 | with no premise, the resident readings are at most twice those past the last emitted lower edge, and the lower pointer splits the two kinds |
| GridStreams.GridStream.EveryReadingIsAccountedFor | src/kernel/grid_stream.hpp:109-116 | the readings dropped, the resident ones and the contested one together number the deduplicated feed |
| GridStreams.GridStream.ShiftsAreAmortised | src/kernel/grid_stream.hpp:153-162 | over any run the erases move at most as many readings as were fed |
| SampleBuffers.CapacityIsLinear | src/kernel/sample_buffer.hpp:156-168 | pages grown by doubling reserve at most three times the samples they hold plus one |
| SampleBuffers.SampleArena.AddPage | src/kernel/sample_buffer.hpp:237-241 | a new page leaves the contents alone and is counted in bytes |
| SampleBuffers.SampleArena.Append | src/kernel/sample_buffer.hpp:160-168 | one sample is appended, on a page of four or of as many as the last one doubled when that is full; no earlier slot moves or changes and no earlier page is replaced |
| SampleBuffers.SampleArena.Size | src/kernel/sample_buffer.hpp:170-182 | the size is the number of samples, and the bytes reserved are those of at most three times as many plus one |
| SampleBuffers.SampleArena.ReleaseAll | src/kernel/sample_buffer.hpp:243-249 | releasing every page brings the byte count to zero |
| SampleBuffers.SampleArena.CompactTo | src/kernel/sample_buffer.hpp:189-198 | the contents become the given samples, on at most one page |
| SampleBuffers.SampleArena.Collect | src/kernel/sample_buffer.hpp:203-210 | visiting every page yields the appended sequence in order |
| SampleBuffers.DedupSorted | src/kernel/sample_buffer.hpp:320-330 | the loop over sorted samples computes the left-to-right deduplication |
| SampleBuffers.SliceIsFilter | src/kernel/sample_buffer.hpp:342-348 | the two binary searches return exactly the samples of the closed interval |
| SampleBuffers.FullSliceIsEverything | src/chronoduck_extension.cpp:405 | over the whole range of ticks the slice is the buffer |
| SampleBuffers.SampleBuffer.Append | src/kernel/sample_buffer.hpp:278-287 | the sample is appended in the returned slot, and no filled slot moves or changes |
| SampleBuffers.SampleBuffer.Merge | src/kernel/sample_buffer.hpp:289-296 | the other buffer's samples are appended in order, the other buffer is unchanged, and no filled slot of this one moves or changes |
| SampleBuffers.SampleBuffer.SortDedupInPlace | src/kernel/sample_buffer.hpp:308-333 | the contents become their canonical form, on at most one page of exactly that many bytes |
| Folds.CounterFold | src/kernel/counter_fold.hpp:125-164 | the loop computes the summary: ends, count, increase with the pre-reset values added from the left, resets with the straddling one |
| Folds.StResetMeans | src/kernel/counter_fold.hpp:66-80 | a start timestamp is a reset exactly when it is later than the previous reading, or as late outside delta temporality |
| Folds.ComputeRatePoint | src/chronoduck_extension.cpp:430-442 | fold, extrapolate and divide by the window gives the rate of one point |
| Folds.ExtrapolateInTerms | src/kernel/extrapolate.hpp:51-124 | the extrapolation, operation by operation in every arithmetic: both edges, the added origin, the cut at zero, for counters and other values |
| Folds.RatePointInTerms | src/chronoduck_extension.cpp:426-443 | the same for a point, from the readings, the anchor and the window alone |
| Series.LastWriteWins | src/chronoduck_extension.cpp:398-403 | the last row that carries a start timestamp decides the one its timestamp is joined with |
| Series.JoinIsDetermined | src/chronoduck_extension.cpp:395-419 | any buffer and any start-timestamp pairs that stand for the same rows are joined to the same series, when the start timestamps agree |
| Series.OrderIsForgottenIffStAgree | src/chronoduck_extension.cpp:395-419 | the joined series is independent of the arrival order if and only if rows of one timestamp that carry a start timestamp carry the same one |
| Aggregates.ComputePoints | src/chronoduck_extension.cpp:421-445 | walk, fold and extrapolation over a joined series give the rate of every window |
| Aggregates.JoinStart | src/chronoduck_extension.cpp:398-419 | building the map and looking each sample up joins the start timestamps |
| Aggregates.UpdateRepresents | src/chronoduck_extension.cpp:307-325 | an update makes a state stand for one more row |
| Aggregates.UpdateOneMeans | src/chronoduck_extension.cpp:307-325 | a row with a timestamp and a value adds that sample, and its pair exactly when the call has start timestamps and the row carries one; any other row changes nothing |
| Aggregates.CombineRepresents | src/chronoduck_extension.cpp:341-359 | a combine makes the target stand for both sides' rows, and the source for its own or, moved, for none |
| Aggregates.CombineConservesSamples | src/chronoduck_extension.cpp:335-360 | a combine loses and invents no sample and no pair, a preserving one leaves its source as it was, and no third state changes |
| Aggregates.FinalizedIsCanonical | src/chronoduck_extension.cpp:395-404 | finalizing leaves the canonical form of the samples and every pair |
| Aggregates.EveryStateRepresentsItsHistory | src/chronoduck_extension.cpp:291-381 | after every run of updates, combines, finalizations and destructions each state stands for exactly the rows that reached it |
| Aggregates.CountedOneMore | src/chronoduck_extension.cpp:307-325 | the readings of rows, row by row: one for each row with a timestamp and a value, with its start timestamp when the call has them |
| Aggregates.CountedMembers | src/chronoduck_extension.cpp:307-325 | a reading is among them exactly when some row has its parts |
| Aggregates.HistoriesAreTheHandedRows | src/chronoduck_extension.cpp:291-381 | after every run a state's history is exactly the readings of the rows handed to it, as they came |
| Aggregates.UpdatesHandTheirRows | src/chronoduck_extension.cpp:291-326 | updates alone hand each state its own rows in order |
| Aggregates.DeterministicUnderAnyPartition | src/chronoduck_extension.cpp:291-446 | whatever run gathered the rows, the finalized list is the one of a single state updated with the same rows in any order, when the start timestamps are seen alike |
| Aggregates.DeterministicOnRows | src/chronoduck_extension.cpp:291-446 | the same on the rows themselves, NULLs included, in any order and multiplicity |
| RateStates.ComputeRatePoints | src/chronoduck_extension.cpp:395-446 | the points are those of the deduplicated, joined payload, and the payload is left deduplicated |
| RateStates.FinalizeIsRepeatable | src/chronoduck_extension.cpp:455-474 | finalizing a state again gives the same list |
| RateStates.FinalizingKeepsPoints | src/chronoduck_extension.cpp:455-474 | finalizing any states, in any order and repeatedly, changes no state's list |
| RateStates.LayOut | src/chronoduck_extension.cpp:478-503 | the list entries tile the child vector contiguously, each describes its group's points, a NULL list has length zero |
| RateStates.EntryReadsBack | src/chronoduck_extension.cpp:478-503 | an entry describes a list exactly when reading it back gives that list, and a NULL one has length zero |
| RateStates.TilesAreContiguous | src/chronoduck_extension.cpp:478-503 | entries tile the child exactly when each starts where the one before it ends, from the old end to the new one |
| RateStates.RateStateVector.EnsurePayload | src/chronoduck_extension.cpp:314-316 | a state without a payload gets a new empty one of its own |
| RateStates.RateStateVector.UpdateRow | src/chronoduck_extension.cpp:307-325 | a row with a NULL timestamp or value changes nothing; any other adds its sample to its state's own buffer, and its pair exactly when the call has start timestamps and the row carries one |
| RateStates.RateStateVector.MovePayload | src/chronoduck_extension.cpp:349-352 | a moved payload is reachable from the target only |
| RateStates.RateStateVector.CombinePair | src/chronoduck_extension.cpp:341-359 | one combine on pointers does what the combine on values does, and each payload still has one owner |
| RateStates.RateStateVector.RateUpdate | src/chronoduck_extension.cpp:291-326 | a vector of updates is the run of its rows, with ownership kept |
| RateStates.RateStateVector.RateCombine | src/chronoduck_extension.cpp:335-360 | a vector of combines is the run of its pairs, with ownership kept |
| RateStates.RateStateVector.RateFinalize | src/chronoduck_extension.cpp:455-504 | each listed state's points are described by its entry, NULL for a state without a payload |
| RateStates.RateStateVector.DestroyState | src/chronoduck_extension.cpp:374-380 | the payload of a state is destroyed if there is one, and no other state changes |
| RateStates.RateStateVector.RateDestroy | src/chronoduck_extension.cpp:370-381 | when all states were listed, every payload ever made has been destroyed exactly once |
| Parity.CollapseEqualsSeries | src/kernel/grid_stream.hpp:62-83 | streaming any time order of coherent rows keeps exactly the readings the aggregate joins from any arrival order |
| Parity.ParityIffCoherent | src/kernel/grid_stream.hpp:62-83 | stream and aggregate keep the same readings on every time order and every arrival order if and only if the start timestamps are coherent |
| Parity.FullAgreementIsCoherent | src/kernel/grid_stream.hpp:66-69 | rows of one timestamp that agree on their start timestamp, present or absent, are coherent |
| SeenStamps.PointsAlike | src/kernel/counter_fold.hpp:66-87 | series of the same times and values whose start timestamps are seen alike have the same points, also when a reading before the first window was cut off |
| SeenStamps.AnswersAgreeIffSeenAlike | src/kernel/extrapolate.hpp:51-80 | such series give the same answers for every arithmetic, grid and window if and only if their start timestamps are seen alike |
| SeenStamps.CoherentIsSeenCoherent | src/kernel/counter_fold.hpp:66-80 | equal start timestamps are seen alike |
| SeenStamps.AnswersForgetOrderIffSeenAgree | docs/testing/metamorphic.md:12 | the aggregate's answers are the same for every row order if and only if the start timestamps that rows of one timestamp carry are seen alike |
| SeenStamps.StreamIsSeenLikeJoin | src/kernel/grid_stream.hpp:62-83 | a stream of any time order is seen like the series joined from any buffer and pairs of the same rows |
| SeenStamps.AnswersParityIffSeenCoherent | src/kernel/grid_stream.hpp:62-83 | stream and aggregate give the same answers on every time order and every arrival order if and only if the start timestamps are seen coherently |
| SeenStamps.TiedStampsCanDiffer | src/kernel/grid_stream.hpp:66-69 | on two tied rows, one with a start timestamp inside the window, the stream's rate is NULL and the aggregate's is not |
| Operators.WriteEmissions | src/chronoduck_extension.cpp:811-826 | the emit callback writes each window's rate into the slot of its grid point |
| Operators.OpenSeries.Finish | src/chronoduck_extension.cpp:828-836 | closing a series yields the rates of all grid points over its deduplicated readings |
| Operators.SortedBinOneMore | src/chronoduck_extension.cpp:776-800 | the order a bin arrives in: a row is a later one of the last series, or the first one of a new series |
| Operators.ProcessOneBin | src/chronoduck_extension.cpp:776-889 | each distinct series of a sorted bin gets exactly one row, with the points it would have alone |
| Operators.ReadingsOneMore | src/chronoduck_extension.cpp:866-883 | a row adds to its own series the reading with its timestamp, its value and, when the call has start timestamps, its own one |
| Operators.ReadingsMembers | src/chronoduck_extension.cpp:866-883 | a reading is in a series exactly when some row of it has its parts |
| Operators.OperatorEqualsAggregate | src/chronoduck_extension.cpp:776-889 | for any bin and any aggregate run whose updates handed a state the rows of a series, as they came, the operator's points are the aggregate's list, when the start timestamps are seen coherently |
| Oracle.OracleSortDedup | test/oracle/rate_oracle.hpp:62-77 | the oracle's loop computes deduplication with the oracle's own tie-break |
| Oracle.OracleCollapseAgrees | test/oracle/rate_oracle.hpp:62-77 | on time-ordered rows whose NaNs are settled the oracle keeps the kernel's readings |
| Oracle.OracleAgreesIffNaNsAreSettled | test/oracle/rate_oracle.hpp:44-77 | the oracle keeps the kernel's readings in every arrival order if and only if, wherever two different NaNs meet at one timestamp, a number is there too |
| Oracle.WindowRangeOf | test/oracle/rate_oracle.hpp:86-99 | the oracle's per-point scan finds the two upper bounds of the window |
| Oracle.OracleClassifiesAlike | test/oracle/rate_oracle.hpp:108-119 | the oracle's start-timestamp rule is the kernel's, under either temporality |
| Oracle.OracleResetSum | test/oracle/rate_oracle.hpp:156-161 | the oracle's own reset loop adds the same pre-reset values in the same order |
| Oracle.EvaluateOnePoint | test/oracle/rate_oracle.hpp:140-197 | the oracle's straight-line evaluation gives the kernel's rate at every point, for every arithmetic |
| Oracle.EvaluateSeries | test/oracle/rate_oracle.hpp:201-211 | the naive evaluator gives the rates over its own deduplicated series |
| Oracle.Production | src/chronoduck_extension.cpp:395-446 | the production pipeline gives the rates over the joined series |
| Oracle.ProductionRefinesOracle | test/oracle/rate_oracle.hpp:44-211 | production and oracle have the same points, bit for bit, on rows whose NaNs are settled and whose start timestamps are seen coherently |
| Oracle.ProductionRefinesOracleOnNumbers | test/oracle/rate_oracle.hpp:44-211 | in particular on NaN-free rows |
| Oracle.Sweep | test/oracle/rate_oracle.hpp:201-211 | running both on the same rows returns equal lists |
| RealRates.BoundsOfExtrapolation | src/kernel/extrapolate.hpp:51-124 | a value exactly for two effective points; then a positive sampled interval, a factor between one and window over interval, and no line below zero at the left edge where the clamp applies |
| RealRates.SpanIsPositive | src/kernel/extrapolate.hpp:60-80 | the effective points of a window are apart in time and inside it |
| RealRates.IncreaseIsNonNegative | src/kernel/counter_fold.hpp:125-164 | non-negative readings have a non-negative reset-adjusted increase |
| RealRates.RateIsBetween | src/kernel/extrapolate.hpp:51-124 | their rate lies between zero and the increase per sampled interval |
| RealRates.IncreaseIsTheSteps | src/kernel/counter_fold.hpp:125-164 | the reset-adjusted increase is the sum over the steps: a restarted step counts its whole value, any other its difference |
| RealRates.RateInFull | src/kernel/extrapolate.hpp:62-124 | the rate of any window without a start timestamp in the left gap: the steps, stretched over both gaps, each whole up to 1.1 average intervals and half an interval beyond, the left one cut at zero |
| RealRates.RateInFullFromOrigin | src/kernel/extrapolate.hpp:62-80 | and with one: one point more, the first value more, and no left gap |
| RealRates.NoRate | src/kernel/extrapolate.hpp:51-80 | no reading, or a lone one without such a start timestamp, has no rate |
| RealRates.SelectedAreInWindow | src/kernel/window.hpp:36-41 | what a window selects from a deduplicated series is in time order and inside it, as the rate laws ask |
| RealRates.DeltaIsAdditive | src/kernel/counter_fold.hpp:107-164 | over two runs sharing one reading the increase is additive, for every reset rule |
| RealRates.ResetsAreAdditive | src/kernel/counter_fold.hpp:107-164 | resets are additive when the right run is told the left run's last reading, for every rule and arithmetic |
| Metamorphic.MakeReset | test/oracle/series.hpp:124-131 | the loop subtracts the value before the split from every later value |
| Metamorphic.MakeDipAndRecover | test/oracle/series.hpp:146-160 | the loop writes the dip and the straight recovery to the same last value |
| Metamorphic.DipShape | test/oracle/series.hpp:146-160 | the dip is to three tenths of the value before it and the recovery is a straight line to the same last value |
| Metamorphic.RateTellsIncreases | src/kernel/extrapolate.hpp:51-124 | between series of the same ends and length the full-span rate is the same exactly for the same increase, zero clamp included |
| Metamorphic.RebasingKeepsTheRate | test/oracle/metamorphic.hpp:326-337 | re-basing keeps the increase and the full-span rate if and only if it drops or subtracts nothing, and adds a reset if and only if it drops |
| Metamorphic.DipMatchesStartTimestamp | test/oracle/metamorphic.hpp:376-393 | a recovered dip and a start-timestamp-only reset give the same full-span rate, with one reset each exactly for a positive pre-reset value |
| LeastSquares.LinearRegression | src/kernel/linear_regression.hpp:39-66 | the loop's four sums, put into the closed form, give the fit |
| LeastSquares.VarXIsPositiveIffTwoDiffer | src/kernel/linear_regression.hpp:62-63 | the variation is never negative and is positive exactly when two timestamps differ |
| LeastSquares.FitSolvesNormalEquations | src/kernel/linear_regression.hpp:62-65 | slope and intercept solve both normal equations |
| LeastSquares.ExcessIsSquaredDifference | src/kernel/linear_regression.hpp:39-66 | another line's sum of squared residuals exceeds the fit's by the squared difference of the two lines |
| LeastSquares.FitIsOptimal | src/kernel/linear_regression.hpp:39-66 | a line is returned exactly when two timestamps differ, and it alone minimises the sum of squared residuals over all lines |
| LeastSquares.NoLine | src/kernel/linear_regression.hpp:39-66 | too few readings, and readings all at one timestamp, are told apart exactly |
| LeastSquares.OriginOnlyMovesTheIntercept | src/kernel/linear_regression.hpp:27-66 | the slope does not depend on the origin and the intercept moves by slope times the shift |
| ScanBounds.Narrow | src/kernel/scan_bounds.hpp:68 | the conversion to 64 bits is congruent modulo a word and exact exactly for ticks |
| ScanBounds.BoundsByMask | src/kernel/scan_bounds.hpp:56-69 | the wide bounds for the masks of the registry, each bit by its number |
| ScanBounds.ReadsAreInTheWideBounds | src/kernel/scan_bounds.hpp:56-67 | for every mask, whatever any grid point reads lies inside the wide bounds |
| ScanBounds.BoundsAreTight | src/kernel/scan_bounds.hpp:56-67 | the ends of the bounds are read, save one tick at a window's open edge and one look-back when LOOKBACK and ANCHOR are both set |
| ScanBounds.BoundsCoverReadsIffTheyFit | src/kernel/scan_bounds.hpp:56-69 | every tick a mode reads is inside the 64-bit bounds if and only if they narrow safely |
| ScanBounds.EdgeFoldsSeeThroughTheBound | test/kernel/scan_bounds_test.cpp:71-171 | for every mask, the INSIDE, LOOKBACK, ANCHOR and SMOOTH folds give the same value over the bounded samples as over all samples |
| ScanBounds.LatestIsTheLatest | test/kernel/scan_bounds_test.cpp:71-171 | the latest sample a fold may read is one of them and no other is later |
| ScanBounds.EarliestIsTheEarliest | test/kernel/scan_bounds_test.cpp:71-171 | and the earliest likewise |
| ScanBounds.CarryReads | src/kernel/lookback.hpp:36-44 | the carrying folds read the latest sample that is not stale and at most the look-back old, and look back only when the window is empty |
| ScanBounds.InsideOneMore | test/kernel/scan_bounds_test.cpp:71-171 | the window's fold adds the values of its samples in order, from zero |
| ScanBounds.SmoothReads | test/kernel/scan_bounds_test.cpp:71-171 | the smoothing fold adds the last sample of the window and the first one within the look-ahead, zero for either that is absent |
| ScanBounds.CollapseWithinBound | src/kernel/grid_stream.hpp:70-83 | deduplicating what the bound admits is bounding what deduplication keeps |
| ScanBounds.SeriesWithin | src/chronoduck_extension.cpp:395-419 | the joined series of the bounded rows is the bounded joined series, whatever the start timestamps |
| ScanBounds.PointsSeeThroughTheBound | src/chronoduck_extension.cpp:421-445 | every point is the same with and without the readings outside the bound |
| ScanBounds.NarrowingIsLossless | src/chronoduck_extension.cpp:1113-1118 | an aggregate over the bounded rows gives the list it gives over all rows, and a group that lost all its rows had no value anywhere |
| ScanBounds.NarrowingIsLosslessUnderAnyPartition | src/chronoduck_extension.cpp:291-446 | the same whatever runs gathered the two sets of rows |
| ScanBounds.NarrowingIsLosslessForStreams | src/chronoduck_extension.cpp:776-889 | the same for a series of a sorted bin |
| ScanBounds.RateFitsIsTheWalksRange | src/chronoduck_extension.cpp:427-428 | the rate's bound narrows safely exactly when every `anchor - window` of the walk stays in 64 bits |
| ScanBounds.WrappedBoundLosesARate | src/kernel/scan_bounds.hpp:68 | when the lower end wraps, two samples of the first window are dropped, and with them the rate it has over unbounded ticks, for every arithmetic |
| Pushdown.PushedIsFiltered | src/chronoduck_extension.cpp:1195-1284 | pushing the bound to the scan a binding resolves to yields, row for row, the original chain filtered on the original binding |
| Pushdown.ResolvedIsInside | src/chronoduck_extension.cpp:1195-1234 | the resolved scan belongs to the chain |
| Pushdown.ScanYields | src/chronoduck_extension.cpp:1246-1284 | a scan yields, in order, the stored rows that pass every filter it carries, through its projection ids and column ids |
| Pushdown.TargetThroughFilter | src/chronoduck_extension.cpp:1195-1202 | through a filter the target is that of the same binding below |
| Pushdown.TargetThroughProjection | src/chronoduck_extension.cpp:1203-1214 | through a projection it is that of the column reference at the position; a computed expression, a position past the end or another table has none |
| Pushdown.TargetThroughGet | src/chronoduck_extension.cpp:1215-1231 | through the passthrough it is that of the child's column at the position; any other function with children has none |
| Pushdown.TargetAtLeaf | src/chronoduck_extension.cpp:1149-1193 | a leaf is a target exactly when it is a `seq_scan` of the binding's table with a storage column behind the position |
| Pushdown.NoTarget | src/chronoduck_extension.cpp:1195-1234 | other operators and other numbers of children have none |
| Pushdown.TargetIffChain | src/chronoduck_extension.cpp:1195-1284 | a bound reaches a scan's column if and only if a chain of filters, column references and passthroughs leads there |
| Pushdown.PushScanBound | src/chronoduck_extension.cpp:1246-1284 | exactly the target's filters grow, by the two comparisons on its storage column; without a target no scan changes |
| Pushdown.PushFiltersTheInput | src/chronoduck_extension.cpp:1246-1284 | an operator's input is afterwards its rows filtered on the timestamp, or unchanged |
| Pushdown.TryPushAggregateBound | src/chronoduck_extension.cpp:1309-1327 | only a lone `ts_rate` over a plain column pushes, with its own grid and window |
| Pushdown.RateCallIff | src/chronoduck_extension.cpp:1309-1327 | the call is recognised exactly when it is a lone `ts_rate` with bind data whose first argument is a column |
| Pushdown.GroupRowsOneMore | src/chronoduck_extension.cpp:1309-1327 | each input row of a group hands the call its arguments, and any other row nothing |
| Pushdown.ArgumentsByPosition | src/chronoduck_extension.cpp:292-311 | timestamp, value and start timestamp are read by position, and another kind of value is a NULL |
| Pushdown.AggregatePushdownKeepsAnswers | src/chronoduck_extension.cpp:1309-1327 | every group's list is the same before and after the push, or the group vanished and had no value |
| Pushdown.SecondRateWouldLoseAValue | src/chronoduck_extension.cpp:1286-1308 | with a second `ts_rate` of a wider window the rule pushes nothing, and pushing the first one's bound would turn a value of the second into NULL |
| Pushdown.TryPushOperatorBound | src/chronoduck_extension.cpp:1335-1345 | the push starts from the child's column at the timestamp's position |
| Pushdown.TsBindingIff | src/chronoduck_extension.cpp:1335-1345 | the rule starts from a column exactly when there is one child and one at that position |
| Pushdown.BinRowIff | src/chronoduck_extension.cpp:860-883 | a row enters a bin exactly when it has a timestamp and a value, with its series and, when the call has them, its start timestamp |
| Pushdown.OperatorPushdownKeepsAnswers | src/chronoduck_extension.cpp:1335-1345 | for every hashing of series to bins, a series keeps its points, or vanished and had no value |
| ParallelSource.StepKeepsThread | src/chronoduck_extension.cpp:915-939 | at every step a thread has returned or holds exactly the rows of the bins it claimed, in order, chunks never exceed a vector, and FINISHED means nothing in hand |
| ParallelSource.EveryRunIsValid | src/chronoduck_extension.cpp:751-761 | over every interleaving each issued bin was claimed exactly once, and every thread's account holds |
| ParallelSource.EveryRunReturnsAtMostEverything | src/chronoduck_extension.cpp:915-939 | at no point of any run has a row been returned more often than the bins hold it |
| ParallelSource.EveryChunkButTheLastIsFull | src/chronoduck_extension.cpp:915-939 | at every point of every run, every chunk a thread returned but its last is a full vector of 2048 rows |
| ParallelSource.FinishedRunReturnsEverything | src/chronoduck_extension.cpp:915-939 | when all threads have finished, the output is, with multiplicity, the rows of all bins |
| ParallelSource.EveryRunEnds | src/chronoduck_extension.cpp:915-939 | a run of unfinished threads takes at most four steps a row, two a bin and three a thread |
| ParallelSource.EveryRunCanFinish | src/chronoduck_extension.cpp:915-939 | no run is stuck: from wherever it has got to, moving unfinished threads takes every thread to FINISHED |
| ParallelSource.SomeRunFinishes | src/chronoduck_extension.cpp:915-939 | so some run takes every thread to FINISHED with all rows returned |
| ParallelSource.OneRowForEachSeries | src/chronoduck_extension.cpp:767-775 | when all threads have finished, every series of the input has exactly one row, with its own points |
| ParallelSource.GetDataInternal | src/chronoduck_extension.cpp:915-939 | one call, run alone, is a sequence of protocol steps that returns one chunk, or FINISHED exactly when the chunk is empty |

## Left out

- The database host: vector formats, binders, the partition sort, spilling, registration, interrupts. A bin is taken to arrive sorted by series and time, and the passthrough to hand on its child's columns by position.
- How doubles round: the arithmetic is a parameter, or exact. `kahan.hpp`, the comparator's tolerance and the conditioning of the regression rest on rounding and are not part of this model.
- LeastSquares.LinearRegression: a vanishing variation is a result of its own, because the source then divides by zero, and too few readings are one where the source returns NaN.
- RateStates.ComputeRatePoints: a payload's buffer is the sequence of its samples; the arena it lives in is proved separately in `SampleBuffers`, and the two are not nested in one heap structure.
- SampleBuffers.SampleArena.ReleaseAll: freeing memory is the byte counter going back; use after free is not expressible.
- GridStreams.GridStream.Drain: the emit callback is the list of emissions the call returns, so a callback that throws in the middle of a drain is not modelled.
- Pushdown.PushScanBound: the scans are objects whose filters change in place, but the plan around them is a value, so its being a tree (no scan shared with another consumer) is not expressed; a planner's guarantee that expressions name columns their child exposes is a premise of the theorems.
- Pushdown.AggregatePushdownKeepsAnswers: speaks of points only; a group with no row inside the bound vanishes from the output.
- The walk over a whole plan that applies the two push rules at every node, and the setting that disables it.
- ParallelSource.GetDataInternal: the rows of each bin are a parameter, and the call is not interrupted; interleaving is modelled by the step machine it is proved to follow.
- 64-bit wrap-around of ticks outside the scan bound: `TicksStayInRange` gives the exact range in which the walk and the count do not meet it.
- Delta temporality: the reset rule has the parameter, and every caller passes false.
- ScanBounds.EdgeFoldsSeeThroughTheBound: the modes INTERPOLATE, NEXT and NEAREST have no reads defined in the source beyond the window.
- `ts_grid`, `quantile_linear`, the registry and the divergence list: small or declarative.
- Scripts, random generators, mutants, the live comparison leg and memory measurement.
