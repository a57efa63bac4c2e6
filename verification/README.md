# DataTruthAnalyzer in Dafny

A model of the track-to-truth association engine of DataTruthAnalyzer and of the bookkeeping
around it.

The engine reads two tables of per-entity time series:

- a track file, produced by a tracker;
- a truth file, holding the true object positions.

It then does the following, and the model covers each step:

- **Time axis.** It resamples every truth onto the sorted distinct times of the track file.
  Truth values outside a truth's own time span become NaN.
- **Cost matrix.** At every time it takes the valid tracks and truths and builds a gated cost
  matrix:
  - truth rows hold the distance when it is below the association gate of 2, and 1e10 (the
    impossible cost) otherwise;
  - one synthetic "new track" row per track holds the cost 10.
- **Counts.** It counts the *associated* tracks (some truth inside the gate). It solves a minimum-cost
  assignment and counts the *assigned* tracks (put on a truth row).
- **Histories.** It records each truth's track and each track's truth, with -1 for none, in
  per-entity histories.
- **Report.** The report reduces the run to three SIAP metrics (completeness, false-track ratio
  and ambiguity) and names each entity's best-assigned counterpart. It labels negative IDs
  `Unassigned` and reads a `category:x:y` plot configuration file.

Modules:

- `DataManager`: loading (time field, grouping by ID, sorted unique times), the record of an
  entity at one time, and resampling (`numpy.interp` with NaN outside the span, as exact real
  interpolation).
- `LinearSumAssignment`: the contract of scipy's `linear_sum_assignment`. Every column gets a
  distinct row, at minimal total cost. Callers receive the solver as a function meeting this contract.
- `CostMatrix`: the constants, `_getScore` and `_createAssignmentMatrix`. It also proves, by an
  exchange argument, that an optimal assignment never pays the impossible cost.
- `DataTruthAnalyzer`: snapshots, one time step, the time loop, and the histories.
- `PositionalReading` and `PositionalPairing`: the solver's result arrays read by position, as the
  code does (see Findings).
- `SiapMetrics`: the three metrics, per step and time-weighted overall.
- `BestAssigned` and `Labels`: the best-assigned counterpart (mode of the non-negative IDs, ties to
  the smallest) and the tick labels.
- `PlotConfig`: `str.strip`, `str.split`, the line parser and the ordered plot dictionary.
- `Wrappers`, `Errors` and `Seqs`: `Option`/`Result`, the error values, and sequence helpers.

A NaN produced by resampling is `None`; input tables hold numbers only. A Python exception is a `Failure` carrying an `Error` value. Python's dictionary
iteration order is kept as an explicit key sequence (`Manager.ids`, `PlotDict.categories`), in
insertion order as Python 3.7+ iterates.

**Ambiguity is at least 1.** The report defines ambiguity as associated tracks over assigned
tracks, where 1 means no track duals (ReportGenerator.py:135-136). It divides the sums that way
overall (line 143) and per step (line 146). Every assigned track is also associated, so the
quotient is never below 1 (`SiapMetrics.MetricsBounded`). For one truth with two tracks in its
gate, one of them assigned, it is 2 (`SiapMetrics.DualTrackAmbiguity`).

## Model

| member | source | states |
|---|---|---|
| Seqs.Unique | DataManager.py:21 | `numpy.unique`: strictly increasing, with exactly the values of the input |
| Seqs.SortedListingIsUnique | DataManager.py:21 | two strictly increasing listings of the same values are equal, so the sorted unique axis is determined by its values |
| Seqs.Where | DataManager.py:29 | `numpy.where(col == v)`: the increasing positions of exactly the entries equal to `v` |
| Seqs.WhereCountsOccurrences | DataManager.py:52-53 | the number of matching positions is the number of occurrences (`count_nonzero`) |
| Seqs.DistinctCountOne | DataManager.py:52-53 | a value of a duplicate-free column occurs exactly once |
| DataManager.TimeField | DataManager.py:15-20 | `T` if present, else `TIME`; otherwise the unknown-time-field error naming the fields |
| DataManager.EntitySeries | DataManager.py:29-33 | every field restricted to exactly the rows whose ID equals the entity's, in file order |
| DataManager.Group | DataManager.py:24-33 | the grouping loop keeps a duplicate-free key list equal to the dictionary's keys, all non-negative |
| DataManager.GroupEntries | DataManager.py:24-33 | every key comes from a non-negative ID whose rows it holds; every non-negative ID has a key (negative heartbeat IDs are skipped) |
| DataManager.GroupStoresLoneId | DataManager.py:28-33 | an ID whose integer part is its own is stored under that integer with exactly its own rows |
| DataManager.GroupIsRaw | DataManager.py:29-33 | every grouped entity has all fields, one or more rows and no NaN |
| DataManager.Load | DataManager.py:13-36 | loading succeeds iff a time field exists (and `ID` when IDs are expected); the unique-time axis is sorted, duplicate-free and holds exactly the time column's values, heartbeat rows included |
| DataManager.LoadGroupsByWholeIds | DataManager.py:24-33 | with whole IDs, an ID is a key iff it is non-negative and occurs, and it maps to exactly its own rows |
| DataManager.IndividualDataAtTime | DataManager.py:50-62 | nothing iff no row has the time, the matching row iff exactly one does, and the duplicate-time error naming the time iff several do |
| DataManager.Interp | DataManager.py:47 | `numpy.interp` with `left`/`right` NaN: missing exactly outside the sample span |
| DataManager.InterpAtSample | DataManager.py:47 | interpolating at a sample time returns that sample |
| DataManager.InterpOfConstant | DataManager.py:47 | interpolating a constant column inside its span returns the constant |
| DataManager.Resample | DataManager.py:42-48 | same fields; the time field becomes the axis; every other field has the axis's length and is missing exactly outside the original time span (measured on the original times) |
| DataManager.ResampleKeepsSamples | DataManager.py:45-48 | an axis time equal to an original sample time keeps that sample's values |
| DataManager.Interpolate | DataManager.py:42-48 | every entity resampled; keys, key order and fields unchanged, every time column as long as the axis |
| DataManager.ResampledRecordAtAxisTime | DataManager.py:47-62 | after resampling onto a sorted axis each axis time has exactly one record, whose ID is present iff the time is inside the original span |
| LinearSumAssignment.CostUpdate | DataTruthAnalyzer.py:66 | moving one column to another row changes the total cost by exactly the difference of the two entries |
| CostMatrix.SquaredDistance | DataTruthAnalyzer.py:117-119 | the squared distance of two complete positions is non-negative |
| CostMatrix.Score | DataTruthAnalyzer.py:116-120 | inside the gate: a non-negative root of the squared distance below 2; otherwise (including NaN coordinates) the impossible cost |
| CostMatrix.GateBySquares | DataTruthAnalyzer.py:119-120 | `sqrt(q) < 2` iff `q < 4`, so the gate test needs no root |
| CostMatrix.BuildMatrix | DataTruthAnalyzer.py:102-114 | `nT + nK` rows of `nK` entries; truth entries below impossible iff the pair is in the gate (then in [0, 2)); synthetic row `nT + j` is 10 at column `j` and impossible elsewhere |
| CostMatrix.GatedIsSolvable | DataTruthAnalyzer.py:107 | the matrix is rectangular with no more columns than rows, as the solver requires |
| CostMatrix.ImprovingMove | DataTruthAnalyzer.py:113-114 | an assignment paying the impossible cost in some column has a strictly cheaper one |
| CostMatrix.OptimalAvoidsImpossible | DataTruthAnalyzer.py:15-17 | an optimal assignment never uses an impossible entry, and a column off the truth rows sits on its own synthetic row |
| DataTruthAnalyzer.StepCounts | DataTruthAnalyzer.py:58-73 | assigned truths = assigned tracks <= truths, and assigned tracks <= associated tracks <= tracks |
| DataTruthAnalyzer.TruthTrackAssignment | DataTruthAnalyzer.py:67-76 | one entry per valid truth: -1 for a truth row no column was solved to, otherwise the track of a column solved to that row |
| DataTruthAnalyzer.TrackTruthAssignment | DataTruthAnalyzer.py:83-88 | one entry per valid track (its contents are stated by `AssociateClassifies`) |
| DataTruthAnalyzer.Associate | DataTruthAnalyzer.py:57-98 | the step record has one entry per valid truth and track, keeps the IDs and time, and its counts satisfy assigned <= associated <= tracks, assigned <= truths |
| DataTruthAnalyzer.RecordingTruthsAreAssignedRows | DataTruthAnalyzer.py:70-76 | with non-negative track IDs, the truths that record a track are exactly the truth rows the solver used |
| DataTruthAnalyzer.RecordingTracksAreAssignedColumns | DataTruthAnalyzer.py:83-88 | with non-negative truth IDs, the tracks that record a truth are exactly the columns the solver put on a truth row |
| DataTruthAnalyzer.AssociateCounts | DataTruthAnalyzer.py:69-73 | the assigned count is the number of truth rows the solver used and the number of tracks put on a truth row; with non-negative IDs, the number of truths that record a track and of tracks that record a truth |
| DataTruthAnalyzer.AssociatedMeansInGate | DataTruthAnalyzer.py:58-61 | the associated tracks are exactly those with some valid truth inside the gate |
| DataTruthAnalyzer.AssociateClassifies | DataTruthAnalyzer.py:66-88 | the associated count is the number of tracks near a truth; every recorded pair is in the gate; a truth records the track solved to its row or -1; a track records its row's truth or -1 on its own synthetic row |
| DataTruthAnalyzer.AssignmentsAgree | DataTruthAnalyzer.py:74-77 | with distinct IDs, truth `i` records track `j` iff track `j` records truth `i` |
| DataTruthAnalyzer.TrackSnapshot | DataTruthAnalyzer.py:44-48 | fails iff some track has several records at the time; otherwise exactly the tracks with one record there, distinct, one record each |
| DataTruthAnalyzer.TruthEntry | DataTruthAnalyzer.py:50-55 | fails iff the truth has no single record with an `ID` field; yields the record iff its `ID` is not NaN |
| DataTruthAnalyzer.TruthSnapshot | DataTruthAnalyzer.py:50-55 | fails iff some truth's record is unreadable; otherwise exactly the truths with a non-NaN `ID` at the time |
| DataTruthAnalyzer.TrackSnapshotRecordAt | DataTruthAnalyzer.py:44-48 | each snapshot position holds its track's one record at the time |
| DataTruthAnalyzer.TruthSnapshotRecordAt | DataTruthAnalyzer.py:50-55 | each snapshot position holds its truth's one record at the time |
| DataTruthAnalyzer.Score | DataTruthAnalyzer.py:57-66 | scoring fails iff there is a pair to score and a coordinate field is missing; otherwise a shaped step with the bounded counts, whose assigned count (for non-negative IDs) is the number of truths that record a track |
| DataTruthAnalyzer.Step | DataTruthAnalyzer.py:40-99 | a duplicate-time track aborts; a recorded step keeps the count bounds, an assigned count equal to the truths and to the tracks that record a counterpart, and lists exactly the valid tracks and truths at its time |
| DataTruthAnalyzer.Record | DataTruthAnalyzer.py:81-99 | the step is appended to `allTimeData`; no entity is added or dropped, and exactly the entities valid at the step get one more history entry |
| DataTruthAnalyzer.AppendAll | DataTruthAnalyzer.py:81-90 | the appends of a step keep the set of history keys |
| DataTruthAnalyzer.InitData | DataTruthAnalyzer.py:20-30 | one empty history per known truth and track: the history of no steps |
| DataTruthAnalyzer.AppendAllExtendsHistory | DataTruthAnalyzer.py:81-90 | appending a step's pairs to the reference histories gives the reference histories of one more step |
| DataTruthAnalyzer.RecordKeepsRunInvariant | DataTruthAnalyzer.py:81-99 | recording the step at the next axis time keeps one step per time, in order, and histories equal to their reference |
| DataTruthAnalyzer.InitDataStartsRun | DataTruthAnalyzer.py:20-30 | the initial state is a run over the empty axis |
| DataTruthAnalyzer.Advance | DataTruthAnalyzer.py:38-99 | one more loop pass keeps the run invariant |
| DataTruthAnalyzer.Process | DataTruthAnalyzer.py:38-99 | a completed loop has one step per axis time in axis order, each with the step invariant, and histories for exactly the known IDs |
| DataTruthAnalyzer.HistoryLengths | DataTruthAnalyzer.py:81-82 | a history's time and ID lists are equally long |
| DataTruthAnalyzer.HistoryEntryAt | DataTruthAnalyzer.py:81-90 | every history entry is the time and counterpart some step recorded for the entity |
| DataTruthAnalyzer.ValidStepInHistory | DataTruthAnalyzer.py:70-90 | every step where the entity is valid contributes its time |
| DataTruthAnalyzer.HistoryTimesIncrease | DataTruthAnalyzer.py:38-90 | history times strictly increase when step times do |
| DataTruthAnalyzer.ProcessHistory | DataTruthAnalyzer.py:38-99 | after a run over an increasing axis, each history has equal-length lists, increasing times, and exactly the axis times at which the entity is valid |
| DataTruthAnalyzer.AssignTracksToTruth | DataTruthAnalyzer.py:32-99 | one step per unique track time, in order, every step within the count bounds; history keys equal the known IDs |
| DataTruthAnalyzer.ResampledTruthValidAt | DataTruthAnalyzer.py:50-55 | after resampling, a truth is valid at an axis time iff the time lies in its original span |
| DataTruthAnalyzer.ResampledTruthValidOnAxis | DataManager.py:47 | at every track axis time at once, a resampled truth is valid iff the time lies in its original span (the truth check of DataTruthAnalyzer.py:50-55 after `numpy.interp`) |
| DataTruthAnalyzer.TruthHistoryFollowsSpan | DataTruthAnalyzer.py:33-55 | a truth's history holds exactly the track times inside its own time span, increasing |
| PositionalReading.UsedRows | DataTruthAnalyzer.py:66 | exactly the used rows below a bound, increasing |
| PositionalReading.SolverArrays | DataTruthAnalyzer.py:66 | the solver's two arrays: used rows increasing, and at each position the column solved to that row |
| PositionalReading.TruthLoopAsWritten | DataTruthAnalyzer.py:70-77 | the truth loop as written fails iff a used row's position is beyond the column array; otherwise truth `i` records the track at position `i`, and the count is the number of used rows among the truths |
| PositionalReading.TruthLoopStoresLastReader | DataTruthAnalyzer.py:70-77 | the stored track-to-truth array: -1 for a track no assigned truth reads, otherwise the truth of the last assigned truth that reads it |
| PositionalReading.TrackCounterpartAsWritten | DataTruthAnalyzer.py:83-88 | the track loop as written: -1 when `j` is not among the columns; failure when the row array has no position `j`; otherwise the truth at that row, or -1 for a synthetic row |
| PositionalReading.IncreasingListingIsUnique | DataTruthAnalyzer.py:66 | two increasing listings of the same rows are equal |
| PositionalReading.IncreasingAssignmentArrays | DataTruthAnalyzer.py:66 | when rows increase with columns, the row array is the assignment and the column array counts up, so positional reading is right |
| PositionalPairing.MisassignArrays | DataTruthAnalyzer.py:66 | the arrays of assignment `[1, 3]` are `([1, 3], [0, 1])` |
| PositionalPairing.MisassignLoop | DataTruthAnalyzer.py:70-77 | the loop as written on those arrays gives truths 1, 2 the tracks -1, 21, stores tracks 20, 21 the truths -1, 2, and counts one assigned truth |
| PositionalPairing.MisassignTrackLoop | DataTruthAnalyzer.py:70-88 | on those arrays the track loop gives track 20 truth 2 and track 21 none, the reverse of the array the truth loop stores |
| PositionalPairing.OverrunArrays | DataTruthAnalyzer.py:70-77 | the arrays of `[1]` are `([1], [0])`, and the loop as written runs past the column array |
| PositionalPairing.CostOfTwo | DataTruthAnalyzer.py:66 | a two-column assignment costs the sum of its two entries |
| PositionalPairing.MisassignMatrix | DataTruthAnalyzer.py:102-120 | in the counterexample geometry only truth 2 and track 20 are in the gate |
| PositionalPairing.MisassignSolution | DataTruthAnalyzer.py:66 | the only optimal assignment of that matrix is `[1, 3]` |
| PositionalPairing.PositionalReadMisassigns | DataTruthAnalyzer.py:66-77 | with any correct solver, positional reading gives truth 2 track 21 (outside its gate), the intended reading track 20 |
| PositionalPairing.MisassignReadings | DataTruthAnalyzer.py:70-77 | the two readings of `[1, 3]` differ at truth 2 |
| PositionalPairing.PositionalReadOverruns | DataTruthAnalyzer.py:66-77 | with two truths and one track on truth 2, positional reading fails while the intended reading gives track 20 |
| PositionalPairing.OverrunReadings | DataTruthAnalyzer.py:70-77 | the two readings of `[1]` |
| PositionalPairing.OverrunSolution | DataTruthAnalyzer.py:66 | the only optimal assignment of the second matrix is `[1]` |
| PlotConfig.LeadingSpaces | ReportGenerator.py:23 | the length of the maximal leading whitespace run |
| PlotConfig.TrailingSpaces | ReportGenerator.py:23 | the length of the maximal trailing whitespace run |
| PlotConfig.Strip | ReportGenerator.py:23 | `str.strip()`: no longer than the input; starts and ends with non-whitespace when not empty |
| PlotConfig.StripIsStripOf | ReportGenerator.py:23 | the result is a piece of the input with whitespace-only margins and non-whitespace ends |
| PlotConfig.StripOfIsUnique | ReportGenerator.py:23 | that description has exactly one answer |
| PlotConfig.StripIdempotent | ReportGenerator.py:23 | stripping twice equals stripping once |
| PlotConfig.Split | ReportGenerator.py:23 | `str.split(':')`: at least one field, none containing the separator |
| PlotConfig.JoinSplit | ReportGenerator.py:23 | joining the fields of a split with the separator gives the input back |
| PlotConfig.SplitJoin | ReportGenerator.py:23 | splitting a join of separator-free fields gives the fields back |
| PlotConfig.ParseLine | ReportGenerator.py:23-26 | fails (indexing past the split) iff the stripped line has fewer than three fields; otherwise fields 0, 1, 2 |
| PlotConfig.ParseFormattedLine | ReportGenerator.py:23-26 | parsing `c:x:y` built from colon-free names gives back `(c, x, y)` |
| PlotConfig.Gather | ReportGenerator.py:21-29 | the line loop succeeds iff every line does, with one value per line |
| PlotConfig.GatherAt | ReportGenerator.py:21-29 | each line's value lands at its own position |
| PlotConfig.GatherFailsAtFirst | ReportGenerator.py:21-29 | a failure is the error of the first failing line, all earlier lines succeeding |
| PlotConfig.AddPlot | ReportGenerator.py:27-29 | appends the pair to its category (new categories start empty, at the end); other categories unchanged |
| PlotConfig.Collect | ReportGenerator.py:19-29 | the ordered dictionary keeps its key list and its keys equal and duplicate-free |
| PlotConfig.MentionsStep | ReportGenerator.py:27-29 | a category is named by the lines iff by the earlier ones or the last |
| PlotConfig.CollectHoldsPairs | ReportGenerator.py:27-29 | a category is a key iff some line names it, and holds exactly that category's pairs in file order |
| PlotConfig.FirstMention | ReportGenerator.py:27-29 | the first line naming a category |
| PlotConfig.CollectCategoriesStep | ReportGenerator.py:27-29 | one more line adds its category at the end exactly when it is new |
| PlotConfig.CollectKeepsFirstAppearanceOrder | ReportGenerator.py:19-29 | categories are ordered by first appearance |
| PlotConfig.FirstMentionOfPrefix | ReportGenerator.py:27-29 | a category already named keeps its first mention |
| PlotConfig.ParseLines | ReportGenerator.py:21-26 | one parse outcome per line, numbered by position |
| PlotConfig.SetupPlots | ReportGenerator.py:18-29 | succeeds iff every line parses, with a valid ordered dictionary |
| PlotConfig.SetupPlotsOutcome | ReportGenerator.py:18-29 | a malformed file reports its first malformed line; a good one holds per line its parse and per category its pairs in order |
| SiapMetrics.Ratio | ReportGenerator.py:102 | defined iff the denominator is non-zero, and then the value times the denominator is the numerator |
| SiapMetrics.Completeness | ReportGenerator.py:102 | defined iff some truth is valid at some step, and then times the summed valid truths it is the summed assigned tracks (bounds in `MetricsBounded`, weighting in `CompletenessIsTimeWeighted`) |
| SiapMetrics.FalseTrackRatio | ReportGenerator.py:124 | defined iff some track is valid at some step, and then times the summed valid tracks it is the summed unassociated tracks (bounds in `MetricsBounded`, weighting in `FalseTrackRatioIsTimeWeighted`) |
| SiapMetrics.Ambiguity | ReportGenerator.py:143 | defined iff some step has an assigned track, and then times the summed assigned tracks it is the summed associated tracks (at least 1 by `MetricsBounded`) |
| SiapMetrics.CompletenessOverTime | ReportGenerator.py:106 | one value per step, defined iff the step has a valid truth, and then times the truths equal to the assigned tracks |
| SiapMetrics.FalseTrackRatioOverTime | ReportGenerator.py:127 | one value per step, defined iff the step has a valid track, and then times the tracks equal to the unassociated tracks |
| SiapMetrics.AmbiguityOverTime | ReportGenerator.py:146 | one value per step, defined iff the step has an assigned track, and then times the assigned tracks equal to the associated tracks |
| SiapMetrics.TotalMonotone | ReportGenerator.py:88-91 | sums of pointwise smaller counts are smaller |
| SiapMetrics.TotalPositive | ReportGenerator.py:88-91 | a sum of counts is positive iff some step's count is |
| SiapMetrics.FalseTotalSplits | ReportGenerator.py:124 | the false-track numerator is total tracks minus associated tracks, summed |
| SiapMetrics.WeightedTotalIsNumerator | ReportGenerator.py:102 | summing per-step ratios times weights gives the numerator sum |
| SiapMetrics.MetricsBounded | ReportGenerator.py:87-143 | each overall metric is defined iff some step has a positive denominator; completeness and false-track ratio in [0, 1], ambiguity >= 1 |
| SiapMetrics.UnitRatio | ReportGenerator.py:102 | a count over a count at least as large lies in [0, 1] |
| SiapMetrics.AboveOneRatio | ReportGenerator.py:143 | a count over a positive count no larger is at least 1 |
| SiapMetrics.StepMetricsBounded | ReportGenerator.py:106-146 | the same bounds for each step's values |
| SiapMetrics.CompletenessIsTimeWeighted | ReportGenerator.py:102 | overall completeness is the per-step completeness averaged with weights = valid truths, not the plain mean |
| SiapMetrics.FalseTrackRatioIsTimeWeighted | ReportGenerator.py:124 | overall false-track ratio is the per-step ratio averaged with weights = valid tracks |
| SiapMetrics.DualTrackAmbiguity | ReportGenerator.py:143-146 | a step with two associated and one assigned track has ambiguity 2 overall and per step |
| SiapMetrics.RunMetricsBounded | ReportGenerator.py:87-146 | the metrics of any successful run are within those bounds, and every step's assigned count is the number of truths that recorded a track |
| BestAssigned.NonNegative | ReportGenerator.py:194-196 | the non-negative IDs in order: same members and counts for non-negative values, none negative |
| BestAssigned.BestIsUnique | ReportGenerator.py:197-198 | the best counterpart (most frequent, ties to the smallest) is unique |
| BestAssigned.ArgMax | ReportGenerator.py:198 | `numpy.argmax`: a position of the largest count, and every earlier count is smaller |
| BestAssigned.ArgMaxOfUniqueIsBest | ReportGenerator.py:197-198 | `unique` then `argmax` picks the most frequent value, ties to the smallest |
| BestAssigned.ScanBest | ReportGenerator.py:197-198 | a scan that keeps the best value so far ends at the best value |
| BestAssigned.Mode | ReportGenerator.py:197-198 | the best counterpart of a non-empty history |
| BestAssigned.ModeIsNumpyPick | ReportGenerator.py:197-198 | the direct scan and numpy's route agree |
| BestAssigned.BestAssignedTruth | ReportGenerator.py:194-213 | a track is never assigned iff all its truth IDs are negative; otherwise its best truth, non-negative |
| BestAssigned.BestAssignedTrackAsWritten | ReportGenerator.py:272-276 | fails (argmax of nothing) iff all of a truth's track IDs are negative; otherwise its best track |
| BestAssigned.BestAssignedTrack | ReportGenerator.py:272-276 | the guarded truth path: no best track iff all IDs are negative, otherwise the best track |
| BestAssigned.UnassignedTruthAbortsReport | ReportGenerator.py:272-276 | the two truth paths agree when the written one returns; on history `[-1]` the written one fails |
| Labels.DigitChar | ReportGenerator.py:209 | a digit character of the digit's value |
| Labels.Decimal | ReportGenerator.py:209 | `str(n)`: non-empty digits without a leading zero |
| Labels.DigitValue | ReportGenerator.py:209 | a digit's value, whose digit character is itself |
| Labels.DecimalRoundTrip | ReportGenerator.py:209 | reading back `str(n)` gives `n` |
| Labels.DigitsRoundTrip | ReportGenerator.py:209 | a digit string without leading zeros is `str` of its value |
| Labels.LeadingDigitPositive | ReportGenerator.py:209 | a digit string without leading zeros has a positive value when longer than one digit |
| Labels.Label | ReportGenerator.py:287 | `Unassigned` iff the ID is negative; otherwise `str(id)`: non-empty digits without a leading zero whose value is the ID, which `DigitsRoundTrip` pins to `Decimal(id)` |
| Labels.LabelsSeparateIds | ReportGenerator.py:287 | equal labels mean equal IDs or two negative IDs |
| Labels.TickLabelsOfHistory | ReportGenerator.py:200-209 | for the sorted distinct values of a history, only the first label can be `Unassigned` and no label repeats |

## Left out

- Plotting, figure files, rcParams, LaTeX writing and the `pdflatex` call are output only.
- The truth-geometry summary (ReportGenerator.py:151-181) draws figures and is not modelled.
- Reading files (pandas `read_table`, `open`) is not modelled. Input is a `Table` of columns or a
  sequence of lines.
- The column values are exact reals, not IEEE floats. A NaN from resampling is `None`, and a zero
  denominator gives `None` instead of NaN, infinity or an exception.
- Input tables are assumed free of NaN cells (`Table` columns hold numbers). So two failures of
  the original are not modelled. A NaN `ID` makes `int(uid)` raise (DataManager.py:28). A NaN track
  time matches no resampled truth record, so the `ID` lookup fails on `None` (DataTruthAnalyzer.py:53).
- `math.sqrt` is a parameter meeting `IsSqrt` (non-negative root).
- scipy's `linear_sum_assignment` is a parameter meeting `IsSolver` (column-to-row assignment of
  minimal cost). Its algorithm and its tie-breaking between equal-cost optima are not modelled.
- Debug `print` calls, the `__main__` blocks, the command-line options and `getUniqueTimes`
  (a field read, covered by `DataManager.Load`) are not modelled separately.
- DataManager.Load: with `hasId` false, the single entity 0 holds an empty record, and no property
  beyond success is stated for it.
- Dictionary iteration follows Python 3.7+ insertion order. Under Python 2 a dictionary with
  integer keys iterates in hash-slot order, so the valid ID lists of a step, and the order of its
  assignment arrays, can differ for some IDs. The counterexamples in Findings use IDs whose order is
  the same under both.
- DataManager.IndividualDataAtTime: the duplicate-time error carries the ID of the first duplicate
  record. The original's message reads `data['ID'][idx[0]]` with a boolean mask (DataManager.py:61),
  a label lookup that need not give that row and may itself raise. Either way the run aborts.
- DataTruthAnalyzer.Score: the error for a missing coordinate field names `X` or `Y`, not the
  pandas `KeyError` text.
- PlotConfig.Strip: whitespace is Python's `str.isspace` set for the characters listed in
  `IsSpace`. Line-ending handling of `readlines` is not modelled, since a line is given with or
  without its newline and both strip the same.

## Findings

| source | as written | input that shows it | evidently intended | confidence | as-written member | corrected member |
|---|---|---|---|---|---|---|
| DataTruthAnalyzer.py:72-77 | truth `i` takes its track from position `i` of the solver's column array | truths 1 at (100, 0) and 2 at (0, 0); tracks 20 at (0, 0) and 21 at (50, 0): the solver returns rows `[1, 3]`, columns `[0, 1]`, and truth 2 records track 21 | truth 2 records track 20, the column solved to its row | not executed | PositionalPairing.PositionalReadMisassigns | DataTruthAnalyzer.AssociateClassifies |
| DataTruthAnalyzer.py:72-77 | the same positional read can index past the column array | truths 1 at (100, 0) and 2 at (0, 0), one track 20 at (0, 0): rows `[1]`, columns `[0]`, and position 1 does not exist | truth 2 records track 20 | not executed | PositionalPairing.PositionalReadOverruns | DataTruthAnalyzer.AssociateClassifies |
| ReportGenerator.py:272-276 | the truth summary takes `argmax` of the counts with no guard for an empty selection | a truth valid at one time but never assigned: track IDs `[-1]` | report the truth as never assigned, as the track summary does (lines 195, 212-213) | not executed | BestAssigned.UnassignedTruthAbortsReport | BestAssigned.BestAssignedTrack |
