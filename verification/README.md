# Crash repair of cpCST tracking data, modelled in Dafny

The cpCST task records one row per video frame. Each row holds the frame
time (`flip_time`), the stimulus and user positions (`stim_pos` and
`user_pos`), a running crash counter (`crash_count`) and a flag
(`did_crash`). The data is lost around each crash.

The `CrashRepair` engines rebuild the positions across each crash:

1. Find every row where `crash_count` changes.
2. Take a window of at most `window_frame_count` rows on each side.
3. Fit an interpolant through the window.
4. Splice the synthesised transition back into a copy of the table.
5. Resample the result at 30 Hz.

Three generations of the engine are modelled side by side. They share one
segment finder:

- **current** (`CrashRepair.py`): PCHIP through the window's times, or
  through a repaired time axis if those times do not increase strictly.
  Then `tanh` dampening, an optional Savitzky–Golay pass, the splice and
  resampling;
- **old** (`old_1/crash_test.py`): outlier masking, a de-duplicated time
  axis, a splice over an inclusive label range, `Series.interpolate` and a
  validating resampler;
- **alternative** (`NewCrashRepair.py`): a natural cubic spline with a
  Gaussian filter, and no resampling.

The project also models the string logic of three helper scripts:

- the participant id and output file name in `reproc_cpCST.py`;
- EEG channel anatomy and laterality, and the crash flag of event markers,
  in `eeg_file_to_pkl.py`;
- the CSV destination and the annotation column in `fif_to_csv.py`.

Modules:

- `Wrappers`: `Option`, `Result` and the Python exceptions the code can raise.
- `Table`: rows, columns and monotonicity.
- `Sorting`: `np.sort`, `np.median` and the 99th-percentile pick.
- `Dedup`: `np.unique` and `np.argsort`.
- `TimeAxis`:
  - `restructure_arr`;
  - `np.linspace` and `np.arange`;
  - `np.interp`.
- `Numerics`: the scipy kernels, as uninterpreted functions, plus
  `smooth_dampen` and the smoothing window.
- `SegmentFinder`: the shared finder.
- `Splice`: the splice shared by the current and alternative engines.
- The three engines:
  - `CurrentEngine` (current);
  - `OldEngine` (old);
  - `NewEngine` (alternative).
- `Text`: Python string operations.
- The helper scripts: `Reproc`, `Eeg` and `FifToCsv`.

Table rows are addressed by position (`0 .. n-1`); the engines use a
default `RangeIndex`, so labels and positions coincide. Timestamps and
positions are exact reals. A Python exception is an `Err` carrying its
kind. A numpy broadcast failure is `BroadcastError`; numpy reports it as a
`ValueError`.

Where the code and its documentation disagree, the model follows the code.

- `compute_transition` of the current engine: the nested `try`/`except`
  around each PCHIP fit reads like a fallback. But when both the direct
  fit and the fit on `restructure_arr` fail, the inner `except` block only
  prints. The next statement then reads an unbound
  interpolator, which raises UnboundLocalError. `FitAbscissa` models that.
- Resampling: `resample_data` uses `np.arange(start, end, 1/f)`. That grid
  excludes `end`, so the last sample is dropped even for an already
  uniform table (`ResampleUniformDropsLast`).
- Old engine: `detect_aberrant_data` pads the flags to `len(data)`
  entries. It then assigns them to the slice
  `aberrant_points[window_frame_count:]`, which has `window_frame_count`
  fewer entries (none when the window covers the table). The shapes differ
  whenever the window is at least one frame and the table has two or more
  rows, so the call raises (`AberrantOutcome`). In the remaining cases the
  final `[-0:]` or `[:window_frame_count]` writes flag every row. So this
  engine either raises or masks every position
  (`OldEngine.RepairLosesAllPositions`).

## Model

| member | source | states |
|---|---|---|
| TimeAxis.Diffs | IRT_extraction/CrashRepair.py:9 | `np.diff`: one element shorter, element k is `arr[k+1] - arr[k]` |
| TimeAxis.Restructure | IRT_extraction/CrashRepair.py:8-11 | same length and first element; each step equals the original difference, with a zero difference replaced by the median of all differences |
| TimeAxis.RestructureIdentity | IRT_extraction/CrashRepair.py:8-11 | without a zero difference the axis comes back unchanged |
| TimeAxis.RestructureRepairsTies | IRT_extraction/CrashRepair.py:8-11 | on a non-decreasing axis with a positive median difference the rebuilt axis is strictly increasing |
| TimeAxis.RestructureKeepsTie | IRT_extraction/CrashRepair.py:8-11 | when the median difference is zero a tie survives, so the rebuilt axis need not increase |
| TimeAxis.RestructureKeepsBackwardStep | IRT_extraction/CrashRepair.py:8-11 | negative steps are kept, so the rebuilt axis need not increase |
| TimeAxis.LinspaceSpec | IRT_extraction/CrashRepair.py:110-114 | `np.linspace(a, b, n)` starts at a, ends at b and is evenly spaced |
| TimeAxis.Arange | IRT_extraction/CrashRepair.py:170 | `np.arange(start, stop, step)`: the points `start + k*step`, k below the count |
| TimeAxis.ArangeSpec | IRT_extraction/CrashRepair.py:170 | every grid point is below stop, one more step would reach stop, and the grid is empty iff start >= stop |
| TimeAxis.UniformGrid | IRT_extraction/CrashRepair.py:170 | on times `start + i*step` the arange grid is every time but the last |
| TimeAxis.InterpAll | IRT_extraction/CrashRepair.py:173-174 | `np.interp` evaluated pointwise at each new time |
| TimeAxis.InterpWithin | IRT_extraction/CrashRepair.py:173-174 | the interpolated value lies within any bounds of the data values |
| TimeAxis.InterpAtKnot | IRT_extraction/CrashRepair.py:173-174 | on strictly increasing knots the interpolant passes through the data |
| Sorting.Sort | IRT_extraction/CrashRepair.py:35-36 | `np.sort`: sorted, and a permutation of the input |
| Sorting.SortMember | IRT_extraction/CrashRepair.py:36 | every sorted element is an input element |
| Sorting.MedianWithin | IRT_extraction/CrashRepair.py:10 | `np.median` lies within any bounds of the values |
| Sorting.PercentileIndex | IRT_extraction/CrashRepair.py:37 | `int(len * 0.99)` is a valid position of a non-empty array |
| Sorting.Percentile99 | IRT_extraction/CrashRepair.py:35-38 | IndexError iff there are no rows; otherwise a non-negative value that is the absolute value of some stimulus position |
| Sorting.PercentileRank | IRT_extraction/CrashRepair.py:35-38 | the picked value has at least `int(0.99n)+1` absolute values at or below it and at most `int(0.99n)` below it |
| Sorting.CountSort | IRT_extraction/CrashRepair.py:36 | sorting changes no rank count |
| Sorting.SortedRank | IRT_extraction/CrashRepair.py:38 | in a sorted array the element at position t has at least t+1 values at or below it and at most t below it |
| SegmentFinder.TransitionIndicesSpec | IRT_extraction/CrashRepair.py:74 | the transitions are position 0 (NaN diff) and exactly the later positions where `crash_count` changes, in ascending order |
| SegmentFinder.FindCrashSegments | IRT_extraction/CrashRepair.py:68-100 | the loop's segment list equals the specification `Segments` |
| SegmentFinder.SegmentFor | IRT_extraction/CrashRepair.py:78-98 | one turn of the loop: skipped (`None`) exactly when a window would be empty, else the segment `SegmentAt` describes |
| SegmentFinder.SegmentsAreWellFormed | IRT_extraction/CrashRepair.py:77-98 | each segment sits at a count change after 0; pre-window `[i-min(W,i), i)`, post-window `[i, i+min(W,n-i))`, both non-empty, at most W, inside the table; partial iff one is short; gap is the time difference across the crash |
| SegmentFinder.SegmentsAscending | IRT_extraction/CrashRepair.py:77 | segments come in ascending crash position |
| SegmentFinder.SegmentExistsIff | IRT_extraction/CrashRepair.py:74-85 | a segment exists at i iff `crash_count` changes at i > 0 and W > 0; position 0 never yields one |
| SegmentFinder.NoChangeNoSegments | IRT_extraction/CrashRepair.py:74-85 | a constant `crash_count` yields no segment |
| Numerics.DampenWithinTarget | IRT_extraction/CrashRepair.py:40-51 | `smooth_dampen` with a positive target keeps the sign of the value and stays strictly below the target in magnitude |
| Numerics.DampenAll | IRT_extraction/CrashRepair.py:153-154 | dampening applies elementwise |
| Numerics.SmoothWindow | IRT_extraction/CrashRepair.py:156-157 | `min(15, n//2*2-1)` is odd and at most 15; it exceeds 3 iff n >= 6, and then it is at most n |
| Numerics.Smooth | IRT_extraction/CrashRepair.py:156-159 | smoothing keeps the length and leaves fewer than six samples untouched |
| Numerics.EvalAtKnots | IRT_extraction/NewCrashRepair.py:41-44 | an interpolant through strictly increasing knots, evaluated at those knots, returns the data |
| Splice.SpliceInPlace | IRT_extraction/CrashRepair.py:204-211 | the in-place writes of one segment equal `SpliceRows` of the old contents |
| Splice.ApplyTransitions | IRT_extraction/CrashRepair.py:188-212 | the splice loop on an array working copy equals `SpliceAll` |
| Splice.SpliceAllOutside | IRT_extraction/CrashRepair.py:204-211 | a row no applied segment covers keeps its contents |
| Splice.SpliceAllLastWriter | IRT_extraction/CrashRepair.py:204-211 | a row's last covering applied segment decides it: its transition sample, `did_crash` false, and the count just before that segment's range |
| Splice.SpliceAllClearsCrashFlag | IRT_extraction/CrashRepair.py:209 | every row an applied segment covers has `did_crash` false |
| Splice.SegmentsInTable | IRT_extraction/CrashRepair.py:86-87 | every segment's window lies inside the table |
| CurrentEngine.FitAbscissa | IRT_extraction/CrashRepair.py:120-147 | strictly increasing times are used as they are; otherwise `restructure_arr` of them if that increases strictly; otherwise UnboundLocalError |
| CurrentEngine.ComputeTransition | IRT_extraction/CrashRepair.py:102-164 | `None` iff a side has fewer than two rows; raises iff neither fit works; otherwise `len(pre)+len(post)` rows on the linspace grid from the first pre time to the last post time |
| CurrentEngine.TransitionTimeGrid | IRT_extraction/CrashRepair.py:110-114 | the transition starts at the first pre time, ends at the last post time, and has equal steps |
| CurrentEngine.ShortTransitionWithinTarget | IRT_extraction/CrashRepair.py:152-159 | with a positive target and fewer than six rows (no savgol), every position is strictly within the target |
| CurrentEngine.Transitions | IRT_extraction/CrashRepair.py:188-201 | one entry per segment; every computed transition has exactly the window's length, so the length check never skips; errors are UnboundLocalError |
| CurrentEngine.Resample | IRT_extraction/CrashRepair.py:166-182 | IndexError iff the table is empty; otherwise the times are `np.arange(first, last, 1/f)` |
| CurrentEngine.ResampleReadsOnlyPositions | IRT_extraction/CrashRepair.py:166-182 | only time and position columns matter, so the spliced `did_crash` and `crash_count` are absent from the output |
| CurrentEngine.ResampleGrid | IRT_extraction/CrashRepair.py:170 | all resampled times lie before the last time, and the grid is empty iff first >= last |
| CurrentEngine.ResampleUniformDropsLast | IRT_extraction/CrashRepair.py:166-182 | a table already uniform at 1/f comes back without its last row |
| CurrentEngine.Repair | IRT_extraction/CrashRepair.py:184-214 | the only errors are UnboundLocalError, and IndexError for an empty table |
| CurrentEngine.TransitionsOkStep | IRT_extraction/CrashRepair.py:188-192 | when the transitions of several windows are all computed, those of all windows but the last, and that of the last, were computed |
| CurrentEngine.TransitionsOkEach | IRT_extraction/CrashRepair.py:188-192 | when all transitions are computed, each segment's computation succeeded |
| CurrentEngine.TransitionsRejectAt | IRT_extraction/CrashRepair.py:188-192 | one window whose transition raises makes the whole loop raise UnboundLocalError |
| CurrentEngine.UnfittableWindowRaises | IRT_extraction/CrashRepair.py:120-150 | a window with two or more rows per side whose times neither fit accepts raises |
| CurrentEngine.RepairRejectsUnfittableWindow | IRT_extraction/CrashRepair.py:120-150 | a window with two or more rows per side whose times neither PCHIP fit accepts makes the whole repair raise UnboundLocalError |
| CurrentEngine.RepairWithoutCrashes | IRT_extraction/CrashRepair.py:184-214 | a table whose `crash_count` never changes is only resampled |
| CurrentEngine.CrashRepair.constructor | IRT_extraction/CrashRepair.py:14-27 | stores the table and rate; frame duration `1/rate`; `window_frame_count = int(window_size * rate)` |
| CurrentEngine.CrashRepair.SetTargetMaxPosition | IRT_extraction/CrashRepair.py:29-38 | the target becomes the 99th-percentile pick; on an empty table it raises and the target is unchanged |
| CurrentEngine.CrashRepair.RepairTracking | IRT_extraction/CrashRepair.py:184-214 | the imperative repair equals `Repair` |
| NewEngine.ComputeTransition | IRT_extraction/NewCrashRepair.py:35-47 | `None` iff a side has fewer than two rows; ValueError iff the window's times do not increase strictly; otherwise the window's own times |
| NewEngine.TransitionFiltersData | IRT_extraction/NewCrashRepair.py:41-46 | the spline passes through its knots, so the transition is the Gaussian filter of the window's positions |
| NewEngine.Transitions | IRT_extraction/NewCrashRepair.py:52-59 | one entry per segment; every computed transition has the window's length; errors are ValueError |
| NewEngine.TransitionsOkEach | IRT_extraction/NewCrashRepair.py:52-56 | when all transitions are computed, each segment's computation succeeded |
| NewEngine.Repair | IRT_extraction/NewCrashRepair.py:49-67 | the result has the input's length, and the only error is ValueError |
| NewEngine.RepairKeepsOutside | IRT_extraction/NewCrashRepair.py:49-67 | rows outside every window come back unchanged |
| NewEngine.RepairRejectsUnorderedWindow | IRT_extraction/NewCrashRepair.py:38-42 | a window with two or more rows per side whose times do not increase strictly makes the whole repair raise ValueError |
| NewEngine.RepairWithoutCrashes | IRT_extraction/NewCrashRepair.py:49-67 | a constant `crash_count` returns the table unchanged |
| NewEngine.CrashRepair.constructor | IRT_extraction/NewCrashRepair.py:7-12 | as in the current engine |
| NewEngine.CrashRepair.RepairTracking | IRT_extraction/NewCrashRepair.py:49-67 | the imperative repair equals `Repair` |
| OldEngine.FindCrashWindows | IRT_extraction/old_1/crash_test.py:33-61 | the loop with its extra clamps returns exactly the shared finder's windows |
| OldEngine.WindowFor | IRT_extraction/old_1/crash_test.py:38-59 | one turn of the loop with the `max`/`min` clamps: skipped exactly where the shared finder skips, else the shared finder's window |
| OldEngine.WindowsInTable | IRT_extraction/old_1/crash_test.py:40-47 | every window has rows on both sides of the crash and lies inside the table |
| OldEngine.AberrantOutcome | IRT_extraction/old_1/crash_test.py:63-86 | raises (shape mismatch) iff W >= 1 and n >= 2; otherwise every row is flagged |
| OldEngine.DetectAberrantData | IRT_extraction/old_1/crash_test.py:63-86 | the array computation (threshold, pad, index assignment) ends as `AberrantOutcome` |
| OldEngine.MaskSpec | IRT_extraction/old_1/crash_test.py:178 | masking sets exactly the flagged rows' positions to NaN and changes nothing else |
| OldEngine.ComputeTransition | IRT_extraction/old_1/crash_test.py:88-130 | `None` iff a side has fewer than two rows; ValueError iff there are fewer than two distinct times; otherwise the distinct times in ascending order |
| OldEngine.TransitionLength | IRT_extraction/old_1/crash_test.py:103-110 | the transition has at most `len(pre)+len(post)` rows, exactly that many iff the times are distinct |
| OldEngine.TransitionValues | IRT_extraction/old_1/crash_test.py:103-124 | each row holds a distinct time and the dampened (and possibly smoothed) position at its first occurrence |
| Dedup.DistinctSortedLength | IRT_extraction/old_1/crash_test.py:103 | `np.unique` never adds values and keeps all of them iff none repeats |
| Dedup.AtFirstOccurrences | IRT_extraction/old_1/crash_test.py:103-105 | positions picked at `return_index` are those of each value's first occurrence |
| Dedup.ArgsortOfIncreasingIsIdentity | IRT_extraction/old_1/crash_test.py:107-110 | `argsort` of the already sorted unique times is the identity |
| OldEngine.Transitions | IRT_extraction/old_1/crash_test.py:181-185 | one entry per window, errors are ValueError, no window gives no transition |
| OldEngine.SpliceRows | IRT_extraction/old_1/crash_test.py:191-208 | rows outside `[start, end]` unchanged, `did_crash` kept, count 0 inside; after `head` and `reindex`, label l holds the transition's row l when l is below the cut transition's length, and NaN otherwise |
| OldEngine.SpliceInPlace | IRT_extraction/old_1/crash_test.py:203-208 | the in-place writes equal `SpliceRows` of the old contents |
| OldEngine.ApplyTransitions | IRT_extraction/old_1/crash_test.py:181-208 | the splice loop equals `SpliceAll` |
| OldEngine.FillLinear | IRT_extraction/old_1/crash_test.py:210-211 | `interpolate()`: known values kept, everything after the first known value filled, leading NaN kept |
| OldEngine.FillInterior | IRT_extraction/old_1/crash_test.py:210-211 | a NaN run between two known values is filled along the straight line by position |
| OldEngine.FillTrailing | IRT_extraction/old_1/crash_test.py:210-211 | NaN after the last known value takes that value |
| OldEngine.Timed | IRT_extraction/old_1/crash_test.py:137-140 | `dropna` keeps only rows with a time, and all rows when none is missing; the result is empty iff no row has a time |
| OldEngine.TimedAppend | IRT_extraction/old_1/crash_test.py:137-140 | dropping untimed rows commutes with concatenation, so exactly the timed rows survive, in their order |
| OldEngine.TimedSingle | IRT_extraction/old_1/crash_test.py:137-140 | a single row survives iff it has a time |
| OldEngine.InterpOptKnown | IRT_extraction/old_1/crash_test.py:161-162 | without NaN, the interpolation is `np.interp` |
| OldEngine.InterpOptUnknown | IRT_extraction/old_1/crash_test.py:161-162 | with every value NaN the interpolation is NaN |
| OldEngine.Resample | IRT_extraction/old_1/crash_test.py:132-171 | IndexError iff no row has a time; ValueError iff first >= last; otherwise the arange grid |
| OldEngine.ResampleKnown | IRT_extraction/old_1/crash_test.py:158-162 | on a fully known table each resampled position is `np.interp` of the data |
| OldEngine.Repair | IRT_extraction/old_1/crash_test.py:173-214 | raises BroadcastError whenever W >= 1 and there are two or more rows, and IndexError on an empty table |
| OldEngine.DetectionLeavesNoSegments | IRT_extraction/old_1/crash_test.py:33-61 | whenever detection succeeds there is no segment to splice |
| OldEngine.FillKeepsUnknown | IRT_extraction/old_1/crash_test.py:210-211 | interpolation leaves an all-NaN column all NaN |
| OldEngine.ResampleKeepsUnknown | IRT_extraction/old_1/crash_test.py:161-162 | resampling an all-NaN table gives NaN positions |
| OldEngine.RepairLosesAllPositions | IRT_extraction/old_1/crash_test.py:173-214 | every table this engine returns has NaN in every position |
| OldEngine.CrashRepair.constructor | IRT_extraction/old_1/crash_test.py:8-13 | as in the current engine |
| OldEngine.CrashRepair.SetTargetMaxPosition | IRT_extraction/old_1/crash_test.py:15-19 | the same 99th-percentile pick |
| OldEngine.CrashRepair.RepairTracking | IRT_extraction/old_1/crash_test.py:173-214 | the imperative repair equals `Repair` |
| Text.ReplaceAllSkips | IRT_extraction/reproc_cpCST.py:80 | `str.replace` copies a prefix with no match unchanged |
| Text.ReplaceAllAbsent | IRT_extraction/reproc_cpCST.py:80 | `str.replace` of an absent pattern changes nothing |
| Text.AfterLast | IRT_extraction/reproc_cpCST.py:14 | `split(c)[-1]` is the suffix after the last c (all of s without c) and has no c |
| Text.BeforeFirst | IRT_extraction/reproc_cpCST.py:15 | `split(c)[0]` is the prefix before the first c (all of s without c) and has no c |
| Reproc.GetUrsi | IRT_extraction/reproc_cpCST.py:13-16 | the id has no `/`, `_` or `-` and is a suffix of the file name's first `_` field: all of it when the field has no `-`, otherwise exactly what follows its last `-` |
| Reproc.GetUrsiOf | IRT_extraction/reproc_cpCST.py:13-16 | for `dir/prefix-ID_rest` with a plain ID, the result is ID |
| Reproc.GetUrsiOfEventsFile | IRT_extraction/old_1/reproc_cpCST.py:93 | the events file of participant M10909540 yields `M10909540` |
| Reproc.TaggedName | IRT_extraction/reproc_cpCST.py:80-85 | the name ends in `.csv`, tagged `_detrend` and then `_zscale` as flagged |
| Reproc.TagFileName | IRT_extraction/reproc_cpCST.py:80-85 | the step-by-step `+=` equals `TaggedName` |
| Reproc.UntaggedNameUnchanged | IRT_extraction/reproc_cpCST.py:80-85 | without tags, `x.csv` (x free of `.csv`) is unchanged |
| Eeg.RemoveNumerals | eeg_file_to_pkl.py:35-36 | a character is kept iff it is not a digit |
| Eeg.RemoveNumeralsAppend | eeg_file_to_pkl.py:35-36 | removal works piecewise, keeping order |
| Eeg.RemoveNumeralsWithoutDigits | eeg_file_to_pkl.py:35-36 | a digit-free name is unchanged |
| Eeg.IsEven | eeg_file_to_pkl.py:29-33 | `None` iff the name has no digit |
| Eeg.IsEvenByLastDigit | eeg_file_to_pkl.py:29-33 | the answer is the parity of the last digit of the first digit run |
| Eeg.IsEvenExamples | eeg_file_to_pkl.py:29-33 | O2 even, Fp1 odd, P10 even, Cz none |
| Eeg.AnatomyLookup | eeg_file_to_pkl.py:38-39 | KeyError iff the stem's length or the stem is missing |
| Eeg.AnatomyOf | eeg_file_to_pkl.py:47-56 | template channel → template entry (IndexError past its end); `z` channel → carried stem's entry (UnboundLocalError without one); otherwise its own stem's entry |
| Eeg.Anatomies | eeg_file_to_pkl.py:46-56 | one entry per channel, each as `AnatomyOf` with the stem carried from earlier channels |
| Eeg.LateralityOf | eeg_file_to_pkl.py:59-68 | a non-template channel never fails; a template channel gets its entry or IndexError |
| Eeg.LateralityRules | eeg_file_to_pkl.py:62-68 | `z` → midline, else even number → right, else (odd or no digit) → left |
| Eeg.Lateralities | eeg_file_to_pkl.py:58-68 | one entry per channel, in order |
| Eeg.ClassifyLengths | eeg_file_to_pkl.py:41-70 | on success both lists have one entry per channel |
| Eeg.MidlineFirstFails | eeg_file_to_pkl.py:50-51 | a first non-template channel containing `z` raises UnboundLocalError |
| Eeg.AnatomyExamples | eeg_file_to_pkl.py:38-56 | Fp1 is frontopolar, O2 is occipital |
| Eeg.AnatomyAndLaterality | eeg_file_to_pkl.py:41-70 | the two appending loops equal `Classify` |
| Eeg.EventFeatures | eeg_file_to_pkl.py:209 | 1 iff the lower-cased label contains `crash`, else 0 |
| Eeg.CrashLabelFlagged | eeg_file_to_pkl.py:209 | a label containing crash in any ASCII capitalisation is flagged |
| FifToCsv.BaseName | fif_to_csv.py:27 | `os.path.basename` is a suffix with no `/` |
| FifToCsv.DirName | fif_to_csv.py:29 | `os.path.dirname` is empty iff there is no `/`, and has no trailing `/` unless all slashes |
| FifToCsv.PosixJoin | fif_to_csv.py:27 | `os.path.join` ends with the second part and starts with the first unless the second is absolute |
| FifToCsv.CsvName | fif_to_csv.py:27 | the output file name contains no `/` |
| FifToCsv.CsvNameOfFif | fif_to_csv.py:27 | `dir/x.fif` becomes `x.csv` |
| FifToCsv.CsvNameWithoutFif | fif_to_csv.py:27 | a base name without `.fif` is kept |
| FifToCsv.DirNameOfJoin | fif_to_csv.py:29 | a name joined to the directory of p has that name and that directory |
| FifToCsv.CsvDestination | fif_to_csv.py:24-29 | base name is the CSV name; with a destination, destination plus `/` if missing plus the name; without one, the input's directory |
| FifToCsv.Trunc | fif_to_csv.py:46 | `int()` truncates toward zero |
| FifToCsv.PlaceAll | fif_to_csv.py:38-48 | one entry per sample row, all NaN at the start; appended labels are never sample rows |
| FifToCsv.PlaceAllLastWrite | fif_to_csv.py:40-48 | each sample row holds the last non-Sync annotation aimed at it, or NaN when there is none |
| FifToCsv.PlaceAllSkipsSync | fif_to_csv.py:44 | no `Sync` description is ever written |
| FifToCsv.PlaceAllAppendsOnlyAfterNegative | fif_to_csv.py:46-48 | without a negative row index no row is appended |
| FifToCsv.PlaceAnnotations | fif_to_csv.py:37-48 | the in-place loop equals `PlaceAll` |

## Left out

- Input and output are not modelled. That covers:
  - CSV, pickle and FIF reading and writing;
  - argparse;
  - the Tk dialogs;
  - printing;
  - `main`, `process_file` and globbing.

  Inputs are parameters instead: the table, the annotation list, the
  sampling rate and the paths.
- The scipy kernels are uninterpreted functions in `Numerics.Kernels`:
  - PCHIP and the natural cubic spline are assumed only to pass through
    strictly increasing knots and to fail on other abscissae;
  - `tanh` is assumed to map `[0, inf)` into `[0, 1)`;
  - the Savitzky–Golay and Gaussian filters are assumed only to keep the
    length;
  - the outlier threshold test is assumed only to keep the length.
- Floating point is not modelled; times and positions are exact reals.
  `int(len * 0.99)` is taken exactly as `99n/100` rounded down.
- `n_missing_frames` is not modelled, because it is computed but never
  read.
- `compute_weighted_velocity`, `compute_velocity`, `zscale` and `detrend`
  are not modelled, because they are unused or statistical.
- `plot_repair` and `plot_fif_file.py` are not modelled: they only plot.
- `extract_envelopes`, `BlinkRemover` and the timestamp conversion are not
  modelled: they wrap MNE.
- The transitions are computed for all segments before the splice loop,
  where the source interleaves the two. The two are equivalent, because
  `compute_transition` reads only the original table.
- CurrentEngine.ShortTransitionWithinTarget: the ±target bound is proved
  only when savgol does not run. The filter runs after dampening and can
  leave the bound.
- Numerics.SmoothDampen: a zero target (a division by zero in numpy) is
  modelled as a zero result.
- OldEngine.SpliceRows: the `elif` branch at `old_1/crash_test.py:199-200`
  cannot be reached after the `!=` test and is not modelled.
- OldEngine.Resample: the `time_range <= 0` check at
  `old_1/crash_test.py:155-156` cannot fail after the `start >= end` check
  and is not modelled.
- Separately from the two previous lines, the old engine's splice, fill and
  resample steps are modelled in full. No input reaches them with a known
  position, because detection raises first (`OldEngine.Repair`).
- TimeAxis.InterpAll: `np.interp` is the linear scan over the knots. It
  agrees with numpy only on non-decreasing knots, and nothing is claimed
  for other knots.
- `Eeg` treats only ASCII `0`–`9` as digits and lower-cases only ASCII
  letters. Python's `\d` and `str.lower` also cover other Unicode
  characters.
- Eeg.AnatomyOf: the template is the three lists of
  `dict_template['labels']['channels_info']`. The nested-dictionary lookup
  itself, and its KeyError, are not modelled.
- FifToCsv: paths use the POSIX separator `/` and the POSIX rules of
  `os.path.join`, `basename` and `dirname`. The script uses `os.path.sep`
  and `os.path`, which on Windows also treat `\` and drive letters as
  separators; that behaviour is not modelled.
- FifToCsv.PlaceAll: labels appended by `df.at` are a map, so their
  insertion order, which is their row order in the CSV, is not kept.
- The constructors require a positive sampling rate and a non-negative
  window size. A negative window would give numpy's negative-size
  behaviour, which is not modelled.
