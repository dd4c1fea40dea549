# cateyes label and segment core, in Dafny

This project models the core of the `cateyes` eye-tracking library, and of
its predecessor package `cateye`, and proves properties of that model. The
core covers:

- how a recording's time base is obtained: from a sampling frequency, or
  from a vector of time stamps (`_get_time`, `sfreq_to_times`, and the
  inline code of the old package);
- the codec between the continuous form and the discrete form of a
  labelling (`discrete_to_continuous`, `continuous_to_discrete`);
- the two native classifiers (`classify_velocity`, which is I-VT, and
  `classify_dispersion`, which is I-DT with its `_disp` window measure);
- the median-absolute-deviation threshold estimator `mad_velocity_thresh`.

The continuous form gives, for every sample, a segment ordinal and a label.
The discrete form gives the onset time and the label of every segment.

Modules, one file each:

| module | file | contents |
|---|---|---|
| `Wrappers` | wrappers.dfy | `Option`, `Result` and the failures the library runs into |
| `Ordering` | ordering.dfy | Python's `sorted` as an insertion sort over a strict total order; tuple order |
| `Stats` | stats.dfy | sum, mean, variance, minimum, maximum, `np.median`, the MAD, boolean-mask filtering |
| `Gaze` | gaze.dfy | gaze samples, the labels Fixation and Saccade, the classifier output, sample-to-sample steps, window dispersion |
| `Segments` | segments.dfy | the ordinal loop shared by both I-VT classifiers |
| `Events` | events.dfy | the specification functions of the codec |
| `CateyesUtils` | cateyes_utils.dfy | the codec loops, `sfreq_to_times`, `_get_time`, and the round trip |
| `CateyeUtils` | cateye_utils.dfy | the old `continuous_to_discrete`, which sorts first |
| `Dispersion` | dispersion.dfy | the I-DT loop, which is identical in both packages |
| `CateyesClassification` | cateyes_classification.dfy | I-VT, I-DT and the MAD estimator of `cateyes` |
| `CateyeClassification` | cateye_classification.dfy | I-VT and I-DT of `cateye`, with their inline time handling |

How the model represents the library:

- The x and y arrays are zipped into a sequence of `Point`s.
- Floating point is modelled by exact reals.
- `np.linalg.norm` of a displacement is an abstract function `norm`. The
  model assumes only that it is non-negative and zero at zero (`IsNorm`).
- A condition under which the library would go on with NaN or infinity, or
  would raise, becomes an `Err` result:
  - a sampling frequency of 0;
  - fewer than two time stamps, or equal first and last stamps;
  - a window of no samples;
  - an empty population in the MAD loop.
- The irregular-sampling warning becomes a boolean `irregular` in the
  result. The `np.std(...) > 1e-5` test is stated as variance `> 1e-10`.

The `discrete_to_continuous` and `sfreq_to_times` of `cateye/utils.py` are
the same code as those of `cateyes/utils.py`, so they are modelled once
(`CateyesUtils`). The I-DT loop is the same in both packages and is modelled
once (`Dispersion`).

Where the code and the library's documentation differ, the model follows
the code:

- `sfreq_to_times` divides by the frequency, so only a frequency of 0
  fails. The frequency is not required to be positive.
- In I-DT, the sample that pushes a growing window over the threshold
  still belongs to the fixation. When a fixation ends less than one window
  before the end of the recording, the samples after it are never written
  and keep ordinal 0 and the label Saccade
  (`Dispersion.AbsorbedJumpAndUnvisitedTail`). That ordinal is lower than
  the one before it, so the new `continuous_to_discrete` does not report
  this tail as an event.
- The old inline time base `np.arange(0, len(x), 1/sfreq)` has
  `ceil(len(x) * sfreq)` entries. That equals the number of samples only
  when `len(x) * sfreq` lies in `(len(x) - 1, len(x)]`
  (`CateyeClassification.ArangeMatchesSamples`).
- The old I-VT threshold per sample is `sfreq * threshold / 1000`. The new
  one is `threshold / sfreq`.

## Model

| member | source | states |
|---|---|---|
| `Ordering.Sort` | cateyes/utils.py:73 | `sorted` returns a permutation of its input (same multiset, same length) |
| `Ordering.SortIsSorted` | cateyes/utils.py:73 | under a strict total order, `sorted` returns an ordered sequence |
| `Ordering.SortedUnique` | cateyes/utils.py:73 | two ordered permutations of the same multiset are equal, so the sorted order is unique |
| `Ordering.SortPermutationInvariant` | cateyes/utils.py:73 | the result of `sorted` depends only on the multiset of its input, not on the input's order |
| `Ordering.SortOfSorted` | cateye/utils.py:91 | sorting an already ordered sequence leaves it unchanged |
| `Ordering.PairOrder` | cateye/utils.py:91 | comparing tuples by first component, then by second, is a strict total order when both component orders are |
| `Stats.Diffs` | cateyes/utils.py:262-264 | `times[1:] - times[:-1]` has one step per pair of consecutive stamps, and none for fewer than two |
| `Stats.Mean` | cateyes/utils.py:264 | `np.mean` of a non-empty sequence lies between its least and its greatest element |
| `Stats.Squares` | cateyes/utils.py:262 | the squared deviations from the mean are one per element, none negative |
| `Stats.Variance` | cateyes/utils.py:262 | the variance compared against the tolerance is never negative |
| `Stats.SumDiffs` | cateyes/utils.py:264 | the steps between consecutive time stamps add up to last minus first |
| `Stats.MeanDiffs` | cateyes/utils.py:264 | the mean step is `(last - first) / (n - 1)` |
| `Stats.ConstantVariance` | cateyes/utils.py:262 | equal steps have variance 0, so regular stamps never raise the warning |
| `Stats.Median` | cateyes/classification.py:484 | the median lies between the minimum and the maximum of the population |
| `Stats.MedianAbsDeviation` | cateyes/classification.py:485-487 | the median of the absolute deviations from the median is non-negative |
| `Stats.Below` | cateyes/classification.py:483 | the masked population holds exactly the values of the input that are below the threshold, each as many times as the input holds it, and no others |
| `Stats.Deviations` | cateyes/classification.py:485-486 | `sqrt((v - median) ** 2)` gives one deviation per velocity, none negative |
| `Stats.BelowCumulative` | cateyes/classification.py:483 | filtering below `a` and then below `b <= a` is the same as filtering below `b` once |
| `Gaze.LabelOrder` | cateye/utils.py:91 | the label strings are ordered "Fixation" < "Saccade", which is a strict total order |
| `Gaze.Steps` | cateyes/classification.py:285-286 | there is one velocity per pair of consecutive samples |
| `Gaze.StepsNonNegative` | cateyes/classification.py:285-286 | no velocity is negative |
| `Gaze.BoundsTight` | cateyes/classification.py:355-359 | the box of `_disp` contains every sample of the window, and each of its four edges is touched by some sample |
| `Gaze.Bounds` | cateyes/classification.py:355-359 | the `np.min`/`np.max` box of a window contains every sample of the window |
| `Gaze.Dispersion` | cateyes/classification.py:355-359 | the dispersion of a window is never negative |
| `Gaze.DispersionMonotone` | cateyes/classification.py:355-359 | a sub-window has at most the dispersion of the window, so growing a window never lowers its dispersion |
| `Gaze.ConstantDispersion` | cateyes/classification.py:355-359 | a window of identical samples has dispersion 0 |
| `Segments.Changes` | cateyes/classification.py:295-300 | the number of label changes up to sample `i` is at most `i` |
| `Segments.Ordinals` | cateyes/classification.py:295-300 | there is one ordinal per sample, and sample `i` has an ordinal of at most `i` |
| `Segments.GroupSegments` | cateyes/classification.py:295-300 | the ordinal loop starts at 0, repeats the previous ordinal while the label stays the same, and adds 1 when it changes |
| `Segments.OrdinalsMonotone` | cateyes/classification.py:295-300 | ordinals never decrease, and grow by at most 1 per sample |
| `Segments.SameOrdinalSameLabel` | cateyes/classification.py:295-300 | two samples with the same ordinal have the same label |
| `Segments.NeighbourOrdinals` | cateyes/classification.py:295-300 | neighbours share an ordinal if and only if they share a label |
| `Segments.OrdinalsContiguous` | cateyes/classification.py:295-300 | every ordinal from 0 up to the last one is used by some sample |
| `Events.Zip` | cateyes/utils.py:73 | `zip` pairs elements position by position and stops at the shorter input |
| `Events.SortedEvents` | cateyes/utils.py:73 | the sorted events are a permutation of the zipped times and values |
| `Events.LastAtOrBefore` | cateyes/utils.py:78-81 | a sample's index is the number of sorted events up to the last one at or before its time: that event is at or before it, and all later ones are after it |
| `Events.Expand` | cateyes/utils.py:72-83 | the continuous form has one index and one value per sample |
| `Events.ExpandAt` | cateyes/utils.py:76-81 | after the loop, each sample holds the index and value of the last event it passed, or 0 and None. |
| `Events.ValueAtEvent` | cateyes/utils.py:78-81 | a sample's value is None exactly when its index is 0, and otherwise it is the value of event `index - 1`, whose time is at or before the sample's |
| `Events.Boundaries` | cateyes/utils.py:117-121 | the loop emits exactly the positions where the index rises above the previous one (the first position always), in increasing order |
| `Events.MinInt` | cateyes/utils.py:116 | `np.min` is an element of the input and at most every element |
| `Events.Min3` | cateyes/utils.py:117 | `zip` of three arrays runs for the length of the shortest one |
| `Events.Collapse` | cateyes/utils.py:86-123 | `continuous_to_discrete` fails (`np.min` of nothing) exactly when the indices are empty |
| `Events.SortIncreasingTimes` | cateyes/utils.py:73 | events with increasing times are already in sorted order |
| `CateyesUtils.DiscreteToContinuous` | cateyes/utils.py:72-83 | the fill loop over the sorted events computes `Expand` of the sorted events |
| `CateyesUtils.SetFrom` | cateyes/utils.py:79-81 | the masked assignment keeps the length, puts the new item at every sample whose time is at or after the event's time, and keeps the old item at every earlier sample |
| `CateyesUtils.AssignFrom` | cateyes/utils.py:79-81 | the masked assignment overwrites exactly the entries whose sample time is at or after the event's time |
| `CateyesUtils.ExpandSnoc` | cateyes/utils.py:78-81 | each event of the sorted list moves every sample at or after its time to that event's ordinal and value |
| `CateyesUtils.ContinuousToDiscrete` | cateyes/utils.py:113-123 | the emit loop computes `Collapse`: the time and value at every index rise |
| `CateyesUtils.SfreqToTimes` | cateyes/utils.py:144 | fails exactly when the frequency is 0, and otherwise gives one time per sample |
| `CateyesUtils.SfreqToTimesSpacing` | cateyes/utils.py:144 | consecutive times are `1 / sfreq` apart, and they increase when the frequency is positive |
| `CateyesUtils.GetTime` | cateyes/utils.py:256-269 | a rate gives times `i / hz` and keeps the rate. Stamps are kept as given, with frequency `(n - 1) / (last - first)`, and the warning is raised exactly when asked for and the step variance exceeds the tolerance. Failures are the cases a rate of 0, fewer than 2 stamps, or first stamp equal to last |
| `CateyesUtils.StampsTime` | cateyes/utils.py:259-264 | stamps fail exactly when there are fewer than 2 or the last equals the first. Otherwise the stamps are kept, the frequency is `(n - 1) / (last - first)` and is not 0, and the warning is raised exactly when asked for and the step variance exceeds the tolerance |
| `CateyesUtils.StampsRate` | cateyes/utils.py:264 | `1 / mean(diff(times))` is `(n - 1) / (last - first)`, and the mean step is 0 exactly when the last stamp equals the first |
| `CateyesUtils.RateStampsAgree` | cateyes/utils.py:256-269 | feeding the times made from a rate back in as stamps gives back the same time base, frequency, and no warning |
| `CateyesUtils.CountPermutation` | cateyes/utils.py:73 | the number of events at or before a time does not depend on their order |
| `CateyesUtils.ExpandCountsEvents` | cateyes/utils.py:73-81 | each sample's index is the number of events at or before its time |
| `CateyesUtils.ExpandMonotone` | cateyes/utils.py:76-81 | on increasing times, the indices never decrease and never exceed the number of events |
| `CateyesUtils.ExpandUnsetBeforeFirstEvent` | cateyes/utils.py:76-81 | a sample has value None if and only if its index is 0, if and only if every event is after it |
| `CateyesUtils.ExpandOrderIndependent` | cateyes/utils.py:73 | permuting the input events does not change the continuous output |
| `CateyesUtils.DocumentedExample` | cateyes/utils.py:66-69 | the docstring example: one Saccade at 0.1 over times 0, 0.1, 0.2 gives indices 0, 1, 1 and values None, Saccade, Saccade |
| `CateyesUtils.OrdinalsAtEvents` | cateyes/utils.py:78-81 | the sample at the time of the j-th event (from 0) gets index j + 1 |
| `CateyesUtils.BoundariesArePositions` | cateyes/utils.py:117-121 | when events sit on sample times and the first event is at the first sample, the positions `continuous_to_discrete` emits are exactly the events' sample positions |
| `CateyesUtils.CollapseExpand` | cateyes/utils.py:86-123 | collapsing the continuous form of sorted events gives back their times and values |
| `CateyesUtils.RoundTrip` | cateyes/utils.py:39-123 | `continuous_to_discrete(discrete_to_continuous(events))` returns the original events when their times increase, lie on sample times, and start at the first sample |
| `CateyeUtils.SortedPairs` | cateye/utils.py:91 | the sorted (index, value) pairs are a permutation of the zipped inputs |
| `CateyeUtils.SortedPairsNonDecreasing` | cateye/utils.py:91 | the sorted pairs are ordered, and so are their indices |
| `CateyeUtils.SortedCollapse` | cateye/utils.py:63-103 | the old `continuous_to_discrete` fails exactly when the indices or the values are empty |
| `CateyeUtils.ContinuousToDiscrete` | cateye/utils.py:90-103 | the sort followed by the emit loop computes `SortedCollapse` |
| `CateyeUtils.DistinctBoundaries` | cateye/utils.py:97-101 | on non-decreasing indices, the loop emits one event per distinct index |
| `CateyeUtils.OneEventPerIndex` | cateye/utils.py:90-101 | the old function emits one event per distinct index, at increasing indices. The event times are the sample times at the emitted positions, and each emitted position is the number of input indices below that event's index. So an event's time is `times[count of smaller indices]`, and samples are re-paired by rank, not by their original time. Each event's value is the least value the input gives its index |
| `CateyeUtils.AgreesOnOrderedInput` | cateye/utils.py:63-103 | on non-decreasing indices where equal indices carry equal values, the old and new `continuous_to_discrete` agree |
| `Dispersion.Extend` | cateyes/classification.py:390-395 | the inner loop never shrinks the window and never runs past the recording |
| `Dispersion.ExtendStops` | cateyes/classification.py:390-395 | every window the inner loop grows through is within the threshold. It stops at the end of the recording or at the first window over the threshold |
| `Dispersion.GrowFixation` | cateyes/classification.py:390-395 | the inner loop computes `Extend` |
| `Dispersion.Fill` | cateyes/classification.py:398-404 | a slice assignment sets `a[lo:hi]` to one value and leaves the rest of the array as it was |
| `Dispersion.Walk` | cateyes/classification.py:367-410 | from position `s` on, the walk gives one ordinal and one label per remaining sample |
| `Dispersion.DispersionWalk` | cateyes/classification.py:367-410 | the outer loop over arrays that start as 0 and Saccade computes `Walk`. A window of no samples fails |
| `Dispersion.FixationRound` | cateyes/classification.py:384-404 | a round at a window within the threshold grows it to where the inner loop stops, labels it Fixation with the next odd ordinal, keeps the unreached part of the arrays clear and leaves the final labelling unchanged |
| `Dispersion.SlideRound` | cateyes/classification.py:406-410 | a round at a window beyond the threshold writes the current ordinal over the window, moves on by one sample and leaves the final labelling unchanged |
| `Dispersion.Truncate` | cateyes/classification.py:365 | `int()` truncates toward zero |
| `Dispersion.WindowSamples` | cateyes/classification.py:365 | the window holds `int(sfreq * window_len)` samples. It fails only when that count is negative |
| `Dispersion.FixationEnd` | cateyes/classification.py:390-395 | a fixation opened at `a` ends where the inner loop stops, at least a full window after `a` and within the recording |
| `Dispersion.WalkParity` | cateyes/classification.py:384-404 | a sample is labelled Fixation if and only if its ordinal is odd |
| `Dispersion.SaccadeWindowTooWide` | cateyes/classification.py:384-410 | every sample labelled Saccade that starts a full window starts one over the threshold |
| `Dispersion.FixationHasOpening` | cateyes/classification.py:384-404 | every sample labelled Fixation lies in the grown window of an earlier or equal start whose first window was within the threshold. That whole window, at least `n` samples up to where the inner loop stopped, is labelled Fixation and carries one ordinal |
| `Dispersion.ExtendConstant` | cateyes/classification.py:390-395 | with a non-negative threshold, a still gaze grows the window to the end of the recording |
| `Dispersion.SteadyGazeIsOneFixation` | cateyes/classification.py:377-410 | a still gaze at least one window long, with a non-negative threshold, is a single fixation with ordinal 1 |
| `Dispersion.AbsorbedJumpAndUnvisitedTail` | cateyes/classification.py:377-410 | on a two-sample window, the sample that breaks the threshold joins the fixation, and the last sample keeps ordinal 0 and Saccade |
| `CateyesClassification.Emit` | cateyes/classification.py:302-305 | the output is the continuous arrays, or their `continuous_to_discrete` form when discrete output is asked for |
| `CateyesClassification.VelocityLabels` | cateyes/classification.py:285-292 | a sample is Saccade if and only if the step to the next sample exceeds the per-sample threshold. The last sample (velocity 0) is Saccade only under a negative threshold |
| `CateyesClassification.ClassifyVelocity` | cateyes/classification.py:235-305 | fails as the time base fails, or on an empty recording. Otherwise it gives the labels at threshold `threshold / sfreq`, their ordinals, and the requested output form |
| `CateyesClassification.ClassifyDispersion` | cateyes/classification.py:308-415 | fails as the time base or the window size fails, or on an empty window. Otherwise it gives the I-DT walk with `int(sfreq * window_len)` samples, in the requested output form |
| `CateyesClassification.Velocities` | cateyes/classification.py:474-476 | one velocity per sample, the first being 0, none negative |
| `CateyesClassification.NextThreshold` | cateyes/classification.py:484-488 | `median + 3 * 1.48 * MAD` of a non-negative population is non-negative |
| `CateyesClassification.MadRounds` | cateyes/classification.py:479-495 | the rounds terminate, and a successful history starts with the initial threshold and has at least two entries |
| `CateyesClassification.MadLoop` | cateyes/classification.py:479-495 | the `while True` loop computes `MadRounds` |
| `CateyesClassification.Scaled` | cateyes/classification.py:499 | the history in per-second units has one threshold per round, each the per-sample threshold times `sfreq` |
| `CateyesClassification.Estimate` | cateyes/classification.py:497-504 | a failed round fails the estimate. Otherwise the history keeps one entry per round and the warning flag, and the returned threshold is the last entry of the history |
| `CateyesClassification.MadVelocityThresh` | cateyes/classification.py:418-504 | fails as the time base fails. Otherwise it runs the rounds from `th_0 / sfreq` on the velocities and scales the last threshold, and the history, by `sfreq` |
| `CateyesClassification.MadHistory` | cateyes/classification.py:479-495 | every round but the last lowers the threshold by more than 1 and the last by at most 1. The thresholds after the first are non-negative, and the number of rounds is below the initial threshold |
| `CateyesClassification.MadFilterFree` | cateyes/classification.py:483 | running the rounds on a population already filtered below a higher threshold gives the same result |
| `CateyesClassification.StillPopulation` | cateyes/classification.py:479-495 | on all-zero velocities the estimate is 0 after one round when the initial threshold is in (0, 1], and otherwise the population empties |
| `CateyesClassification.ZeroKeepsPopulation` | cateyes/classification.py:476-495 | in a non-negative population holding 0, a positive threshold keeps that 0. The rounds fail exactly when some round goes on to the next threshold 0 |
| `CateyesClassification.VelocitiesFailOnlyAtZero` | cateyes/classification.py:474-495 | from a positive initial threshold, the velocities (led by 0) make the estimator fail exactly when some round goes on to the threshold 0 |
| `CateyesClassification.SteadyGazeMad` | cateyes/classification.py:474-495 | a still gaze has all-zero velocities, with the outcome of `StillPopulation` |
| `CateyeClassification.Ceil` | cateye/classification.py:246 | the number of `np.arange` entries is the ceiling of the stop over the step |
| `CateyeClassification.Arange` | cateye/classification.py:246 | `np.arange(0, n, 1/hz)` is the values `i / hz` below `n`, enough of them to reach `n`, and none for a negative rate |
| `CateyeClassification.PerSampleThreshold` | cateye/classification.py:248 | `sfreq * threshold / 1000` is 0 exactly when the rate or the threshold is 0, and under a positive rate it is positive exactly when the threshold is |
| `CateyeClassification.ResolveTime` | cateye/classification.py:240-247 | the inline time handling: a rate of 0 fails, a rate gives the `arange` times, and stamps are handled as in `_get_time` with the warning always on |
| `CateyeClassification.EmitSorted` | cateye/classification.py:269-270 | the output is the continuous arrays, or their form under the old, sorting `continuous_to_discrete` |
| `CateyeClassification.LeadingVelocityLabels` | cateye/classification.py:251-258 | a sample is Saccade if and only if the step from the previous sample exceeds the threshold. The first sample (velocity 0) is Saccade only under a negative threshold |
| `CateyeClassification.ClassifyVelocity` | cateye/classification.py:204-271 | like the new I-VT but with the inline time base, threshold `sfreq * threshold / 1000`, leading velocities, and the old discrete conversion |
| `CateyeClassification.ClassifyDispersion` | cateye/classification.py:274-378 | like the new I-DT but with the inline time base and the old discrete conversion |
| `CateyeClassification.ArangeLength` | cateye/classification.py:246 | `np.arange(0, n, 1/hz)` has the least length `k` with `k >= n * hz` |
| `CateyeClassification.ArangeMatchesSamples` | cateye/classification.py:246 | the inline time base has one time per sample if and only if `n - 1 < n * hz <= n` |
| `CateyeClassification.LabelsShifted` | cateye/classification.py:251-258 | the old labels, shifted by one sample, are the new labels: the old package labels the step into a sample, the new one the step out of it |
| `CateyeClassification.OrdinalsCollapseAgree` | cateye/utils.py:63-103 | on classifier output (ordinals and their labels), the old sorting conversion and the new one give the same events |

## Left out

- The NSLR-HMM and REMoDNaV wrappers, the `cateye/cateye.py` module, plotting, pixel and degree conversions, and `sample_data_path` are not part of this model. They call foreign libraries, draw, or read files.
- Floating point: reals are exact. NaN and infinity are not modelled. Where the library would produce them, the model returns an `Err` instead of computing on with them.
- `np.linalg.norm` is a parameter with only non-negativity and zero at zero assumed. Its square root is not modelled.
- `np.std` is stated through the variance: std > 1e-5 becomes variance > 1e-10. `sqrt((v - m) ** 2)` is `|v - m|`.
- x and y arrays of different lengths are not modelled: samples are zipped `Point`s.
- The start time of `sfreq_to_times` is kept in `CateyesUtils.SfreqToTimes`. The classifiers use start time 0, as the library does.
- Python warnings are the boolean `irregular` of the result. The text of the warning is not modelled.
- `Dispersion.WindowSamples`: a negative window size is an `Err(NegativeWindow)`. The library would slice from the end of the array with it.
- `CateyesClassification.MadVelocityThresh`: the `return_past_threshs` switch is not modelled. The result always carries both the estimate and the history.
- `CateyesClassification.MadVelocityThresh`: the norm is required to satisfy `IsNorm`. The rounds' termination depends on non-negative velocities.
- `CateyesClassification.ClassifyVelocity`: an empty recording is reported as a failure, where the library fails when writing `np.empty(0)` against a 1-element mask.
- `CateyeClassification.ClassifyVelocity`: the same failure for an empty recording.
- `CateyesUtils.DiscreteToContinuous`: the masked assignment `indices[[times >= t]] = i` (cateyes/utils.py:79-81) is read as older numpy reads it: a list holding one boolean array is the boolean mask itself. numpy 1.23 and later read that list as a two-dimensional boolean index, which fails with an `IndexError` once there is an event. That failure is not modelled.
- `CateyesUtils.SetFrom`: the same older numpy reading of the masked assignment.
- The `discrete_to_continuous` of `cateye/utils.py` (lines 56-58) has the same masked assignment, modelled with the same older numpy reading.
- The values of `discrete_to_continuous` are `Option`s (None before the first event), not a numpy object array. Its indices are natural numbers, not floats.
- The label strings are the datatype `Label`. Only their order ("Fixation" < "Saccade") is used.
