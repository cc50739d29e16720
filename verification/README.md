# NFL Big Data Bowl 2022 special-teams features, modelled in Dafny

This project models the per-play feature logic of the NFL-BDB-2022 analysis.
It covers extra-point and field-goal plays, computed from player and ball tracking tables:

- locating a play and one of its frames in a tracking table;
- finding the moment of the kick: the first maximum-speed ball sample in a window of index labels around the annotated event, widened when the peak sits at the window's end;
- the goal-plane features:
  - where the ball crossed the goal plane, from the middle pair of samples in a band around it;
  - where a straight-line extrapolation of the kick says it would cross;
  - the absolute error between the two, and the offset from the centre of the posts;
- the defensive pressure: the distance from the kicker to the k-th nearest opponent at the kick frame;
- the table preparation:
  - heights "ft-in" converted to inches;
  - the game clock converted to seconds;
  - plays moving left mirrored;
  - tracking joined with the plays of one type;
  - ball rows extracted and relabelled;
  - nulls filled;
- the sanity filter that drops plays whose annotated kick is far from the ball's speed peak.

A tracking table is a `seq<Row>`. Every row carries its pandas index label, because several steps select rows by label (`.loc[a:b]`, `series[label]`) rather than by position. Coordinates and speeds are `real`. NaN is `Option.None`, and an exception the code does not catch is `Result.Failure`, naming the Python exception.

The repository holds a pipeline package and three notebook exports. The exports contain diverging copies of the same functions. Each function is modelled once, parameterised where the copies differ:

- the window is widened or not (`TrackingQuery.LocateKick`, `widen`);
- the band half-width is 2 or 1 yards (`FeatureEngineering.WithinGoalBand`);
- the extrapolation offset is +2 or +1 labels (`FeatureEngineering.KickLine`, `step`);
- the clock minutes are read as remaining or elapsed (`Preprocessing.MinuteReading`).

Where a notebook copy is identical to the pipeline's, the pipeline's member stands for both, and the table below cites both sources.

Modules and files:

- `results.dfy` (`Results`): Option, Error, Result.
- `seqs.dfy` (`Seqs`): the pandas idioms.
  - `Filter` models a boolean mask.
  - `FirstArgMax` models `idxmax`.
  - `Sort` models `sort_values`.
  - `PyIndex` models `iloc` with negative positions.
  - `MapOrFail` models `Index.map` of a raising function.
- `text.dfy` (`Text`): `str.split` and `int()`.
- `tracking.dfy` (`Tracking`): rows, plays, field constants, label windows and label lookup.
- `tracking_query.dfy` (`TrackingQuery`): querying/tracking_query.py, and its duplicate Querying/tracking_query.py.
- `feature_engineering.dfy` (`FeatureEngineering`): pipeline/feature_engineering.py.
- `preprocessing.dfy` (`Preprocessing`): pipeline/preprocessing.py.
- `notebook_features.dfy` (`NotebookFeatures`): Feature_engineering.py.
- `notebook_preprocessing.dfy` (`NotebookPreprocessing`): Preprocessing_makers.py.
- `notebook_cleaning.dfy` (`NotebookCleaning`): Cleaning_data.py.

Modelling choices:

- Distances are squared. The code takes a square root, which is monotone, so the k-th nearest opponent is the same.
- A label range `.loc[a:b]` is the rows whose label lies in [a, b], in table order. This is what pandas returns for a monotonic integer index. `series[label]` is the first row carrying the label.
- A straight line through two samples with equal x has no value at x = 120: `None`, where numpy divides by zero.

Where the code and its documentation disagree, the model follows the code:

- For an odd number of in-band samples, `compute_endzone_y_pos` does not take the middle sample. It takes position n//2 - 1, read with Python's negative indexing, so a single sample reads itself.
- When fewer than k opponents are present, `compute_kicker_core_dist` raises IndexError from `iloc[k-1]`. It does not return NaN.
- After `get_event` widens the window, it does not look for the peak again. The label it returns is the peak of the ±5 window.

## Model

| member | source | states |
|---|---|---|
| Seqs.Filter | querying/tracking_query.py:2-3 | boolean-mask selection keeps exactly the elements that pass, each as often as in the input, in input order |
| Seqs.FilterIdempotent | querying/tracking_query.py:2-3 | selecting twice with the same mask is selecting once |
| Seqs.FilterConcat | pipeline/preprocessing.py:99-102 | selecting from a concatenation is concatenating the selections |
| Seqs.FirstArgMax | querying/tracking_query.py:36 | `idxmax` is the first position holding the maximum: nothing is larger, nothing earlier is as large |
| Seqs.Sort | pipeline/feature_engineering.py:242 | `sort_values` returns an ascending permutation of the distances |
| Seqs.InsertCounts | pipeline/feature_engineering.py:242 | one insertion step adds exactly one to the count of entries at most, and strictly below, every threshold the inserted value lies under, and leaves the other counts alone |
| Seqs.SortOfSorted | pipeline/feature_engineering.py:242 | sorting distances that are already ascending leaves them unchanged |
| Seqs.SortedOrderStatistic | pipeline/feature_engineering.py:242-243 | entry j of an ascending sequence has at most j elements strictly below it and at least j + 1 at or below it |
| Seqs.PyIndex | pipeline/feature_engineering.py:50-51 | `iloc[i]` succeeds exactly for -n <= i < n; negative positions count from the end |
| Seqs.MapOrFail | pipeline/feature_engineering.py:268-277 | `Index.map` of a raising function succeeds iff every call succeeds, and is then the calls' values in order; otherwise it raises the first error |
| Text.Split | pipeline/preprocessing.py:9 | `str.split` yields at least one field, and exactly one when the separator is absent; no field contains the separator |
| Text.JoinSplit | pipeline/preprocessing.py:9 | joining the fields of `str.split` with the separator gives back the string |
| Text.ParseInt | pipeline/preprocessing.py:11 | `int()` succeeds exactly on an optionally signed run of ASCII digits, and a negative value comes only from a leading '-' |
| Text.ParseNatToString | pipeline/preprocessing.py:14 | `int()` reads back the decimal rendering of a natural number |
| Text.LeadingZerosValue | pipeline/preprocessing.py:11 | leading zeros change neither that a string is all digits nor its decimal value |
| Text.ParsePaddedNat | pipeline/preprocessing.py:26-27 | `int()` reads a natural's rendering after any number of leading zeros, such as "09", as that natural |
| Text.ParseSignedNat | pipeline/preprocessing.py:11 | `int()` reads "-" or "+" before a zero-padded rendering of n as -n or n |
| Text.SplitTwoFields | pipeline/preprocessing.py:9 | two separator-free fields joined by the separator split back into exactly those two fields |
| Text.SplitLeadingFields | pipeline/preprocessing.py:9-11 | whatever follows a second separator, the first two fields are the two before it |
| Tracking.LabelWindow | querying/tracking_query.py:35 | `.loc[i-r:i+r]` holds exactly the rows labelled within r of i, in table order |
| Tracking.LabelWindowSize | querying/tracking_query.py:35 | with increasing labels, a window of radius r holds at most 2r + 1 rows |
| Tracking.RowWithLabel | pipeline/feature_engineering.py:112-115 | `series[label]` succeeds iff some row carries the label, and returns such a row; otherwise KeyError |
| Tracking.LabelledRow | pipeline/feature_engineering.py:215 | `.loc[label]` on a present label is a row of the table carrying that label |
| Tracking.LabelledRowFindsRow | Feature_engineering.py:67 | with increasing labels, looking a row up by its own label finds that row |
| Tracking.SubsequenceKeepsLabelsIncreasing | pipeline/preprocessing.py:102 | a selection from a table with increasing labels still has increasing labels |
| TrackingQuery.GetPlay | querying/tracking_query.py:1-4 | `get_play` keeps exactly the rows with both ids, each as often as in the input, in input order; with no match it is empty, not an error; the copies at Querying/tracking_query.py:1-4, Feature_engineering.py:37-40, Preprocessing_makers.py:59-62 and Cleaning_data.py:37-40 behave the same |
| TrackingQuery.GetPlayIdempotent | querying/tracking_query.py:1-4 | locating a play inside an already located play changes nothing; the copy at Querying/tracking_query.py:1-4 behaves the same |
| TrackingQuery.FrameTeam | querying/tracking_query.py:7-11 | one team's group holds exactly that team's rows at the frame, with their multiplicities |
| TrackingQuery.GetPlayFrame | querying/tracking_query.py:6-13 | the home, away and football groups hold exactly their team's rows at the frame; they are pairwise disjoint, and rows of any other team are in none; the copy at Querying/tracking_query.py:6-13 behaves the same |
| TrackingQuery.FindEvent | querying/tracking_query.py:34 | the first row carrying the event, or none iff no row carries it |
| TrackingQuery.FirstFastest | querying/tracking_query.py:36 | the row at `idxmax` of the window speeds is a window row that no row is faster than and that no earlier row matches |
| TrackingQuery.LocateKick | querying/tracking_query.py:32-43 | fails with IndexError iff the event is absent. Otherwise the peak is the first fastest row of the ±5 window around the event label. The window is widened to ±10 iff widening is on and the peak is the last or second-to-last row, and the peak lies in the returned window |
| TrackingQuery.GetEvent | querying/tracking_query.py:32-43 | IndexError iff the play lacks the event; otherwise the located window (widened when the peak sits at its end) and the label of the first fastest row of the ±5 window, a label some window row carries |
| TrackingQuery.GetEventPeakRow | querying/tracking_query.py:32-43 | with increasing labels, `.loc[event_index]` of the returned window is the peak row itself |
| TrackingQuery.NarrowWindowShape | querying/tracking_query.py:34-35 | with increasing labels the ±5 window holds at most 11 rows, the event row among them |
| TrackingQuery.PeakDominatesNarrowWindow | querying/tracking_query.py:36 | the peak is at least as fast as every row of the play labelled within 5 of the event |
| TrackingQuery.WidenedWindowContainsNarrow | querying/tracking_query.py:38-39 | the ±10 window contains the ±5 window, so the peak, which is not recomputed, stays inside |
| TrackingQuery.UniquePeakIsFound | querying/tracking_query.py:35-39 | a row strictly faster than all others, labelled within 5 of the event, is the peak, widened or not |
| FeatureEngineering.XWithinFgBounds | pipeline/feature_engineering.py:18 | true iff 118 < x < 122 or -2 < x < 2, bounds excluded |
| FeatureEngineering.InBand | pipeline/feature_engineering.py:45 | the in-band samples are exactly the play's samples inside the band, in order |
| FeatureEngineering.MiddleCrossingY | pipeline/feature_engineering.py:47-59 | NaN iff there is no in-band sample. For an even count n it is the mean y of positions n/2-1 and n/2. For an odd count it is the y at n//2-1, which is position 0 when n = 1 |
| FeatureEngineering.MiddlePairIsCentred | pipeline/feature_engineering.py:47-53 | for an even count the averaged samples are adjacent and centred, and the result lies between their y values |
| FeatureEngineering.EndzoneYPosWithin | pipeline/feature_engineering.py:35-61 | the crossing is NaN iff no sample of the play lies in the band; otherwise it is the middle-pair crossing of the play's in-band samples |
| FeatureEngineering.ComputeEndzoneYPos | pipeline/feature_engineering.py:35-61 | `compute_endzone_y_pos` is NaN iff no ball sample is strictly within 2 yards of a goal plane; otherwise the middle-pair crossing of the samples in that band |
| FeatureEngineering.EndzoneYColumn | pipeline/feature_engineering.py:78-84 | one crossing per play row, entry i being play i's crossing, NaN exactly for the plays with no in-band sample |
| FeatureEngineering.LineAt | pipeline/feature_engineering.py:117-119 | defined iff x1 != x2, and then (120, result) is collinear with the two samples |
| FeatureEngineering.LineAtUnique | pipeline/feature_engineering.py:117-119 | any y collinear with the two samples is the value returned |
| FeatureEngineering.LineAtLevelOrOnPlane | pipeline/feature_engineering.py:117-119 | a first sample on the plane x = 120, or a level line, yields y1 |
| FeatureEngineering.KickLine | pipeline/feature_engineering.py:112-119 | fails with KeyError iff either label is missing from the window; otherwise the line through the two labelled rows, read at x = 120 |
| FeatureEngineering.FindKickline | pipeline/feature_engineering.py:106-119 | IndexError when the play lacks the event. Otherwise KeyError iff label `event_index + 2` is not in the window, else the line through rows `event_index` and `event_index + 2` at x = 120 |
| FeatureEngineering.EndzoneYExpectedColumn | pipeline/feature_engineering.py:137-143 | succeeds iff every play's extrapolation succeeds, and then entry i is play i's extrapolation; otherwise it raises the error of the first play that fails |
| FeatureEngineering.AbsDiff | pipeline/feature_engineering.py:161 | NaN iff either input is NaN; otherwise non-negative, zero iff equal, and one of the two differences |
| FeatureEngineering.AbsDiffSymmetric | pipeline/feature_engineering.py:161 | the error is symmetric in observed and expected crossing |
| FeatureEngineering.EndzoneYError | pipeline/feature_engineering.py:161 | elementwise: NaN iff an input is NaN, otherwise the non-negative one of observed - expected and expected - observed, zero iff the two agree |
| FeatureEngineering.OffCenter | pipeline/feature_engineering.py:179 | NaN iff the crossing is NaN; otherwise the non-negative one of y - 160/6 and 160/6 - y, zero iff the crossing is at 160/6 |
| FeatureEngineering.EndzoneYOffCenter | pipeline/feature_engineering.py:179 | elementwise offset from 160/6 |
| FeatureEngineering.OpposingTeam | pipeline/feature_engineering.py:187-189 | 'home' iff the kicking team is 'away', and 'away' for every other label |
| FeatureEngineering.OpposingTeamInvolution | pipeline/feature_engineering.py:187-189 | on 'home' and 'away' it is an involution without a fixed point |
| FeatureEngineering.FirstAtPosition | pipeline/feature_engineering.py:229 | the first row at the given position, or none iff there is no such row |
| FeatureEngineering.KickerOf | pipeline/feature_engineering.py:219-236 | none iff the frame has no 'K' and no 'P'. A 'K' is preferred, and 'P' is used only when no 'K' exists. It is the first row at its position |
| FeatureEngineering.SqDist | pipeline/feature_engineering.py:183-185 | squared distances are non-negative and zero for coincident samples |
| FeatureEngineering.Opponents | pipeline/feature_engineering.py:231-232 | exactly the frame's rows on the team opposing the kicker |
| FeatureEngineering.OpponentSqDistances | pipeline/feature_engineering.py:239 | one non-negative distance per opponent, in order |
| FeatureEngineering.CoreDistAtFrame | pipeline/feature_engineering.py:219-245 | NaN iff there is no kicker. For k >= 1: IndexError iff fewer than k opponents. Otherwise the result is one of the distances, fewer than k opponents are strictly closer, and at least k are within it |
| FeatureEngineering.CoreDistMonotone | pipeline/feature_engineering.py:242-243 | the core distance does not decrease as k grows |
| Seqs.CountsAcrossThreshold | pipeline/feature_engineering.py:242-243 | the distances within a smaller threshold never outnumber those strictly below a larger one, which is why a later order statistic cannot be smaller |
| FeatureEngineering.CoreDistIsSortedEntry | pipeline/feature_engineering.py:242-243 | with a kicker and at least k opponents, the result is entry k-1 of the sorted distances |
| FeatureEngineering.CoreDistWorkedExample | pipeline/feature_engineering.py:219-245 | a kicker with opponents at distances 1, 2, 3, 4: the third-nearest is at squared distance 9, and k = 5 raises IndexError |
| FeatureEngineering.FrameRows | pipeline/feature_engineering.py:216 | exactly the play's rows at the kick frame |
| FeatureEngineering.ComputeKickerCoreDist | pipeline/feature_engineering.py:210-245 | IndexError from `get_event` when the ball tracking lacks the event; otherwise the core distance at the frame of the row labelled `event_index`, which with increasing labels is the frame of the kick's speed peak |
| FeatureEngineering.KickerCoreDistColumn | pipeline/feature_engineering.py:266-277 | over the three seasons concatenated, succeeds iff every play's computation succeeds, and then entry i is play i's core distance; otherwise it raises the error of the first play that fails |
| Preprocessing.FtIn | pipeline/preprocessing.py:7-14 | without a dash, the integer value or ValueError; with a dash, it fails iff `int()` rejects the first or the second field; every failure is ValueError; the copy at Preprocessing_makers.py:18-25 behaves the same |
| Preprocessing.FtInFeetInches | pipeline/preprocessing.py:8-12 | "a-b" reads as 12a + b inches; the copy at Preprocessing_makers.py:19-23 behaves the same |
| Preprocessing.FtInOfFields | pipeline/preprocessing.py:8-12 | whatever the string, when its first two dash-separated fields read as a and b, the height is 12a + b |
| Preprocessing.FtInIgnoresLaterFields | pipeline/preprocessing.py:9-11 | fields after the second are ignored: "a-b-c" reads as 12a + b |
| Preprocessing.FtInPlainNumber | pipeline/preprocessing.py:13-14 | a string without a dash reads as the number it spells |
| Preprocessing.PreprocessPlayers | pipeline/preprocessing.py:32-35 | succeeds iff every height converts, and then holds each converted height; the first bad height raises ValueError |
| Preprocessing.PreprocessPlayersFeetInches | Preprocessing_makers.py:70-73 | a column of "feet-inches" heights converts row by row to 12·feet + inches |
| Preprocessing.ClockSeconds | pipeline/preprocessing.py:16-27 | a clock without ':' raises IndexError; with ':', it fails iff `int()` rejects the minutes or the seconds field, and then with ValueError |
| Preprocessing.ClockOfReading | pipeline/preprocessing.py:20-27 | "MM:SS", with fields zero-padded to any width, reads as ((15 - MM) + 15(quarter - 1))·60 + SS with minutes remaining, and as (MM + 15(quarter - 1))·60 + SS with minutes elapsed, the reading of the notebook's `clock` at Preprocessing_makers.py:32-39 |
| Preprocessing.ClockOfFields | pipeline/preprocessing.py:20-27 | whatever the clock string, when its first two colon-separated fields read as MM and SS, the seconds follow the clock formula of the chosen minutes reading |
| Preprocessing.ClockIgnoresLaterFields | pipeline/preprocessing.py:20-23 | "MM:SS:rest", with zero-padded fields, reads the same as "MM:SS", which covers the recorded "MM:SS:00" form |
| Preprocessing.ClockWorkedExample | pipeline/preprocessing.py:16-27 | "09:05:00" in the second quarter reads as 1265 seconds with minutes remaining |
| Preprocessing.ClockNextQuarter | pipeline/preprocessing.py:25-27 | one quarter later, the same clock reads exactly 900 seconds more, and it fails for one quarter iff it fails for the other, under either minutes reading, so also for the notebook's `clock` at Preprocessing_makers.py:37-39 |
| Preprocessing.MirrorRow | pipeline/preprocessing.py:61-62 | a 'left' row maps to (120 - x, 160/3 - y), and every other row and field is unchanged |
| Preprocessing.MirrorInvolution | pipeline/preprocessing.py:61-71 | mirroring twice gives back the row; the copy at Preprocessing_makers.py:107-117 behaves the same |
| Preprocessing.MirrorKeepsField | pipeline/preprocessing.py:61-62 | the mirror maps [0, 120] × [0, 160/3] onto itself |
| Preprocessing.MirrorKeepsOffCenterAndBand | pipeline/preprocessing.py:62 | the mirror keeps the off-centre metric of a crossing and membership of the goal band |
| Preprocessing.Reorient | pipeline/preprocessing.py:54-71 | a new table of the same length, with each row mirrored |
| Preprocessing.ReorientInvolution | pipeline/preprocessing.py:54-71 | reorienting twice gives back the table |
| Preprocessing.PlayTypeKeys | pipeline/preprocessing.py:74 | the listed keys are exactly those of the plays of the requested type |
| Preprocessing.InnerJoin | pipeline/preprocessing.py:77-79 | the rows the merge selects, before relabelling: a row is among them iff it is a tracking row whose key is listed |
| Preprocessing.InnerJoinMultiplicity | pipeline/preprocessing.py:77-79 | each row appears as often as in the tracking times the number of times its key is listed |
| Preprocessing.Merge | pipeline/preprocessing.py:77-79 | `pd.merge` on columns: as long as the join, row i the i-th selected row relabelled i, so labels 0..n-1; each row a tracking row of a listed play, and every tracking row of a listed play present |
| Preprocessing.MergeWithPlayType | pipeline/preprocessing.py:74-79 | merging with the keys of the plays of one type labels the rows 0..n-1 and keeps, up to labels, exactly the tracking rows of plays of that type |
| Preprocessing.PreprocessTracking | pipeline/preprocessing.py:54-81 | each season's output is labelled 0..n-1, holds, up to labels, exactly the reoriented tracking rows of plays of the requested type, and is as long as the join, so each row occurs as often as its key is listed; the copy at Preprocessing_makers.py:100-127 behaves the same |
| Preprocessing.Relabel | pipeline/preprocessing.py:102 | `ignore_index` gives row i the label i, with nothing else changed |
| Preprocessing.PreprocessFootballTrack | pipeline/preprocessing.py:99-104 | the 'football' rows of the three seasons, in order, labelled 0..n-1 with increasing labels; the copy at Preprocessing_makers.py:149-154 behaves the same |
| Preprocessing.FillNone | pipeline/preprocessing.py:120 | `fillna` keeps a present value and replaces a null with the default |
| Preprocessing.PreprocessPlayRow | pipeline/preprocessing.py:120-126 | one play is converted iff its clock can be read |
| Preprocessing.PreprocessPlay | pipeline/preprocessing.py:120-126 | succeeds iff every clock reads. Then null penaltyYards become 0, null penaltyCodes become 'no penalty', and non-null values and other fields are kept. The clock is converted. The notebook's copy at Preprocessing_makers.py:175-181 is this with minutes elapsed |
| Preprocessing.PreprocessPlayIdempotent | pipeline/preprocessing.py:120-126 | preprocessing a preprocessed play table changes nothing |
| Preprocessing.KickAttemptIdxDiff | pipeline/preprocessing.py:269-282 | NaN iff the play's ball tracking lacks the event; otherwise the distance between the first event label and the label of the play's first maximum-speed row; the copy at Cleaning_data.py:64-77 behaves the same |
| Preprocessing.IdxDiffOf | pipeline/preprocessing.py:272-282 | on a play's ball rows: NaN iff the event is absent, otherwise the non-negative distance between the first event label and the label of the first fastest row |
| Preprocessing.FirstFastestUnique | pipeline/preprocessing.py:277 | `idxmax` has exactly one answer |
| Preprocessing.IdxDiffZeroIffEventIsPeak | pipeline/preprocessing.py:276-280 | when the play's ball rows have increasing labels, the difference is 0 iff the event row is the play's first maximum-speed row; the copy at Cleaning_data.py:71-75 behaves the same |
| Preprocessing.DropByIndexDifference | pipeline/preprocessing.py:284-315 | keeps exactly the plays whose difference is known and at most the threshold, in order, unchanged and with their multiplicities |
| Preprocessing.DropThresholdInclusive | pipeline/preprocessing.py:313 | a difference equal to the threshold is kept; one above it, or NaN, is dropped |
| NotebookFeatures.GetEvent | Feature_engineering.py:62-69 | IndexError iff the event is absent. Otherwise the unwidened ±5 window, and a frameId of a play row carrying the peak's label, which is the peak's own frameId when labels increase |
| NotebookFeatures.GetEventFrameOfPeak | Feature_engineering.py:66-67 | when the play's rows have increasing labels, the frameId returned is the peak's, and the window is the one located |
| NotebookFeatures.XWithinFgBounds | Feature_engineering.py:84 | true iff 119 < x < 121 or -1 < x < 1 |
| NotebookFeatures.NarrowBandInsidePipelineBand | Feature_engineering.py:84 | every x in the one-yard band is in the pipeline's two-yard band |
| NotebookFeatures.ComputeEndzoneYPos | Feature_engineering.py:101-127 | NaN iff no sample is strictly within one yard of a goal plane; otherwise the middle-pair rule on the one-yard band |
| NotebookFeatures.NarrowCrossingImpliesPipelineCrossing | Feature_engineering.py:111 | a play with a crossing in the one-yard band has one in the two-yard band |
| NotebookFeatures.EndzoneYColumn | Feature_engineering.py:143-149 | one crossing per play, entry i being play i's one-yard-band crossing, NaN exactly when no sample is in that band |
| NotebookFeatures.FirstInFrame | Feature_engineering.py:173 | the first window row in the frame, or none iff there is none |
| NotebookFeatures.FindKickline | Feature_engineering.py:157-182 | IndexError when no window row is in the frame. Otherwise KeyError iff the label after the frame's first row is missing, else the line through the two rows at x = 120 |
| NotebookFeatures.FindKicklineThroughRows | Feature_engineering.py:173-182 | with increasing labels, the line runs through the frame's first row and the row labelled one more |
| NotebookPreprocessing.ClockElapsedFirstQuarter | Preprocessing_makers.py:27-39 | in the first quarter the elapsed-minutes clock reads the recorded "MM:SS:00" form, zero-padded, as MM·60 + SS seconds |
| NotebookPreprocessing.ClockReadingsNeverAgree | Preprocessing_makers.py:37 | whenever the remaining-minutes clock reads, so does the elapsed-minutes clock. Their values differ by 60 modulo 120 and so never agree |
| NotebookCleaning.IndexDiffs | Cleaning_data.py:100-107 | one index difference per play, in play order |
| NotebookCleaning.MaskAt | Cleaning_data.py:109-112 | aligning the mask by label succeeds iff the label is present, reading the first occurrence; otherwise an indexing error |
| NotebookCleaning.KeepWhere | Cleaning_data.py:112 | an order-preserving selection, the whole table when every entry passes |
| NotebookCleaning.Labels | Cleaning_data.py:109 | the play table's labels, one per play |
| NotebookCleaning.DropByIndexDifferenceAsWritten | Cleaning_data.py:83-114 | NameError without a global `play_df`; ValueError when that global's length differs; any success is an order-preserving selection |
| NotebookCleaning.AsWrittenFailsWithoutGlobal | Cleaning_data.py:109 | without a global `play_df` every call raises NameError |
| NotebookCleaning.AsWrittenFailsWithFullPlayTable | Cleaning_data.py:109 | a global play table of three rows against two selected plays raises ValueError |
| NotebookCleaning.AsWrittenAgreesWhenAligned | Cleaning_data.py:109-112 | when the global holds exactly the play table's distinct labels, the function keeps what the corrected filter keeps |
| NotebookCleaning.KeepWhereIsFilter | Cleaning_data.py:112 | keeping by the plays' own differences is the plausibility filter |
| NotebookCleaning.KeepWhereAgreesWithMask | Cleaning_data.py:112 | indexing by a mask keeps, in order, exactly the plays whose entry passes the threshold test. So it equals selection by any predicate that agrees with the mask entry by entry |

## Left out

- Reading the CSV files, the weather download, the dataset builders and the per-season merges and renames are left out. They are I/O and schema plumbing.
- The clustering, scaling and label encoding (`preprocess_ep`, `preprocess_fg`, `cluster_df`) are left out. They are floating-point work done in third-party libraries.
- The animation is left out, because it is drawing.
- `get_game_season` is left out: a one-line lookup nothing here uses.
- `dropna(axis='columns')` in `preprocess_football_track` is left out. It drops whole columns, and rows have a fixed record type here.
- Rows carry no NaN speeds or coordinates. `idxmax` and `sort_values` are modelled on values without NaN.
- Label lookups assume what the tables provide: integer labels that increase along each table. Where a lemma needs this, it requires `LabelsIncreasing`. Duplicate labels, and pandas' behaviour on them, are not modelled.
- `int()` accepts only an optional sign and ASCII digits. Surrounding whitespace, underscores and non-ASCII digits are not modelled.
- The in-place column assignments on the play table are modelled as functions returning the new column or table.
- Per-season row-order subtleties of `pd.merge` beyond "grouped by key in key order" are not modelled.
- FeatureEngineering.CoreDistAtFrame: returns the square of the k-th distance. The code takes `np.sqrt`, which is monotone, so the ordering and the choice of the k-th opponent are unchanged.
- FeatureEngineering.SqDist: zero only in one direction, because the converse (zero distance only for coincident samples) needs nonlinear real reasoning nothing here depends on.
- FeatureEngineering.LineAt: a vertical line (x1 == x2) is `None`, where numpy would produce inf or NaN from the division.
- NotebookCleaning.MaskAt: pandas' error on a mask whose labels repeat is not modelled; the first occurrence is read.

## Findings

| source | as written | input that shows it | evidently intended | confidence | as-written member | corrected member |
|---|---|---|---|---|---|---|
| Cleaning_data.py:109 | the Series of index differences is labelled with `play_df.index`, a name `drop_by_index_difference` never defines | any call in a session without a global `play_df` raises NameError; with the full play table as `play_df` (three rows against two selected plays) it raises ValueError | label the differences with `pt_play.index`, as pipeline/preprocessing.py:310 does | not executed | NotebookCleaning.DropByIndexDifferenceAsWritten | Preprocessing.DropByIndexDifference |
