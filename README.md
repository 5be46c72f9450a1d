# YoloDotNet core, modelled in Dafny

YoloDotNet is a C# library that runs YOLO models through ONNX Runtime and
turns their output tensors into detections. This project models the parts
of it that are algorithms rather than calls into other libraries, and
proves properties of them:

- **Tracking.**
  - The Jonker–Volgenant assignment solver (`Lapjv`) pads the cost matrix and reduces its rows and columns. It then makes a greedy initial assignment and augments along shortest paths. The result is proved to be an assignment: the row and column solutions stay mutual inverses throughout. For a square matrix the result is also proved to cost no more than any permutation plus n times the tolerance. This needed a correction to the augmenting search; see Findings.
  - The SORT tracker (`SortTracking`) ages and evicts tracks, matches tracks to detections through the solver and issues fresh ids from a counter.
  - The bounded tail queue and the tracked object are in `Tracking`.
- **Non-maximum suppression** (`Nms`, `Geometry`, `ConfidenceComparer`, `Sorting`), in the three generations the library carries. The output is the greedy keep-list of the input sorted by confidence. It is proved a subsequence of that input, still sorted, and with no two kept boxes overlapping beyond the threshold.
- **Segmentation masks** (`Masks`):
  - bit packing, one bit per pixel, and the pack/unpack round trip;
  - the mask-weight read;
  - downscaling the box to the mask;
  - the pixel-mask paint.
- **Output-tensor decoding** for each model generation. The V26 decoders' strided loops are specified by `Rows.Collect`, the list of rows each step keeps (`DecodeV26*`).
- **Model loading.** ONNX metadata parsing (`Metadata`, `OnnxProperties`), the version-and-type dispatch table (`ModuleFactory`), the shared core state (`YoloCore`, `BufferPool`), the classification ranking (`Classification`) and the detectors' best-label scan (`LabelScores`).
- **Image preparation.** Resizing and the float-to-half pixel normalisation (`ImageResize`). The half conversion is modelled bit for bit as written and as evidently intended; see Findings.
- **Video.** The frame-size, frame-rate, frame-count, device-text and encoder choices of both FFmpeg services (`FFmpeg`).
- **Result formats and helpers.** The JSON-like result fields (`ResultExtensions`), colour parsing and label text (`ImageColors`), confidence filtering and label selection (`CommonExtension`) and string helpers (`Text`).

Floating-point values are `real`. C#'s `(int)` cast truncates toward zero (`Common.Trunc`). A thrown exception is an `Err` of the matching kind. A null argument is an `Option`.

## Model

| member | source | states |
|---|---|---|
| Lapjv.Solve | YoloDotNet/Trackers/LAPJV.cs:21-58 | a null matrix and a matrix with no row or no column fail; a solved result is an assignment of the original rows to distinct original columns, and every row gets a column when there are at least as many columns as rows; for a square matrix no permutation costs less than the result by more than n times the tolerance (the least total cost the summary promises); and it succeeds whenever the caller's costs lie within some bound b with 2 · n · (10 · b + 1) below float.MaxValue |
| Lapjv.PadCostMatrix | YoloDotNet/Trackers/LAPJV.cs:66-108 | the padded square matrix copies the original costs and fills every padded cell with maxCost * 10 + 1, where maxCost is the largest original cost (float.MinValue when there is none) |
| Lapjv.CreateInitializedArray | YoloDotNet/Trackers/LAPJV.cs:110-118 | a fresh array of the given length, every entry the given value |
| Lapjv.ReduceRows | YoloDotNet/Trackers/LAPJV.cs:130-155 | u[i] is the minimum of row i, every cost has it subtracted, and the reduced costs are non-negative with a zero in every finite row |
| Lapjv.ReduceColumns | YoloDotNet/Trackers/LAPJV.cs:157-181 | the column counterpart: v[j] is the column minimum, subtracted from the column, which then holds a zero |
| Lapjv.InitialAssignment | YoloDotNet/Trackers/LAPJV.cs:183-214 | the greedy pass leaves mutually inverse row and column solutions; each assigned cell is zero within epsilon, and each row took the first zero column that was still free |
| Lapjv.Augment | YoloDotNet/Trackers/LAPJV.cs:216-294 | the solutions stay mutual inverses and the duals feasible, with every assigned pair tight within epsilon; when no search fails the assignment is a permutation that no permutation undercuts by more than n times epsilon; and no search fails when the padded costs lie within a bound b, with 2 · n · b below float.MaxValue, and the starting row duals are at least -b and the column duals not negative |
| Lapjv.ShortestPath | YoloDotNet/Trackers/LAPJV.cs:234-289 | the search from a free row ends at a visited column no row holds, or reports that no column is reachable; the predecessors it leaves form a search tree; on a found path every other visited column is held, and under feasible duals a failed search leaves some column at float.MaxValue or beyond from the free row |
| Lapjv.StartSearch | YoloDotNet/Trackers/LAPJV.cs:234-245 | every column starts at its reduced cost from the free row, with the free row as predecessor, unvisited |
| Lapjv.VisitHeldColumn | YoloDotNet/Trackers/LAPJV.cs:259-288 | visiting a column that a row holds marks it visited and relaxes through that row, keeping the search tree and the visit ranks |
| Lapjv.RelaxFrom | YoloDotNet/Trackers/LAPJV.cs:274-288 | an unvisited column takes row i as predecessor exactly when the path through i is strictly shorter; every other entry is unchanged |
| Lapjv.FindMinUnseenColumn | YoloDotNet/Trackers/LAPJV.cs:305-325 | -1 exactly when every unvisited distance is at float.MaxValue or more; otherwise the first unvisited column of least distance |
| Lapjv.UpdateDualsAndAugment | YoloDotNet/Trackers/LAPJV.cs:341-394 | the duals shift by the path length (v on visited columns, dist on the others, u on the free row) and the path is flipped, so the free row and j0 are matched and the solutions stay inverses |
| Lapjv.ShiftDuals | YoloDotNet/Trackers/LAPJV.cs:354-369 | visited columns gain delta in v; every other column loses delta in dist |
| Lapjv.FlipPath | YoloDotNet/Trackers/LAPJV.cs:374-393 | walking the predecessors back from j0 re-matches every row on the path, so the solutions stay mutual inverses and now match the free row |
| Lapjv.TreeVisit | YoloDotNet/Trackers/LAPJV.cs:259-260 | marking a column visited keeps the search-tree invariant |
| Lapjv.TreeRelax | YoloDotNet/Trackers/LAPJV.cs:283-287 | re-pointing unvisited columns at the row holding a visited column keeps the search-tree invariant |
| Lapjv.WalkStart | YoloDotNet/Trackers/LAPJV.cs:375 | the walk starts at j0 with nothing changed |
| Lapjv.WalkAdvance | YoloDotNet/Trackers/LAPJV.cs:380-392 | one step of the walk re-matches a row; its old column was visited strictly earlier, so the walk terminates |
| Lapjv.WalkAdvanceLinks | YoloDotNet/Trackers/LAPJV.cs:380-392 | after a step every row and column link is consistent again, except at the re-matched row's old column, which now dangles |
| Lapjv.WalkAdvanceRest | YoloDotNet/Trackers/LAPJV.cs:380-392 | the re-matched row's old column was visited strictly earlier; every moved row sits on the path; matched rows and columns are the original ones apart from the free row and j0 |
| Lapjv.WalkFinish | YoloDotNet/Trackers/LAPJV.cs:384-389 | the last step matches the free row, and the solutions are inverses again |
| Lapjv.WalkFinishMatching | YoloDotNet/Trackers/LAPJV.cs:384-389 | the free row taking the dangling column makes the row and column solutions mutual inverses again |
| Lapjv.WalkFinishCounts | YoloDotNet/Trackers/LAPJV.cs:384-389 | after the last step a row or column is matched exactly when it was before, or is the free row or j0 |
| Lapjv.WalkFinishPath | YoloDotNet/Trackers/LAPJV.cs:384-389 | every re-matched row, the free row included, points at a visited column whose predecessor it is |
| Lapjv.ExtractAssignment | YoloDotNet/Trackers/LAPJV.cs:406-423 | each original row keeps its column, with a padded column reported as -1 |
| Lapjv.SolveAsWritten | YoloDotNet/Trackers/LAPJV.cs:29-58 | the library's Solve as written: the same failures, and a solved result is an assignment that gives every row a column when columns are not fewer than rows (no least-cost promise) |
| Lapjv.AugmentAsWritten | YoloDotNet/Trackers/LAPJV.cs:216-294 | the library's Augment as written keeps the solutions mutual inverses and, when no search fails, assigns every row |
| Lapjv.AugmentRowAsWritten | YoloDotNet/Trackers/LAPJV.cs:230-293 | one free row as written: the solutions stay mutual inverses, a found path keeps every matched row matched and matches the free row, and a free nearest column (by cost less both duals) is taken directly |
| Lapjv.SuboptimalOnTwoByTwo | YoloDotNet/Trackers/LAPJV.cs:238 | on the costs [[0, 2], [0, 3]] the solver as written returns [0, 1], costing 3, while [1, 0] costs 2, so the result is not of least cost within the tolerance |
| Lapjv.SearchTwoByTwo | YoloDotNet/Trackers/LAPJV.cs:234-293 | the one search of that run, from row 1, ends with row 1 on column 1 |
| Lapjv.GreedyTwoByTwo | YoloDotNet/Trackers/LAPJV.cs:183-206 | the greedy pass on the reduced [[0, 0], [0, 1]] gives row 0 column 0 and leaves row 1 free |
| Lapjv.NearestOfTwoByTwo | YoloDotNet/Trackers/LAPJV.cs:238 | with duals u = [0, 0], v = [0, 2], column 1 is the first nearest column from row 1 |
| Lapjv.CostsOfTwoByTwo | YoloDotNet/Trackers/LAPJV.cs:21-22 | on [[0, 2], [0, 3]] the assignment [0, 1] costs 3 and the permutation [1, 0] costs 2, so [0, 1] is not of least cost within any tolerance below 0.5 |
| Lapjv.ReduceTwoByTwo | YoloDotNet/Trackers/LAPJV.cs:41-51 | padding, the tolerance and both reductions on [[0, 2], [0, 3]] leave [[0, 0], [0, 1]] with u = [0, 0] and v = [0, 2] |
| Lapjv.ReduceRowsOfTwoByTwo | YoloDotNet/Trackers/LAPJV.cs:130-155 | both row minima of [[0, 2], [0, 3]] are 0, so the matrix is unchanged |
| Lapjv.ReduceColumnsOfTwoByTwo | YoloDotNet/Trackers/LAPJV.cs:157-181 | the column minima are 0 and 2, leaving [[0, 0], [0, 1]] |
| Lapjv.StartingDuals | YoloDotNet/Trackers/LAPJV.cs:44-51 | the corrected start: the reductions and greedy pass run on a copy, so the cost stays unreduced, the solutions are mutual inverses and the duals are feasible with every assigned pair tight within epsilon; each row dual is float.MaxValue or one of its row's costs, and no column dual is negative |
| Lapjv.CopyMatrix | YoloDotNet/Trackers/LAPJV.cs:41-51 | a fresh n x n matrix with the same entries |
| Lapjv.SquareOptimal | YoloDotNet/Trackers/LAPJV.cs:21-22 | a square matrix is its own padding, so a least-cost result on the padded matrix is one on the caller's |
| Lapjv.AugmentRow | YoloDotNet/Trackers/LAPJV.cs:230-293 | one free row's search and flip, with the corrected dual update, keeps the solutions mutual inverses and the duals near-tight; when a path is found every row matched before stays matched and the free row is matched too; the path ends on a column that was free, no row dual falls, a column still free kept its dual, and no column dual falls by more than the reduced cost from the free row to the path's end; a failed search leaves a column at float.MaxValue or beyond |
| Lapjv.MatchedIsPermutation | YoloDotNet/Trackers/LAPJV.cs:224-229 | mutually inverse solutions that leave no row unassigned form a permutation |
| Lapjv.UpdateDuals | YoloDotNet/Trackers/LAPJV.cs:341-372 | the corrected dual update: each visited column falls, and the row holding it rises, by the path length less its distance; the free row rises by the path length |
| Lapjv.UpdatedFeasible | YoloDotNet/Trackers/LAPJV.cs:354-372 | that update keeps every reduced cost non-negative |
| Lapjv.UpdatedSlack | YoloDotNet/Trackers/LAPJV.cs:354-393 | after that update and the flip, every assigned pair is tight within epsilon |
| Lapjv.SearchColumns | YoloDotNet/Trackers/LAPJV.cs:247-289 | the search loop ends at a visited free column or reports none reachable; on a found path the predecessors form a search tree and, under feasible duals, the distances are shortest-path distances no larger than the path length; a free first-nearest column ends the search at once; every other visited column is held; under feasible duals a failed search has a column at float.MaxValue or beyond from the free row |
| Lapjv.VisitFreeColumn | YoloDotNet/Trackers/LAPJV.cs:259-266 | visiting the free nearest column ends the search: the search tree and the distances hold, it lies farthest of the visited columns, every other visited column is held, and a free first nearest column is this one |
| Lapjv.StartDistances | YoloDotNet/Trackers/LAPJV.cs:234-245 | under feasible duals the starting distances are shortest-path distances |
| Lapjv.NearestFound | YoloDotNet/Trackers/LAPJV.cs:247-250 | on the starting distances the first column picked is the first column of least reduced cost |
| Lapjv.MarkFreeKeepsDistances | YoloDotNet/Trackers/LAPJV.cs:259-266 | marking the nearest free column visited keeps the shortest-path facts |
| Lapjv.RelaxKeepsDistances | YoloDotNet/Trackers/LAPJV.cs:268-288 | visiting a held column and relaxing through its row keeps the shortest-path facts |
| Lapjv.VisitShrinks | YoloDotNet/Trackers/LAPJV.cs:259 | visiting a column shrinks the unvisited set, so the search ends |
| Lapjv.VisitHeld | YoloDotNet/Trackers/LAPJV.cs:259-270 | visiting a held column keeps every visited column held and ranked before the next visit |
| Lapjv.ExtractedIsAssignment | YoloDotNet/Trackers/LAPJV.cs:406-423 | the extracted rows form an assignment, complete when columns are not fewer than rows, and the row solution itself for a square matrix |
| Lapjv.FlipKeepsMatched | YoloDotNet/Trackers/LAPJV.cs:374-393 | after the flip every row matched before, and the free row, is matched |
| Lapjv.LargestCostExists | YoloDotNet/Trackers/LAPJV.cs:71-86 | every matrix has the largest cost the padding scan ends on |
| Lapjv.LargestCostUnique | YoloDotNet/Trackers/LAPJV.cs:71-86 | that largest cost is unique |
| Lapjv.RowScanBounds | YoloDotNet/Trackers/LAPJV.cs:78-85 | a row scan ends at or above its seed and every cost it passed, on one of them |
| Lapjv.RowsScanBounds | YoloDotNet/Trackers/LAPJV.cs:71-86 | the scan over the rows ends on their largest cost, or on float.MinValue |
| Lapjv.StartBound | YoloDotNet/Trackers/LAPJV.cs:36-51 | when the caller's costs lie within some bound b with 2 · n · (10 · b + 1) below float.MaxValue, the padded costs lie within 10 · b + 1, the row duals are at least its negation and no column dual is negative |
| Lapjv.BoundedStart | YoloDotNet/Trackers/LAPJV.cs:36-51 | the same for a given bound b |
| Lapjv.PaddedWithin | YoloDotNet/Trackers/LAPJV.cs:66-108 | padding costs that lie within b gives costs within 10 · b + 1, the padding value included |
| Lapjv.StartsWithin | YoloDotNet/Trackers/LAPJV.cs:130-181 | row duals that are row costs and non-negative column duals satisfy the start bounds |
| Lapjv.DualsKeep | YoloDotNet/Trackers/LAPJV.cs:231-232 | skipping an assigned row keeps the duals within the bounds for one more row |
| Lapjv.DualsStep | YoloDotNet/Trackers/LAPJV.cs:229-292 | one augmentation within the bounds lowers no column dual by more than twice the bound, so the bounds hold for one more row |
| Lapjv.FailedOutOfBounds | YoloDotNet/Trackers/LAPJV.cs:254-256 | a failed search has a reduced cost at float.MaxValue or beyond, which duals within the bounds rule out while rows remain |
| Lapjv.ReachWithin | YoloDotNet/Trackers/LAPJV.cs:238 | while rows remain, costs and duals within the bounds keep every reduced cost below float.MaxValue |
| Lapjv.UpdateDualsAndFlip | YoloDotNet/Trackers/LAPJV.cs:341-394 | the corrected dual update and the flip along the found path keep the solutions mutual inverses and every assigned pair tight within epsilon, keep every matched row matched, and move the duals as AugmentRow states |
| Lapjv.UpdateMoves | YoloDotNet/Trackers/LAPJV.cs:354-393 | after the corrected update and the flip no row dual has fallen, a column still free was free before and kept its dual, and no column dual fell by more than the reduced cost to the path's end |
| Lapjv.StartSearching | YoloDotNet/Trackers/LAPJV.cs:234-245 | the search state holds before the first visit: every column at its reduced cost from the free row, unvisited |
| Lapjv.HeldRelaxed | YoloDotNet/Trackers/LAPJV.cs:259-288 | visiting the held nearest column and relaxing through the row that holds it keeps the search state: the tree, every visited column held, the shortest-path facts, and every first nearest column held |
| Lapjv.NoneReachable | YoloDotNet/Trackers/LAPJV.cs:250-256 | when every unvisited column is at float.MaxValue or beyond, under feasible duals some column's reduced cost from the free row is that large, and no first nearest column is free |
| Lapjv.FreeColumn | YoloDotNet/Trackers/LAPJV.cs:228-232 | a matching that leaves a row free leaves a column free |
| Lapjv.ExtractSolved | YoloDotNet/Trackers/LAPJV.cs:56 | once every row is assigned, the extracted result is an assignment, complete when columns are not fewer than rows, and of least cost within the tolerance for a square matrix |
| LapDuality.Entries | YoloDotNet/Trackers/LAPJV.cs:29 | a cost matrix read as rows of values, entry for entry |
| LapDuality.SameEntries | YoloDotNet/Trackers/LAPJV.cs:66-108 | matrices with the same shape and entries have the same value |
| LapDuality.NearOptimal | YoloDotNet/Trackers/LAPJV.cs:21-22 | weak duality: an assignment within eps of feasible duals on every pair costs at most n * eps more than any permutation |
| LapDuality.CostAbove | YoloDotNet/Trackers/LAPJV.cs:21-22 | feasible duals bound any assignment's cost from below |
| LapDuality.CostBelow | YoloDotNet/Trackers/LAPJV.cs:21-22 | near-tight pairs bound the assignment's cost from above |
| LapDuality.PermutationSum | YoloDotNet/Trackers/LAPJV.cs:21-22 | a permutation picks every column dual exactly once |
| LapDuality.PermutationOnto | YoloDotNet/Trackers/LAPJV.cs:21-22 | a permutation of n columns takes every column |
| LapDuality.InjectiveFits | YoloDotNet/Trackers/LAPJV.cs:21-22 | n distinct columns below m need n <= m |
| LapDuality.SwapToEnd | YoloDotNet/Trackers/LAPJV.cs:21-22 | moving the row holding the last column to the end leaves a permutation of one column fewer |
| LapDuality.SwapSum | YoloDotNet/Trackers/LAPJV.cs:21-22 | swapping an entry with the last keeps the sum |
| LapDuality.SumUpdate | YoloDotNet/Trackers/LAPJV.cs:21-22 | replacing one entry changes the sum by the difference |
| Tracking.TailPush | YoloDotNet/Trackers/TailTrack.cs:25-31 | with a positive length an add never throws, and the result is the queue after it |
| Tracking.TailAddBounded | YoloDotNet/Trackers/TailTrack.cs:25-31 | the new point is last; a full queue drops exactly its oldest point; a queue with room grows by one; the length is never exceeded |
| Tracking.TailAddEmptyFails | YoloDotNet/Trackers/TailTrack.cs:27-28 | with a maximum length of 0 or less, the first add dequeues an empty queue and throws |
| Tracking.TailAddKeepsSuffix | YoloDotNet/Trackers/TailTrack.cs:25-31 | after any sequence of adds the queue holds the most recent points, a suffix of all the points added |
| Tracking.TailAddAllFull | YoloDotNet/Trackers/TailTrack.cs:25-31 | after any adds the queue holds min(points seen, maximum length) points |
| Tracking.TailAdd | YoloDotNet/Trackers/TailTrack.cs:25-31 | the add throws InvalidOperationException exactly when the queue is empty and the maximum length is 0 or less; otherwise the new point is last, and the queue is within the maximum length or keeps its old length |
| Tracking.TailTrack.GetTail | YoloDotNet/Trackers/TailTrack.cs:19 | a copy of the queue, oldest first |
| Tracking.TailTrack.AddTailPoint | YoloDotNet/Trackers/TailTrack.cs:25-31 | the queue becomes the add's result, or stays unchanged when the add throws |
| Tracking.NewTrack | YoloDotNet/Trackers/TrackedObject.cs:3-9 | a new track has Age 0, the detection as its box, an empty tail and a filter started at the box centre |
| Tracking.TrackStepEffect | YoloDotNet/Trackers/TrackedObject.cs:11-26 | the detection receives the tail as it was before the call; the track's box becomes that detection; the centre is appended to the tail, which stays bounded; the filter is updated with that centre |
| Tracking.TrackStep | YoloDotNet/Trackers/TrackedObject.cs:11-26 | the detection gets the tail as it was, the box becomes the detection, Age is unchanged, the filter logs one update at the box centre, the centre ends the new tail, and a bounded tail stays bounded |
| Tracking.TrackedObject.TrackBoundingBox | YoloDotNet/Trackers/TrackedObject.cs:11-26 | the object's new state is TrackStep of its old state; with a tail length of 0 or less the queue throws after the box has been set |
| Tracking.TrackedObject.KalmanPredict | YoloDotNet/Trackers/TrackedObject.cs:28-29 | one Predict is logged; the box and Age are unchanged |
| SortTracking.Active | YoloDotNet/Trackers/SortTracker.cs:52 | the active tracks are dictionary entries with Age within maxAge, in enumeration order |
| SortTracking.Matches | YoloDotNet/Trackers/SortTracker.cs:161-199 | the matching phase leaves one detection per input and the same track keys |
| SortTracking.MatchesRow | YoloDotNet/Trackers/SortTracker.cs:176-196 | a matching row gives its detection the track's id and tail, and moves the track (Age reset to 0) onto it |
| SortTracking.MatchesLeavesDetection | YoloDotNet/Trackers/SortTracker.cs:176-196 | a detection no matching row names is unchanged |
| SortTracking.MatchesLeavesTrack | YoloDotNet/Trackers/SortTracker.cs:176-196 | a track no matching row names is unchanged |
| SortTracking.MatchesTaken | YoloDotNet/Trackers/SortTracker.cs:176-196 | only detections named by a matching row are marked as matched |
| SortTracking.Admit | YoloDotNet/Trackers/SortTracker.cs:78-106 | the unmatched detections receive ids above the old counter, and the counter never falls |
| SortTracking.AdmitEffect | YoloDotNet/Trackers/SortTracker.cs:78-91 | matched detections are left alone; every other one gets a pre-incremented id, strictly increasing along the list, and a new track of Age 0 with an empty tail |
| SortTracking.AdmitAllCount | YoloDotNet/Trackers/SortTracker.cs:97-106 | creating the initial tracks raises the counter by the number of detections |
| SortTracking.AgedBounded | YoloDotNet/Trackers/SortTracker.cs:111-122 | aging keeps exactly the tracks whose incremented Age is still within maxAge |
| SortTracking.ActiveIsEveryTrack | YoloDotNet/Trackers/SortTracker.cs:52 | under the tracker invariant the Age filter drops nothing |
| SortTracking.ActiveDistinct | YoloDotNet/Trackers/SortTracker.cs:52 | the active tracks carry distinct ids |
| SortTracking.MatchesShaped | YoloDotNet/Trackers/SortTracker.cs:176-196 | matching keeps every track filed under its own id, with a bounded tail |
| SortTracking.UpdateValid | YoloDotNet/Trackers/SortTracker.cs:38-72 | UpdateTracker keeps the invariant: ids below the counter, Ages within bounds, each box carrying its own id, tails bounded |
| SortTracking.MatchTaken | YoloDotNet/Trackers/SortTracker.cs:176-196 | a matched detection carries the id of a track whose cost with it is under the threshold, holds that track's tail, and the track follows it |
| SortTracking.MatchUntaken | YoloDotNet/Trackers/SortTracker.cs:176-196 | an unmatched detection is left as it was |
| SortTracking.MatchDistinct | YoloDotNet/Trackers/SortTracker.cs:176-196 | two matched detections never share a track |
| SortTracking.MatchUnclaimed | YoloDotNet/Trackers/SortTracker.cs:176-196 | a track that no matched detection names is left as it was |
| SortTracking.ActiveSetup | YoloDotNet/Trackers/SortTracker.cs:48-60 | the predicted and filtered tracks, with a solver assignment, meet what matching needs |
| SortTracking.UpdateIds | YoloDotNet/Trackers/SortTracker.cs:38-72 | after a non-empty update every detection has an id, either a matched track's or a fresh one, no two share an id, and the counter never falls |
| SortTracking.UpdateBoxes | YoloDotNet/Trackers/SortTracker.cs:38-72 | with a positive maxAge each detection is the box of the track under its id, and that track is one frame old |
| SortTracking.UpdateUnclaimed | YoloDotNet/Trackers/SortTracker.cs:38-72 | a track no detection names keeps its box and tail, ages by one, and is evicted exactly when it passes maxAge |
| SortTracking.CalculateCostMatrix | YoloDotNet/Trackers/SortTracker.cs:128-154 | one row per active track and one column per detection, each cell the pair's cost |
| SortTracking.SortTracker.constructor | YoloDotNet/Trackers/SortTracker.cs:16-21 | an empty tracker with the counter at 0 satisfies the invariant |
| SortTracking.SortTracker.PredictTracks | YoloDotNet/Trackers/SortTracker.cs:48-49 | every track gets one Predict; the counter is unchanged |
| SortTracking.SortTracker.RemoveOldTrackedObjects | YoloDotNet/Trackers/SortTracker.cs:111-122 | the tracks become Aged(old tracks) |
| SortTracking.SortTracker.MatchPredictedObjects | YoloDotNet/Trackers/SortTracker.cs:161-199 | a solver failure changes nothing; otherwise the detections and tracks become Matches over the solver's assignment |
| SortTracking.SortTracker.AddUntrackedObjects | YoloDotNet/Trackers/SortTracker.cs:78-91 | the detections, counter and tracks become those of Admit over the unmatched detections |
| SortTracking.SortTracker.CreateInitialTracks | YoloDotNet/Trackers/SortTracker.cs:97-106 | every detection is admitted |
| SortTracking.SortTracker.UpdateTracker | YoloDotNet/Trackers/SortTracker.cs:38-72 | the invariant is kept; with no detections it only ages; a solver failure leaves the predictions; otherwise the new frame is Update of the old one |
| ConfidenceComparer.Compare | YoloDotNet/Handlers/ConfidenceComparer.cs:11-20 | -1 exactly when x's confidence is higher, 1 when lower, 0 when equal; a null x gives 1 (two nulls too) and a null y alone gives -1 |
| ConfidenceComparer.CompareTo | YoloDotNet/Data/YoloCore.cs:200 | the sign of x - y, for values that are not NaN |
| ConfidenceComparer.CompareAntisymmetric | YoloDotNet/Utils/ConfidenceComparer.cs:11-20 | swapping two non-null results negates the comparison |
| ConfidenceComparer.CompareDescendingAgrees | YoloDotNet/Data/YoloCore.cs:200 | the Data generation's inline comparison orders exactly as ConfidenceComparer does |
| ConfidenceComparer.ComparerOrderIsSortedDesc | YoloDotNet/Handlers/ConfidenceComparer.cs:11-20 | a list is in comparer order exactly when its confidences do not increase |
| Sorting.InsertionSortCorrect | YoloDotNet/Core/YoloCore.cs:124 | the reference sort returns a permutation of its input with non-increasing confidence |
| Sorting.SortDescending | YoloDotNet/Core/YoloCore.cs:124 | the in-place sort permutes the array into non-increasing confidence |
| Nms.KeepIsSubsequence | YoloDotNet/Core/YoloCore.cs:131-147 | the kept items are a subsequence of the sorted input: increasing positions, the same items |
| Nms.KeepDecision | YoloDotNet/Core/YoloCore.cs:135-146 | an item is kept exactly when no item kept before it overlaps it |
| Nms.KeepPairwise | YoloDotNet/Core/YoloCore.cs:135-146 | no kept item overlaps an item kept before it |
| Nms.KeepDropped | YoloDotNet/Core/YoloCore.cs:135-146 | every dropped item overlaps an earlier kept one |
| Nms.KeepFirst | YoloDotNet/Core/YoloCore.cs:131-147 | the first item, the most confident once sorted, is always kept |
| Nms.KeepSorted | YoloDotNet/Core/YoloCore.cs:124-149 | filtering a sorted input keeps it sorted and never lengthens it |
| Nms.KeepLength | YoloDotNet/Core/YoloCore.cs:131-147 | the output is never longer than the input |
| Nms.KeepAll | YoloDotNet/Core/YoloCore.cs:131-147 | an overlap test that never fires keeps everything |
| Nms.Keep | YoloDotNet/Core/YoloCore.cs:131-147 | the greedy keep-list is no longer than its input and holds only input items |
| Nms.RemoveOverlappingBoxesCore | YoloDotNet/Core/YoloCore.cs:116-155 | an empty span gives an empty result; otherwise the span is permuted into non-increasing confidence and the result is the greedy keep-list of it |
| Nms.OverlapsKept | YoloDotNet/Core/YoloCore.cs:135-143 | the inner scan finds an overlap exactly when some box in the buffer overlaps the item |
| Nms.RemoveOverlappingBoxesData | YoloDotNet/Data/YoloCore.cs:198-215 | the array is permuted into non-increasing confidence and the result is its greedy keep-list under the Data IoU |
| Nms.RemoveOverlappingBoxesBase | YoloDotNet/Data/YoloBase.cs:218-230 | the list is permuted into non-increasing confidence and the result is its greedy keep-list under the RectangleF IoU |
| Nms.CoreKeptDisjoint | YoloDotNet/Core/YoloCore.cs:135-146 | no two kept boxes have an IoU above the threshold, in either order |
| Nms.DataKeptDisjoint | YoloDotNet/Data/YoloCore.cs:207-211 | the same for the Data generation |
| Nms.BaseKeptDisjoint | YoloDotNet/Data/YoloBase.cs:223-227 | the same for the YoloBase generation |
| Nms.CoreThresholdOneKeepsAll | YoloDotNet/Core/YoloCore.cs:116-155 | with a threshold of 1 or more and boxes of positive area nothing is suppressed |
| Geometry.CreateRectI | YoloDotNet/Extensions/ResultExtensions.cs:329 | SKRectI.Create keeps the origin and gives the requested width and height |
| Geometry.Intersect | YoloDotNet/Core/YoloCore.cs:197 | the intersection of overlapping boxes lies inside each box; boxes that are apart give the empty rectangle |
| Geometry.IntersectF | YoloDotNet/Data/YoloBase.cs:266 | the intersection has a non-negative size, no larger than either box |
| Geometry.IntersectsWith | YoloDotNet/Core/YoloCore.cs:194-195 | the strict overlap test implies the inclusive one; for boxes of positive size it holds exactly when the intersection has positive width and height |
| Geometry.IoUCore | YoloDotNet/Core/YoloCore.cs:192-202 | the IoU is 0 exactly when the boxes do not strictly overlap or their intersection has no area; otherwise it is the intersection area over the sum of the areas less the intersection |
| Geometry.IoUData | YoloDotNet/Data/YoloCore.cs:249-256 | the IoU is 0 exactly when the intersection has no area; otherwise the same ratio, with no overlap guard |
| Geometry.UnitRangeThreshold | YoloDotNet/Core/YoloCore.cs:138 | an IoU in [0, 1] never exceeds a threshold of 1 or more, and 0 exceeds exactly the negative thresholds |
| Geometry.IoUCoreSymmetric | YoloDotNet/Core/YoloCore.cs:192-202 | the IoU does not depend on the order of the boxes |
| Geometry.IoUDataSymmetric | YoloDotNet/Data/YoloCore.cs:249-256 | the same for the Data IoU |
| Geometry.IoUCoreDisjoint | YoloDotNet/Core/YoloCore.cs:194-195 | boxes that do not strictly overlap have IoU 0 |
| Geometry.IoUCoreUnitRange | YoloDotNet/Core/YoloCore.cs:192-202 | for boxes of positive area the IoU lies in [0, 1], and is non-zero exactly when the boxes overlap |
| Geometry.IoUCoreAgreesWithData | YoloDotNet/Data/YoloCore.cs:249-256 | on well-formed boxes the strict-overlap guard of the Core IoU changes nothing |
| Geometry.IoUBaseUnitRange | YoloDotNet/Data/YoloBase.cs:264-272 | for boxes of positive size the RectangleF IoU lies in [0, 1] |
| Geometry.IoUBaseSymmetric | YoloDotNet/Data/YoloBase.cs:264-272 | the RectangleF IoU does not depend on the order of the boxes |
| YoloCore.CeilLog2 | YoloDotNet/Core/YoloCore.cs:160 | the least exponent whose power of two reaches n |
| YoloCore.CeilLog2AtMost | YoloDotNet/Core/YoloCore.cs:160 | a request no larger than 2^k needs an exponent of at most k |
| YoloCore.BufferPoolSizeIsLeastPowerOfTwo | YoloDotNet/Core/YoloCore.cs:160 | for a request from 1 to 2^30 the pool size is a power of two, at least the request, and no smaller power of two reaches the request |
| YoloCore.BufferPoolSizeOfNonPositive | YoloDotNet/Core/YoloCore.cs:160 | a request of 0 or less takes log2 to -Infinity or NaN, the masked shift count is 0 and the pool size is 1 |
| YoloCore.BufferPoolSize | YoloDotNet/Core/YoloCore.cs:160 | a request of at most 2^30 gets a positive pool size that reaches it; a larger request shifts the 1 into the sign bit and gets int.MinValue |
| YoloCore.ExponentWraps | YoloDotNet/Core/YoloCore.cs:160 | a request strictly between 2^30 and 2^31 rounds its base-2 logarithm up to 31 |
| YoloCore.BufferPoolSizeOfPowerOfTwo | YoloDotNet/Core/YoloCore.cs:160 | a request that is already a power of two is granted exactly |
| YoloCore.PixelConfidenceCore | YoloDotNet/Core/YoloCore.cs:175 | the byte as a fraction of 255, in [0, 1] |
| YoloCore.PixelConfidenceData | YoloDotNet/Data/YoloCore.cs:230 | one minus that fraction, in [0, 1] |
| YoloCore.PixelConfidenceComplement | YoloDotNet/Data/YoloCore.cs:230 | the two generations read a mask byte in opposite senses: the two confidences sum to 1 |
| YoloCore.PixelConfidenceMonotone | YoloDotNet/Core/YoloCore.cs:175 | the Core confidence grows with the byte and the Data confidence shrinks |
| YoloCore.VerifyExpectedModelTypeCore | YoloDotNet/Core/YoloCore.cs:244-248 | a model-mismatch error exactly when the types differ |
| YoloCore.VerifyExpectedModelTypeData | YoloDotNet/Data/YoloCore.cs:280-284 | a plain error exactly when the types differ |
| YoloCore.CoreYolo.InitializeYolo | YoloDotNet/Core/YoloCore.cs:33-58 | without an execution provider it throws and changes nothing; otherwise the model is loaded, the tensor buffer takes the input size, and each pool takes its BufferPoolSize; it succeeds exactly when both pool sizes are positive, and a wrapped pool size throws ArgumentOutOfRangeException from ArrayPool.Create |
| YoloCore.DataYolo.Dispose | YoloDotNet/Data/YoloCore.cs:289-299 | the object is disposed; its resources are released only on the first call |
| YoloCore.DisposeTwice | YoloDotNet/Data/YoloCore.cs:289-299 | disposing twice releases the resources once |
| YoloCore.InvokeInferenceType | YoloDotNet/Data/YoloBase.cs:100-108 | one inference per model type, classification taking the truncated confidence as its class count; an unknown type throws NotSupportedException |
| Masks.BitMaskSize | YoloDotNet/Modules/V8/SegmentationModuleV8.cs:209 | (n + 7) / 8: the fewest bytes that hold one bit per pixel |
| Masks.Keep | YoloDotNet/Modules/V8/SegmentationModuleV8.cs:186-192 | pixel i is kept exactly when its pixel confidence exceeds the threshold |
| Masks.PackBitsCorrect | YoloDotNet/Modules/V8/SegmentationModuleV8.cs:176-207 | pixel i of the reference packing is set exactly when flag i is, and the padding bits are clear |
| Masks.PacksUnique | YoloDotNet/Modules/V8/SegmentationModuleV8.cs:176-207 | the bits determine the bytes: the reference packing is the only one |
| Masks.PackUpscaledMaskToBitArray | YoloDotNet/Modules/V8/SegmentationModuleV8.cs:176-207 | the packed mask is the reference packing of the kept pixels: bit i set exactly when pixel i's confidence exceeds the threshold |
| Masks.UnpackPackRoundTrip | YoloDotNet/Extensions/ImageExtension.cs:645-662 | unpacking the packing gives 255 exactly at the kept pixels and 0 elsewhere |
| Masks.MaskRoundTrip | YoloDotNet/Extensions/ImageExtension.cs:645-662 | packing a mask and unpacking it gives 255 exactly where the pixel confidence exceeds the threshold, 0 where it does not |
| Masks.UnpackPixelMaskToByteArray | YoloDotNet/Extensions/ImageExtension.cs:645-662 | a negative pixel count throws; a mask too short throws; otherwise width * height bytes, 255 where the bit is set |
| Masks.BgraFromBytes | YoloDotNet/Extensions/ImageExtension.cs:664-699 | bytes written four to a pixel read back as the pixel's BGRA value |
| Masks.UnpackToBitmap | YoloDotNet/Extensions/ImageExtension.cs:664-699 | a mask too short throws; otherwise a BGRA bitmap in which each pixel's four bytes carry its unpacked value |
| Masks.ClampToMask | YoloDotNet/Modules/V8/SegmentationModuleV8.cs:138-141 | Math.Clamp to [0, extent - 1]: an error when extent < 1, otherwise a value inside the mask that leaves an edge already inside it unchanged |
| Masks.DownscaleBox | YoloDotNet/Modules/V8/SegmentationModuleV8.cs:130-144 | a mask with no row or no column throws; otherwise every edge of the scaled box lies inside the mask |
| Masks.OutwardEdges | YoloDotNet/Modules/V8/SegmentationModuleV8.cs:132-141 | the near edge rounds down and the far edge up, so ordered edges stay ordered and each moves by less than one pixel |
| Masks.DownscaleCovers | YoloDotNet/Modules/V8/SegmentationModuleV8.cs:130-144 | a box inside the mask is covered by its downscaled box, which overshoots each edge by less than one pixel |
| Masks.DownscaleEdgesWellFormed | YoloDotNet/Modules/V8/SegmentationModuleV8.cs:130-144 | ordered edges downscale to a well-formed rectangle |
| Masks.MaskWeights | YoloDotNet/Modules/V8/SegmentationModuleV8.cs:118-128 | 32 weights, channel m read at its offset and the channels beyond the model's at 0 |
| Masks.GetMaskWeightsFromBoundingBoxArea | YoloDotNet/Modules/V8/SegmentationModuleV8.cs:118-128 | succeeds exactly when every offset is inside the tensor and there are at most 32 channels, and then returns MaskWeights |
| Masks.PlaneReadable | YoloDotNet/Modules/V8/SegmentationModuleV8.cs:165-168 | each of the 32 planes a readable pixel reads lies inside the prototype tensor |
| Masks.ReadablePlanes | YoloDotNet/Modules/V8/SegmentationModuleV8.cs:165-168 | all 32 planes of a readable pixel lie inside the prototype tensor |
| Masks.FullTensorRegionReadable | YoloDotNet/Modules/V8/SegmentationModuleV8.cs:146-174 | with all 32 prototype planes present no pixel of the region throws |
| Masks.ComputePixelWeight | YoloDotNet/Modules/V8/SegmentationModuleV8.cs:164-168 | the inner loop throws IndexOutOfRangeException exactly when a plane of the pixel lies outside the tensor; otherwise it sums the 32 weighted prototype values in plane order |
| Masks.ToByte | YoloDotNet/Core/YoloCore.cs:170 | the truncating cast of weight * 255 |
| Masks.MaskCanvasPixel | YoloDotNet/Modules/V8/SegmentationModuleV8.cs:146-174 | a pixel inside the downscaled box is painted with its sigmoid value; every other pixel keeps its value |
| Masks.PaintRow | YoloDotNet/Modules/V8/SegmentationModuleV8.cs:158-173 | one row's readable columns in the region are painted and nothing else changes; it throws exactly when one of them cannot be read |
| Masks.UnreadFromHere | YoloDotNet/Modules/V8/SegmentationModuleV8.cs:162-168 | once a pixel of a row cannot be read, neither can any later pixel of that row |
| Masks.LaterRow | YoloDotNet/Modules/V8/SegmentationModuleV8.cs:158-164 | every pixel of a later row has a larger offset than every pixel of an earlier row |
| Masks.PaintRegion | YoloDotNet/Modules/V8/SegmentationModuleV8.cs:158-173 | the two loops over the region leave MaskCanvas of the old canvas and throw exactly when some pixel of the region cannot be read |
| Masks.PaintNextRow | YoloDotNet/Modules/V8/SegmentationModuleV8.cs:158-173 | one more row painted, or the write stopped in it with the canvas equal to MaskCanvas and the region not readable |
| Masks.PaintedAll | YoloDotNet/Modules/V8/SegmentationModuleV8.cs:158-173 | when every row is painted the canvas is MaskCanvas and every pixel of the region was readable |
| Masks.StoppedCanvas | YoloDotNet/Modules/V8/SegmentationModuleV8.cs:158-173 | when the write stops in a row, no later row can be read, the region is not readable and the canvas is MaskCanvas of the old one |
| Masks.ApplySegmentationPixelMask | YoloDotNet/Modules/V8/SegmentationModuleV8.cs:146-174 | a downscale error leaves the canvas untouched; otherwise the canvas becomes MaskCanvas of the old one, and the call throws IndexOutOfRangeException exactly when some pixel of the box cannot be read, as with a tensor of fewer than 32 planes |
| Models.ToDetection | YoloDotNet/Models/ObjectResult.cs:50-55 | the cast keeps the label, confidence and box, and leaves the id and tail null |
| Rows.CollectFails | YoloDotNet/Modules/V26/ObjectDetectionModuleV26.cs:62-108 | the strided loop throws exactly when some row throws |
| Rows.Collect | YoloDotNet/Modules/V26/ObjectDetectionModuleV26.cs:62-108 | a run that gets through n rows keeps at most n results |
| Rows.CollectKept | YoloDotNet/Modules/V26/ObjectDetectionModuleV26.cs:62-108 | the loop keeps at most one result per row, each from a row that yields one |
| Rows.BufferStep | YoloDotNet/Modules/V26/ObjectDetectionModuleV26.cs:62-108 | one iteration: a skipped row leaves the buffer, a kept row appends its result, and a throwing row or a full buffer fails the whole loop |
| Rows.CollectKeysIncrease | YoloDotNet/Modules/V26/ObjectDetectionModuleV26.cs:62-108 | the results come out in tensor order: their row offsets strictly increase |
| Rows.CollectKeyFound | YoloDotNet/Modules/V26/ObjectDetectionModuleV26.cs:62-108 | a row is among the results exactly when it yields one |
| Rows.RowCountBound | YoloDotNet/Modules/V26/ObjectDetectionModuleV26.cs:62 | the loop visits exactly the rows whose offset is below the tensor length |
| DecodeV26.Head | YoloDotNet/Modules/V26/ObjectDetectionModuleV26.cs:64-75 | a row reads its confidence at i+4 and skips below the threshold; it throws exactly when a value it reads or the label index lies outside the tensor or the labels |
| DecodeV26.DetectionRow | YoloDotNet/Modules/V26/ObjectDetectionModuleV26.cs:62-108 | a row throws exactly as its head does, and is skipped exactly when its confidence is below the threshold |
| DecodeV26.Detections | YoloDotNet/Modules/V26/ObjectDetectionModuleV26.cs:62-110 | no more results than rows; each result is its row's confidence, label at i+5 and box; results are in tensor order; a row is kept exactly when its confidence reaches the threshold |
| DecodeV26.DetectionsFail | YoloDotNet/Modules/V26/ObjectDetectionModuleV26.cs:62-108 | the loop throws exactly when some row above the threshold reads outside the tensor or the labels |
| DecodeV26.DetectionsFit | YoloDotNet/Modules/V26/ObjectDetectionModuleV26.cs:28-31 | a buffer of at least the tensor's length never overflows |
| DecodeV26.ObjectDetectionModuleV26.constructor | YoloDotNet/Modules/V26/ObjectDetectionModuleV26.cs:20-32 | the buffer is channels x elements slots and the result list is empty |
| DecodeV26.ObjectDetectionModuleV26.Create | YoloDotNet/Modules/V26/ObjectDetectionModuleV26.cs:20-32 | a negative channels x elements product throws OverflowException; otherwise a fresh module with that many buffer slots and an empty result list |
| DecodeV26.ObjectDetectionModuleV26.ObjectDetection | YoloDotNet/Modules/V26/ObjectDetectionModuleV26.cs:50-111 | succeeds exactly when no row throws and the kept rows fit the buffer, whose front then holds them; every failure is an index error |
| DecodeV26.ObjectDetectionModuleV26.ProcessImage | YoloDotNet/Modules/V26/ObjectDetectionModuleV26.cs:35-46 | on success the same list is cleared and refilled with each result cast to ObjectDetection; on failure the list is unchanged |
| DecodeV26Obb.ObbRow | YoloDotNet/Modules/V26/OBBDetectionModuleV26.cs:66-112 | a row throws exactly when it cannot read its seven values or its label, and is skipped exactly below the threshold |
| DecodeV26Obb.ObbDetections | YoloDotNet/Modules/V26/OBBDetectionModuleV26.cs:66-114 | each result has its confidence, label, corners scaled by xGain on both axes and the angle from i+6; results in tensor order; a row is kept exactly when its confidence reaches the threshold |
| DecodeV26Obb.ObbDetectionsFail | YoloDotNet/Modules/V26/OBBDetectionModuleV26.cs:66-114 | the loop throws exactly when some row above the threshold cannot read seven values or its label |
| DecodeV26Obb.OBBDetectionModuleV26.constructor | YoloDotNet/Modules/V26/OBBDetectionModuleV26.cs:20-36 | the shared options are forced to proportional resizing |
| DecodeV26Obb.OBBDetectionModuleV26.ObjectDetection | YoloDotNet/Modules/V26/OBBDetectionModuleV26.cs:53-120 | a negative buffer size throws ArgumentOutOfRange; otherwise it succeeds exactly when no row throws and the kept rows fit, and returns them |
| DecodeV26Obb.OBBDetectionModuleV26.ProcessImage | YoloDotNet/Modules/V26/OBBDetectionModuleV26.cs:38-49 | on success the list is refilled with each result cast to OBBDetection; on failure it is unchanged |
| DecodeV26Pose.TotalKeyPointsFit | YoloDotNet/Modules/V26/PoseEstimationModuleV26.cs:35-40 | the keypoint count is the most triples that fit after the six head values |
| DecodeV26Pose.TotalKeyPointsNegative | YoloDotNet/Modules/V26/PoseEstimationModuleV26.cs:35-40 | the count is negative exactly when a row has 3 or fewer values |
| DecodeV26Pose.KeyPointsAt | YoloDotNet/Modules/V26/PoseEstimationModuleV26.cs:82-101 | keypoint j is read from i+6+3j, i+7+3j and i+8+3j |
| DecodeV26Pose.PoseRow | YoloDotNet/Modules/V26/PoseEstimationModuleV26.cs:69-134 | a row throws exactly when it cannot read its head and all its keypoints, and is skipped exactly below the threshold |
| DecodeV26Pose.PoseDetections | YoloDotNet/Modules/V26/PoseEstimationModuleV26.cs:63-136 | each result carries its own copy of exactly totalKeyPoints keypoints read at their offsets; results in tensor order; a row is kept exactly when its confidence reaches the threshold |
| DecodeV26Pose.PoseDetectionsFail | YoloDotNet/Modules/V26/PoseEstimationModuleV26.cs:63-136 | the loop throws exactly when some row above the threshold cannot be read whole |
| DecodeV26Pose.PoseEstimationModuleV26.Create | YoloDotNet/Modules/V26/PoseEstimationModuleV26.cs:24-45 | building the module fails exactly when the keypoint count is negative, because the keypoint buffer cannot be allocated |
| DecodeV26Pose.PoseEstimationModuleV26.DecodeRow | YoloDotNet/Modules/V26/PoseEstimationModuleV26.cs:69-134 | the imperative row body, keypoint loop through the shared buffer included, computes PoseRow |
| DecodeV26Pose.PoseEstimationModuleV26.ObjectDetection | YoloDotNet/Modules/V26/PoseEstimationModuleV26.cs:57-142 | a negative buffer size throws; otherwise it succeeds exactly when no row throws and the kept rows fit, and returns them |
| DecodeV26Seg.SegRow | YoloDotNet/Modules/V26/SegmentationModuleV26.cs:95-181 | a row throws exactly when it cannot read its head and 32 weights, and is skipped exactly below the threshold |
| DecodeV26Seg.SegRowAt | YoloDotNet/Modules/V26/SegmentationModuleV26.cs:109-181 | a kept row's mask sets exactly the pixels whose confidence exceeds the pixel threshold in the mask its own weights give |
| DecodeV26Seg.SegDetections | YoloDotNet/Modules/V26/SegmentationModuleV26.cs:95-181 | each result is its row read as the layout says, with its own mask; results in tensor order; no more results than values |
| DecodeV26Seg.SegDetectionsKept | YoloDotNet/Modules/V26/SegmentationModuleV26.cs:99-103 | a row is kept exactly when its confidence reaches the threshold |
| DecodeV26Seg.SegDetectionsFail | YoloDotNet/Modules/V26/SegmentationModuleV26.cs:95-181 | the loop throws exactly when some row above the threshold cannot read its head and all 32 weights |
| DecodeV26Seg.SegmentationModuleV26.DecodeRow | YoloDotNet/Modules/V26/SegmentationModuleV26.cs:97-181 | the imperative row body, weight loop into the shared 32-slot buffer and bit packing included, computes SegRow |
| DecodeV26Seg.SegmentationModuleV26.RunSegmentation | YoloDotNet/Modules/V26/SegmentationModuleV26.cs:83-190 | a negative buffer size throws before the weights are touched; otherwise it succeeds exactly when no row throws and the kept rows fit, returns them, and leaves the weight buffer zeroed on every path |
| DecodeV26Seg.SegmentationModuleV26.ProcessImage | YoloDotNet/Modules/V26/SegmentationModuleV26.cs:69-80 | on success the list is refilled with each result cast to Segmentation; on failure it is unchanged |
| LabelScores.Best | YoloDotNet/Modules/V8/ObjectDetectionModuleV8.cs:74-87 | the label loop over the first l labels fails only with an index error |
| LabelScores.BestFails | YoloDotNet/Modules/V8/ObjectDetectionModuleV8.cs:78-80 | the label loop throws exactly when one of the l score offsets lies past the end of the tensor |
| LabelScores.BestFirstMax | YoloDotNet/Modules/V8/ObjectDetectionModuleV8.cs:74-87 | with no positive score the loop keeps (0, -1); otherwise it returns a positive score that no score exceeds and no earlier score ties, with that score's label |
| LabelScores.BestFailsLater | YoloDotNet/Modules/V8/ObjectDetectionModuleV8.cs:78-80 | once a read has thrown, scanning more labels still throws |
| LabelScores.BestLabel | YoloDotNet/Modules/V8/ObjectDetectionModuleV8.cs:72-87 | the loop whose offset starts at the first score and moves one plane per label computes Best |
| LabelScores.Pick | YoloDotNet/Modules/ObjectDetectionModule.cs:63-101 | the legacy label loop fails only with an index error, and a pick names a label below l together with that label's score |
| LabelScores.PickFails | YoloDotNet/Modules/ObjectDetectionModule.cs:66-68 | the legacy loop throws exactly when one of the l score offsets lies past the end of the tensor |
| LabelScores.PickFirstMax | YoloDotNet/Modules/ObjectDetectionModule.cs:66-100 | no pick exactly when every score is below the threshold; otherwise a score at or above the threshold that no score exceeds and no earlier score ties |
| LabelScores.PickMeans | YoloDotNet/Modules/ObjectDetectionModule.cs:66-100 | the same outcome stated through AnyReaches and FirstMaxFrom |
| LabelScores.PickStays | YoloDotNet/Modules/ObjectDetectionModule.cs:89-100 | once a slot is filled, scanning more labels keeps it filled unless a read throws |
| Classification.Picked | YoloDotNet/Modules/V8/ClassificationModuleV8.cs:42-46 | one entry per picked index, carrying that index's label name and score |
| Classification.Wanted | YoloDotNet/Modules/ClassificationModule.cs:51-53 | Take(n) returns min(n, available) entries, and none when n is 0 or less |
| Classification.LeastIndex | YoloDotNet/Modules/V8/ClassificationModuleV8.cs:54 | Peek names a least confident queued index |
| Classification.Without | YoloDotNet/Modules/V8/ClassificationModuleV8.cs:57 | Dequeue removes exactly that one entry and keeps the others in order |
| Classification.QueueAppend | YoloDotNet/Modules/V8/ClassificationModuleV8.cs:50-53 | a queue with room that takes index i still holds the best of the indices seen |
| Classification.QueueReplace | YoloDotNet/Modules/V8/ClassificationModuleV8.cs:54-58 | a full queue that swaps its least entry for a strictly more confident index i still holds the best of the indices seen |
| Classification.QueueSkip | YoloDotNet/Modules/V8/ClassificationModuleV8.cs:54 | a full queue that leaves out an index no more confident than its least entry still holds the best of the indices seen |
| Classification.Offer | YoloDotNet/Modules/V8/ClassificationModuleV8.cs:42-61 | one iteration keeps the queue holding the best min(n, i+1) indices seen, and an index no better than every queued one leaves the queue as it was |
| Classification.DrainStep | YoloDotNet/Modules/V8/ClassificationModuleV8.cs:66-69 | handing over a least confident entry keeps the drained part most confident first and below everything still queued |
| Classification.Dequeue | YoloDotNet/Modules/V8/ClassificationModuleV8.cs:68 | Dequeue hands over a least confident queued index and shrinks the queue by one |
| Classification.Drain | YoloDotNet/Modules/V8/ClassificationModuleV8.cs:64-71 | filling the array from its end holds exactly the queued indices, most confident first, each with its label and score |
| Classification.DrainedTop | YoloDotNet/Modules/V8/ClassificationModuleV8.cs:40-71 | the drained queue is a top pick of the whole tensor: most confident first, and no index left out beats one kept |
| Classification.ClassifyTensorV8 | YoloDotNet/Modules/V8/ClassificationModuleV8.cs:33-72 | succeeds exactly when the tensor is empty or n >= 1 and every index has a label; a missing label is an index error and n <= 0 peeks an empty queue (InvalidOperation); on success the result is a top pick of min(n, length) entries |
| Classification.RankingPermutes | YoloDotNet/Modules/ClassificationModule.cs:51 | OrderByDescending lists every tensor index exactly once |
| Classification.RankingDescending | YoloDotNet/Modules/ClassificationModule.cs:51 | the ranking is most confident first |
| Classification.RankingStable | YoloDotNet/Modules/ClassificationModule.cs:51 | OrderByDescending is stable: equal scores keep tensor order |
| Classification.Ranking | YoloDotNet/Modules/ClassificationModule.cs:51 | OrderByDescending ranks every tensor index once |
| Classification.RankingBelow | YoloDotNet/Modules/ClassificationModule.cs:51 | every ranked index is a tensor index |
| Classification.RankingDistinct | YoloDotNet/Modules/ClassificationModule.cs:51 | no index is ranked twice |
| Classification.RankingCovers | YoloDotNet/Modules/ClassificationModule.cs:51 | every tensor index is ranked |
| Classification.RankingTop | YoloDotNet/Modules/ClassificationModule.cs:51-52 | every prefix of the ranking is a top pick of its length |
| Classification.FillEntries | YoloDotNet/Modules/ClassificationModule.cs:40-49 | the fill loop pairs each score with its label and throws an index error exactly when there are more scores than labels |
| Classification.SortedEntries | YoloDotNet/Modules/ClassificationModule.cs:51 | sorting the entries by confidence lists them in ranking order |
| Classification.ClassifyTensor | YoloDotNet/Modules/ClassificationModule.cs:37-54 | more scores than labels is an index error; otherwise the first min(n, length) entries of the stable descending ranking |
| Classification.HeadIsBest | YoloDotNet/Modules/ClassificationModule.cs:51-53 | the first entry of a top pick is at least as confident as every index |
| Classification.TailTop | YoloDotNet/Modules/ClassificationModule.cs:51-53 | dropping the first entry of a top pick leaves a top pick of the rest |
| Classification.SwapTop | YoloDotNet/Modules/V8/ClassificationModuleV8.cs:54-68 | exchanging two equally confident indices in a top pick gives a top pick with the same scores |
| Classification.TopPicksAgree | YoloDotNet/Modules/V8/ClassificationModuleV8.cs:33-72 | two top picks of one length carry the same scores position by position |
| Classification.SameConfidences | YoloDotNet/Modules/ClassificationModule.cs:37-54 | the V8 module's result carries the same confidences in the same order as the stable ranking; the two can differ only in which equally confident label they name |
| Common.Trunc | YoloDotNet/Modules/V8/ObjectDetectionModuleV8.cs:107-110 | C#'s (int) cast truncates toward zero: the result is within one of x, on the side of zero |
| Common.TruncMod | YoloDotNet/Video/Services/FFmpegService.cs:382 | C#'s % by a positive divisor takes the sign of the dividend and stays below the divisor in size |
| Common.Clamp | YoloDotNet/Modules/V8/ObjectDetectionModuleV8.cs:119-122 | Math.Clamp lands inside [lo, hi] and leaves a value already inside unchanged |
| CommonExtension.CalculateDynamicSize | YoloDotNet/Extensions/CommonExtension.cs:23-33 | the size is never below scale, and is either scale or scale times the integer quotient Width / 1280 |
| CommonExtension.DynamicSizeSteps | YoloDotNet/Extensions/CommonExtension.cs:26-32 | for a non-negative scale the size is scale * max(1, Width / 1280) |
| CommonExtension.NarrowImageKeepsScale | YoloDotNet/Extensions/CommonExtension.cs:26-32 | an image narrower than 2560 pixels keeps a non-negative scale |
| CommonExtension.NegativeScaleOnSmallImage | YoloDotNet/Extensions/CommonExtension.cs:26-32 | on an image narrower than 1280 pixels a negative scale becomes 0, because the factor is 0 and Math.Max picks it |
| CommonExtension.Keep | YoloDotNet/Extensions/CommonExtension.cs:48-58 | the filter never lengthens the list |
| CommonExtension.KeepConcat | YoloDotNet/Extensions/CommonExtension.cs:50-56 | the filter distributes over concatenation, so it never reorders |
| CommonExtension.KeepOne | YoloDotNet/Extensions/CommonExtension.cs:52-55 | one detection is kept exactly when its label text is in the set |
| CommonExtension.KeepMembers | YoloDotNet/Extensions/CommonExtension.cs:50-56 | a detection is in the output exactly when it is in the input and its label text is in the set |
| CommonExtension.KeepCounts | YoloDotNet/Extensions/CommonExtension.cs:50-56 | a kept detection keeps every one of its occurrences, and any other detection has none |
| CommonExtension.KeepIsSubsequence | YoloDotNet/Extensions/CommonExtension.cs:48-58 | the output is a subsequence of the input |
| CommonExtension.FilterLabels | YoloDotNet/Extensions/CommonExtension.cs:43-59 | a null list or a null set throws ArgumentNullException; otherwise the detections whose label text is in the set, in input order |
| BufferPool.PinnedMemoryBuffer.constructor | YoloDotNet/Handlers/PinnedMemoryBuffer.cs:13-29 | a fresh byte buffer of the image's byte size, every byte zero, not disposed |
| BufferPool.PinnedMemoryBuffer.Dispose | YoloDotNet/Handlers/PinnedMemoryBuffer.cs:31-40 | the buffer is marked disposed |
| BufferPool.PinnedMemoryBufferPool.constructor | YoloDotNet/Handlers/PinnedMemoryBufferPool.cs:22-28 | the bag starts with max(initialSize, 0) distinct fresh blank buffers |
| BufferPool.PinnedMemoryBufferPool.Rent | YoloDotNet/Handlers/PinnedMemoryBufferPool.cs:33-40 | a non-empty bag hands out one of its buffers and loses exactly it; an empty bag gives a fresh blank buffer and stays empty |
| BufferPool.PinnedMemoryBufferPool.Return | YoloDotNet/Handlers/PinnedMemoryBufferPool.cs:46-54 | the buffer is erased to all-zero bytes and the bag gains exactly it |
| BufferPool.PinnedMemoryBufferPool.Dispose | YoloDotNet/Handlers/PinnedMemoryBufferPool.cs:59-65 | every buffer that was in the bag is disposed and the bag ends empty |
| ImageColors.ParseHexByte | YoloDotNet/Extensions/ImageExtension.cs:719-721 | byte.Parse with HexNumber gives a byte or a format error, and two hex digits give 16 * high + low |
| ImageColors.HexToRgbaSkia | YoloDotNet/Extensions/ImageExtension.cs:709-724 | a string that is not 7 characters or that SkiaSharp rejects throws ArgumentException exactly; a bad alpha throws ArgumentOutOfRange; otherwise byte channels and the given alpha |
| ImageColors.HexDigit | YoloDotNet/Extensions/ImageExtension.cs:719-721 | every digit value has a hex character that reads back as that value |
| ImageColors.HexByteParses | YoloDotNet/Extensions/ImageExtension.cs:719-721 | the two-digit upper-case text of a byte parses back to it |
| ImageColors.HexRoundTrip | YoloDotNet/Extensions/ImageExtension.cs:709-724 | parsing the "#RRGGBB" text of a colour gives back the colour with the requested alpha |
| ImageColors.HexChannelsDecide | YoloDotNet/Extensions/ImageExtension.cs:719-723 | two strings whose channel pairs parse alike give the same colour, so letter case does not matter |
| ImageColors.LabelText | YoloDotNet/Extensions/ImageExtension.cs:237-241 | the caption starts with the name; it is the name alone exactly when confidence is hidden, and otherwise ends in "%)" and is four characters longer than name and percentage |
| ImageColors.LabelTextName | YoloDotNet/Extensions/ImageExtension.cs:237-241 | the caption splits into the name and " (pct%)" |
| ImageColors.PaletteIndex | YoloDotNet/Extensions/ImageExtension.cs:426 | an empty palette divides by zero exactly; a non-negative index picks index % count; a negative index is out of range unless it is a multiple of the count |
| ImageColors.PaletteCycles | YoloDotNet/Extensions/ImageExtension.cs:426 | class indices one palette length apart share a colour |
| ImageColors.DrawArguments | YoloDotNet/Extensions/ImageExtension.cs:364-367 | a null detection list throws ArgumentNullException exactly; null options fall back to the defaults and given options are used |
| ResultExtensions.ClassificationToYoloFormat | YoloDotNet/Extensions/ResultExtensions.cs:43-56 | exporting classifications in YOLO format always throws NotSupportedException |
| ResultExtensions.BuildYoloFormat | YoloDotNet/Extensions/ResultExtensions.cs:250-259 | the loop appends each item's text in input order, and the result is that text with trailing white space trimmed |
| ResultExtensions.TrimEndDropsWhite | YoloDotNet/Extensions/ResultExtensions.cs:258 | the trimmed text is a prefix of the full text and every dropped character is white space |
| ResultExtensions.TrimEndLastLine | YoloDotNet/Extensions/ResultExtensions.cs:255-258 | when the last line ends in visible text, only its line break is trimmed |
| ResultExtensions.NormalizeBoundingBox | YoloDotNet/Extensions/ResultExtensions.cs:261-265 | four fractions: the box centre and size, x values over the image width and y values over the height |
| ResultExtensions.DetectionFields | YoloDotNet/Extensions/ResultExtensions.cs:184-189 | a detection line is the class id followed by the four normalised box fields |
| ResultExtensions.LineText | YoloDotNet/Extensions/ResultExtensions.cs:188-197 | a line is its fields joined by single spaces, followed by one line break |
| ResultExtensions.RotatedCorners | YoloDotNet/Extensions/ResultExtensions.cs:267-283 | four corners |
| ResultExtensions.CornersAroundCentre | YoloDotNet/Extensions/ResultExtensions.cs:267-283 | opposite corners mirror each other through the box centre, whatever the angle |
| ResultExtensions.UnturnedCorners | YoloDotNet/Extensions/ResultExtensions.cs:276-282 | at angle 0 the corners are top-left, top-right, bottom-right and bottom-left, half the size from the centre |
| ResultExtensions.PointFields | YoloDotNet/Extensions/ResultExtensions.cs:195-196 | each point gives two fields, x over the width and y over the height |
| ResultExtensions.ObbFields | YoloDotNet/Extensions/ResultExtensions.cs:191-198 | an OBB line is the class id followed by the four rotated corners, normalised |
| ResultExtensions.BoxCorners | YoloDotNet/Extensions/ResultExtensions.cs:223-226 | four corners |
| ResultExtensions.ToImage | YoloDotNet/Extensions/ResultExtensions.cs:215-216 | each contour point is moved by the box's left and top into image coordinates |
| ResultExtensions.SegmentationFields | YoloDotNet/Extensions/ResultExtensions.cs:200-230 | a segmentation line starts with the class id; with three or more contour points it has two fields per point, otherwise the four box corners |
| ResultExtensions.SegmentationFallback | YoloDotNet/Extensions/ResultExtensions.cs:220-227 | the fallback line has nine fields: the id, then left/top, right/top, right/bottom and left/bottom, normalised |
| ResultExtensions.Visibility | YoloDotNet/Extensions/ResultExtensions.cs:240 | the visibility flag is 2 exactly when the confidence reaches the threshold, and 1 otherwise |
| ResultExtensions.KeyPointFields | YoloDotNet/Extensions/ResultExtensions.cs:238-242 | each keypoint gives three fields: x over the width, y over the height and its visibility flag |
| ResultExtensions.PoseFields | YoloDotNet/Extensions/ResultExtensions.cs:232-244 | a pose line is the five detection fields followed by three fields per keypoint |
| ResultExtensions.VisibilityNeverZero | YoloDotNet/Extensions/ResultExtensions.cs:240-241 | the visibility field of a pose line is "1" or "2", never "0" |
| ResultExtensions.GetInt32 | YoloDotNet/Extensions/ResultExtensions.cs:312-315 | a read succeeds exactly on a number written as an optional minus sign and digits whose value is in the Int32 range, and returns that value; a number written with a decimal point or an exponent throws FormatException whatever its value, as does one out of range; a token that is not a number throws InvalidOperationException |
| ResultExtensions.ReadRect | YoloDotNet/Extensions/ResultExtensions.cs:293-321 | a stream that does not open with StartObject throws JsonException |
| ResultExtensions.ReadRectRejectsDecimalText | YoloDotNet/Extensions/ResultExtensions.cs:310-312 | {"x": 1.0} or {"x": 1e2} makes the reader throw FormatException, whatever the value |
| ResultExtensions.FloatNumber | YoloDotNet/Extensions/ResultExtensions.cs:420-421 | a float field is a number token with the float's value, written without a decimal point exactly when the value is whole |
| ResultExtensions.WriteRect | YoloDotNet/Extensions/ResultExtensions.cs:323-331 | ten tokens: an object holding x, y, width and height |
| ResultExtensions.GetInt32Whole | YoloDotNet/Extensions/ResultExtensions.cs:312-315 | a whole number in the Int32 range reads back as itself |
| ResultExtensions.ReadFieldStep | YoloDotNet/Extensions/ResultExtensions.cs:305-316 | a known property followed by its value sets exactly that field, and reading continues |
| ResultExtensions.FieldsRoundTrip | YoloDotNet/Extensions/ResultExtensions.cs:298-318 | the four properties Write emits fill the four fields in turn |
| ResultExtensions.RectRoundTrip | YoloDotNet/Extensions/ResultExtensions.cs:293-331 | reading what Write wrote gives back the same rectangle |
| ResultExtensions.EmptyObjectReadsZero | YoloDotNet/Extensions/ResultExtensions.cs:298-320 | an object with no properties reads as the empty rectangle at the origin |
| ResultExtensions.NameCaseIgnored | YoloDotNet/Extensions/ResultExtensions.cs:310 | property names are matched whatever their letter case |
| ResultExtensions.ReadRectLoop | YoloDotNet/Extensions/ResultExtensions.cs:293-321 | the cursor loop over the tokens computes ReadRect |
| ResultExtensions.ReadSegmentation | YoloDotNet/Extensions/ResultExtensions.cs:381-382 | reading a segmentation always throws NotSupportedException |
| ResultExtensions.ContourTokens | YoloDotNet/Extensions/ResultExtensions.cs:418-424 | six tokens per contour point |
| ResultExtensions.SegmentationHead | YoloDotNet/Extensions/ResultExtensions.cs:386-399 | the label object, the confidence and the box property name come first, with no contourPoints among them |
| ResultExtensions.WriteSegmentation | YoloDotNet/Extensions/ResultExtensions.cs:384-431 | a closed object whose tokens 11-20 are the box exactly as the SKRectI converter writes it |
| ResultExtensions.ContourPointsPresent | YoloDotNet/Extensions/ResultExtensions.cs:408-427 | the contourPoints property is written exactly when the mask and the contour are both non-empty |
| ResultExtensions.SegmentationBoxReadsBack | YoloDotNet/Extensions/ResultExtensions.cs:398-405 | the box written inside a segmentation reads back with the SKRectI reader |
| ImageResize.RoundMantissa | YoloDotNet/Extensions/ImageResizeExtension.cs:262 | the rounded significand is at most 2048 |
| ImageResize.RoundHalfEven | YoloDotNet/Extensions/ImageResizeExtension.cs:262 | adding 0xFFF plus the lowest kept bit before the shift rounds the 13 dropped bits to nearest, ties to even |
| ImageResize.RoundBound | YoloDotNet/Extensions/ImageResizeExtension.cs:276 | a 23-bit significand rounds to at most 1024, the carry into the exponent |
| ImageResize.SubnormalBits | YoloDotNet/Extensions/ImageResizeExtension.cs:261 | the hidden bit put back and shifted right by 1 - exponent leaves at most 23 bits |
| ImageResize.SubnormalSign | YoloDotNet/Extensions/ImageResizeExtension.cs:255-263 | the subnormal branch keeps the sign, and its magnitude is at most the smallest normal half |
| ImageResize.SignKept | YoloDotNet/Extensions/ImageResizeExtension.cs:245-278 | in both versions bit 15 of the half is bit 31 of the float |
| ImageResize.TinyIsZero | YoloDotNet/Extensions/ImageResizeExtension.cs:257-260 | a rebiased exponent below -10 gives a zero of the same sign, in both versions |
| ImageResize.AsWrittenNaNIsInf | YoloDotNet/Extensions/ImageResizeExtension.cs:264-275 | as written, every float NaN (field 255) falls into the overflow branch and becomes an infinity, never a NaN |
| ImageResize.AsWrittenFiniteIsNaN | YoloDotNet/Extensions/ImageResizeExtension.cs:264-268 | as written, the finite 70000.0f has field 143 and becomes the NaN 0x7C45; the corrected conversion gives infinity |
| ImageResize.AsWrittenCarryLost | YoloDotNet/Extensions/ImageResizeExtension.cs:276 | as written, the largest float below 2 becomes 1.0 because OR drops the rounding carry; the corrected conversion gives 2.0 |
| ImageResize.NormalHalfNotNaN | YoloDotNet/Extensions/ImageResizeExtension.cs:276 | the corrected normal branch never yields a NaN, even when the rounding carries into the top exponent |
| ImageResize.HalfNaNExactly | YoloDotNet/Extensions/ImageResizeExtension.cs:264-268 | the corrected conversion gives a half NaN exactly for a float NaN |
| ImageResize.HalfNormalMagnitude | YoloDotNet/Extensions/ImageResizeExtension.cs:270-277 | in the normal range the corrected conversion's magnitude is exponent * 1024 plus the rounded significand, so a carry moves to the next exponent |
| ImageResize.VersionsAgree | YoloDotNet/Extensions/ImageResizeExtension.cs:245-278 | below field 143 the two versions agree whenever the exponent is even or the rounding does not carry |
| ImageResize.FloatToUshortAsWritten | YoloDotNet/Extensions/ImageResizeExtension.cs:245-278 | as written: a float with exponent field below 102 becomes a signed zero, field 143 lands on the all-ones half exponent (Inf or NaN), and every larger field becomes infinity |
| ImageResize.FloatToHalf | YoloDotNet/Extensions/ImageResizeExtension.cs:245-278 | corrected: fields below 102 give a signed zero, finite floats from field 143 up overflow to infinity, and a float NaN or infinity keeps the all-ones exponent, NaN exactly when its mantissa is non-zero |
| ImageResize.Limit | YoloDotNet/Extensions/ImageResizeExtension.cs:129 | n & ~3 and n & ~1: a non-positive count gives 0; otherwise the largest multiple of the step not above n |
| ImageResize.NormalizePixelsToArray | YoloDotNet/Extensions/ImageResizeExtension.cs:105-169 | an empty buffer throws an index error exactly; one channel converts the first (n & ~3) bytes in place; otherwise channel c of pixel i goes to c * n + i for the first (n & ~1) pixels, skipping the fourth byte; every other entry is untouched |
| ImageResize.NormalizeGray | YoloDotNet/Extensions/ImageResizeExtension.cs:124-139 | the gray-scale loop converts entry k from byte k for k below n & ~3 and leaves the rest |
| ImageResize.NormalizeRgb | YoloDotNet/Extensions/ImageResizeExtension.cs:141-168 | the RGB loop fills the three planes from bytes 4i, 4i+1 and 4i+2 for every pixel below n & ~1 and leaves the rest |
| ImageResize.WritePixel | YoloDotNet/Extensions/ImageResizeExtension.cs:153-162 | one pixel's red, green and blue go to their planes and nothing beyond them changes |
| ImageResize.ResizeImageStretched | YoloDotNet/Extensions/ImageResizeExtension.cs:16-45 | an image with no pixels fails; otherwise the whole image is drawn over the whole model input and the original size is returned |
| ImageResize.ResizeImageProportional | YoloDotNet/Extensions/ImageResizeExtension.cs:54-96 | an image with no pixels fails; otherwise the original size is returned |
| ImageResize.ProportionalCentred | YoloDotNet/Extensions/ImageResizeExtension.cs:67-86 | the drawn image fits the model input and spans its full width or height; the margins on either side differ by at most a pixel, the left (top) one being the smaller |
| FFmpeg.ParseDeviceSpec | YoloDotNet/Video/Services/FFmpegService.cs:96-117 | fewer than four colon-separated parts, or a part that does not parse, throws the video exception; a parsed device has Int32 width and height and a name with no white space at either end |
| FFmpeg.IsDeviceInput | YoloDotNet/Video/Services/FFmpegService.cs:47 | the case-insensitive "device=" test accepts at least every input that starts with the lower-case prefix |
| FFmpeg.GetDeviceInfoAsWritten | YoloDotNet/Video/Services/FFmpegService.cs:91-118 | the device text is read after removing every "device=" (case-sensitive); any failure is the video exception, and a parsed name holds no colon |
| FFmpeg.GetDeviceInfo | YoloDotNet/Video/Services/FFmpegService.cs:47-49 | the corrected read drops the seven prefix characters that the case-insensitive test at line 47 matched; any failure is the video exception, and a parsed name holds no colon |
| FFmpeg.NameHasNoColon | YoloDotNet/Video/Services/FFmpegService.cs:96-98 | the name is the first piece of a split on ':', so it holds no colon |
| FFmpeg.DeviceTextFields | YoloDotNet/Video/Services/FFmpegService.cs:96 | "name:width:height:fps" splits on ':' into exactly its four fields |
| FFmpeg.DeviceSpecRoundTrip | YoloDotNet/Video/Services/FFmpegService.cs:96-103 | parsing "name:width:height:fps" gives back the name, the width, the height and the parsed fps |
| FFmpeg.DeviceRoundTrip | YoloDotNet/Video/Services/FFmpegService.cs:47-103 | with any letter case of the "device=" prefix the corrected read gives back the device that was written |
| FFmpeg.AsWrittenRoundTrip | YoloDotNet/Video/Services/FFmpegService.cs:95-103 | with the lower-case prefix and no other "device=" in the text, the read as written gives back the device |
| FFmpeg.RemoveNothing | YoloDotNet/Video/Services/FFmpegService.cs:95 | Replace leaves a text that does not contain the pattern unchanged |
| FFmpeg.RemovePrefixOnly | YoloDotNet/Video/Services/FFmpegService.cs:95 | Replace on the pattern followed by a text free of it leaves exactly that text |
| FFmpeg.MixedCasePrefixAddsNothing | YoloDotNet/Video/Services/FFmpegService.cs:95 | putting "Device=" in front of a text free of "device=" adds no occurrence of it |
| FFmpeg.LowerDevicePrefix | YoloDotNet/Video/Services/FFmpegService.cs:47 | "Device=" passes the case-insensitive prefix test |
| FFmpeg.AsWrittenReadsWholeText | YoloDotNet/Video/Services/FFmpegService.cs:95 | the case-sensitive Replace leaves "Device=" in place |
| FFmpeg.AsWrittenKeepsMixedCasePrefix | YoloDotNet/Video/Services/FFmpegService.cs:47-98 | "Device=cam:..." passes the test at line 47, but the read as written names the device "Device=cam"; the corrected read names it "cam" |
| FFmpeg.EvenDown | YoloDotNet/Video/Services/FFmpegService.cs:382 | the decrement of an odd value gives the even value at or just below n, and leaves an even n alone |
| FFmpeg.Targets | YoloDotNet/Video/Services/FFmpegService.cs:366-372 | a side is -2 exactly when requested as -2; a side that is not positive and not -2 falls back to the source side |
| FFmpeg.ProportionalSize | YoloDotNet/Video/Services/FFmpegService.cs:359-408 | there is no size exactly when both sides are -2 |
| FFmpeg.VideoResize | YoloDotNet/Video/Services/FFmpegService.cs:374-375 | both sides -2 throws the video exception exactly; otherwise the proportional size |
| FFmpeg.LegacyResize | YoloDotNet/Services/FFMPEGService.cs:224-225 | both sides -2 throws ArgumentException exactly; otherwise the proportional size |
| FFmpeg.AutoWidthProportional | YoloDotNet/Video/Services/FFmpegService.cs:377-384 | a width of -2 keeps the height and gives an even width at most two below the exact proportional width |
| FFmpeg.AutoHeightProportional | YoloDotNet/Video/Services/FFmpegService.cs:386-393 | a height of -2 keeps the width and gives an even height at most two below the exact proportional height |
| FFmpeg.FallbackToSource | YoloDotNet/Video/Services/FFmpegService.cs:366-368 | a width that is not positive and not -2 acts as the source width |
| FFmpeg.FitsInBounds | YoloDotNet/Video/Services/FFmpegService.cs:395-407 | with both sides set the result is even, fits inside them, and reaches within one of at least one side |
| FFmpeg.SourceSizeKept | YoloDotNet/Video/Services/FFmpegService.cs:366-407 | with no size requested the source size is kept, each side rounded down to even |
| FFmpeg.VideoTargetFps | YoloDotNet/Video/Services/FFmpegService.cs:51-76 | a device's own fps wins; otherwise a non-zero frame rate; otherwise the source fps |
| FFmpeg.LegacyTargetFps | YoloDotNet/Services/FFMPEGService.cs:44 | a positive FPS option wins; otherwise the source fps |
| FFmpeg.FpsRulesCompared | YoloDotNet/Services/FFMPEGService.cs:44 | the two services agree on positive and absent rates; a negative rate is used by the newer service and ignored by the older |
| FFmpeg.VideoCodec | YoloDotNet/Video/Services/FFmpegService.cs:232-237 | h264_nvenc exactly for a CUDA provider, h264_qsv exactly for an OpenVINO one that is not CUDA, libx264 otherwise |
| FFmpeg.OpenVinoEncodesOnCpu | YoloDotNet.ExecutionProvider.OpenVino/OpenVinoExecutionProvider.cs:7 | the shipped OpenVINO provider lacks the IOpenVino marker, so it encodes with libx264 and no shipped provider selects h264_qsv |
| FFmpeg.HardwareEncoders | YoloDotNet/Models/Interfaces/IExecutionProvider.cs:14-16 | with the markers the switch expects, h264_qsv exactly for OpenVINO, h264_nvenc exactly for CUDA, libx264 for CPU, CoreML and DirectML |
| FFmpeg.DecodeFilter | YoloDotNet/Video/Services/FFmpegService.cs:189-191 | the filter starts with "fps=" exactly when there is no frame interval, and ends with the scale filter either way |
| FFmpeg.ScaleFilterReadsBack | YoloDotNet/Video/Services/FFmpegService.cs:190-191 | the scale filter's arguments parse back to the target width and height |
| FFmpeg.EncodeFilter | YoloDotNet/Video/Services/FFmpegService.cs:219-225 | the encoder filter starts with "fps=" exactly when a frame interval is set, and always ends with "setsar=1:1" |
| FFmpeg.EncodeFrameRate | YoloDotNet/Video/Services/FFmpegService.cs:218-223 | with no frame interval the input rate is the target fps |
| FFmpeg.EncodeRateKeepsDuration | YoloDotNet/Video/Services/FFmpegService.cs:221-223 | with a frame interval N the input rate times N is the source fps, so the output lasts as long as the source |
| FFmpeg.RoundHalfEven | YoloDotNet/Video/Services/FFmpegService.cs:435 | Math.Round lands within one half of x, and a tie goes to the even integer |
| FFmpeg.Ceil | YoloDotNet/Video/Services/FFmpegService.cs:441 | Math.Ceiling: the least integer not below x |
| FFmpeg.FrameTotal | YoloDotNet/Video/Services/FFmpegService.cs:424-435 | at the source rate the total is the frame count rounded down; otherwise it lies within one half of the effective rate times the duration |
| FFmpeg.TargetFramesCount | YoloDotNet/Video/Services/FFmpegService.cs:410-444 | with a frame interval N the count plus one is the least integer not below total / N |
| FFmpeg.LastFrameIndex | YoloDotNet/Video/Services/FFmpegService.cs:424-444 | with no frame interval the count is the index of the last frame, one below the total |
| FFmpeg.SelectedFramesBounds | YoloDotNet/Video/Services/FFmpegService.cs:191 | the frames select='not(mod(n,k))' passes among n are the least c with n <= c * k |
| FFmpeg.SelectedFramesCeil | YoloDotNet/Video/Services/FFmpegService.cs:439-442 | rounding total / N up counts exactly the frames the select filter passes |
| FFmpeg.LastSelectedFrameIndex | YoloDotNet/Video/Services/FFmpegService.cs:439-444 | with a frame interval the count is the index of the last selected frame |
| FFmpeg.LegacyOffByOne | YoloDotNet/Services/FFMPEGService.cs:275-288 | the older service subtracts one twice: its count is two below the total, one below the newer service's index |
| FFmpeg.ThirtyFramesExample | YoloDotNet/Services/FFMPEGService.cs:277-288 | one second at 30 fps has 30 frames; the newer service gives index 29, the older 28 |
| Decoding.YoloOptions.constructor | YoloDotNet/Models/YoloOptions.cs:20 | the options hold the requested resize mode |
| Decoding.At | YoloDotNet/Modules/V8/ObjectDetectionModuleV8.cs:80 | a span read succeeds exactly inside the tensor and returns that value; outside it throws IndexOutOfRange |
| Decoding.LabelAt | YoloDotNet/Modules/V26/ObjectDetectionModuleV26.cs:64-75 | Labels[(int)index] succeeds exactly when the truncated index is inside the label table, and returns that label |
| Decoding.CentreBox | YoloDotNet/Modules/V8/ObjectDetectionModuleV8.cs:103-123 | in stretched mode every corner is clamped inside the image |
| Decoding.KeyPointOffsetNext | YoloDotNet/Modules/PoseEstimationModule.cs:58-61 | the next keypoint sits three planes further on |
| Decoding.ResultList.constructor | YoloDotNet/Modules/V26/ObjectDetectionModuleV26.cs:30 | the module's result list starts empty |
| Decoding.ResultList.Refill | YoloDotNet/Modules/V26/ObjectDetectionModuleV26.cs:41-43 | clearing and adding one detection at a time leaves exactly the detections, in order |
| Decoding.ProcessImage | YoloDotNet/Modules/V26/ObjectDetectionModuleV26.cs:41-45 | the caller gets the module's own list, now holding exactly this call's detections |
| Models.NewResult | YoloDotNet/Modules/V8/ObjectDetectionModuleV8.cs:134-142 | a new result has the given label, confidence, box and box index, with an empty mask, no keypoints and angle 0 |
| Models.ToDetections | YoloDotNet/Modules/ObjectDetectionModule.cs:29-31 | one ObjectDetection per result, each the cast of the result at the same position |
| DecodeV8.DetectionRow | YoloDotNet/Modules/V8/ObjectDetectionModuleV8.cs:69-142 | one box column: it is skipped exactly when its best score is below the threshold; it fails with ArgumentError when the stretched clamp has an empty range and otherwise with IndexOutOfRange |
| DecodeV8.RowOfBest | YoloDotNet/Modules/V8/ObjectDetectionModuleV8.cs:89-142 | given the best score, the column is skipped exactly below the threshold, and the failure kinds are as for DetectionRow |
| DecodeV8.DecodeRow | YoloDotNet/Modules/V8/ObjectDetectionModuleV8.cs:69-142 | the loop over the label rows computes exactly DetectionRow |
| DecodeV8.DetectionRowAt | YoloDotNet/Modules/V8/ObjectDetectionModuleV8.cs:134-142 | a kept column yields a result whose box index is the column and whose fields are those decoded from it |
| DecodeV8.DetectionStepsKeyed | YoloDotNet/Modules/V8/ObjectDetectionModuleV8.cs:69-143 | every column's result is keyed by that column and decoded from it |
| DecodeV8.Detections | YoloDotNet/Modules/V8/ObjectDetectionModuleV8.cs:64-146 | at most one result per column, each decoded from its column, in increasing column order; a column is kept exactly when its best score reaches the threshold |
| DecodeV8.DetectionsKept | YoloDotNet/Modules/V8/ObjectDetectionModuleV8.cs:89-91 | a column appears among the results exactly when its best score reaches the threshold |
| DecodeV8.NoPositiveScoreThrows | YoloDotNet/Modules/V8/ObjectDetectionModuleV8.cs:74-136 | with a threshold of 0 or less and no positive score, the label index stays -1 and reading the label throws IndexOutOfRange |
| DecodeV8.FillBoxes | YoloDotNet/Modules/V8/ObjectDetectionModuleV8.cs:64-146 | the rented buffer's first count entries are exactly the collected detections, or the first column's error is returned |
| DecodeV8.ObjectDetectionModuleV8.constructor | YoloDotNet/Modules/V8/ObjectDetectionModuleV8.cs:18-27 | the module keeps the labels, column count, model type and options |
| DecodeV8.ObjectDetectionModuleV8.ObjectDetection | YoloDotNet/Modules/V8/ObjectDetectionModuleV8.cs:51-155 | an empty tensor gives no results; otherwise the result is the greedy non-maximum suppression of the collected detections sorted by descending confidence, or their error |
| DecodeV8.ObjectDetectionModuleV8.ProcessImage | YoloDotNet/Modules/V8/ObjectDetectionModuleV8.cs:29-40 | the detections are the casts of the suppressed results, in order |
| DecodeV8.DecodedBoxes | YoloDotNet/Modules/V8/ObjectDetectionModuleV8.cs:146-149 | the kept boxes are at most one per column, sorted by descending confidence, each decoded from the tensor, and no two overlap beyond the threshold |
| DecodeRtdetr.ClampInto | YoloDotNet/Modules/RTDETR/ObjectDetectionModuleRtdetr.cs:135-138 | the manual clamp lands inside [0, extent) for a non-empty extent and leaves in-range values unchanged |
| DecodeRtdetr.ImageBox | YoloDotNet/Modules/RTDETR/ObjectDetectionModuleRtdetr.cs:109-138 | every corner of the scaled box lies inside the original image |
| DecodeRtdetr.DetectionRow | YoloDotNet/Modules/RTDETR/ObjectDetectionModuleRtdetr.cs:81-146 | one prediction row fails exactly when a read leaves the tensor (always IndexOutOfRange), and is skipped exactly when no score is positive or the best is below the threshold |
| DecodeRtdetr.DecodeRow | YoloDotNet/Modules/RTDETR/ObjectDetectionModuleRtdetr.cs:81-146 | the loop over the class scores computes exactly DetectionRow |
| DecodeRtdetr.DetectionRowAt | YoloDotNet/Modules/RTDETR/ObjectDetectionModuleRtdetr.cs:140-146 | a kept row yields a result whose box index is the row's first offset and whose fields are decoded from it |
| DecodeRtdetr.DetectionStepsKeyed | YoloDotNet/Modules/RTDETR/ObjectDetectionModuleRtdetr.cs:81-147 | each row's result is keyed by its offset and decoded from it, and the only error is IndexOutOfRange |
| DecodeRtdetr.DetectionStepsErrors | YoloDotNet/Modules/RTDETR/ObjectDetectionModuleRtdetr.cs:81-147 | a row can fail only with IndexOutOfRange |
| DecodeRtdetr.Detections | YoloDotNet/Modules/RTDETR/ObjectDetectionModuleRtdetr.cs:71-150 | at most one result per row, each decoded from its row, in increasing offset order; a row is kept exactly when it is not skipped |
| DecodeRtdetr.DetectionsKept | YoloDotNet/Modules/RTDETR/ObjectDetectionModuleRtdetr.cs:104-106 | a row appears among the results exactly when it has a positive score reaching the threshold |
| DecodeRtdetr.DetectionOfRow | YoloDotNet/Modules/RTDETR/ObjectDetectionModuleRtdetr.cs:104-106 | after a successful run, a row appears among the results exactly when it has a positive score reaching the threshold |
| DecodeRtdetr.DetectionsFail | YoloDotNet/Modules/RTDETR/ObjectDetectionModuleRtdetr.cs:81-147 | decoding fails exactly when some row's reads leave the tensor |
| DecodeRtdetr.FillBoxes | YoloDotNet/Modules/RTDETR/ObjectDetectionModuleRtdetr.cs:71-150 | the rented buffer's prefix holds exactly the collected detections when they fit, otherwise IndexOutOfRange |
| DecodeRtdetr.ObjectDetectionModuleRtdetr.constructor | YoloDotNet/Modules/RTDETR/ObjectDetectionModuleRtdetr.cs:28-47 | the module keeps the output shape, input size and options, and its result list starts empty |
| DecodeRtdetr.ObjectDetectionModuleRtdetr.ObjectDetection | YoloDotNet/Modules/RTDETR/ObjectDetectionModuleRtdetr.cs:64-157 | the result is exactly the collected detections, with no suppression, or IndexOutOfRange |
| DecodeRtdetr.ObjectDetectionModuleRtdetr.ProcessImage | YoloDotNet/Modules/RTDETR/ObjectDetectionModuleRtdetr.cs:49-60 | on success the module's own list now holds the casts of the detections; on failure it is unchanged |
| DecodeRtdetr.DetectionsFit | YoloDotNet/Modules/RTDETR/ObjectDetectionModuleRtdetr.cs:74 | for a tensor of predictions × attributes values the rented buffer is always large enough |
| DecodeV10.V10Box | YoloDotNet/Modules/V10/ObjectDetectionModuleV10.cs:66-86 | in stretched mode every corner is clamped inside the image |
| DecodeV10.DetectionRow | YoloDotNet/Modules/V10/ObjectDetectionModuleV10.cs:55-94 | one six-value row fails exactly as RowFails says, with ArgumentError for an empty clamp range and IndexOutOfRange otherwise, and is skipped exactly when its confidence is below the threshold |
| DecodeV10.DetectionStepsKeyed | YoloDotNet/Modules/V10/ObjectDetectionModuleV10.cs:55-95 | each row's result is keyed by its offset and decoded from it |
| DecodeV10.Detections | YoloDotNet/Modules/V10/ObjectDetectionModuleV10.cs:47-98 | at most one result per row, each decoded from its row, in increasing offset order; a row is kept exactly when its confidence reaches the threshold |
| DecodeV10.DetectionsKept | YoloDotNet/Modules/V10/ObjectDetectionModuleV10.cs:64 | a row appears among the results exactly when its confidence reaches the threshold |
| DecodeV10.DetectionsFail | YoloDotNet/Modules/V10/ObjectDetectionModuleV10.cs:55-95 | decoding fails exactly when some row fails |
| DecodeV10.IndexErrorsOnly | YoloDotNet/Modules/V10/ObjectDetectionModuleV10.cs:57-90 | when the clamp range is not empty the only possible error is IndexOutOfRange |
| DecodeV10.FillBoxes | YoloDotNet/Modules/V10/ObjectDetectionModuleV10.cs:47-98 | the rented buffer's prefix holds exactly the collected detections when they fit, otherwise the row's error or IndexOutOfRange |
| DecodeV10.ObjectDetectionModuleV10.constructor | YoloDotNet/Modules/V10/ObjectDetectionModuleV10.cs:17-20 | the module keeps the labels, output shape and options |
| DecodeV10.ObjectDetectionModuleV10.ObjectDetection | YoloDotNet/Modules/V10/ObjectDetectionModuleV10.cs:37-107 | the result is the greedy non-maximum suppression of the collected detections sorted by descending confidence, or their error |
| DecodeV10.ObjectDetectionModuleV10.ProcessImage | YoloDotNet/Modules/V10/ObjectDetectionModuleV10.cs:22-33 | the detections are the casts of the suppressed results, in order |
| DecodeV10.DecodedBoxes | YoloDotNet/Modules/V10/ObjectDetectionModuleV10.cs:98-101 | the kept boxes are sorted by descending confidence, each decoded from the tensor, and no two overlap beyond the threshold |
| DecodeLegacy.Located | YoloDotNet/Modules/ObjectDetectionModule.cs:72-99 | building a box fails only for an OBB model whose angle value lies past the tensor, and then with IndexOutOfRange |
| DecodeLegacy.DetectionRow | YoloDotNet/Modules/ObjectDetectionModule.cs:60-101 | one column is empty exactly when no label score reaches the threshold; it fails only with IndexOutOfRange, from a score read or the OBB angle read |
| DecodeLegacy.DetectionRowAt | YoloDotNet/Modules/ObjectDetectionModule.cs:89-99 | a kept column's result carries that column's index and the first label with the highest score at or above the threshold |
| DecodeLegacy.DetectionStepsKeyed | YoloDotNet/Modules/ObjectDetectionModule.cs:60-102 | each column's slot is keyed by that column and decoded from it |
| DecodeLegacy.Detections | YoloDotNet/Modules/ObjectDetectionModule.cs:60-104 | the non-null slots are at most one per column, each decoded from its column, in increasing column order |
| DecodeLegacy.DetectionsKept | YoloDotNet/Modules/ObjectDetectionModule.cs:70-104 | a column survives the null filter exactly when some label score reaches the threshold |
| DecodeLegacy.DetectionsFail | YoloDotNet/Modules/ObjectDetectionModule.cs:60-102 | decoding fails exactly when some column fails, and always with IndexOutOfRange |
| DecodeLegacy.DecodeBox | YoloDotNet/Modules/ObjectDetectionModule.cs:63-100 | the label loop fills slot i with exactly that column's result, or throws what the column throws, and leaves every other slot alone |
| DecodeLegacy.FindBoxes | YoloDotNet/Modules/ObjectDetectionModule.cs:53-104 | the rented slots, filtered for null, are exactly the collected detections |
| DecodeLegacy.ObjectDetectionModule.constructor | YoloDotNet/Modules/ObjectDetectionModule.cs:19-24 | the module keeps the labels, column count and model type |
| DecodeLegacy.ObjectDetectionModule.ObjectDetectImage | YoloDotNet/Modules/ObjectDetectionModule.cs:46-112 | the result is the greedy non-maximum suppression of the collected detections sorted by descending confidence, or their error |
| DecodeLegacy.ObjectDetectionModule.ProcessImage | YoloDotNet/Modules/ObjectDetectionModule.cs:26-32 | the detections are the casts of the suppressed results, in order |
| DecodeLegacy.DecodedBoxes | YoloDotNet/Modules/ObjectDetectionModule.cs:104-106 | the kept boxes are at most one per column, sorted by descending confidence, each decoded from the tensor, and no two overlap beyond the threshold |
| DecodeLegacy.KeyPointRead | YoloDotNet/Modules/PoseEstimationModule.cs:58-67 | a keypoint read succeeds exactly when its x, y and confidence planes are inside the tensor, and fails otherwise with IndexOutOfRange |
| DecodeLegacy.KeyPointsReadAt | YoloDotNet/Modules/PoseEstimationModule.cs:53-68 | reading all keypoints fails exactly when one of them fails; on success there are exactly total keypoints, each read at its own offset |
| DecodeLegacy.PosesAt | YoloDotNet/Modules/PoseEstimationModule.cs:50-71 | attaching keypoints keeps every other field of each box; it fails with Overflow for a negative keypoint count and otherwise exactly when some box's keypoint read fails |
| DecodeLegacy.ReadKeyPoints | YoloDotNet/Modules/PoseEstimationModule.cs:53-68 | the inner loop computes exactly KeyPointsRead |
| DecodeLegacy.AddKeyPoints | YoloDotNet/Modules/PoseEstimationModule.cs:50-71 | the boxes are updated in place to exactly Poses of their old values, or the first error is returned |
| DecodeLegacy.ToPoses | YoloDotNet/Modules/PoseEstimationModule.cs:73 | one pose per box, each the cast of the box at the same position |
| DecodeLegacy.PoseEstimationModule.constructor | YoloDotNet/Modules/PoseEstimationModule.cs:15-21 | the pose module wraps a detector for the pose model type with its labels and output shape |
| DecodeLegacy.PoseEstimationModule.PoseEstimateImage | YoloDotNet/Modules/PoseEstimationModule.cs:35-74 | the poses are the suppressed detections with their keypoints attached, or the detector's or the keypoint reads' error |
| DecodeLegacy.PosedBoxes | YoloDotNet/Modules/PoseEstimationModule.cs:50-73 | each pose keeps its box's label, confidence and rectangle and carries exactly total keypoints; failure happens exactly when there are boxes and the count is negative or a read fails |
| DecodeV8Pose.Position | YoloDotNet/Modules/V8/PoseEstimationModuleV8.cs:72-92 | in stretched mode the position fails with ArgumentError exactly when the box is too thin to clamp into, and otherwise lands inside the box |
| DecodeV8Pose.KeyPointRead | YoloDotNet/Modules/V8/PoseEstimationModuleV8.cs:67-96 | a keypoint read succeeds exactly when its planes are inside the tensor and the clamp range is non-empty, and a stretched keypoint lies inside its box |
| DecodeV8Pose.KeyPointsReadAt | YoloDotNet/Modules/V8/PoseEstimationModuleV8.cs:62-97 | reading all keypoints fails exactly when one of them fails; on success there are exactly total keypoints, each read at its own offset |
| DecodeV8Pose.KeyPointsFirstError | YoloDotNet/Modules/V8/PoseEstimationModuleV8.cs:65-97 | the first failing keypoint decides the error; later keypoints do not change it |
| DecodeV8Pose.PosesAt | YoloDotNet/Modules/V8/PoseEstimationModuleV8.cs:58-100 | attaching keypoints keeps every other field of each box, gives each box exactly total keypoints, which lie inside the box in stretched mode; failure happens exactly when the count is negative or a read fails |
| DecodeV8Pose.ThinBoxThrows | YoloDotNet/Modules/V8/PoseEstimationModuleV8.cs:90-91 | in stretched mode a successful run implies every box is at least one pixel wide and tall |
| DecodeV8Pose.PosesFirstError | YoloDotNet/Modules/V8/PoseEstimationModuleV8.cs:58-100 | the first failing box decides the error; later boxes do not change it |
| DecodeV8Pose.ReadKeyPoint | YoloDotNet/Modules/V8/PoseEstimationModuleV8.cs:67-96 | one keypoint's reads and clamps compute exactly KeyPointRead |
| DecodeV8Pose.ReadKeyPoints | YoloDotNet/Modules/V8/PoseEstimationModuleV8.cs:62-97 | the inner loop computes exactly KeyPointsRead |
| DecodeV8Pose.AddKeyPoints | YoloDotNet/Modules/V8/PoseEstimationModuleV8.cs:58-100 | the boxes are updated in place to exactly Poses of their old values, or the first error is returned |
| DecodeV8Pose.PoseEstimationModuleV8.constructor | YoloDotNet/Modules/V8/PoseEstimationModuleV8.cs:18-34 | the module reads the input channels and output shape and wraps a V8 detector for pose models |
| DecodeV8Pose.PoseEstimationModuleV8.PoseEstimateImage | YoloDotNet/Modules/V8/PoseEstimationModuleV8.cs:46-103 | the poses are the V8 detector's suppressed boxes with their keypoints attached, or the detector's or the keypoint reads' error |
| DecodeV26.DetectionStepsKeyed | YoloDotNet/Modules/V26/ObjectDetectionModuleV26.cs:62-108 | each six-value row's result is keyed by its offset, and the only error is IndexOutOfRange |
| DecodeV26.DetectionOfRow | YoloDotNet/Modules/V26/ObjectDetectionModuleV26.cs:64-68 | after a successful run, a row appears among the results exactly when its confidence at i+4 reaches the threshold |
| DecodeV26.DetectionRowsAt | YoloDotNet/Modules/V26/ObjectDetectionModuleV26.cs:62-108 | every kept row's result is decoded from that row |
| DecodeV26.DetectionRowAt | YoloDotNet/Modules/V26/ObjectDetectionModuleV26.cs:100-108 | a kept row's result carries the row's offset as box index and is decoded from that row |
| DecodeV26.DetectionsKept | YoloDotNet/Modules/V26/ObjectDetectionModuleV26.cs:64-68 | every row's confidence lies inside the tensor, and the row is kept exactly when it reaches the threshold |
| DecodeV26.FillBoxes | YoloDotNet/Modules/V26/ObjectDetectionModuleV26.cs:60-110 | the buffer's prefix holds exactly the collected detections when they fit, otherwise IndexOutOfRange |
| DecodeV26Obb.ObbOfRow | YoloDotNet/Modules/V26/OBBDetectionModuleV26.cs:69-73 | after a successful run, a row appears among the results exactly when its confidence at i+4 reaches the threshold |
| DecodeV26Obb.ObbRowsAt | YoloDotNet/Modules/V26/OBBDetectionModuleV26.cs:66-112 | every kept row's result is decoded from that row |
| DecodeV26Obb.ObbDetectionsKept | YoloDotNet/Modules/V26/OBBDetectionModuleV26.cs:69-73 | every row's confidence lies inside the tensor, and the row is kept exactly when it reaches the threshold |
| DecodeV26Pose.PoseOfRow | YoloDotNet/Modules/V26/PoseEstimationModuleV26.cs:71-74 | after a successful run, a row appears among the results exactly when its confidence at i+4 reaches the threshold |
| DecodeV26Pose.PoseRowsAt | YoloDotNet/Modules/V26/PoseEstimationModuleV26.cs:71-134 | every kept row's result is decoded from that row, keypoints included |
| DecodeV26Pose.PoseDetectionsKept | YoloDotNet/Modules/V26/PoseEstimationModuleV26.cs:71-74 | every row's confidence lies inside the tensor, and the row is kept exactly when it reaches the threshold |
| DecodeV26Pose.PoseEstimationModuleV26.constructor | YoloDotNet/Modules/V26/PoseEstimationModuleV26.cs:24-45 | the module keeps the labels, options and stride, and allocates a keypoint buffer of exactly the keypoint count |
| DecodeV26Seg.SegOfRow | YoloDotNet/Modules/V26/SegmentationModuleV26.cs:97-103 | after a successful run, a row appears among the results exactly when its confidence at i+4 reaches the threshold |
| DecodeV26Seg.SegRowsAt | YoloDotNet/Modules/V26/SegmentationModuleV26.cs:97-177 | every kept row's result carries the row's offset and is decoded from that row, mask included |
| DecodeV26Seg.SegmentationModuleV26.constructor | YoloDotNet/Modules/V26/SegmentationModuleV26.cs:35-67 | the module keeps the labels, options and stride, its 32 mask weights start at zero and its result list is empty |
| DecodeV26Seg.SegmentationModuleV26.FillRows | YoloDotNet/Modules/V26/SegmentationModuleV26.cs:93-179 | the decoded rows are exactly the collected detections when they fit the buffer, otherwise IndexOutOfRange |
| DecodeV26Seg.SegmentationModuleV26.ClearWeights | YoloDotNet/Modules/V26/SegmentationModuleV26.cs:185 | after the run the shared mask weights are all zero again |
| Rows.KeptRows | YoloDotNet/Modules/V26/ObjectDetectionModuleV26.cs:62-108 | the rows that yield a result are rows the loop visits, no more of them than rows |
| Rows.CollectStep | YoloDotNet/Modules/V26/ObjectDetectionModuleV26.cs:62-108 | one more row: a throwing row ends the loop with its error, a skipped row leaves the results, a kept row appends its result |
| Rows.CollectPrefix | YoloDotNet/Modules/V26/ObjectDetectionModuleV26.cs:62-108 | the results of the first m rows are a prefix of the results of the first n |
| Rows.CollectEarlyExit | YoloDotNet/Modules/V26/ObjectDetectionModuleV26.cs:62-108 | once a row has thrown or the buffer has overflowed, the whole loop fails too |
| Rows.CollectFirstError | YoloDotNet/Modules/V26/ObjectDetectionModuleV26.cs:62-108 | the first throwing row decides the error; later rows do not change it |
| Rows.StoreRow | YoloDotNet/Modules/V26/ObjectDetectionModuleV26.cs:100-108 | storing one row's result at the next buffer slot keeps the buffer prefix equal to the results so far, or reports the row's error or the overflow |
| Rows.Present | YoloDotNet/Modules/ObjectDetectionModule.cs:104 | dropping the null slots never lengthens the array |
| Rows.RowCountAtMostLength | YoloDotNet/Modules/V26/ObjectDetectionModuleV26.cs:62 | the loop never visits more rows than the tensor has values |
| Nms.KeptIndices | YoloDotNet/Core/YoloCore.cs:131-147 | one kept position per kept item |
| Nms.KeepDecisionEarlier | YoloDotNet/Core/YoloCore.cs:135-146 | an item before the last is kept exactly when no item kept before it overlaps it |
| Nms.KeepDecisionLast | YoloDotNet/Core/YoloCore.cs:135-146 | the last item is kept exactly when no item kept before it overlaps it |
| Nms.FillKept | YoloDotNet/Core/YoloCore.cs:131-147 | the loop leaves in the buffer's first counter slots exactly the greedy keep of the sorted predictions |
| Nms.SuppressFound | YoloDotNet/Core/YoloCore.cs:116-155 | the found boxes are sorted into non-increasing confidence, a permutation of them, and the result is the greedy keep of that order |
| Nms.SuppressFoundData | YoloDotNet/Data/YoloCore.cs:198-215 | the same for the Data generation's overlap test |
| Nms.Suppressed | YoloDotNet/Core/YoloCore.cs:124-149 | the kept boxes are found boxes, in non-increasing confidence, no later one overlapping an earlier one; a non-empty input keeps its most confident box first |
| Metadata.FirstMatch | YoloDotNet/Extensions/ParseOnnxData.cs:214-249 | a switch with guarded arms yields the version of the first arm whose test holds, and throws the model exception exactly when none does |
| Metadata.FirstMatchPicks | YoloDotNet/Extensions/ParseOnnxData.cs:214-249 | when arm k holds and no earlier arm does, the switch yields arm k's version |
| Metadata.VersionIgnoresCase | YoloDotNet/Extensions/ParseOnnxData.cs:214 | the version depends only on the lower-cased description |
| Metadata.ParsePrefixesExclusive | YoloDotNet/Extensions/ParseOnnxData.cs:217-237 | no description starts with two of the nine "ultralytics yolo…" prefixes, so their order does not matter |
| Metadata.VersionByPrefix | YoloDotNet/Extensions/ParseOnnxData.cs:217-237 | a description starting with one of the nine prefixes gets exactly that arm's version |
| Metadata.PrefixArmsNeedYolo | YoloDotNet/Extensions/ParseOnnxData.cs:217-237 | every prefix arm's description contains "yolo" |
| Metadata.VersionFallback | YoloDotNet/Extensions/ParseOnnxData.cs:246 | an "ultralytics" description with no "yolo", no "worldv2" and no RT-DETR prefix is read as V8 |
| Metadata.Yolo26NoEarlierPrefix | YoloDotNet/Extensions/ParseOnnxData.cs:217-237 | no arm before the YOLO26 arm matches a YOLO26 description |
| Metadata.Yolo26Version | YoloDotNet/Extensions/ParseOnnxData.cs:237 | a YOLO26 description is read as V26 |
| Metadata.WorldV2ReadsAsV11 | YoloDotNet/Extensions/ParseOnnxData.cs:240 | a WorldV2 description that matches no prefix arm is read as V11 |
| Metadata.VersionNeverWorldV2 | YoloDotNet/Extensions/ParseOnnxData.cs:214-249 | the parser never yields the WORLDV2 version |
| Metadata.GetModelVersion | YoloDotNet/Extensions/ParseOnnxData.cs:214-249 | an unrecognised description throws the model error, and never one holding "worldv2" or an "ultralytics" one without "yolo", which the last arms catch |
| Metadata.GetModelType | YoloDotNet/Extensions/ParseOnnxData.cs:201-209 | the five task names map to their model types, and any other text throws the model exception |
| Metadata.TaskRoundTrip | YoloDotNet/Extensions/ParseOnnxData.cs:201-209 | every defined model type's task name maps back to it |
| Metadata.LabelPieces | YoloDotNet/Extensions/ParseOnnxData.cs:164-167 | trimming braces, removing quotes and splitting on ", " gives at least one piece, none holding a quote |
| Metadata.Entry | YoloDotNet/Extensions/ParseOnnxData.cs:168-169 | a piece parses exactly when its text before the first ": " is an integer and there is a second part, which becomes the name |
| Metadata.Entries | YoloDotNet/Extensions/ParseOnnxData.cs:168 | one parse per piece, in order |
| Metadata.Collect | YoloDotNet/Extensions/ParseOnnxData.cs:168-169 | building the list fails exactly when some piece fails to parse or two pieces share a key; otherwise it holds every parsed pair, in order |
| Metadata.Dictionary | YoloDotNet/Extensions/ParseOnnxData.cs:168-169 | building the dictionary fails exactly when some piece does not parse or two pieces share a key; otherwise it holds every entry in order |
| Metadata.MapLabelsAndColors | YoloDotNet/Extensions/ParseOnnxData.cs:161-176 | the labels are numbered 0, 1, … in entry order and each takes its entry's name; it fails exactly when the dictionary does |
| Metadata.LabelNamesUnquoted | YoloDotNet/Extensions/ParseOnnxData.cs:166 | no label name holds a quote |
| Metadata.Wrap32 | YoloDotNet/Extensions/ParseOnnxData.cs:195 | wrapping to int32 lands in the int32 range and leaves in-range values alone |
| Metadata.CalculateTotalInputShapeSize | YoloDotNet/Extensions/ParseOnnxData.cs:181-199 | an empty shape has size 0; a shape with a dimension of 0 or less throws; otherwise the size is the product wrapped to int32 |
| Metadata.ShapeSizeExact | YoloDotNet/Extensions/ParseOnnxData.cs:181-199 | when the product fits in int32 the size is exactly the product, and positive |
| Metadata.ShapeSizeWraps | YoloDotNet/Extensions/ParseOnnxData.cs:195 | the shape [1, 3, 65536, 65536] wraps to size 0 |
| Metadata.GetMetadata | YoloDotNet/Extensions/ParseOnnxData.cs:84-114 | the dictionary is MetadataOf of the entries: missing metadata or a repeated key gives an empty dictionary; otherwise every pair is in the dictionary and nothing else |
| Metadata.ParseOnnx | YoloDotNet/Extensions/ParseOnnxData.cs:10-29 | parsing succeeds exactly when the "task", "description" and "names" entries are present and read, there is an input, and its shape has no dimension of 0 or less; the errors come in initializer order (a missing key is KeyNotFound, otherwise the reader's own error; no input is InvalidOperation; a bad dimension is the library exception); a parsed model carries GetMetadata's dictionary, and its type, version, labels and input size are read from those entries and the first input shape |
| Metadata.MetadataOf | YoloDotNet/Extensions/ParseOnnxData.cs:84-114 | on distinct keys every pair is in the dictionary with its value, and every key in it comes from a pair |
| Metadata.MapOf | YoloDotNet/Extensions/ParseOnnxData.cs:102-105 | adding the pairs in turn gives exactly their keys, each with its own value when no key repeats |
| Metadata.MapOfPairs | YoloDotNet/Extensions/ParseOnnxData.cs:102-105 | a dictionary holding exactly the distinct-keyed pairs is the one adding them in turn yields |
| Metadata.Labels | YoloDotNet/Extensions/ParseOnnxData.cs:171-175 | one label per entry, indexed by its position and named by the entry's value |
| OnnxProperties.OnnxModelVersion | YoloDotNet/Extensions/OnnxPropertiesExtension.cs:112-127 | the older version switch throws exactly when none of its arms holds |
| OnnxProperties.MissingYoloIsV8 | YoloDotNet/Extensions/OnnxPropertiesExtension.cs:115 | a description without "yolo" is read as V8 |
| OnnxProperties.VersionTablesAgree | YoloDotNet/Extensions/OnnxPropertiesExtension.cs:112-127 | for a "yolo" description that is neither YOLO26 nor RT-DETR, both version readers agree |
| OnnxProperties.VersionAgreesAt | YoloDotNet/Extensions/OnnxPropertiesExtension.cs:112-127 | when ParseOnnxData's arm k is the first to hold for a description that contains "yolo" and that neither reader's YOLO26, RT-DETR or "ultralytics" without "yolo" arm takes, OnnxPropertiesExtension's reader picks the same version |
| OnnxProperties.SharedPrefixRules | YoloDotNet/Extensions/OnnxPropertiesExtension.cs:117-125 | the older table's prefix arms and WorldV2 arm are the newer table's, in the same order |
| OnnxProperties.Yolo26Rejected | YoloDotNet/Extensions/OnnxPropertiesExtension.cs:112-127 | a YOLO26 description is V26 for the newer reader and throws in the older one |
| OnnxProperties.RtDetrReadsAsV8 | YoloDotNet/Extensions/OnnxPropertiesExtension.cs:115 | an RT-DETR description is RTDETR for the newer reader and V8 for the older one |
| OnnxProperties.OnnxModelType | YoloDotNet/Extensions/OnnxPropertiesExtension.cs:104-107 | the enum-member lookup finds the same types as the newer reader, and an unknown task dereferences null |
| OnnxProperties.InputOf | YoloDotNet/Models/OnnxModel.cs:54-58 | an input shape of at least four dimensions reads batch, channels, height and width in that order; a shorter one throws IndexOutOfRange |
| OnnxProperties.GetModelInputShape | YoloDotNet/Extensions/OnnxPropertiesExtension.cs:74-81 | a dynamic dimension (-1) throws the model exception; otherwise the shape is read as NCHW |
| OnnxProperties.GetOutputShapes | YoloDotNet/Extensions/OnnxPropertiesExtension.cs:86-99 | two outputs: the second is empty except for segmentation models, which read it from the second tensor; classification reads the first as a classification output, the rest as detection; an undefined type throws |
| OnnxProperties.GetOnnxProperties | YoloDotNet/Extensions/OnnxPropertiesExtension.cs:14-44 | a missing "task" throws KeyNotFound; every property of a parsed model is read by its own reader from the record, and the input shape is the first four dimensions |
| OnnxProperties.InputShapeIsNchw | YoloDotNet/Extensions/OnnxPropertiesExtension.cs:31-42 | the stored input shape lists the parsed input's batch, channels, height and width, none dynamic |
| OnnxProperties.PropertiesShape | YoloDotNet/Extensions/OnnxPropertiesExtension.cs:86-98 | a parsed model has a defined type and two outputs, and only a segmentation model has a non-empty second one |
| ModuleFactory.Row | YoloDotNet/Core/ModuleFactory.cs:17-24 | each version's inner table has exactly the five model types as keys |
| ModuleFactory.VersionRow | YoloDotNet/Core/ModuleFactory.cs:13-106 | the table has a row for every version except V26 and RT-DETR |
| ModuleFactory.Invoke | YoloDotNet/Core/ModuleFactory.cs:19-20 | invoking a cell builds its module, or throws NotImplementedException for a placeholder cell |
| ModuleFactory.CreateModuleAsWritten | YoloDotNet/Core/ModuleFactory.cs:123-129 | a version with no row leaves the inner map null and the second lookup dereferences it; otherwise it behaves as CreateModule |
| ModuleFactory.CreateModule | YoloDotNet/Core/ModuleFactory.cs:114-130 | the unsupported-model exception is thrown exactly when the version has no row or the type is undefined; otherwise the cell's module is built, or its NotImplementedException surfaces |
| ModuleFactory.FullVersions | YoloDotNet/Core/ModuleFactory.cs:27-95 | V8, V11 and V12 build a module for every defined type |
| ModuleFactory.DetectionOnlyVersions | YoloDotNet/Core/ModuleFactory.cs:17-104 | V5U, V9, V10 and WorldV2 build a module exactly for object detection |
| ModuleFactory.SegmentationOnlyVersions | YoloDotNet/Core/ModuleFactory.cs:37-85 | V8E and V11E build a module exactly for segmentation |
| ModuleFactory.UnsupportedPairs | YoloDotNet/Core/ModuleFactory.cs:123-129 | for a listed version, a defined type fails only with NotImplementedException, an undefined type with the model exception |
| ModuleFactory.Yolo26NullReference | YoloDotNet/Core/ModuleFactory.cs:123-124 | for V26 the code as written throws NullReferenceException, where the intended behaviour is the unsupported-model exception |
| ModuleFactory.Yolo26ModelsFail | YoloDotNet/Core/ModuleFactory.cs:123-124 | a model whose description starts with "ultralytics yolo26" is read as V26 and then fails with NullReferenceException |
| Text.IndexOfFrom | YoloDotNet/Extensions/ParseOnnxData.cs:167 | the first occurrence of the separator at or after the start, or -1 when there is none |
| Text.Split | YoloDotNet/Extensions/ParseOnnxData.cs:167 | splitting always gives at least one piece |
| Text.SplitJoin | YoloDotNet/Extensions/ParseOnnxData.cs:167 | joining the pieces with the separator gives back the text |
| Text.SplitPiecesFree | YoloDotNet/Extensions/ParseOnnxData.cs:167 | no piece contains the separator |
| Text.Trim | YoloDotNet/Extensions/ParseOnnxData.cs:165 | trimming never lengthens the text, and the result neither starts nor ends with a stripped character |
| Text.TrimStart | YoloDotNet/Extensions/ParseOnnxData.cs:165 | the result is a suffix of the text that does not start with a stripped character, and the text itself when it already does not |
| Text.TrimEnd | YoloDotNet/Extensions/ParseOnnxData.cs:165 | the result is a prefix of the text that does not end with a stripped character, and the text itself when it already does not |
| Text.TrimKeeps | YoloDotNet/Extensions/ParseOnnxData.cs:165 | a text with no stripped character at either end is unchanged |
| Text.Remove | YoloDotNet/Extensions/ParseOnnxData.cs:166 | removing a character leaves no occurrence of it and never lengthens the text |
| Text.LowerChar | YoloDotNet/Extensions/ParseOnnxData.cs:214 | upper-case ASCII letters move to lower case; every other character is unchanged |
| Text.Lower | YoloDotNet/Extensions/ParseOnnxData.cs:214 | lower-casing maps each character by itself and keeps the length |
| Text.LowerIdempotent | YoloDotNet/Extensions/ParseOnnxData.cs:214 | lower-casing twice is lower-casing once |
| Text.ParseInt | YoloDotNet/Extensions/ParseOnnxData.cs:169 | a parsed integer lies in the int32 range; failures are FormatException or OverflowException |
| Text.ParseMagnitude | YoloDotNet/Extensions/ParseOnnxData.cs:169 | digits parse exactly when there is at least one, all are digits and the value fits int32 with its sign; the value is the digits' value with that sign |
| Text.Decimal | YoloDotNet/Video/Services/FFmpegService.cs:99-101 | a decimal rendering is a non-empty run of digits |
| Text.DecimalValue | YoloDotNet/Video/Services/FFmpegService.cs:99-101 | the digits of a rendered number read back as that number |
| Text.ParseUntrimmed | YoloDotNet/Extensions/ParseOnnxData.cs:169 | surrounding white space is the only thing the parser strips |
| Text.ParseDigits | YoloDotNet/Extensions/ParseOnnxData.cs:169 | a run of digits whose value fits int32 parses to that value |
| Text.SignedNegated | YoloDotNet/Extensions/ParseOnnxData.cs:169 | a minus sign before digits that fit parses to the negated value |
| Text.ParseIntToString | YoloDotNet/Video/Services/FFmpegService.cs:99-101 | every int32 rendered as text parses back to itself |
| Sorting.Insert | YoloDotNet/Core/YoloCore.cs:124 | inserting into the reference order adds exactly one element |
| Sorting.InsertionSort | YoloDotNet/Core/YoloCore.cs:124 | the reference sort keeps the length |
| Sorting.InsertPermutes | YoloDotNet/Core/YoloCore.cs:124 | insertion adds exactly the new element to the multiset |
| Sorting.InsertSorted | YoloDotNet/Core/YoloCore.cs:124 | insertion into a non-increasing sequence keeps it non-increasing |
| Sorting.InsertKeepsTies | YoloDotNet/Modules/ClassificationModule.cs:51-53 | inserting an element with a key above all others keeps equal-confidence elements in key order |
| Sorting.InsertionSortStable | YoloDotNet/Modules/ClassificationModule.cs:51-53 | the reference sort is stable: elements of equal confidence keep their input order, as OrderByDescending does |
| Sorting.Image | YoloDotNet/Modules/ClassificationModule.cs:40-49 | mapping keeps the length and maps each element at its own position |
| Sorting.InsertImage | YoloDotNet/Modules/ClassificationModule.cs:51-53 | inserting a mapped element into mapped elements is mapping the insertion by the mapped confidence |
| Sorting.InsertionSortImage | YoloDotNet/Modules/ClassificationModule.cs:51-53 | sorting the mapped sequence is mapping the sort by the mapped confidence |
| SortTracking.AdmitPrefixStep | YoloDotNet/Trackers/SortTracker.cs:81-90 | one more detection: a matched one passes through, an unmatched one gets the pre-incremented counter as id and a new track under it |
| SortTracking.AdmitKeepsTaken | YoloDotNet/Trackers/SortTracker.cs:83 | matched detections are left exactly as they were |
| SortTracking.AdmitNewIds | YoloDotNet/Trackers/SortTracker.cs:83-89 | every unmatched detection keeps its other fields, gets an id above the old counter and at most the new one, and a new track for it is filed under that id |
| SortTracking.AdmitIdsIncrease | YoloDotNet/Trackers/SortTracker.cs:81-90 | the new ids grow with the detection's position |
| SortTracking.AdmitCreatedFresh | YoloDotNet/Trackers/SortTracker.cs:88 | each created track carries its own id, Age 0 and an empty tail |
| SortTracking.AdmitAgedBoxes | YoloDotNet/Trackers/SortTracker.cs:63-71 | after admission and aging, every detection's id names a surviving track whose box is that detection and whose Age is 1 |
| SortTracking.SortTracker.StartTrack | YoloDotNet/Trackers/SortTracker.cs:85-88 | one unmatched detection's id and track are created and the admission invariant advances one position |
| Tracking.TailTrack.constructor | YoloDotNet/Trackers/TailTrack.cs:11-14 | a new tail has the given maximum length and no points |
| Tracking.TrackedObject.constructor | YoloDotNet/Trackers/TrackedObject.cs:3-9 | a new tracked object has the detection as box, Age 0, a filter started at the box centre and an empty tail of the given length |
| YoloCore.Pow2 | YoloDotNet/Core/YoloCore.cs:160 | every power of two is at least 1 |
| YoloCore.Pow2Monotone | YoloDotNet/Core/YoloCore.cs:160 | powers of two grow with the exponent |
| YoloCore.CoreYolo.constructor | YoloDotNet/Core/YoloCore.cs:10-15 | before initialisation no model is loaded and every buffer size is 0 |
| YoloCore.DataYolo.constructor | YoloDotNet/Data/YoloCore.cs:10-16 | a new core is not disposed and has released nothing |
| Masks.PackByteBits | YoloDotNet/Modules/V8/SegmentationModuleV8.cs:186-201 | bit k of a packed byte is set exactly when flag k is |
| Masks.PackBits | YoloDotNet/Modules/V8/SegmentationModuleV8.cs:209 | the reference packing has exactly BitMaskSize bytes |
| Masks.Unpacked | YoloDotNet/Extensions/ImageExtension.cs:645-662 | unpacking gives exactly one byte per pixel |
| Masks.Floor | YoloDotNet/Modules/V8/SegmentationModuleV8.cs:132-133 | Math.Floor: the greatest integer at or below the value |
| Masks.Ceil | YoloDotNet/Modules/V8/SegmentationModuleV8.cs:134-135 | Math.Ceiling: the least integer at or above the value |
| Masks.MaskCanvas | YoloDotNet/Modules/V8/SegmentationModuleV8.cs:146-174 | painting the canvas keeps its size; only the readable pixels of the region are painted |

## Left out

- Inference, drawing and video I/O are left out. They are ONNX Runtime, SkiaSharp and FFmpeg calls.
- Floating-point rounding is not modelled; values are exact reals. A NaN confidence is not modelled.
- 32-bit integer overflow is not modelled in box arithmetic, areas or shape products.
- The Kalman filter is recorded as a log of its calls (Start, Predict, Correct), because its matrix algebra is floating point.
- The tracker's pair cost (the Euclidean distance between a prediction and a box centre) is a function parameter, because it needs a square root.
- The sigmoid is a parameter with values in [0, 1].
- The Skia mask canvas, crop and upscale of the V26 segmentation row are a function parameter (`DecodeV26Seg.MaskPixels`). The model assumes that pipeline does not throw.
- The order in which a C# dictionary enumerates its entries is the `order` parameter of the tracker.
- `CalculateGain` is floating-point arithmetic on image sizes. Its result enters as the `Gains` parameter, with positive gains.
- Rented ArrayPool buffers are modelled as fresh arrays of exactly the requested size. The pool may hand out a larger array, so an overflow the model reports may not happen in the library.
- A span returned over a rented buffer after it has been given back is an aliasing issue outside a sequential model.
- The strides of the decoders are at least 1 (`Rows.Stride`). A stride of 0 loops forever.
- SortTracking.SortTracker.constructor: requires a tail length of at least 1. With 0, the first match dequeues an empty queue. A negative length makes the queue constructor throw.
- Tracking.TailTrack.constructor: requires a non-negative capacity, because a negative one throws in the Queue constructor.
- The tracker stores value snapshots of its detections, not shared references. A caller who mutates a detection afterwards is not modelled.
- DecodeV26Pose.PoseEstimationModuleV26.ObjectDetection has no ProcessImage counterpart. `YoloCore.InferenceResultsToType` is not part of this model.
- The typed result records (ObjectDetection, OBBDetection, Segmentation, PoseEstimation) keep only the fields the casts copy.
- Library sorts are unstable introsorts. The model sorts stably, and every sorting and NMS contract holds for any order of equal confidences.
- The strings the library obtains from other code are function parameters:
  - SkiaSharp's `SKColor.TryParse` is `skiaParses` in `ImageColors.HexToRgbaSkia`.
  - The percentage text of `ToPercent` is `percent` in `ImageColors.LabelText`.
  - The "F6" number format is `f6` in `ResultExtensions`.
  - A label's name is `nameOf` in `CommonExtension`.
  - `float.Parse` is `parseFloat` in `FFmpeg`.
- `ExtractOrderedContourPoints` is not part of this model. Its contour enters as the `contour` parameter of `ResultExtensions.SegmentationFields`.
- Cosine and sine of the box angle are the `cos` and `sin` parameters of the oriented-box fields.
- The floating-point equality of the target and source frame rates is the `sameAsSource` parameter of `FFmpeg.FrameTotal`.
- DecodeV8Pose: the cast of a division by a zero-width unscaled box is undefined in C#; its value is the `undefinedCast` parameter.
- The ConcurrentBag behind `BufferPool` is a multiset. Which buffer a concurrent `TryTake` returns is not modelled.
- White space in `Text.Trim` is the ASCII white space only (space and tab through carriage return), not the full Unicode class.
- The FFmpeg process plumbing (argument lists, pipes, frame chunking, device listing) is left out. Only the pure size, rate, frame-count and device-text logic is modelled.
- FFmpeg.ProportionalSize: requires positive source dimensions. With a zero side the division yields an infinity or NaN, whose cast to int is undefined in C#. Negative source dimensions, which the library does not reject either, are left out too. A non-positive request then falls back to a negative side, and a source side of -2 is read as a request for the proportional side. `FFmpeg.VideoResize` and `FFmpeg.LegacyResize` share this requires.
- Text.Lower: lowers ASCII letters only. The .NET calls it stands for also map non-ASCII letters, so "W\u0130DTH" lowers to "width" in .NET but keeps its U+0130 here, and "dev\u0131ce=cam" passes .NET's case-insensitive "device=" test but not the model's. The call sites are `ToLower()` at Extensions/ParseOnnxData.cs:214 and Extensions/OnnxPropertiesExtension.cs:69 and :112, `ToLowerInvariant()` at Extensions/ResultExtensions.cs:310 and :356, and the `OrdinalIgnoreCase` prefix test at Video/Services/FFmpegService.cs:47 (`FFmpeg.IsDeviceInput`). `Text.LowerChar` is restricted the same way.
- Text.StartsWith: compares character by character. The library's `string.StartsWith(string)` calls at Extensions/ParseOnnxData.cs:217-246 and Extensions/OnnxPropertiesExtension.cs:117-124 compare by the current culture, which skips ignorable characters, so "ultra\u00ADlytics yolov8" reads as V8 in .NET while `Metadata.GetModelVersion` and `OnnxProperties.OnnxModelVersion` throw the model exception on it. `Text.Contains` is ordinal, as .NET's `string.Contains(string)` is.
- Nms.RemoveOverlappingBoxesData: the HashSet of kept results is a sequence in insertion order. A HashSet that is never removed from enumerates in that order in the current .NET implementation, but .NET does not document it. The set compares by reference, so one object present twice in the array is kept once; the sequence keeps it twice unless it suppresses itself.
- ResultExtensions.FloatNumber: a whole float is written as plain digits. .NET switches to exponent notation for floats of very large magnitude, which the model does not; no reader in the library calls GetInt32 on a float field.
- ResultExtensions.LineText: ends each line with "\n". AppendLine writes Environment.NewLine, which is "\r\n" on Windows.
- FFmpeg.GetDeviceInfo: requires an input that passed the case-insensitive device test, as at the only call site (FFmpegService.cs line 47).
- ImageResize.NormalizePixelsToArray: requires, for a non-empty buffer, a buffer and pixel span large enough for the loops' last index. The library bounds-checks only the buffer's first entry: every later write goes through raw float, ushort and byte pointers, so a buffer that is too small is overrun without an exception, which is undefined behaviour and not modelled. Core/YoloCore.cs lines 68-69 rent both tensor buffers with a minimum length of the input shape's size, channels x height x width, so no caller in the library passes a buffer the requires excludes.
- DecodeV26.ObjectDetectionModuleV26.constructor: requires a non-negative channels x elements product, because a negative one makes the allocation of `_boxes` throw OverflowException; `DecodeV26.ObjectDetectionModuleV26.Create` models that throwing path.
- Lapjv.Solve: the least-cost promise is proved for a square matrix only, and within n times the tolerance, because the model's costs are exact reals and the tolerance is the solver's own zero test. For a padded rectangular matrix only the assignment properties are stated. The corrected solver runs its searches on the unreduced padded matrix with the reduction's duals, and updates the duals as RowRaise and ColumnDrop describe; the library as written is `Lapjv.SolveAsWritten`. Success is proved only for costs within a bound b with 2 · n · (10 · b + 1) below float.MaxValue: the model's reals never overflow, so the bound stands in for the finite float costs the library asks for, and larger finite costs are not covered.
- DecodeV26Pose.PoseEstimationModuleV26.constructor: requires a non-negative key-point count, because a negative one makes the array allocation throw.

## Findings

| source | as written | input that shows it | evidently intended | confidence | as-written member | corrected member |
|---|---|---|---|---|---|---|
| YoloDotNet/Extensions/ImageResizeExtension.cs:264-269 | the Inf/NaN test compares the rebiased exponent with 31, which is float exponent field 143 (a finite value), not field 255 | 70000.0f (bits 0x4788B800) becomes the half NaN 0x7C45 | a float this large becomes infinity (0x7C00) | not executed | ImageResize.AsWrittenFiniteIsNaN | ImageResize.HalfNaNExactly |
| YoloDotNet/Extensions/ImageResizeExtension.cs:264-275 | a float NaN (field 255) misses the Inf/NaN branch and falls into the overflow branch | any float NaN, such as bits 0x7FC00000 | a float NaN becomes a half NaN | not executed | ImageResize.AsWrittenNaNIsInf | ImageResize.HalfNaNExactly |
| YoloDotNet/Extensions/ImageResizeExtension.cs:276 | the rounded significand is joined to the exponent with OR, so a rounding carry into bit 10 is lost | 1.9999999f (bits 0x3FFFFFFF) becomes 1.0 (0x3C00) | the carry moves to the next exponent, giving 2.0 (0x4000) | not executed | ImageResize.AsWrittenCarryLost | ImageResize.HalfNormalMagnitude |
| YoloDotNet/Core/ModuleFactory.cs:123-124 | the inner map of a version with no row in the table is null, and the second lookup dereferences it; the table's file header dates it 2023-2025 while the V26 and RT-DETR modules carry 2026 headers, so a newer factory may already have the V26 row | a V26 model, which has no row in the table | the unsupported-model exception thrown just below | not executed | ModuleFactory.Yolo26NullReference | ModuleFactory.CreateModule |
| YoloDotNet/Video/Services/FFmpegService.cs:47-98 | the device test ignores letter case, but the prefix removal is case-sensitive | "Device=cam:640:480:30" | the device is named "cam" | not executed | FFmpeg.AsWrittenKeepsMixedCasePrefix | FFmpeg.DeviceRoundTrip |
| YoloDotNet.ExecutionProvider.OpenVino/OpenVinoExecutionProvider.cs:7 | the OpenVINO provider does not implement the IOpenVino marker the encoder switch tests | an OpenVINO provider | h264_qsv hardware encoding | not executed | FFmpeg.OpenVinoEncodesOnCpu | FFmpeg.HardwareEncoders |
| YoloDotNet/Services/FFMPEGService.cs:277-288 | the frame count subtracts one twice | one second of video at 30 fps gives 28 | the index of the last frame, 29, as the newer service gives | not executed | FFmpeg.LegacyOffByOne | FFmpeg.LastFrameIndex |
| YoloDotNet/Trackers/LAPJV.cs:238-280 | the search subtracts both duals from the matrix that the reductions already reduced in place, so each reduced cost is counted twice; the dual update at lines 354-372 then keeps no feasible duals | the costs [[0, 2], [0, 3]] give [0, 1], costing 3, while [1, 0] costs 2 | the least total cost that the summary at line 22 promises | not executed | Lapjv.SuboptimalOnTwoByTwo | Lapjv.Solve |
