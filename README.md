# Staff-line grouping, modelled in Dafny

This project models the post-processing tail of `detect_staff_lines` in
`backend/main.py` of a sheet-music staff detector. The probabilistic Hough
fit reports candidate line segments. The tail turns them into staff bounding
boxes in three stages:

1. **Length filter.** It computes the mean length of all candidates. It keeps,
   in their original order, the candidates whose length is at least 0.7 times
   that mean. A missing Hough result (`None`) yields nothing.
2. **Stable sort.** The survivors are sorted by start-point y (`y1`). Equal
   keys keep their relative order.
3. **Proximity grouping.** A fold walks the sorted list. A segment joins the
   open group when its `y1` is within 15 of the `y1` of the segment added
   most recently. Otherwise the open group is closed and a new one starts.
   Each group becomes one box `(min x1, min y1, max x2, max y1)`. The
   model keeps this box exactly as written: `x1` gives the minimum, `x2` the
   maximum, and `y1` both y bounds, so `y2` is never used.

Files and modules:

- `segments.dfy` (`Segments`): `Segment`, `Box`, `Option`, and the sortedness predicate.
- `length_filter.dfy` (`LengthFilter`): the filter. It is one method with a
  loop, `FilterByLength`, checked against the pure function `LengthFiltered`.
- `stable_sort.dfy` (`StableSort`): a stable insertion sort by `y1`.
- `boxes.dfy` (`Boxes`): the per-group min/max and the box.
- `grouping.dfy` (`Grouping`): the fold `Group` (the specification) and an
  independent definition of the same grouping, `IsStaffPartition`. It also has the
  loop `GroupIntoBoxes`, which is the source's `for` loop.
- `staff_detection.dfy` (`StaffDetection`): the whole tail, `DetectStaffLines`,
  and the end-to-end facts about its output.

Because the box uses `y1` for both y bounds, it need not contain a segment's
second endpoint when that segment is not horizontal. Nor does it contain a
segment drawn right to left, whose `x1` exceeds its `x2`. The model keeps
this behaviour as the source has it.

Each candidate carries its length as a given `real`. `HasEuclideanLength`
says what that length is: it is non-negative and its square is
`dx*dx + dy*dy`. The threshold test then uses exact real arithmetic.

The source sorts the list in place with `list.sort`. That is a library call,
not a loop the source writes, so the model sorts with a pure function.
`DetectStaffLines` reassigns its local list to the sorted result.

In one case the model makes a choice beyond what the source shows. The Hough
fit never returns an empty array, only `None`. If it did return an empty
array, numpy's mean would be NaN and the loop would keep nothing. The model
also keeps nothing in that case, and never divides by zero.

## Model

| member | source | states |
|---|---|---|
| `LengthFilter.FilterByLength` | backend/main.py:49-57 | The loop's output equals `LengthFiltered`: nothing for `None`, otherwise the candidates reaching 0.7 × mean, appended in order. |
| `LengthFilter.MeanLength` | backend/main.py:52 | The mean times the number of candidates is the total length. |
| `LengthFilter.Threshold` | backend/main.py:55 | The threshold times the number of candidates is 0.7 times the total length, so the test is `length × n ≥ 0.7 × total`. |
| `LengthFilter.Survivors` | backend/main.py:53-56 | The loop keeps no more segments than there are candidates. |
| `LengthFilter.LengthFiltered` | backend/main.py:49-56 | No Hough result keeps nothing. Otherwise at most as many segments are kept as there are candidates, and each kept segment is some candidate's segment. |
| `LengthFilter.SurvivorIndices` | backend/main.py:53-56 | The kept positions are strictly ascending, and a position is kept exactly when its candidate's length reaches the threshold. |
| `LengthFilter.SurvivorsAtIndices` | backend/main.py:53-56 | The k-th survivor is the segment of the candidate at the k-th kept position. |
| `LengthFilter.KeepsExactlyTheLongCandidates` | backend/main.py:51-56 | The filtered list is the subsequence, in original order, of exactly the candidates with length ≥ 0.7 × mean (both directions). |
| `LengthFilter.LongestReachesMean` | backend/main.py:52 | A longest candidate is at least as long as the mean length. |
| `LengthFilter.SomeCandidateSurvives` | backend/main.py:50-56 | For a non-empty candidate list whose lengths are all true Euclidean lengths, at least one candidate survives. |
| `LengthFilter.ThreeLongOneShort` | backend/main.py:51-56 | Lengths 100, 100, 100, 10: the three 100s survive in order and the 10 is dropped. |
| `StableSort.Insert` | backend/main.py:61 | Inserting adds exactly one occurrence of the segment and changes nothing else in the multiset. |
| `StableSort.InsertSorted` | backend/main.py:61 | Inserting into a y1-sorted list keeps it sorted. |
| `StableSort.SortByY1` | backend/main.py:61 | The sorted list is a permutation of the survivors and is non-decreasing in y1. |
| `StableSort.InsertKeepsTies` | backend/main.py:61 | The inserted segment lands ahead of every segment with the same y1. |
| `StableSort.SortIsStable` | backend/main.py:61 | For every y1 value, the segments with that key appear in the same relative order before and after sorting. |
| `Boxes.Min` | backend/main.py:71-73 | The result is one of the values and no greater than any. |
| `Boxes.Max` | backend/main.py:72-74 | The result is one of the values and no smaller than any. |
| `Boxes.BoxOf` | backend/main.py:71-74 | Every segment satisfies xMin ≤ x1, x2 ≤ xMax and yMin ≤ y1 ≤ yMax. Each bound is attained: xMin by some x1, xMax by some x2, yMin and yMax by some y1. |
| `Boxes.SortedGroupBox` | backend/main.py:71-74 | For a y1-sorted group, yMin is the first segment's y1 and yMax the last one's. |
| `Grouping.Joins` | backend/main.py:68 | A segment joins exactly when its y1 lies within 15 of the last added segment's y1, on either side. |
| `Grouping.AddSegment` | backend/main.py:68-76 | One fold step leaves at least one group and keeps every group non-empty. |
| `Grouping.Group` | backend/main.py:62-76 | There are no groups exactly when the input is empty, and no group is empty. |
| `Grouping.GroupEndsWithLast` | backend/main.py:66 | The most recently added segment of the open group is the latest segment of the input. So comparing with `current_group[-1]` compares with the preceding sorted segment. |
| `Grouping.GroupAppendApart` | backend/main.py:68-76 | A segment more than 15 away from the previous one starts a new group of its own. |
| `Grouping.GroupAppendJoined` | backend/main.py:68-69 | A segment within 15 of the previous one is appended to the open group. |
| `Grouping.GroupIsStaffPartition` | backend/main.py:64-76 | The fold's groups are a staff partition: concatenated they give the input, none is empty, consecutive y1's within a group are ≤ 15 apart, and across each boundary they are > 15 apart. |
| `Grouping.StaffPartitionIsGroup` | backend/main.py:64-76 | Any staff partition of the input is the fold's, so the fold is the unique such partition. |
| `Grouping.SortedGroupsAreBands` | backend/main.py:61-76 | On a y1-sorted input every group is sorted, and each group's first y1 exceeds the previous group's last y1 by more than 15. |
| `Grouping.SortedGroupSteps` | backend/main.py:65-69 | On a y1-sorted input, consecutive y1's within a group rise by between 0 and 15. |
| `Grouping.BoxesOfAt` | backend/main.py:75-83 | Box k is the box of group k: one box per group, in group order. |
| `Grouping.SortedBoxesInYOrder` | backend/main.py:68-83 | On a y1-sorted input, each box spans its group's first to last y1, and box k+1's yMin exceeds box k's yMax by more than 15. |
| `Grouping.TwoStrokes` | backend/main.py:64-83 | Two strokes in y1 order give one box when their y1's are ≤ 15 apart and two boxes otherwise. |
| `Grouping.GroupIntoBoxes` | backend/main.py:60-83 | The loop emits exactly one box per group of the fold, in order. The open group is compared through its most recently added segment, and the final group's box is emitted last. |
| `StaffDetection.DetectStaffLines` | backend/main.py:49-83 | The output equals `StaffBoxes`. It is empty exactly when nothing survives the filter. Each box has yMin ≤ yMax, and the boxes come in increasing y order with gaps over 15. |
| `StaffDetection.NoCandidatesNoBoxes` | backend/main.py:49-60 | With no Hough result there are no boxes. |
| `StaffDetection.GroupsCoverSurvivors` | backend/main.py:60-83 | The groups, concatenated, are the sorted survivors. They are a permutation of the filter's output, and no group is empty. |
| `StaffDetection.BoxesEmptyIffNothingSurvives` | backend/main.py:59-83 | There is one box per group, and no boxes exactly when the filtered list is empty. |
| `StaffDetection.SomeCandidateGivesABox` | backend/main.py:49-83 | A non-empty Hough result with true Euclidean lengths gives at least one box. |
| `StaffDetection.BoxesInYOrder` | backend/main.py:61-83 | Box k's y bounds are group k's first and last y1. Boxes come in increasing y order, each yMin more than 15 above the previous yMax. |

## Left out

- Grey conversion, Otsu thresholding, morphological opening, Canny edge detection and the Hough fit (backend/main.py:16-19, 40-45) are opaque image-library calls. Only their output, a possibly missing sequence of integer segments, is modelled.
- The square root and the floating-point mean (backend/main.py:51-52): lengths are given reals and the mean is exact. Where IEEE rounding decides a tie at the 0.7 × mean boundary, the model may differ. The literal 0.7 is exact 7/10 here.
- Drawing the kept segments and the boxes onto the result image (backend/main.py:47, 57, 85-86) and the debugging output (backend/main.py:24-25, 117) have no effect on the boxes.
- The web endpoint, file reading, image decoding, the conversion of boxes into `top_left`/`bottom_right` pairs, and the error responses (backend/main.py:91-134) are I/O and service plumbing.
- The in-place `list.sort` is modelled as a pure function whose result replaces the list. No other reference to that list exists, so no aliasing is lost.
- 32-bit integer width: the Hough fit's coordinates are int32. The model uses unbounded integers, so it does not capture wrap-around in two places. The length computation `(x2 - x1)**2 + (y2 - y1)**2` (backend/main.py:51) wraps for a segment longer than about 46340 px; `HasEuclideanLength` then no longer describes what the source computes. The difference `y1 - prev_y1` (backend/main.py:68) wraps only for coordinates far beyond any image size.
