# Object-detection evaluation: IoU, non-maximum suppression and mean average precision

A Dafny model of the three evaluation routines of a small object-detection toolkit:

- **IoU kernel** (`iou.py`, module `IoU`, file `iou.dfy`). It reads two boxes in corner form
  `(x1, y1, x2, y2)` or midpoint form `(cx, cy, w, h)`. It computes the clamped overlap, the union
  and `intersection / (union + 1e-6)`. An unknown format name is an error.
- **Greedy non-maximum suppression** (`nms.py`, module `Nms`, file `nms.dfy`). It keeps the
  candidates scoring above the probability threshold and sorts them by score, highest first,
  with a stable sort. It then repeatedly moves the head of the pool to the output and drops from
  the pool every box of the same class whose IoU with it reaches the IoU threshold.
- **Mean average precision** (`mAP.py`, module `MeanAP`, file `mean_ap.dfy`). For each class:
  - it takes the class's detections by non-increasing score;
  - it builds a per-image occupancy vector over the class's ground truths;
  - it matches each detection greedily to the first ground truth of its image with the highest
    IoU, which gives a true positive (TP) when that IoU is above the threshold and the ground truth
    is still free, and a false positive (FP) otherwise;
  - it integrates the precision/recall curve with the trapezoidal rule.

  The result is the mean of the per-class values.

Supporting modules:

- `results.dfy` (`Results`): the `Result` type and the error kinds raised by the code.
- `lists.dfy` (`Lists`): filtering list comprehensions, ordered sub-lists and Python's stable
  `sorted(..., reverse=True)`.
- `curves.dfy` (`Curves`): `cumsum`, the recall and precision curves with their prepended anchors,
  `trapz` and the mean, over sequences.

How the source's structures are represented:

- The imperative parts keep their form. The suppression loop and the per-class loop are `while`
  loops over a shrinking pool and over classes. The TP/FP tensors are arrays written in place.
  The occupancy map is a `map` from image id to a vector whose slots flip from unmatched to
  matched. The inner best-ground-truth loop tracks the running maximum and its index.
- Each loop is proved against a specification function or predicate:
  - `SortDesc`, `Survivors` and the recursive reference `Greedy` for suppression;
  - `BestOf` for the inner loop;
  - `GreedyMatching` for the TP/FP flags;
  - `ApOf` and `Mean` for the curve and the result.
- Coordinates, scores and thresholds are `real`. The 1e-6 of the source is the exact constant
  1/1000000.
- Errors raised by the code (an unknown box format, a division by zero, a call with arguments of
  the wrong type) are `Err` values of `Result`.

## Model

| member | source | states |
|---|---|---|
| `IoU.ParseFormat` | iou.py:19-50 | the format is accepted exactly when it is "corners" or "midpoint"; any other name is the unknown-format error |
| `IoU.MidpointRoundTrip` | iou.py:32-47 | reading a box as centre/width/height and writing it back gives the same box, and a rectangle written in midpoint or corner form reads back as itself |
| `IoU.Intersection` | iou.py:53-59 | the overlap area is never negative, because each side is clamped at 0 |
| `IoU.IntersectOverUnion` | iou.py:6-66 | fails exactly for an unknown format; otherwise it is the overlap ratio of the two boxes converted to corners in the named format |
| `IoU.IouSymmetric` | iou.py:53-66 | swapping the predicted and the true box gives the same result, for every format string |
| `IoU.IouDisjoint` | iou.py:53-66 | boxes separated along x or along y have overlap 0 and IoU exactly 0 |
| `IoU.IntersectionWithinAreas` | iou.py:59-63 | for well-formed boxes the overlap is at most the area of each box |
| `IoU.IouBounds` | iou.py:59-66 | for well-formed boxes the overlap is between 0 and the union, and the IoU lies in [0, 1) |
| `IoU.IouPositiveIffOverlap` | iou.py:53-66 | for well-formed boxes the IoU is positive exactly when the boxes overlap on both axes |
| `IoU.IouSelf` | iou.py:59-66 | a well-formed box against itself has overlap and union equal to its area A, and IoU A / (A + 1e-6) |
| `IoU.IouFormatInvariant` | iou.py:19-47 | the same two rectangles given in midpoint form or in corner form have the same IoU |
| `Lists.FilterKeepsOrder` | mAP.py:20-21 | a filtering comprehension keeps its survivors in their original order, as an ordered sub-list |
| `Lists.FilterCount` | mAP.py:20-21 | a filtering comprehension keeps every occurrence of an element that passes the test and none of one that fails it |
| `Lists.SortDesc` | nms.py:20 | the sort returns a permutation of its input in non-increasing key order |
| `Lists.SortDescStable` | mAP.py:24 | the sort is stable: elements with equal keys keep their input order |
| `Nms.AboveThreshold` | nms.py:19 | the score filter keeps every occurrence of each box whose score is strictly above the probability threshold, in input order, and nothing else |
| `Nms.SurvivorsExact` | nms.py:25-34 | after a box is kept, the pool keeps every occurrence of each box it does not suppress, in pool order, and nothing else; a box of another class is never suppressed |
| `Nms.Remaining` | nms.py:25-34 | under a known format the new pool is the old pool filtered by "not suppressed by the chosen box" (other class, or IoU below the threshold). An unknown format fails exactly when a box of the chosen box's class is in the pool, and otherwise leaves the pool unchanged |
| `Nms.KeepGreedily` | nms.py:22-38 | under a known format the loop returns exactly the pop-and-filter recursion `Greedy` on the sorted candidates. Under an unknown format it fails exactly when two candidates share a class, and otherwise returns the candidates unchanged |
| `Nms.GreedyShape` | nms.py:22-38 | the greedy result is an ordered sub-list of the candidates that starts with the first of them, and no two same-class boxes in it reach the IoU threshold (IoU of the earlier box against the later) |
| `Nms.GreedyIsPositional` | nms.py:23-36 | the greedy result is the candidates at the positions of a keep mask, and candidate i is kept exactly when no earlier kept candidate of its class overlaps it by the threshold or more; so each left-out box was removed by an earlier kept box |
| `Nms.GreedyKeepUnique` | nms.py:23-36 | only one keep mask meets that positional condition, so it fixes the output |
| `Nms.NonMaxSuppression` | nms.py:7-38 | under a known format the result is `Greedy` on the filtered candidates sorted by score. Every output box is an unchanged input box scoring above the threshold, the output is in non-increasing score order, its head has the highest score among the filtered candidates, and no same-class pair in it reaches the IoU threshold. An unknown format fails exactly when two filtered candidates share a class; otherwise it returns them all, sorted |
| `MeanAP.OfClass` | mAP.py:20-21 | the records of class c: every occurrence of each record whose class field is c, in input order, and nothing else |
| `MeanAP.InImage` | mAP.py:40 | a ground truth is compared with a detection exactly when it belongs to the detection's image |
| `MeanAP.InImageExact` | mAP.py:40 | the ground truths of an image keep every occurrence, in input order, so duplicates are separate slots |
| `MeanAP.CountImages` | mAP.py:28 | the counter has one key per image of the ground truths, and each holds that image's number of ground truths |
| `MeanAP.Unmatched` | mAP.py:30-31 | each count is replaced by a vector of that many unmatched slots, for the same keys |
| `MeanAP.Occupancy` | mAP.py:28-31 | the occupancy map has one all-unmatched vector per image with ground truths, one slot per ground truth of that image |
| `MeanAP.BestOf` | mAP.py:43-48 | the running maximum is at least 0 and at least every IoU. When positive it is reached at its index, and no earlier IoU equals it, so the index is the first index of the maximum. When it is 0 the index is unset (-1) |
| `MeanAP.BestGroundTruth` | mAP.py:40-48 | the inner loop yields the first ground truth with the highest IoU; an unknown format fails exactly when the image has ground truths |
| `MeanAP.Claim` | mAP.py:50-57 | the detection is a true positive exactly when the best IoU is above the threshold and its ground truth's slot is still unmatched; only then is that one slot set to matched, and nothing else changes |
| `MeanAP.Judge` | mAP.py:50-57 | given the best ground truth of detection k, deciding it extends the TP/FP flags by one entry each and keeps the greedy matching state |
| `MeanAP.MatchStep` | mAP.py:50-57 | one decision keeps the greedy characterisation. The occupancy map still marks exactly the slots claimed by the true positives so far, so a slot only goes from unmatched to matched |
| `MeanAP.MatchOne` | mAP.py:39-57 | deciding detection k extends the TP/FP flags and the occupancy map consistently with greedy matching; it fails exactly on an unknown format when the detection's image has ground truths |
| `MeanAP.MatchDetections` | mAP.py:33-57 | the arrays TP and FP are the greedy matching: TP exactly when the best IoU is above the threshold and no earlier TP took that ground truth, FP otherwise, once each. An unknown format fails exactly when some detection's image has ground truths |
| `MeanAP.TruePositivesBounded` | mAP.py:36-53 | the number of true positives is at most the number of ground truths of the class |
| `MeanAP.TruePositivesDistinct` | mAP.py:51-53 | no two true positives are credited with the same ground truth |
| `MeanAP.GreedyMatchingUnique` | mAP.py:38-57 | the greedy characterisation determines the TP/FP flags completely |
| `MeanAP.NoTruePositives` | mAP.py:40-57 | detections with no ground truth in their image are all false positives |
| `Curves.CumSumsCountDetections` | mAP.py:61-62 | with each detection flagged once, TP_cumsum[k] + FP_cumsum[k] = k + 1, and TP_cumsum[k] lies between 0 and the number of true positives |
| `Curves.CumSumRunning` | mAP.py:61 | the cumulative TP counts never decrease and stay within the total number of true positives |
| `Curves.RecallShape` | mAP.py:63-64 | recall starts at 0, never decreases and stays below 1 when the TP count is at most the number of ground truths |
| `Curves.PrecisionShape` | mAP.py:65-66 | precision starts at 1 and stays within [0, 1] |
| `Curves.TrapzBounds` | mAP.py:69 | over a non-decreasing x and y in [0, 1], the trapezoidal area is between 0 and the width of the x range |
| `Curves.ApBounds` | mAP.py:61-69 | a class's average precision lies in [0, 1) |
| `Curves.ApWithoutTruePositives` | mAP.py:61-69 | without a true positive the average precision is exactly 0 |
| `Curves.MeanBounds` | mAP.py:71 | the mean of values in [0, 1) lies in [0, 1) |
| `MeanAP.ClassAveragePrecision` | mAP.py:18-69 | a class's value is the trapezoidal area of the curve built from its greedy matching, in [0, 1). It is 0 when the class has no detections, when it has no ground truths, and when the format is unknown but no IoU had to be computed. It fails exactly when the matching does |
| `MeanAP.MeanAveragePrecision` | mAP.py:6-71 | the result is the mean of the per-class values, each computed as above, and lies in [0, 1). It fails with a division by zero when there are no classes, and with the format error exactly when some class computes an IoU under an unknown format |
| `MeanAP.MeanAveragePrecisionAsWritten` | mAP.py:65-71 | the code as it stands always raises: a type error from the precision step of class 0 under a known format, and a type error from the final division when there are no classes |

## Left out

- Tensor machinery is not modelled:
  - batched `(N, 4)` shapes and `...` slicing;
  - `torch.tensor` wrapping;
  - `torch.zeros`, `cumsum`, `cat` and `trapz` as library calls.

  IoU is modelled for one pair of boxes. The tensor operations are recursive functions over
  sequences.
- Floating point is not modelled: there is no rounding, `nan` or infinity. Where `union + 1e-6` is
  exactly 0 (only boxes with a reversed side get there) the code divides by zero in floating
  point; the model's IoU is 0 there. When that division gives nan, `nan < iou_threshold` is false
  at nms.py:33, so the code removes that same-class box; the model keeps it whenever the IoU
  threshold is positive.
- The `isinstance(bboxes, list)` assertion at nms.py:17: Dafny's typing makes it moot.
- The step "do all of that for all IoU thresholds" named in the comment at mAP.py:5: the code does
  not implement it.
- `MeanAP.MatchDetections`: requires a non-negative IoU threshold, and so do `MatchOne`,
  `ClassAveragePrecision` and `MeanAveragePrecision`. With a negative threshold, a detection whose
  IoUs are all 0 makes mAP.py:51 read `best_gt_idx` before it is bound (a NameError) or read the
  index left over from an earlier detection. The model does not reproduce either.
- `collections.Counter` is a `map<int, nat>`. The zero tensors it is turned into are vectors of
  booleans, where false means unmatched. The TP/FP tensors are integer arrays of 0 and 1.
- Records are typed: `Record(image, cls, score, box)` and `Candidate(cls, score, box)`. Lists of
  the wrong length or of non-numbers are not represented. Ground truths use the prediction layout:
  the box is read from index 3 on, and the score-like field at index 2 is unused.
- Default argument values are not modelled; every call passes all arguments:
  - `box_format="corners"`;
  - `iou_threshold=0.5`;
  - `num_classes=20`.
- Error messages are not modelled: an exception is an `Err` value naming its kind.

## Findings

| source | as written | input that shows it | evidently intended | confidence | as-written member | corrected member |
|---|---|---|---|---|---|---|
| mAP.py:65 | the two cumulative sums are handed to `torch.device` instead of being divided, which raises a TypeError | any call with num_classes >= 1 and box_format "corners", e.g. empty pred_boxes and true_boxes: class 0 raises before any average precision is appended | precision = TP_cumsum / (TP_cumsum + FP_cumsum + 1e-6), giving a curve in [0, 1] that starts at 1 | high; not executed | `MeanAP.MeanAveragePrecisionAsWritten` | `MeanAP.MeanAveragePrecision` |
| mAP.py:71 | the divisor is `len` of the function `average_precision`, not of the list `average_precisions`, which raises a TypeError | any num_classes <= 0: `range(num_classes)` is then empty, so the call reaches mAP.py:71 (a positive num_classes raises at line 65 first, per the row above) | the mean of the per-class list (a division by zero when the list is empty) | high; not executed | `MeanAP.MeanAveragePrecisionAsWritten` | `MeanAP.MeanAveragePrecision` |
