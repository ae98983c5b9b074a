# YoloV8Infer detector post-processing in Dafny

This project models the part of `ObjectDetector` in YoloV8Infer that runs
after the network has produced its output tensor. It has four parts.

- **Decoding** (`decoding.dfy`) covers several steps of `detect`:
  - the `[1, 5, N]` shape check;
  - the row-major reads of `cx, cy, w, h` and of the class score;
  - the first-maximum class scan;
  - the strict confidence test;
  - the stretch back to image pixels with separate horizontal and vertical scales;
  - clipping to the image and truncation to `int`;
  - the removal of degenerate boxes.

  The parallel vectors `boxes`, `confidences` and `class_ids` that the decode loop grows are specified by one function, `Candidates`.
- **Suppression** (`suppression.dfy`, `geometry.dfy`) covers `nmsBoxes`:
  - the candidate filter (`>=` the confidence threshold);
  - the sort by non-increasing confidence;
  - the greedy pass with its `suppressed` flag vector.

  Overlap is measured the way the code does it. The numerator is the area of `cv::Rect operator&`. The denominator is the area of `cv::Rect operator|`, the smallest rectangle enclosing both boxes, not the area of the union. The overlap is 0 when that area is not positive.

  `std::sort` is not stable. So the result of `nmsBoxes` is specified as the greedy selection over *some* confidence-sorted permutation of the eligible indices (`GreedyOver`). Everything proved about it holds for every such permutation.
- **The detector class** (`detector.dfy`) holds the fields and methods:
  - the threshold fields and the network input size, with the constructor defaults;
  - the two setters;
  - `NmsBoxes`;
  - `Detect`, which runs from the output tensor to the list of `DetectionResult`s.
- **Scenarios** (`scenarios.dfy`) covers what suppression does with two boxes: two copies of one box, and two boxes that do not touch.

Floats are modelled as mathematical reals. `static_cast<int>` is truncation toward zero (`Trunc`). The output tensor is a read-only `seq<real>` together with its shape.

The model follows the code where it departs from the textbook form of these steps:

- Overlap divides by the enclosing rectangle, not by area(a) + area(b) − intersection.
- Decoding is a plain stretch, not a letterbox inverse.
- The only accepted shape is `[1, 5, N]`.
- Two disjoint boxes both survive only when the suppression threshold is non-negative. Under a negative threshold their overlap of 0 already exceeds it, and one of them is suppressed (`Scenarios.DisjointNegativeThreshold`).

## Model

| member | source | states |
|---|---|---|
| Geometry.IsEmpty | src/ObjectDetector.cpp:299-300 | `cv::Rect::empty()`, which `&` and `\|` test: no positive width or no positive height |
| Geometry.Area | src/ObjectDetector.cpp:303-304 | `cv::Rect::area()`, width times height; never negative for an intersection (`IntersectIsCommonPart`) and positive for the enclosing rectangle of two non-empty boxes (`EncloseIsSmallest`) |
| Geometry.Intersect | src/ObjectDetector.cpp:299 | `cv::Rect operator&`; characterised by `IntersectIsCommonPart` |
| Geometry.Enclose | src/ObjectDetector.cpp:300 | `cv::Rect operator\|`; characterised by `EncloseIsSmallest` |
| Geometry.IoU | src/ObjectDetector.cpp:302-305 | intersection area over enclosing area, 0 when the enclosing area is not positive; bounded, symmetric and exact on identical and separated boxes by the lemmas below |
| Geometry.IntersectIsCommonPart | src/ObjectDetector.cpp:299 | `boxes[a] & boxes[b]` holds exactly the points common to both boxes and its area is never negative, which is what line 304 uses; the model normalises every empty intersection to the all-zero rectangle |
| Geometry.EncloseIsSmallest | src/ObjectDetector.cpp:300 | `boxes[a] \| boxes[b]` of two non-empty boxes spans both, is spanned by every rectangle spanning both, and has positive area; an empty operand yields the other one unchanged |
| Geometry.Overlaps | src/ObjectDetector.cpp:307 | the suppression test `iou > nms_threshold_`; its division-free form is `OverlapsCrossMultiplied` |
| Geometry.IoUSymmetric | src/ObjectDetector.cpp:299-305 | the overlap ratio does not depend on the order of the two boxes |
| Geometry.OverlapsCrossMultiplied | src/ObjectDetector.cpp:302-307 | `iou > nms_threshold_` is the same as `intersection > threshold * enclosing` when the enclosing area is positive, and as `0 > threshold` otherwise |
| Geometry.IoUBounds | src/ObjectDetector.cpp:299-305 | for any two boxes, empty ones included, the ratio lies in [0, 1] |
| Geometry.IoUIdentical | src/ObjectDetector.cpp:299-305 | a non-empty box overlaps itself with ratio exactly 1 |
| Geometry.IoUSeparated | src/ObjectDetector.cpp:299-305 | boxes separated on either axis have ratio 0 |
| Suppression.Eligible | src/ObjectDetector.cpp:274-279 | the candidate list holds exactly the indices whose confidence is `>=` the threshold, each once, in increasing order |
| Suppression.OverlapTest | src/ObjectDetector.cpp:297-307 | the pair test of the inner loop: the boxes of the accepted index and the later one are both present and overlap by more than `nms_threshold_` |
| Suppression.Keep | src/ObjectDetector.cpp:288-311 | the greedy pass selects at most as many indices as it walks, all taken from the order it walks |
| Suppression.ConfidenceOrderMembers | src/ObjectDetector.cpp:274-285 | a sorted candidate list lists every eligible index exactly once and nothing else |
| Suppression.KeepSorted | src/ObjectDetector.cpp:289-293 | indices accepted in a walk over a confidence-sorted list are themselves in non-increasing confidence order |
| Suppression.KeepDistinct | src/ObjectDetector.cpp:289-293 | a walk over a list without repetitions accepts no index twice |
| Suppression.KeepPairwise | src/ObjectDetector.cpp:289-310 | no accepted index suppresses an index accepted after it |
| Suppression.KeepComplete | src/ObjectDetector.cpp:289-310 | every walked index that was not accepted is suppressed by an index accepted before it |
| Suppression.KeepSeparated | src/ObjectDetector.cpp:295-310 | any two accepted boxes overlap by at most `nms_threshold_`, in either order |
| Suppression.KeepCovers | src/ObjectDetector.cpp:289-310 | every eligible index left out overlaps some accepted box of at least its confidence by more than `nms_threshold_` |
| Suppression.GreedyOver | src/ObjectDetector.cpp:269-314 | what `nmsBoxes` returns: the greedy selection `Keep` over some confidence order of the eligible indices, any order `std::sort` may leave among ties; its properties are `GreedyOverOutcome` |
| Suppression.GreedyOutcome | src/ObjectDetector.cpp:269-314 | the greedy pass over any confidence order of the eligible indices returns distinct, eligible indices in confidence order that overlap pairwise at most the threshold, and covers every eligible index it drops |
| Suppression.GreedyOverOutcome | src/ObjectDetector.cpp:269-314 | whatever permutation the unstable sort leaves, the result of `nmsBoxes` has all the properties of `GreedyOutcome` |
| Suppression.SwapAdjacent | src/ObjectDetector.cpp:282-285 | exchanging two neighbouring candidates changes exactly those two entries and keeps the multiset |
| Suppression.SortByConfidence | src/ObjectDetector.cpp:281-285 | the candidate vector is sorted in place into a permutation of itself with non-increasing confidence |
| Suppression.CollectCandidates | src/ObjectDetector.cpp:274-279 | the filtering loop builds exactly `Eligible` |
| Suppression.SuppressLater | src/ObjectDetector.cpp:295-310 | after accepting the candidate at position i, a later flag is set exactly when some accepted index, including the new one, overlaps that candidate by more than the threshold; flags up to position i are unchanged |
| Suppression.SuppressOverlaps | src/ObjectDetector.cpp:288-311 | the flag-vector loop returns exactly the greedy selection `Keep` over the sorted candidates |
| Decoding.ShapeOk | src/ObjectDetector.cpp:164 | the shape test: rank 3 with leading dimensions 1 and 5; any other shape returns no detections (`Decoded`, `Detect`), which the source guarantees only from rank 2 (see "## Left out") |
| Decoding.AnchorCount | src/ObjectDetector.cpp:172-187 | `num_anchors` from `output_dims[2]`, as the number of iterations of the anchor loop: none when it is not positive (`LoopCount`, shared with `DecodeAnchors`) |
| Decoding.Trunc | src/ObjectDetector.cpp:212-215 | `static_cast<int>` rounds a non-negative value down and a negative value up, toward zero |
| Decoding.At | src/ObjectDetector.cpp:188-191 | reads row `row` of anchor i from the flat entry `row * N + i` (row-major); the index is in range whenever the buffer holds `rows * N` values (`RowFits`) |
| Decoding.ClassScores | src/ObjectDetector.cpp:196-197 | the scores of the classes of anchor i, one per class |
| Decoding.ClassScoresRowMajor | src/ObjectDetector.cpp:197 | class c of anchor i is read from entry `(4 + c) * N + i`, which lies inside the buffer |
| Decoding.MaxR | src/ObjectDetector.cpp:212-213 | `std::max`: the second argument only when it is strictly larger |
| Decoding.MinR | src/ObjectDetector.cpp:214-215 | `std::min`: the second argument only when it is strictly smaller |
| Decoding.FirstMax | src/ObjectDetector.cpp:194-202 | the scan picks the lowest class attaining the maximum score, provided that score exceeds -1; otherwise no class (-1) with score -1 |
| Decoding.ScanClasses | src/ObjectDetector.cpp:194-202 | the class loop computes `FirstMax` of the anchor's class scores |
| Decoding.ProjectBox | src/ObjectDetector.cpp:206-215 | left and top are at least 0, right and bottom at most cols and rows; each corner is clipped on one side only, so left may exceed cols and right may be negative (exact values in `ClipToBoundary`) |
| Decoding.ClipCorners | src/ObjectDetector.cpp:212-215 | the four `std::max`/`std::min` clips with truncation keep left and top at least 0 and right and bottom at most cols and rows |
| Decoding.AnchorCandidate | src/ObjectDetector.cpp:187-223 | a candidate from one anchor lies inside the image with positive width and height, scores above the confidence threshold, and carries the class and score of the first maximum |
| Decoding.Candidates | src/ObjectDetector.cpp:179-224 | the vectors after k anchors hold at most k candidates, each inside the image and above the threshold |
| Decoding.Decoded | src/ObjectDetector.cpp:164-224 | a shape other than [1, 5, N] yields no candidates; every candidate is inside the image and above the threshold |
| Decoding.OfAppend | src/ObjectDetector.cpp:218-220 | appending a candidate appends its box, confidence and class to the three parallel vectors |
| Decoding.DecodeAnchor | src/ObjectDetector.cpp:187-223 | one pass of the anchor loop body yields exactly `AnchorCandidate` for that anchor |
| Decoding.CandidatesStep | src/ObjectDetector.cpp:179-224 | the candidates after anchor i are those before it, extended by the anchor's own candidate when it has one |
| Decoding.DecodeAnchors | src/ObjectDetector.cpp:179-224 | the decode loop fills `boxes`, `confidences` and `class_ids` with the fields of `Candidates`, in anchor order, so the three always have equal length |
| Decoding.BelowThresholdDropped | src/ObjectDetector.cpp:204 | an anchor whose class score does not exceed the confidence threshold contributes nothing, whatever its box |
| Decoding.ClipLow | src/ObjectDetector.cpp:212-213 | a left or top corner at or before the edge lands on 0; one inside is truncated |
| Decoding.ClipHigh | src/ObjectDetector.cpp:214-215 | a right or bottom corner at or past the image size lands on it; one inside is truncated down; one before the image (negative) is truncated up, toward zero |
| Decoding.ClipToBoundary | src/ObjectDetector.cpp:206-215 | the exact value of every corner: left/top land on 0 at or before the edge and are truncated down inside; right/bottom land on cols/rows at or past the edge, are truncated down inside and truncated up (toward zero) when negative |
| Decoding.OffImageDegenerate | src/ObjectDetector.cpp:208-217 | a box whose right (bottom) corner projects below 1, such as one wholly left of (above) the image, has right <= left (bottom <= top) and so fails the test at line 217 |
| Decoding.SingleAnchorBelowThreshold | src/ObjectDetector.cpp:187-224 | one anchor scoring 0.30 against threshold 0.35 decodes to nothing |
| Detector.ObjectDetector.constructor | src/ObjectDetector.cpp:5-10 | thresholds 0.35 and 0.45, input 640 x 640, class list `{"face"}` |
| Detector.ObjectDetector.Configure | src/ObjectDetector.cpp:28-38 | copies input width, input height and both thresholds from a parsed configuration, unvalidated; the other fields are kept, and the detector is `Valid` afterwards exactly when the configured size is positive |
| Detector.ObjectDetector.SetConfidenceThreshold | src/ObjectDetector.cpp:316-318 | sets the confidence threshold, leaves every other field as it was and so keeps `Valid` as it was |
| Detector.ObjectDetector.SetNMSThreshold | src/ObjectDetector.cpp:320-322 | sets the suppression threshold, leaves every other field as it was and so keeps `Valid` as it was |
| Detector.ObjectDetector.NmsBoxes | src/ObjectDetector.cpp:269-314 | the result is the greedy selection over a confidence order of the eligible indices, with distinct in-range eligible indices, confidence order, pairwise overlap at most the threshold, and every dropped eligible index covered by a kept one |
| Detector.ObjectDetector.Detect | src/ObjectDetector.cpp:159-240 | a malformed shape gives no detections; otherwise the detections are the decoded candidates selected by suppression, each inside the image, above the threshold and of class 0, in non-increasing confidence, pairwise overlapping at most the threshold |
| Detector.Gather | src/ObjectDetector.cpp:234-240 | result k copies `boxes[idx]`, `class_ids[idx]` and `confidences[idx]` for the k-th selected index |
| Detector.Select | src/ObjectDetector.cpp:234-239 | one detection per selected index, the candidate at that index |
| Detector.NothingDecoded | src/ObjectDetector.cpp:164-170 | a malformed shape yields no candidates, and the empty selection is what suppression makes of them |
| Detector.DetectOutcome | src/ObjectDetector.cpp:179-239 | decoding, suppression and gathering compose: the gathered results are a suppression outcome over the decoded candidates |
| Detector.Reported | src/ObjectDetector.cpp:204-239 | what `detect` promises of its output: every detection inside the image, above the confidence threshold and of a known class; non-increasing confidence; pairwise overlap at most the suppression threshold |
| Detector.SelectedDetections | src/ObjectDetector.cpp:204-239 | detections selected from decoded candidates keep the decoder's guarantees and gain the suppression guarantees |
| Scenarios.PairIndices | src/ObjectDetector.cpp:281-293 | distinct indices into two boxes are at most two, each 0 or 1, and two of them are 0 and 1 in some order |
| Scenarios.PairOrder | src/ObjectDetector.cpp:274-285 | with two eligible boxes the sorted candidate list is [0, 1] or [1, 0], the more confident first when the scores differ |
| Scenarios.KeepTwo | src/ObjectDetector.cpp:288-311 | a walk over two candidates accepts the first and accepts the second exactly when the first does not suppress it |
| Scenarios.PairOverlapping | src/ObjectDetector.cpp:299-308 | two eligible boxes overlapping each other by more than the threshold leave exactly one, the more confident |
| Scenarios.PairSeparate | src/ObjectDetector.cpp:299-308 | two eligible boxes overlapping by at most the threshold both survive, in confidence order |
| Scenarios.FullOverlapKeepsOne | src/ObjectDetector.cpp:299-308 | two copies of one non-empty box, such as (10, 10, 50, 50) scored 0.9 and 0.6, leave only index 0 when the threshold is below 1 |
| Scenarios.DisjointBothKept | src/ObjectDetector.cpp:299-308 | two boxes apart on either axis, such as (0, 0, 10, 10) and (100, 100, 10, 10), both survive under a non-negative threshold |
| Scenarios.DisjointNegativeThreshold | src/ObjectDetector.cpp:302-308 | the same two boxes leave only one survivor under a negative threshold |

## Left out

- ONNX Runtime environment, session creation and `Run`: foreign library calls. The output tensor and its shape are parameters of `Detect`.
- Preprocessing with `cv::dnn::blobFromImage`: an OpenCV resize and normalise wrapper. Only the image size (`cols`, `rows`) enters the model.
- `letterboxResize`: declared in include/ObjectDetector.h but not defined and not used by `detect`.
- `drawBoxes`: rendering.
- `initialize(config_manager)` (src/ObjectDetector.cpp:28-57): only its four field copies are modelled, by `Configure`. The configuration it reads from has already been parsed by JsonConfigManager, which is not part of this model. Its call to `initialize(model_path)` (lines 59-116) creates the ONNX Runtime session and is left out as a foreign library call. Neither overload validates the input size. `Detect` requires `Valid`, a positive input size. The constructor and the setters keep that, and `Configure` keeps it only for a positive configured size.
- Logging and timing with spdlog and chrono throughout `detect` and the constructor.
- The error log of a rejected shape (src/ObjectDetector.cpp:166-167) reads `output_dims[0]` and `output_dims[1]` whatever the rank. For a shape of rank 0 or 1 that read is outside the vector, which is undefined behaviour, so the source guarantees "no detections" for a rejected shape only from rank 2. The model drops the log call and returns no detections for every rejected shape.
- Geometry.Intersect: OpenCV may return a zero-width or zero-height rectangle for two boxes that only touch, where the model returns the all-zero rectangle. Both have area 0 and contain no point, and nothing else of the intersection is used.
- The exception handlers in `detect`: the model has no exceptions. An error path in the source returns the results accumulated so far.
- src/main.cpp and tests/performance_test.cpp: command-line handling, image I/O and benchmarks.
- IEEE single-precision rounding. Scores, scales and coordinates are reals, and the literals 0.35f, 0.45f and 0.5f are their exact decimal values.
- Decoding.DecodeAnchors: does not model the truncating cast of the 64-bit `output_dims[2]` to `int`, or a corner too large for `int`. Both are unbounded integers here.
- Geometry.IoU: `cv::Rect` arithmetic is unbounded here, so overflow of `x + width` or of `area()` is not modelled.
- Suppression.SortByConfidence: an insertion sort stands for `std::sort`. Callers rely only on its contract (a permutation, sorted by non-increasing confidence), and `GreedyOver` admits every order that contract allows, so tie order is unspecified as with `std::sort`.
