/** Decoding of the network's raw output into candidate detections, as the
    post-inference half of ObjectDetector::detect does it: the [1, 5, N]
    shape check, row-major reads per anchor, the first-maximum class scan,
    the confidence test, the stretch back to image pixels, clipping,
    truncation to int and the removal of degenerate boxes. */
module Decoding {
  import opened Geometry

  /** DetectionResult: a box in image pixels, a class id and a confidence. */
  datatype DetectionResult = DetectionResult(box: Rect, classId: int, confidence: real)

  datatype Option<T> = None | Some(value: T)

  /** The running maximum of the class scan: best score so far and its class (-1 for none). */
  datatype Best = Best(maxConf: real, bestClass: int)

  /** The clipped corners of a projected box, already truncated to int. */
  datatype Corners = Corners(left: int, top: int, right: int, bottom: int)

  /** What detect reads besides the tensor: the image size, the network
      input size and the confidence threshold. */
  datatype Context = Context(cols: int, rows: int, inputWidth: int, inputHeight: int, confThreshold: real)

  predicate ValidContext(ctx: Context) {
    ctx.cols >= 0 && ctx.rows >= 0 && ctx.inputWidth > 0 && ctx.inputHeight > 0
  }

  /** The number of classes the decoder scans; fixed, whatever the class list holds. */
  const NUM_CLASSES: int := 1

  /** The only accepted output shape: rank 3 with leading dimensions 1 and 5. */
  predicate ShapeOk(dims: seq<int>) {
    |dims| == 3 && dims[0] == 1 && dims[1] == 5
  }

  /** The number of iterations of `for (int i = 0; i < n; ++i)`: n, or none when n is not positive. */
  function LoopCount(n: int): nat {
    if n > 0 then n else 0
  }

  /** The number of anchors the decode loop visits: dims[2], or none when it is not positive. */
  function AnchorCount(dims: seq<int>): nat
    requires ShapeOk(dims)
  {
    LoopCount(dims[2])
  }

  /** std::max on floats: the second argument only when it is larger. */
  function MaxR(a: real, b: real): (r: real)
  {
    if a < b then b else a
  }

  /** std::min on floats: the second argument only when it is smaller. */
  function MinR(a: real, b: real): (r: real)
  {
    if b < a then b else a
  }

  /** static_cast<int> of a float: truncation toward zero. */
  function Trunc(v: real): (r: int)
    ensures 0.0 <= v ==> 0 <= r && r as real <= v < r as real + 1.0
    ensures v < 0.0 ==> r <= 0 && r as real - 1.0 < v <= r as real
  {
    if v >= 0.0 then v.Floor else -((-v).Floor)
  }

  lemma RowFits(row: int, rows: int, n: int, i: int)
    requires 0 <= row < rows && 0 <= i < n
    ensures 0 <= row * n + i < rows * n
  {
    var rest := rows - row - 1;
    assert rest * n >= 0;
    assert row * n >= 0;
    assert rows * n == row * n + n + rest * n;
  }

  /** The tensor value in row `row` for anchor i: raw_output[row * N + i]. */
  function At(raw: seq<real>, n: int, row: int, i: int, rows: int): (r: real)
    requires 0 <= row < rows && 0 <= i < n && rows * n <= |raw|
  {
    RowFits(row, rows, n, i);
    raw[row * n + i]
  }

  /** The class scores of anchor i: rows 4 .. 4 + numClasses - 1. */
  function ClassScores(raw: seq<real>, n: int, i: int, numClasses: nat): (s: seq<real>)
    requires 0 <= i < n && (4 + numClasses) * n <= |raw|
    ensures |s| == numClasses
  {
    seq(numClasses, c requires 0 <= c < numClasses => At(raw, n, 4 + c, i, 4 + numClasses))
  }

  /** The class scores are read row-major: class c of anchor i is the entry
      (4 + c) * N + i of the flat buffer. */
  lemma ClassScoresRowMajor(raw: seq<real>, n: int, i: int, numClasses: nat)
    requires 0 <= i < n && (4 + numClasses) * n <= |raw|
    ensures forall c :: 0 <= c < numClasses ==>
              0 <= (4 + c) * n + i < |raw| && ClassScores(raw, n, i, numClasses)[c] == raw[(4 + c) * n + i]
  {
    forall c | 0 <= c < numClasses
      ensures 0 <= (4 + c) * n + i < |raw| && ClassScores(raw, n, i, numClasses)[c] == raw[(4 + c) * n + i]
    {
      RowFits(4 + c, 4 + numClasses, n, i);
    }
  }

  /** The class scan: starting from score -1 and class -1, a later class
      replaces the best one only when its score is strictly larger. The
      result is the lowest class attaining the maximum, provided that
      maximum exceeds -1; otherwise no class is chosen. */
  function FirstMax(scores: seq<real>): (r: Best)
    ensures -1 <= r.bestClass < |scores|
    ensures r.bestClass < 0 <==> forall c :: 0 <= c < |scores| ==> scores[c] <= -1.0
    ensures r.bestClass < 0 ==> r.maxConf == -1.0
    ensures 0 <= r.bestClass ==> r.maxConf == scores[r.bestClass] > -1.0
    ensures forall c :: 0 <= c < |scores| ==> scores[c] <= r.maxConf
    ensures forall c :: 0 <= c < r.bestClass ==> scores[c] < r.maxConf
  {
    if |scores| == 0 then Best(-1.0, -1)
    else
      var prev := FirstMax(scores[..|scores| - 1]);
      var s := scores[|scores| - 1];
      if s > prev.maxConf then Best(s, |scores| - 1) else prev
  }

  /** The loop over classes for one anchor. */
  method ScanClasses(raw: seq<real>, n: int, i: int, numClasses: nat) returns (maxConf: real, bestClass: int)
    requires 0 <= i < n && (4 + numClasses) * n <= |raw|
    ensures Best(maxConf, bestClass) == FirstMax(ClassScores(raw, n, i, numClasses))
  {
    ghost var scores := ClassScores(raw, n, i, numClasses);
    maxConf := -1.0;
    bestClass := -1;
    for c := 0 to numClasses
      invariant Best(maxConf, bestClass) == FirstMax(scores[..c])
    {
      var score := At(raw, n, 4 + c, i, 4 + numClasses);
      assert scores[..c + 1][..c] == scores[..c];
      if score > maxConf {
        maxConf := score;
        bestClass := c;
      }
    }
    assert scores[..numClasses] == scores;
  }

  /** The box of an anchor, (cx, cy, w, h) on the network canvas, stretched
      to the image by separate horizontal and vertical scales, clipped to
      [0, cols] x [0, rows] and truncated to int. */
  function ProjectBox(cx: real, cy: real, w: real, h: real, scaleX: real, scaleY: real,
                      cols: int, rows: int): (r: Corners)
    requires cols >= 0 && rows >= 0
    ensures 0 <= r.left && 0 <= r.top && r.right <= cols && r.bottom <= rows
  {
    var x1 := (cx - w * 0.5) * scaleX;
    var y1 := (cy - h * 0.5) * scaleY;
    var x2 := (cx + w * 0.5) * scaleX;
    var y2 := (cy + h * 0.5) * scaleY;
    ClipCorners(x1, y1, x2, y2, cols, rows)
  }

  /** The clipping and truncation of a projected box: left and top are
      clipped from below at 0, right and bottom from above at the image
      size, and each is then truncated to int. */
  function ClipCorners(x1: real, y1: real, x2: real, y2: real, cols: int, rows: int): (r: Corners)
    requires cols >= 0 && rows >= 0
    ensures 0 <= r.left && 0 <= r.top && r.right <= cols && r.bottom <= rows
  {
    Corners(Trunc(MaxR(0.0, x1)), Trunc(MaxR(0.0, y1)), Trunc(MinR(cols as real, x2)), Trunc(MinR(rows as real, y2)))
  }

  /** A kept box lies inside the image and is not degenerate. */
  predicate InsideImage(box: Rect, cols: int, rows: int) {
    && 0 <= box.x && 0 <= box.y && 0 < box.width && 0 < box.height
    && box.x + box.width <= cols && box.y + box.height <= rows
  }

  /** What a candidate of the decoder satisfies. */
  predicate Admissible(d: DetectionResult, ctx: Context) {
    && InsideImage(d.box, ctx.cols, ctx.rows)
    && d.confidence > ctx.confThreshold
    && 0 <= d.classId < NUM_CLASSES
  }

  /** The candidate anchor i contributes, if any: its best class must score
      above the confidence threshold and its clipped box must have positive
      width and height. */
  function AnchorCandidate(raw: seq<real>, n: int, i: int, ctx: Context): (r: Option<DetectionResult>)
    requires ValidContext(ctx) && 0 <= i < n && (4 + NUM_CLASSES) * n <= |raw|
    ensures r.Some? ==> Admissible(r.value, ctx)
    ensures r.Some? ==> r.value.classId == FirstMax(ClassScores(raw, n, i, NUM_CLASSES)).bestClass
                        && r.value.confidence == FirstMax(ClassScores(raw, n, i, NUM_CLASSES)).maxConf
  {
    var rows := 4 + NUM_CLASSES;
    var cx := At(raw, n, 0, i, rows);
    var cy := At(raw, n, 1, i, rows);
    var w := At(raw, n, 2, i, rows);
    var h := At(raw, n, 3, i, rows);
    var best := FirstMax(ClassScores(raw, n, i, NUM_CLASSES));
    if best.maxConf > ctx.confThreshold && best.bestClass >= 0 then
      var scaleX := ctx.cols as real / ctx.inputWidth as real;
      var scaleY := ctx.rows as real / ctx.inputHeight as real;
      var c := ProjectBox(cx, cy, w, h, scaleX, scaleY, ctx.cols, ctx.rows);
      if c.right > c.left && c.bottom > c.top then
        Some(DetectionResult(Rect(c.left, c.top, c.right - c.left, c.bottom - c.top), best.bestClass, best.maxConf))
      else None
    else None
  }

  /** The candidates of anchors 0 .. k-1, in anchor order: the contents of
      the parallel vectors boxes, confidences and class_ids after k
      iterations of the decode loop. */
  function Candidates(raw: seq<real>, n: int, k: int, ctx: Context): (r: seq<DetectionResult>)
    requires ValidContext(ctx) && 0 <= k <= n && (4 + NUM_CLASSES) * n <= |raw|
    ensures |r| <= k
    ensures forall j :: 0 <= j < |r| ==> Admissible(r[j], ctx)
  {
    if k == 0 then []
    else
      var prev := Candidates(raw, n, k - 1, ctx);
      match AnchorCandidate(raw, n, k - 1, ctx)
      case Some(d) => prev + [d]
      case None => prev
  }

  /** All candidates of a tensor: none unless the shape is [1, 5, N]. */
  function Decoded(raw: seq<real>, dims: seq<int>, ctx: Context): (r: seq<DetectionResult>)
    requires ValidContext(ctx)
    requires ShapeOk(dims) ==> 5 * dims[2] <= |raw|
    ensures !ShapeOk(dims) ==> r == []
    ensures forall j :: 0 <= j < |r| ==> Admissible(r[j], ctx)
  {
    if ShapeOk(dims) then Candidates(raw, AnchorCount(dims), AnchorCount(dims), ctx) else []
  }

  function BoxesOf(ds: seq<DetectionResult>): (r: seq<Rect>)
    ensures |r| == |ds| && forall k :: 0 <= k < |ds| ==> r[k] == ds[k].box
  {
    seq(|ds|, k requires 0 <= k < |ds| => ds[k].box)
  }

  function ConfidencesOf(ds: seq<DetectionResult>): (r: seq<real>)
    ensures |r| == |ds| && forall k :: 0 <= k < |ds| ==> r[k] == ds[k].confidence
  {
    seq(|ds|, k requires 0 <= k < |ds| => ds[k].confidence)
  }

  function ClassIdsOf(ds: seq<DetectionResult>): (r: seq<int>)
    ensures |r| == |ds| && forall k :: 0 <= k < |ds| ==> r[k] == ds[k].classId
  {
    seq(|ds|, k requires 0 <= k < |ds| => ds[k].classId)
  }

  lemma OfAppend(ds: seq<DetectionResult>, d: DetectionResult)
    ensures BoxesOf(ds + [d]) == BoxesOf(ds) + [d.box]
    ensures ConfidencesOf(ds + [d]) == ConfidencesOf(ds) + [d.confidence]
    ensures ClassIdsOf(ds + [d]) == ClassIdsOf(ds) + [d.classId]
  {
  }

  /** One more anchor appends its candidate, if any. */
  lemma CandidatesStep(raw: seq<real>, n: int, i: int, ctx: Context)
    requires ValidContext(ctx) && 0 <= i < n && (4 + NUM_CLASSES) * n <= |raw|
    ensures var cand := AnchorCandidate(raw, n, i, ctx);
            Candidates(raw, n, i + 1, ctx) ==
              if cand.Some? then Candidates(raw, n, i, ctx) + [cand.value] else Candidates(raw, n, i, ctx)
  {
  }

  /** One iteration of the decode loop: the reads of anchor i, the class
      scan, the confidence test, the projection and the degeneracy test. */
  method DecodeAnchor(raw: seq<real>, n: int, i: int, ctx: Context, scaleX: real, scaleY: real)
    returns (cand: Option<DetectionResult>)
    requires ValidContext(ctx) && 0 <= i < n && 5 * n <= |raw|
    requires scaleX == ctx.cols as real / ctx.inputWidth as real
    requires scaleY == ctx.rows as real / ctx.inputHeight as real
    ensures cand == AnchorCandidate(raw, n, i, ctx)
  {
    var cx := raw[0 * n + i];
    var cy := raw[1 * n + i];
    var w := raw[2 * n + i];
    var h := raw[3 * n + i];
    var maxConf, bestClass := ScanClasses(raw, n, i, NUM_CLASSES);
    assert cx == At(raw, n, 0, i, 5) && cy == At(raw, n, 1, i, 5);
    assert w == At(raw, n, 2, i, 5) && h == At(raw, n, 3, i, 5);
    cand := None;
    if maxConf > ctx.confThreshold && bestClass >= 0 {
      var c := ProjectBox(cx, cy, w, h, scaleX, scaleY, ctx.cols, ctx.rows);
      if c.right > c.left && c.bottom > c.top {
        cand := Some(DetectionResult(Rect(c.left, c.top, c.right - c.left, c.bottom - c.top), bestClass, maxConf));
      }
    }
  }

  /** The decode loop over all anchors: it fills the parallel vectors
      boxes, confidences and class_ids with the candidates, in anchor order. */
  method DecodeAnchors(raw: seq<real>, numAnchors: int, ctx: Context)
    returns (boxes: seq<Rect>, confidences: seq<real>, classIds: seq<int>)
    requires ValidContext(ctx) && 5 * numAnchors <= |raw|
    ensures var count := LoopCount(numAnchors);
            var cands := Candidates(raw, count, count, ctx);
            boxes == BoxesOf(cands) && confidences == ConfidencesOf(cands) && classIds == ClassIdsOf(cands)
  {
    boxes, confidences, classIds := [], [], [];
    if numAnchors <= 0 {
      return;
    }
    var scaleX := ctx.cols as real / ctx.inputWidth as real;
    var scaleY := ctx.rows as real / ctx.inputHeight as real;
    ghost var cands: seq<DetectionResult> := [];
    var i := 0;
    while i < numAnchors
      invariant 0 <= i <= numAnchors
      invariant cands == Candidates(raw, numAnchors, i, ctx)
      invariant boxes == BoxesOf(cands) && confidences == ConfidencesOf(cands) && classIds == ClassIdsOf(cands)
    {
      var cand := DecodeAnchor(raw, numAnchors, i, ctx, scaleX, scaleY);
      CandidatesStep(raw, numAnchors, i, ctx);
      if cand.Some? {
        var d := cand.value;
        OfAppend(cands, d);
        boxes := boxes + [d.box];
        confidences := confidences + [d.confidence];
        classIds := classIds + [d.classId];
        cands := cands + [d];
      }
      i := i + 1;
    }
  }

  // ---------------------------------------------------------------------
  // Properties of the decoder

  /** An anchor whose class score does not exceed the threshold contributes
      nothing, whatever its box. */
  lemma {:induction false} BelowThresholdDropped(raw: seq<real>, n: int, i: int, ctx: Context)
    requires ValidContext(ctx) && 0 <= i < n && (4 + NUM_CLASSES) * n <= |raw|
    requires raw[4 * n + i] <= ctx.confThreshold
    ensures AnchorCandidate(raw, n, i, ctx) == None
  {
    var scores := ClassScores(raw, n, i, NUM_CLASSES);
    assert scores[0] == raw[4 * n + i];
  }

  /** Clipping a left or top corner: a coordinate at or before the image
      edge lands on the edge; one inside is truncated toward zero. */
  lemma ClipLow(v: real)
    ensures v <= 0.0 ==> Trunc(MaxR(0.0, v)) == 0
    ensures 0.0 <= v ==> Trunc(MaxR(0.0, v)) as real <= v < Trunc(MaxR(0.0, v)) as real + 1.0
  {
  }

  /** Clipping a right or bottom corner against the image size `limit`: a
      coordinate at or past the edge lands on it; one inside is truncated
      down; one before the image is truncated up, toward zero. */
  lemma ClipHigh(limit: int, v: real)
    requires limit >= 0
    ensures limit as real <= v ==> Trunc(MinR(limit as real, v)) == limit
    ensures 0.0 <= v <= limit as real ==> Trunc(MinR(limit as real, v)) as real <= v < Trunc(MinR(limit as real, v)) as real + 1.0
    ensures v < 0.0 ==> Trunc(MinR(limit as real, v)) <= 0 && Trunc(MinR(limit as real, v)) as real - 1.0 < v <= Trunc(MinR(limit as real, v)) as real
  {
    assert Trunc(limit as real) == limit;
  }

  /** Clipping is exact: a corner beyond the image edge lands on the edge,
      a corner inside the image is truncated down, and a right or bottom
      corner before the image is truncated up, toward zero. Left and top are
      clipped only from below and right and bottom only from above, so a
      left corner past the right edge keeps its truncated value. */
  lemma ClipToBoundary(x1: real, y1: real, x2: real, y2: real, cols: int, rows: int)
    requires cols >= 0 && rows >= 0
    ensures var c := ClipCorners(x1, y1, x2, y2, cols, rows);
            && (x1 <= 0.0 ==> c.left == 0)
            && (0.0 <= x1 ==> c.left as real <= x1 < c.left as real + 1.0)
            && (y1 <= 0.0 ==> c.top == 0)
            && (0.0 <= y1 ==> c.top as real <= y1 < c.top as real + 1.0)
            && (cols as real <= x2 ==> c.right == cols)
            && (0.0 <= x2 <= cols as real ==> c.right as real <= x2 < c.right as real + 1.0)
            && (x2 < 0.0 ==> c.right <= 0 && c.right as real - 1.0 < x2 <= c.right as real)
            && (rows as real <= y2 ==> c.bottom == rows)
            && (0.0 <= y2 <= rows as real ==> c.bottom as real <= y2 < c.bottom as real + 1.0)
            && (y2 < 0.0 ==> c.bottom <= 0 && c.bottom as real - 1.0 < y2 <= c.bottom as real)
  {
    ClipLow(x1);
    ClipLow(y1);
    ClipHigh(cols, x2);
    ClipHigh(rows, y2);
  }

  /** A box whose right corner falls before x = 1, such as one lying wholly
      left of the image, is degenerate after clipping and truncation;
      likewise for the bottom corner. */
  lemma OffImageDegenerate(x1: real, y1: real, x2: real, y2: real, cols: int, rows: int)
    requires cols >= 0 && rows >= 0
    ensures var c := ClipCorners(x1, y1, x2, y2, cols, rows);
            && (x2 < 1.0 ==> c.right <= c.left)
            && (y2 < 1.0 ==> c.bottom <= c.top)
  {
    ClipHigh(cols, x2);
    ClipHigh(rows, y2);
  }

  /** A single anchor whose only class scores 0.30 against a threshold of
      0.35 yields no candidate, whatever its box. */
  lemma SingleAnchorBelowThreshold(cx: real, cy: real, w: real, h: real, cols: int, rows: int)
    requires cols >= 0 && rows >= 0
    ensures Decoded([cx, cy, w, h, 0.30], [1, 5, 1], Context(cols, rows, 640, 640, 0.35)) == []
  {
    var raw := [cx, cy, w, h, 0.30];
    var ctx := Context(cols, rows, 640, 640, 0.35);
    BelowThresholdDropped(raw, 1, 0, ctx);
  }
}
