/** The ObjectDetector class: its threshold and input-size state, the two
    threshold setters, greedy non-maximum suppression (nmsBoxes) and the
    part of detect that runs after inference, from the raw output tensor
    to the list of detections. */
module Detector {
  import opened Geometry
  import opened Suppression
  import opened Decoding

  class ObjectDetector {
    var confidenceThreshold: real
    var nmsThreshold: real
    var inputWidth: int
    var inputHeight: int
    var classNames: seq<string>

    /** The network input size is positive, so the scales detect divides by are defined. */
    ghost predicate Valid()
      reads this
    {
      inputWidth > 0 && inputHeight > 0
    }

    /** The settings detect reads, gathered for the decoder's specification. */
    function ContextFor(cols: int, rows: int): Context
      reads this
    {
      Context(cols, rows, inputWidth, inputHeight, confidenceThreshold)
    }

    /** Default thresholds 0.35 and 0.45, a 640x640 network input and the single class "face". */
    constructor ()
      ensures Valid()
      ensures confidenceThreshold == 0.35 && nmsThreshold == 0.45
      ensures inputWidth == 640 && inputHeight == 640
      ensures classNames == ["face"]
    {
      confidenceThreshold := 0.35;
      nmsThreshold := 0.45;
      inputWidth := 640;
      inputHeight := 640;
      classNames := ["face"];
    }

    /** The field copies of initialize(config_manager): the input size and
        both thresholds are taken from an already parsed configuration as
        they are, without validation, so the detector is Valid afterwards
        exactly when the configured size is positive. */
    method Configure(width: int, height: int, confThreshold: real, suppressionThreshold: real)
      modifies this`inputWidth, this`inputHeight, this`confidenceThreshold, this`nmsThreshold
      ensures inputWidth == width && inputHeight == height
      ensures confidenceThreshold == confThreshold && nmsThreshold == suppressionThreshold
      ensures classNames == old(classNames)
      ensures Valid() <==> width > 0 && height > 0
    {
      inputWidth := width;
      inputHeight := height;
      confidenceThreshold := confThreshold;
      nmsThreshold := suppressionThreshold;
    }

    method SetConfidenceThreshold(threshold: real)
      modifies this`confidenceThreshold
      ensures Valid() == old(Valid())
      ensures confidenceThreshold == threshold
      ensures nmsThreshold == old(nmsThreshold)
      ensures inputWidth == old(inputWidth) && inputHeight == old(inputHeight)
      ensures classNames == old(classNames)
    {
      confidenceThreshold := threshold;
    }

    method SetNMSThreshold(threshold: real)
      modifies this`nmsThreshold
      ensures Valid() == old(Valid())
      ensures nmsThreshold == threshold
      ensures confidenceThreshold == old(confidenceThreshold)
      ensures inputWidth == old(inputWidth) && inputHeight == old(inputHeight)
      ensures classNames == old(classNames)
    {
      nmsThreshold := threshold;
    }

    /** Greedy non-maximum suppression over the parallel vectors boxes and
        confidences: the indices whose confidence reaches the confidence
        threshold, sorted by non-increasing confidence, each accepted unless
        an already accepted box overlaps it by more than the suppression
        threshold. */
    method NmsBoxes(boxes: seq<Rect>, confidences: seq<real>) returns (indices: seq<int>)
      requires |confidences| <= |boxes|
      ensures GreedyOver(indices, boxes, confidences, confidenceThreshold, nmsThreshold)
      ensures NmsOutcome(indices, boxes, confidences, confidenceThreshold, nmsThreshold)
    {
      var candidates := CollectCandidates(confidences, confidenceThreshold);
      var order := new int[|candidates|](k requires 0 <= k < |candidates| => candidates[k]);
      assert order[..] == candidates;
      SortByConfidence(order, confidences);
      indices := SuppressOverlaps(order, boxes, nmsThreshold);
      assert IsConfidenceOrder(order[..], confidences, confidenceThreshold);
      GreedyOutcome(order[..], boxes, confidences, confidenceThreshold, nmsThreshold);
    }

    /** detect from the network's output onward: raw is the flat output
        buffer and dims its shape; cols and rows are the image size. */
    method Detect(raw: seq<real>, dims: seq<int>, cols: int, rows: int) returns (results: seq<DetectionResult>)
      requires Valid()
      requires cols >= 0 && rows >= 0
      requires ShapeOk(dims) ==> 5 * dims[2] <= |raw|
      ensures !ShapeOk(dims) ==> results == []
      ensures var cands := Decoded(raw, dims, ContextFor(cols, rows));
              exists sel :: && InRange(sel, |cands|)
                            && GreedyOver(sel, BoxesOf(cands), ConfidencesOf(cands), confidenceThreshold, nmsThreshold)
                            && results == Select(cands, sel)
      ensures Reported(results, ContextFor(cols, rows), nmsThreshold)
    {
      var ctx := ContextFor(cols, rows);
      if |dims| != 3 || dims[0] != 1 || dims[1] != 5 {
        results := [];
        NothingDecoded(raw, dims, ctx, nmsThreshold);
        NothingReported(ctx, nmsThreshold);
        return;
      }
      var boxes, confidences, classIds := DecodeAnchors(raw, dims[2], ctx);
      var indices := NmsBoxes(boxes, confidences);
      results := Gather(boxes, classIds, confidences, indices);
      DetectOutcome(raw, dims, ctx, nmsThreshold, boxes, confidences, classIds, indices, results);
      assert ctx == ContextFor(cols, rows);
    }
  }

  /** The final loop of detect: one detection per kept index, built from the
      parallel vectors at that index. */
  method Gather(boxes: seq<Rect>, classIds: seq<int>, confidences: seq<real>, indices: seq<int>)
    returns (results: seq<DetectionResult>)
    requires |classIds| == |boxes| && |confidences| == |boxes| && InRange(indices, |boxes|)
    ensures |results| == |indices|
    ensures forall k :: 0 <= k < |indices| ==>
              results[k] == DetectionResult(boxes[indices[k]], classIds[indices[k]], confidences[indices[k]])
  {
    results := [];
    for k := 0 to |indices|
      invariant |results| == k
      invariant forall m :: 0 <= m < k ==>
                  results[m] == DetectionResult(boxes[indices[m]], classIds[indices[m]], confidences[indices[m]])
    {
      var idx := indices[k];
      results := results + [DetectionResult(boxes[idx], classIds[idx], confidences[idx])];
    }
  }

  /** A detection is determined by its three fields. */
  lemma Reassembled(ds: seq<DetectionResult>)
    ensures forall k :: 0 <= k < |ds| ==>
              ds[k] == DetectionResult(BoxesOf(ds)[k], ClassIdsOf(ds)[k], ConfidencesOf(ds)[k])
  {
  }

  /** With a malformed output shape nothing is decoded, and the empty
      selection is what suppression makes of no candidates. */
  lemma NothingDecoded(raw: seq<real>, dims: seq<int>, ctx: Context, nmsThreshold: real)
    requires ValidContext(ctx) && !ShapeOk(dims)
    ensures var cands := Decoded(raw, dims, ctx);
            && cands == []
            && GreedyOver([], BoxesOf(cands), ConfidencesOf(cands), ctx.confThreshold, nmsThreshold)
            && Select(cands, []) == []
  {
    assert BoxesOf([]) == [] && ConfidencesOf([]) == [];
    assert IsConfidenceOrder([], [], ctx.confThreshold);
    assert Keep(OverlapTest([], nmsThreshold), []) == [];
  }

  /** The detections the final loop of detect copies out, one per selected index. */
  function Select(cands: seq<DetectionResult>, sel: seq<int>): (r: seq<DetectionResult>)
    requires InRange(sel, |cands|)
    ensures |r| == |sel| && forall k :: 0 <= k < |sel| ==> r[k] == cands[sel[k]]
  {
    seq(|sel|, k requires 0 <= k < |sel| => cands[sel[k]])
  }

  /** The three phases of detect on a well-formed output (decoding into
      parallel vectors, suppression, gathering the kept detections) compose
      into a suppression outcome over the decoded candidates. */
  lemma DetectOutcome(raw: seq<real>, dims: seq<int>, ctx: Context, nmsThreshold: real,
                      boxes: seq<Rect>, confidences: seq<real>, classIds: seq<int>,
                      indices: seq<int>, results: seq<DetectionResult>)
    requires ValidContext(ctx) && ShapeOk(dims) && 5 * dims[2] <= |raw|
    requires var count := AnchorCount(dims);
             var cands := Candidates(raw, count, count, ctx);
             boxes == BoxesOf(cands) && confidences == ConfidencesOf(cands) && classIds == ClassIdsOf(cands)
    requires GreedyOver(indices, boxes, confidences, ctx.confThreshold, nmsThreshold)
    requires |results| == |indices|
    requires forall k :: 0 <= k < |indices| ==>
               results[k] == DetectionResult(boxes[indices[k]], classIds[indices[k]], confidences[indices[k]])
    ensures var cands := Decoded(raw, dims, ctx);
            exists sel :: && InRange(sel, |cands|)
                          && GreedyOver(sel, BoxesOf(cands), ConfidencesOf(cands), ctx.confThreshold, nmsThreshold)
                          && results == Select(cands, sel)
    ensures Reported(results, ctx, nmsThreshold)
  {
    var cands := Decoded(raw, dims, ctx);
    assert cands == Candidates(raw, AnchorCount(dims), AnchorCount(dims), ctx);
    GreedyOverOutcome(indices, boxes, confidences, ctx.confThreshold, nmsThreshold);
    SelectedDetections(cands, indices, ctx, nmsThreshold);
    Reassembled(cands);
    assert results == Select(cands, indices);
  }

  lemma NothingReported(ctx: Context, nmsThreshold: real)
    ensures Reported([], ctx, nmsThreshold)
  {
  }

  /** What detect promises of the detections it reports: each lies inside
      the image, scores above the confidence threshold and names a known
      class; they come in non-increasing confidence; no two overlap by more
      than the suppression threshold. */
  predicate Reported(results: seq<DetectionResult>, ctx: Context, nmsThreshold: real) {
    && (forall k :: 0 <= k < |results| ==> Admissible(results[k], ctx))
    && (forall p, q :: 0 <= p < q < |results| ==> results[p].confidence >= results[q].confidence)
    && (forall p, q :: 0 <= p < |results| && 0 <= q < |results| && p != q ==>
          IoU(results[p].box, results[q].box) <= nmsThreshold)
  }

  /** The detections selected from admissible candidates lie inside the
      image, score above the confidence threshold, come in confidence order
      and overlap one another by at most the suppression threshold. */
  lemma SelectedDetections(cands: seq<DetectionResult>, sel: seq<int>, ctx: Context, nmsThreshold: real)
    requires forall j :: 0 <= j < |cands| ==> Admissible(cands[j], ctx)
    requires NmsOutcome(sel, BoxesOf(cands), ConfidencesOf(cands), ctx.confThreshold, nmsThreshold)
    ensures InRange(sel, |cands|)
    ensures Reported(Select(cands, sel), ctx, nmsThreshold)
  {
    var confs := ConfidencesOf(cands);
    var boxes := BoxesOf(cands);
    assert SortedByConfidence(sel, confs);
    var r := Select(cands, sel);
    forall p, q | 0 <= p < q < |r| ensures r[p].confidence >= r[q].confidence {
      assert confs[sel[p]] >= confs[sel[q]];
    }
    forall p, q | 0 <= p < |r| && 0 <= q < |r| && p != q ensures IoU(r[p].box, r[q].box) <= nmsThreshold {
      assert IoU(boxes[sel[p]], boxes[sel[q]]) <= nmsThreshold;
    }
  }
}
