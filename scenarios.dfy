/** Consequences of the suppression outcome for two eligible boxes: two
    copies of one box, and two boxes that do not touch. */
module Scenarios {
  import opened Geometry
  import opened Suppression

  /** Helper for PairIndices: three entries drawn from {0, 1} repeat one of them. */
  lemma ThreeRepeat(r: seq<int>)
    requires |r| >= 3 && forall k :: 0 <= k < |r| ==> r[k] == 0 || r[k] == 1
    ensures r[0] == r[1] || r[0] == r[2] || r[1] == r[2]
  {
  }

  /** Distinct indices into two boxes: each of the two at most once. */
  lemma PairIndices(r: seq<int>)
    requires Distinct(r) && InRange(r, 2)
    ensures |r| <= 2 && forall k :: 0 <= k < |r| ==> r[k] == 0 || r[k] == 1
    ensures |r| == 2 ==> r[0] == 1 - r[1]
  {
    assert forall k :: 0 <= k < |r| ==> r[k] == 0 || r[k] == 1;
    if |r| >= 3 {
      ThreeRepeat(r);
      assert false;
    }
    if |r| == 2 {
      assert r[0] != r[1];
    }
  }

  /** A confidence order of two eligible indices lists both, the more
      confident first when their confidences differ. */
  lemma PairOrder(order: seq<int>, confidences: seq<real>, confThreshold: real)
    requires |confidences| == 2
    requires confidences[0] >= confThreshold && confidences[1] >= confThreshold
    requires IsConfidenceOrder(order, confidences, confThreshold)
    ensures order == [0, 1] || order == [1, 0]
    ensures confidences[0] > confidences[1] ==> order == [0, 1]
    ensures confidences[1] > confidences[0] ==> order == [1, 0]
  {
    ConfidenceOrderMembers(order, confidences, confThreshold);
    PairIndices(order);
    assert 0 in order && 1 in order;
    if |order| < 2 {
      assert false;
    }
  }

  /** The greedy pass over two indices keeps the first and keeps the second
      unless the first suppresses it. */
  lemma KeepTwo(suppresses: (int, int) -> bool, a: int, b: int)
    ensures Keep(suppresses, [a, b]) == if suppresses(a, b) then [a] else [a, b]
  {
    assert [a, b][..1] == [a];
    assert [a][..0] == [];
    assert Keep(suppresses, [a]) == [a];
    assert SuppressedBy([a], suppresses, b) <==> suppresses(a, b);
  }

  /** Two eligible boxes each overlapping the other by more than the
      threshold: exactly one is kept, the more confident one when their
      confidences differ. */
  lemma PairOverlapping(r: seq<int>, boxes: seq<Rect>, confidences: seq<real>, confThreshold: real, nmsThreshold: real)
    requires |boxes| == 2 && |confidences| == 2
    requires confidences[0] >= confThreshold && confidences[1] >= confThreshold
    requires IoU(boxes[0], boxes[1]) > nmsThreshold && IoU(boxes[1], boxes[0]) > nmsThreshold
    requires GreedyOver(r, boxes, confidences, confThreshold, nmsThreshold)
    ensures r == [0] || r == [1]
    ensures confidences[0] > confidences[1] ==> r == [0]
    ensures confidences[1] > confidences[0] ==> r == [1]
  {
    var order :| IsConfidenceOrder(order, confidences, confThreshold)
                 && r == Keep(OverlapTest(boxes, nmsThreshold), order);
    PairOrder(order, confidences, confThreshold);
    KeepTwo(OverlapTest(boxes, nmsThreshold), order[0], order[1]);
    assert order == [order[0], order[1]];
  }

  /** Two eligible boxes neither of which overlaps the other by more than
      the threshold: both are kept, in confidence order. */
  lemma PairSeparate(r: seq<int>, boxes: seq<Rect>, confidences: seq<real>, confThreshold: real, nmsThreshold: real)
    requires |boxes| == 2 && |confidences| == 2
    requires confidences[0] >= confThreshold && confidences[1] >= confThreshold
    requires IoU(boxes[0], boxes[1]) <= nmsThreshold && IoU(boxes[1], boxes[0]) <= nmsThreshold
    requires GreedyOver(r, boxes, confidences, confThreshold, nmsThreshold)
    ensures r == [0, 1] || r == [1, 0]
    ensures confidences[0] > confidences[1] ==> r == [0, 1]
    ensures confidences[1] > confidences[0] ==> r == [1, 0]
  {
    var test := OverlapTest(boxes, nmsThreshold);
    assert !test(0, 1) && !test(1, 0);
    var order :| IsConfidenceOrder(order, confidences, confThreshold) && r == Keep(test, order);
    PairOrder(order, confidences, confThreshold);
    KeepTwo(test, order[0], order[1]);
    assert order == [order[0], order[1]];
  }

  /** Two copies of one non-empty box, such as (10, 10, 50, 50) scored 0.9
      and 0.6: with both eligible and a suppression threshold below 1, only
      the more confident copy is kept. */
  lemma FullOverlapKeepsOne(r: seq<int>, b: Rect, c0: real, c1: real, confThreshold: real, nmsThreshold: real)
    requires !IsEmpty(b) && c0 > c1 >= confThreshold && nmsThreshold < 1.0
    requires GreedyOver(r, [b, b], [c0, c1], confThreshold, nmsThreshold)
    ensures r == [0]
  {
    IoUIdentical(b);
    PairOverlapping(r, [b, b], [c0, c1], confThreshold, nmsThreshold);
  }

  /** Two boxes separated on either axis, such as (0, 0, 10, 10) and
      (100, 100, 10, 10), both eligible: with a non-negative suppression
      threshold both are kept. */
  lemma DisjointBothKept(r: seq<int>, a: Rect, b: Rect, c0: real, c1: real, confThreshold: real, nmsThreshold: real)
    requires a.x + a.width <= b.x || b.x + b.width <= a.x || a.y + a.height <= b.y || b.y + b.height <= a.y
    requires c0 >= confThreshold && c1 >= confThreshold && nmsThreshold >= 0.0
    requires GreedyOver(r, [a, b], [c0, c1], confThreshold, nmsThreshold)
    ensures |r| == 2 && 0 in r && 1 in r
  {
    IoUSeparated(a, b);
    IoUSeparated(b, a);
    PairSeparate(r, [a, b], [c0, c1], confThreshold, nmsThreshold);
  }

  /** The same two boxes under a negative suppression threshold: their
      overlap ratio 0 already exceeds it, so only one of them is kept. */
  lemma DisjointNegativeThreshold(r: seq<int>, a: Rect, b: Rect, c0: real, c1: real,
                                  confThreshold: real, nmsThreshold: real)
    requires a.x + a.width <= b.x || b.x + b.width <= a.x || a.y + a.height <= b.y || b.y + b.height <= a.y
    requires c0 >= confThreshold && c1 >= confThreshold && nmsThreshold < 0.0
    requires GreedyOver(r, [a, b], [c0, c1], confThreshold, nmsThreshold)
    ensures |r| == 1
  {
    IoUSeparated(a, b);
    IoUSeparated(b, a);
    PairOverlapping(r, [a, b], [c0, c1], confThreshold, nmsThreshold);
  }
}
