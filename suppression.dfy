/** The specification side of the detector's greedy non-maximum suppression
    (ObjectDetector::nmsBoxes): which indices are eligible, what a
    confidence order is, the greedy selection over such an order, and the
    properties the selection has. The in-place sort that produces the order
    is here too; the suppression loop itself is ObjectDetector.NmsBoxes. */
module Suppression {
  import opened Geometry

  /** No index occurs twice. */
  predicate Distinct(s: seq<int>) {
    forall p, q :: 0 <= p < q < |s| ==> s[p] != s[q]
  }

  /** Every element is a valid index into a vector of length n. */
  predicate InRange(s: seq<int>, n: int) {
    forall k :: 0 <= k < |s| ==> 0 <= s[k] < n
  }

  /** The indices in s are listed by non-increasing confidence. */
  predicate SortedByConfidence(s: seq<int>, confidences: seq<real>) {
    && InRange(s, |confidences|)
    && forall p, q :: 0 <= p < q < |s| ==> confidences[s[p]] >= confidences[s[q]]
  }

  /** The candidate list nmsBoxes builds before sorting: the indices whose
      confidence reaches the threshold, in increasing index order. */
  function Eligible(confidences: seq<real>, threshold: real): (r: seq<int>)
    ensures forall k :: 0 <= k < |r| ==> 0 <= r[k] < |confidences| && confidences[r[k]] >= threshold
    ensures forall p, q :: 0 <= p < q < |r| ==> r[p] < r[q]
    ensures forall i :: 0 <= i < |confidences| && confidences[i] >= threshold ==> i in r
  {
    if |confidences| == 0 then []
    else
      var last := |confidences| - 1;
      var prev := Eligible(confidences[..last], threshold);
      if confidences[last] >= threshold then prev + [last] else prev
  }

  /** What std::sort with the comparator `confidences[a] > confidences[b]`
      may leave in the candidate vector: a permutation of the eligible
      indices, by non-increasing confidence. Which of several equally
      confident indices comes first is not fixed. */
  predicate IsConfidenceOrder(order: seq<int>, confidences: seq<real>, threshold: real) {
    && multiset(order) == multiset(Eligible(confidences, threshold))
    && SortedByConfidence(order, confidences)
  }

  /** The suppression test nmsBoxes applies to a pair of indices
      (accepted, later): their boxes overlap by more than the threshold. */
  function OverlapTest(boxes: seq<Rect>, threshold: real): (int, int) -> bool {
    (i: int, j: int) => 0 <= i < |boxes| && 0 <= j < |boxes| && Overlaps(boxes[i], boxes[j], threshold)
  }

  /** Some already accepted index suppresses x. */
  predicate SuppressedBy(kept: seq<int>, suppresses: (int, int) -> bool, x: int) {
    exists k :: 0 <= k < |kept| && suppresses(kept[k], x)
  }

  /** The greedy selection over a given order: walk the order and accept an
      index unless an index accepted before it suppresses it. */
  function Keep(suppresses: (int, int) -> bool, order: seq<int>): (r: seq<int>)
    ensures |r| <= |order|
    ensures forall k :: 0 <= k < |r| ==> r[k] in order
  {
    if |order| == 0 then []
    else
      var prev := Keep(suppresses, order[..|order| - 1]);
      var x := order[|order| - 1];
      if SuppressedBy(prev, suppresses, x) then prev else prev + [x]
  }

  /** The result of nmsBoxes: the greedy selection over some confidence
      order of the eligible indices. */
  ghost predicate GreedyOver(r: seq<int>, boxes: seq<Rect>, confidences: seq<real>,
                             confThreshold: real, nmsThreshold: real)
    requires |confidences| <= |boxes|
  {
    exists order :: IsConfidenceOrder(order, confidences, confThreshold)
                    && r == Keep(OverlapTest(boxes, nmsThreshold), order)
  }

  /** The properties the detector relies on from suppression: the indices
      are distinct, eligible and in confidence order; no two of the selected
      boxes overlap by more than the threshold; and every eligible index that
      was dropped is overlapped by more than the threshold by a selected
      index that is at least as confident. */
  ghost predicate NmsOutcome(r: seq<int>, boxes: seq<Rect>, confidences: seq<real>,
                             confThreshold: real, nmsThreshold: real)
    requires |confidences| <= |boxes|
  {
    && Distinct(r)
    && SortedByConfidence(r, confidences)
    && (forall k :: 0 <= k < |r| ==> confidences[r[k]] >= confThreshold)
    && (forall p, q :: 0 <= p < |r| && 0 <= q < |r| && p != q ==>
          IoU(boxes[r[p]], boxes[r[q]]) <= nmsThreshold)
    && (forall i :: 0 <= i < |confidences| && confidences[i] >= confThreshold && i !in r ==>
          exists k :: 0 <= k < |r| && confidences[r[k]] >= confidences[i]
                      && IoU(boxes[r[k]], boxes[i]) > nmsThreshold)
  }

  // ---------------------------------------------------------------------
  // Permutations keep distinctness

  lemma {:induction false} DistinctCountsAtMostOne(s: seq<int>, x: int)
    requires Distinct(s)
    ensures multiset(s)[x] <= 1
  {
    if |s| > 0 {
      var init := s[..|s| - 1];
      assert s == init + [s[|s| - 1]];
      DistinctCountsAtMostOne(init, x);
      assert s[|s| - 1] !in init;
      assert multiset(s) == multiset(init) + multiset{s[|s| - 1]};
    }
  }

  lemma RepeatCountsTwice(s: seq<int>, p: int, q: int)
    requires 0 <= p < q < |s| && s[p] == s[q]
    ensures multiset(s)[s[p]] >= 2
  {
    assert s == s[..p] + [s[p]] + s[p + 1..q] + [s[q]] + s[q + 1..];
    assert multiset(s) == multiset(s[..p]) + multiset{s[p]} + multiset(s[p + 1..q])
                          + multiset{s[q]} + multiset(s[q + 1..]);
  }

  lemma PermutationDistinct(s: seq<int>, t: seq<int>)
    requires multiset(s) == multiset(t) && Distinct(t)
    ensures Distinct(s)
  {
    forall p, q | 0 <= p < q < |s| ensures s[p] != s[q] {
      if s[p] == s[q] {
        RepeatCountsTwice(s, p, q);
        DistinctCountsAtMostOne(t, s[p]);
      }
    }
  }

  /** A confidence order lists each eligible index exactly once and nothing else. */
  lemma ConfidenceOrderMembers(order: seq<int>, confidences: seq<real>, threshold: real)
    requires IsConfidenceOrder(order, confidences, threshold)
    ensures Distinct(order)
    ensures forall k :: 0 <= k < |order| ==> confidences[order[k]] >= threshold
    ensures forall i :: 0 <= i < |confidences| && confidences[i] >= threshold ==> i in order
  {
    var e := Eligible(confidences, threshold);
    PermutationDistinct(order, e);
    forall k | 0 <= k < |order| ensures confidences[order[k]] >= threshold {
      assert order[k] in multiset(e);
    }
    forall i | 0 <= i < |confidences| && confidences[i] >= threshold ensures i in order {
      assert i in multiset(order);
    }
  }

  // ---------------------------------------------------------------------
  // Properties of the greedy selection

  /** Adding c to the accepted list adds exactly what c suppresses. */
  lemma SuppressedByAppend(kept: seq<int>, suppresses: (int, int) -> bool, c: int, x: int)
    ensures SuppressedBy(kept + [c], suppresses, x) <==> SuppressedBy(kept, suppresses, x) || suppresses(c, x)
  {
    var k2 := kept + [c];
    if SuppressedBy(kept, suppresses, x) {
      var k :| 0 <= k < |kept| && suppresses(kept[k], x);
      assert k2[k] == kept[k];
    }
    if suppresses(c, x) {
      assert k2[|kept|] == c;
    }
    if SuppressedBy(k2, suppresses, x) {
      var k :| 0 <= k < |k2| && suppresses(k2[k], x);
      if k < |kept| { assert k2[k] == kept[k]; }
    }
  }

  /** The selection is taken in order from the order it walks, so it is
      sorted by confidence whenever that order is. */
  lemma {:induction false} KeepSorted(suppresses: (int, int) -> bool, order: seq<int>, confidences: seq<real>)
    requires SortedByConfidence(order, confidences)
    ensures SortedByConfidence(Keep(suppresses, order), confidences)
  {
    if |order| > 0 {
      var init := order[..|order| - 1];
      var x := order[|order| - 1];
      KeepSorted(suppresses, init, confidences);
      var prev := Keep(suppresses, init);
      forall k | 0 <= k < |prev| ensures confidences[prev[k]] >= confidences[x] {
        var m :| 0 <= m < |init| && init[m] == prev[k];
        assert order[m] == prev[k];
      }
    }
  }

  /** A selection over an order without repetitions has no repetitions. */
  lemma {:induction false} KeepDistinct(suppresses: (int, int) -> bool, order: seq<int>)
    requires Distinct(order)
    ensures Distinct(Keep(suppresses, order))
  {
    if |order| > 0 {
      var init := order[..|order| - 1];
      var x := order[|order| - 1];
      KeepDistinct(suppresses, init);
      var prev := Keep(suppresses, init);
      forall k | 0 <= k < |prev| ensures prev[k] != x {
        var m :| 0 <= m < |init| && init[m] == prev[k];
        assert order[m] == prev[k];
      }
    }
  }

  /** No selected index suppresses a selected index that comes after it. */
  predicate NoneSuppressed(r: seq<int>, suppresses: (int, int) -> bool) {
    forall p, q :: 0 <= p < q < |r| ==> !suppresses(r[p], r[q])
  }

  lemma {:induction false} KeepPairwise(suppresses: (int, int) -> bool, order: seq<int>)
    ensures NoneSuppressed(Keep(suppresses, order), suppresses)
  {
    if |order| > 0 {
      var init := order[..|order| - 1];
      var x := order[|order| - 1];
      KeepPairwise(suppresses, init);
      var prev := Keep(suppresses, init);
      var r := Keep(suppresses, order);
      if !SuppressedBy(prev, suppresses, x) {
        assert r == prev + [x];
        forall p, q | 0 <= p < q < |r| ensures !suppresses(r[p], r[q]) {
          if q == |prev| {
            assert r[p] == prev[p];
          } else {
            assert r[p] == prev[p] && r[q] == prev[q];
          }
        }
      } else {
        assert r == prev;
      }
    }
  }

  /** Every index of the order that was not selected is suppressed by a
      selected index that comes before it in the order. */
  lemma {:induction false} KeepComplete(suppresses: (int, int) -> bool, order: seq<int>, m: int)
    requires 0 <= m < |order|
    requires order[m] !in Keep(suppresses, order)
    ensures var r := Keep(suppresses, order);
            exists k :: 0 <= k < |r| && r[k] in order[..m] && suppresses(r[k], order[m])
  {
    var r := Keep(suppresses, order);
    var init := order[..|order| - 1];
    var prev := Keep(suppresses, init);
    assert prev <= r;
    if m < |order| - 1 {
      assert init[m] == order[m];
      assert order[m] !in prev;
      KeepComplete(suppresses, init, m);
      var k :| 0 <= k < |prev| && prev[k] in init[..m] && suppresses(prev[k], init[m]);
      assert init[..m] == order[..m];
      assert r[k] == prev[k];
    } else {
      assert SuppressedBy(prev, suppresses, order[m]);
      var k :| 0 <= k < |prev| && suppresses(prev[k], order[m]);
      assert init == order[..m];
      assert r[k] == prev[k];
    }
  }

  /** No two selected boxes overlap by more than the threshold, in either order. */
  lemma KeepSeparated(boxes: seq<Rect>, nmsThreshold: real, order: seq<int>)
    ensures var r := Keep(OverlapTest(boxes, nmsThreshold), order);
            forall p, q :: 0 <= p < |r| && 0 <= q < |r| && p != q && 0 <= r[p] < |boxes| && 0 <= r[q] < |boxes| ==>
              IoU(boxes[r[p]], boxes[r[q]]) <= nmsThreshold
  {
    var test := OverlapTest(boxes, nmsThreshold);
    var r := Keep(test, order);
    KeepPairwise(test, order);
    forall p, q | 0 <= p < |r| && 0 <= q < |r| && p != q && 0 <= r[p] < |boxes| && 0 <= r[q] < |boxes|
      ensures IoU(boxes[r[p]], boxes[r[q]]) <= nmsThreshold
    {
      if p < q {
        assert !test(r[p], r[q]);
      } else {
        assert !test(r[q], r[p]);
        IoUSymmetric(boxes[r[p]], boxes[r[q]]);
      }
    }
  }

  /** Every eligible index left out is overlapped by more than the threshold
      by a selected index that is at least as confident. */
  lemma KeepCovers(order: seq<int>, boxes: seq<Rect>, confidences: seq<real>,
                   confThreshold: real, nmsThreshold: real)
    requires |confidences| <= |boxes|
    requires IsConfidenceOrder(order, confidences, confThreshold)
    ensures var r := Keep(OverlapTest(boxes, nmsThreshold), order);
            forall i :: 0 <= i < |confidences| && confidences[i] >= confThreshold && i !in r ==>
              exists k :: 0 <= k < |r| && 0 <= r[k] < |confidences| && confidences[r[k]] >= confidences[i]
                          && IoU(boxes[r[k]], boxes[i]) > nmsThreshold
  {
    var test := OverlapTest(boxes, nmsThreshold);
    var r := Keep(test, order);
    ConfidenceOrderMembers(order, confidences, confThreshold);
    forall i | 0 <= i < |confidences| && confidences[i] >= confThreshold && i !in r
      ensures exists k :: 0 <= k < |r| && 0 <= r[k] < |confidences| && confidences[r[k]] >= confidences[i]
                          && IoU(boxes[r[k]], boxes[i]) > nmsThreshold
    {
      var m :| 0 <= m < |order| && order[m] == i;
      KeepComplete(test, order, m);
      var k :| 0 <= k < |r| && r[k] in order[..m] && test(r[k], order[m]);
      var j :| 0 <= j < m && order[j] == r[k];
      assert confidences[order[j]] >= confidences[order[m]];
      assert Overlaps(boxes[r[k]], boxes[i], nmsThreshold);
      assert 0 <= k < |r| && 0 <= r[k] < |confidences| && confidences[r[k]] >= confidences[i]
             && IoU(boxes[r[k]], boxes[i]) > nmsThreshold;
    }
  }

  /** The greedy selection over any confidence order has every property the
      detector relies on. */
  lemma GreedyOutcome(order: seq<int>, boxes: seq<Rect>, confidences: seq<real>,
                      confThreshold: real, nmsThreshold: real)
    requires |confidences| <= |boxes|
    requires IsConfidenceOrder(order, confidences, confThreshold)
    ensures NmsOutcome(Keep(OverlapTest(boxes, nmsThreshold), order), boxes, confidences, confThreshold, nmsThreshold)
  {
    var test := OverlapTest(boxes, nmsThreshold);
    ConfidenceOrderMembers(order, confidences, confThreshold);
    KeepSorted(test, order, confidences);
    KeepDistinct(test, order);
    KeepSeparated(boxes, nmsThreshold, order);
    KeepCovers(order, boxes, confidences, confThreshold, nmsThreshold);
  }

  /** What nmsBoxes returns has every property the detector relies on,
      whichever order the sort left equally confident candidates in. */
  lemma GreedyOverOutcome(r: seq<int>, boxes: seq<Rect>, confidences: seq<real>,
                          confThreshold: real, nmsThreshold: real)
    requires |confidences| <= |boxes|
    requires GreedyOver(r, boxes, confidences, confThreshold, nmsThreshold)
    ensures NmsOutcome(r, boxes, confidences, confThreshold, nmsThreshold)
  {
    var order :| IsConfidenceOrder(order, confidences, confThreshold)
                 && r == Keep(OverlapTest(boxes, nmsThreshold), order);
    GreedyOutcome(order, boxes, confidences, confThreshold, nmsThreshold);
  }

  // ---------------------------------------------------------------------
  // The candidate sort

  /** Exchanges two adjacent entries of the candidate vector. */
  method SwapAdjacent(a: array<int>, j: int)
    requires 0 < j < a.Length
    modifies a
    ensures a[..] == old(a[..])[j - 1 := old(a[j])][j := old(a[j - 1])]
    ensures multiset(a[..]) == multiset(old(a[..]))
  {
    a[j - 1], a[j] := a[j], a[j - 1];
  }

  /** Sorts the candidate indices in place by non-increasing confidence, by
      insertion; it stands for the std::sort call, whose contract is all the
      detector relies on. */
  method SortByConfidence(a: array<int>, confidences: seq<real>)
    requires InRange(a[..], |confidences|)
    modifies a
    ensures multiset(a[..]) == multiset(old(a[..]))
    ensures SortedByConfidence(a[..], confidences)
  {
    if a.Length == 0 { return; }
    var i := 1;
    while i < a.Length
      invariant 1 <= i <= a.Length
      invariant multiset(a[..]) == multiset(old(a[..]))
      invariant InRange(a[..], |confidences|)
      invariant forall p, q :: 0 <= p < q < i ==> confidences[a[p]] >= confidences[a[q]]
    {
      var j := i;
      while j > 0 && confidences[a[j - 1]] < confidences[a[j]]
        invariant 0 <= j <= i < a.Length
        invariant multiset(a[..]) == multiset(old(a[..]))
        invariant InRange(a[..], |confidences|)
        invariant forall p, q :: 0 <= p < q <= i && q != j ==> confidences[a[p]] >= confidences[a[q]]
      {
        SwapAdjacent(a, j);
        j := j - 1;
      }
      forall p, q | 0 <= p < q <= i ensures confidences[a[p]] >= confidences[a[q]] {
        if q == j && p < j - 1 {
          assert confidences[a[p]] >= confidences[a[j - 1]];
        }
      }
      i := i + 1;
    }
  }

  // ---------------------------------------------------------------------
  // The phases of nmsBoxes

  /** The loop that collects the candidates above the confidence threshold. */
  method CollectCandidates(confidences: seq<real>, threshold: real) returns (candidates: seq<int>)
    ensures candidates == Eligible(confidences, threshold)
  {
    candidates := [];
    var i := 0;
    while i < |confidences|
      invariant 0 <= i <= |confidences|
      invariant candidates == Eligible(confidences[..i], threshold)
    {
      assert confidences[..i + 1][..i] == confidences[..i];
      if confidences[i] >= threshold {
        candidates := candidates + [i];
      }
      i := i + 1;
    }
    assert confidences[..|confidences|] == confidences;
  }

  /** The inner loop of the greedy pass: the candidate at position i has
      just been accepted, and every later candidate not yet suppressed that it
      overlaps by more than the threshold is flagged. */
  method SuppressLater(order: array<int>, suppressed: array<bool>, boxes: seq<Rect>, threshold: real,
                       i: int, ghost kept: seq<int>)
    requires order.Length == suppressed.Length
    requires 0 <= i < order.Length && InRange(order[..], |boxes|)
    requires forall j :: i < j < order.Length ==>
               (suppressed[j] <==> SuppressedBy(kept, OverlapTest(boxes, threshold), order[j]))
    modifies suppressed
    ensures forall j :: i < j < order.Length ==>
              (suppressed[j] <==> SuppressedBy(kept + [order[i]], OverlapTest(boxes, threshold), order[j]))
    ensures forall j :: 0 <= j <= i ==> suppressed[j] == old(suppressed[j])
  {
    ghost var test := OverlapTest(boxes, threshold);
    var curr := order[i];
    for j := i + 1 to order.Length
      invariant forall j' :: i < j' < j ==> (suppressed[j'] <==> SuppressedBy(kept + [curr], test, order[j']))
      invariant forall j' :: j <= j' < order.Length ==> (suppressed[j'] <==> SuppressedBy(kept, test, order[j']))
      invariant forall j' :: 0 <= j' <= i ==> suppressed[j'] == old(suppressed[j'])
    {
      SuppressedByAppend(kept, test, curr, order[j]);
      if suppressed[j] {
        continue;
      }
      var next := order[j];
      var iou := IoU(boxes[curr], boxes[next]);
      if iou > threshold {
        suppressed[j] := true;
      }
    }
  }

  /** The greedy loop over the sorted candidates with its `suppressed` flags:
      it returns exactly the greedy selection over that order. */
  method SuppressOverlaps(order: array<int>, boxes: seq<Rect>, threshold: real) returns (indices: seq<int>)
    requires InRange(order[..], |boxes|)
    ensures indices == Keep(OverlapTest(boxes, threshold), order[..])
  {
    ghost var test := OverlapTest(boxes, threshold);
    var n := order.Length;
    var suppressed := new bool[n](_ => false);
    indices := [];
    for i := 0 to n
      invariant indices == Keep(test, order[..i])
      invariant forall j :: i <= j < n ==> (suppressed[j] <==> SuppressedBy(indices, test, order[j]))
    {
      assert order[..i + 1][..i] == order[..i];
      if suppressed[i] {
        continue;
      }
      SuppressLater(order, suppressed, boxes, threshold, i, indices);
      indices := indices + [order[i]];
    }
    assert order[..n] == order[..];
  }
}
