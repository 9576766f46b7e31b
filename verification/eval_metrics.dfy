/**
 * The offline evaluation script's matching: greedy IoU matching of predicted
 * boxes to ground-truth boxes per frame, the totals over a list of frames,
 * and first-fit matching of predicted anomaly events to ground-truth events
 * within a frame tolerance.
 */
module EvalMetrics {
  import opened Common
  import opened Geometry

  // ---- Box matching ----

  /** The scan for the best still-unmatched ground truth of one prediction:
      it starts from IoU 0 and index -1 and moves only on a strictly larger
      IoU, so it keeps the first ground truth of highest positive IoU. */
  function Best(pred: Box, gts: seq<Box>, matched: set<int>): (r: (real, int))
    ensures -1 <= r.1 < |gts|
    decreases |gts|
  {
    if |gts| == 0 then (0.0, -1)
    else
      var front := Best(pred, gts[..|gts| - 1], matched);
      var g := |gts| - 1;
      if g in matched then front
      else
        var iou := Iou(pred, gts[g]);
        if iou > front.0 then (iou, g) else front
  }

  /** The scan finds an unmatched ground truth of maximal positive IoU, the
      first such in index order, or index -1 and IoU 0 when no unmatched
      ground truth has a positive IoU. */
  lemma {:induction false} BestIsFirstMaximum(pred: Box, gts: seq<Box>, matched: set<int>)
    ensures var (b, k) := Best(pred, gts, matched);
      && (k == -1 <==> b == 0.0)
      && (k == -1 ==> forall g :: 0 <= g < |gts| && g !in matched ==> Iou(pred, gts[g]) <= 0.0)
      && (k != -1 ==> k !in matched && b == Iou(pred, gts[k]) && b > 0.0)
      && (forall g :: 0 <= g < |gts| && g !in matched ==> Iou(pred, gts[g]) <= b)
      && (forall g :: 0 <= g < k && g !in matched ==> Iou(pred, gts[g]) < b)
    decreases |gts|
  {
    if |gts| > 0 {
      var front := gts[..|gts| - 1];
      BestIsFirstMaximum(pred, front, matched);
      assert forall g :: 0 <= g < |front| ==> front[g] == gts[g];
    }
  }

  /** A positive best IoU always comes with a real ground-truth index. */
  lemma BestPositiveFound(pred: Box, gts: seq<Box>, matched: set<int>)
    ensures Best(pred, gts, matched).0 > 0.0 ==> Best(pred, gts, matched).1 != -1
  {
    BestIsFirstMaximum(pred, gts, matched);
  }

  /** `match_detections` before the final subtraction: the true-positive
      count and the set of matched ground-truth indices. A prediction counts
      when the IoU of its best unmatched ground truth reaches the threshold;
      when `guarded`, it must also have found a ground truth at all (the
      corrected rule; see `MatchDetectionsGuarded`). */
  function Greedy(preds: seq<Box>, gts: seq<Box>, threshold: real, guarded: bool): (r: (nat, set<int>))
    ensures r.0 <= |preds| && |r.1| <= r.0
    ensures forall g :: g in r.1 ==> -1 <= g < |gts|
    ensures guarded ==> forall g :: g in r.1 ==> 0 <= g < |gts|
    decreases |preds|
  {
    if |preds| == 0 then (0, {})
    else
      var (tp, matched) := Greedy(preds[..|preds| - 1], gts, threshold, guarded);
      var (b, k) := Best(preds[|preds| - 1], gts, matched);
      if (!guarded || k != -1) && b >= threshold then
        assert |matched + {k}| <= |matched| + 1;
        (tp + 1, matched + {k})
      else (tp, matched)
  }

  /** `match_detections` as written: (true positives, false positives,
      false negatives). */
  function MatchDetections(preds: seq<Box>, gts: seq<Box>, threshold: real): (r: (int, int, int))
    ensures r.0 + r.1 == |preds| && r.0 + r.2 == |gts|
  {
    var tp := Greedy(preds, gts, threshold, false).0;
    (tp, |preds| - tp, |gts| - tp)
  }

  /** `match_detections` with the evidently intended rule: a prediction is a
      true positive only when it is paired with an actual ground truth. */
  function MatchDetectionsGuarded(preds: seq<Box>, gts: seq<Box>, threshold: real): (r: (int, int, int))
    ensures r.0 + r.1 == |preds| && r.0 + r.2 == |gts|
  {
    var tp := Greedy(preds, gts, threshold, true).0;
    (tp, |preds| - tp, |gts| - tp)
  }

  /** Every counted prediction claims a distinct, real ground-truth index:
      the matched set holds exactly `tp` indices, all in range. This holds
      for the guarded rule at every threshold, and for the rule as written
      when the threshold is positive. */
  lemma {:induction false} GreedyClaimsDistinct(preds: seq<Box>, gts: seq<Box>, threshold: real, guarded: bool)
    requires guarded || threshold > 0.0
    ensures var (tp, matched) := Greedy(preds, gts, threshold, guarded);
      |matched| == tp && forall g :: g in matched ==> 0 <= g < |gts|
    decreases |preds|
  {
    if |preds| > 0 {
      var front := preds[..|preds| - 1];
      GreedyClaimsDistinct(front, gts, threshold, guarded);
      var (tp, matched) := Greedy(front, gts, threshold, guarded);
      var (b, k) := Best(preds[|preds| - 1], gts, matched);
      BestIsFirstMaximum(preds[|preds| - 1], gts, matched);
      if (!guarded || k != -1) && b >= threshold {
        assert k != -1 && k !in matched;
        assert |matched + {k}| == |matched| + 1;
      }
    }
  }

  /** The indices 0 .. n-1. */
  function IndicesBelow(n: nat): (r: set<int>)
    ensures forall g :: g in r <==> 0 <= g < n
    ensures |r| == n
  {
    if n == 0 then {} else IndicesBelow(n - 1) + {n - 1}
  }

  /** A set of indices into a list of length n has at most n members. */
  lemma BoundedIndexSet(s: set<int>, n: nat)
    requires forall g :: g in s ==> 0 <= g < n
    ensures |s| <= n
  {
    var all := IndicesBelow(n);
    assert all == s + (all - s);
  }

  /** With a positive threshold the counts as written are a partition: at
      most min(|preds|, |gts|) true positives, and non-negative false
      positives and false negatives. */
  lemma MatchCounts(preds: seq<Box>, gts: seq<Box>, threshold: real)
    requires threshold > 0.0
    ensures var (tp, fp, fn) := MatchDetections(preds, gts, threshold);
      0 <= tp <= |preds| && tp <= |gts| && fp >= 0 && fn >= 0
  {
    GreedyClaimsDistinct(preds, gts, threshold, false);
    BoundedIndexSet(Greedy(preds, gts, threshold, false).1, |gts|);
  }

  /** The guarded counts are a partition at every threshold. */
  lemma GuardedMatchCounts(preds: seq<Box>, gts: seq<Box>, threshold: real)
    ensures var (tp, fp, fn) := MatchDetectionsGuarded(preds, gts, threshold);
      0 <= tp <= |preds| && tp <= |gts| && fp >= 0 && fn >= 0
  {
    GreedyClaimsDistinct(preds, gts, threshold, true);
    BoundedIndexSet(Greedy(preds, gts, threshold, true).1, |gts|);
  }

  /** For a positive threshold the guard changes nothing: a best IoU that
      reaches the threshold is positive, so a ground truth was found. */
  lemma {:induction false} GuardAgreesAboveZero(preds: seq<Box>, gts: seq<Box>, threshold: real)
    requires threshold > 0.0
    ensures Greedy(preds, gts, threshold, true) == Greedy(preds, gts, threshold, false)
    ensures MatchDetectionsGuarded(preds, gts, threshold) == MatchDetections(preds, gts, threshold)
    decreases |preds|
  {
    if |preds| > 0 {
      var front := preds[..|preds| - 1];
      GuardAgreesAboveZero(front, gts, threshold);
      BestPositiveFound(preds[|preds| - 1], gts, Greedy(front, gts, threshold, false).1);
    }
  }

  /** As written, a threshold of at most 0 counts every prediction, even one
      with no overlapping ground truth (the index -1 is then "matched"). */
  lemma {:induction false} NonPositiveThresholdCountsAll(preds: seq<Box>, gts: seq<Box>, threshold: real)
    requires threshold <= 0.0
    ensures Greedy(preds, gts, threshold, false).0 == |preds|
    decreases |preds|
  {
    if |preds| > 0 {
      var front := preds[..|preds| - 1];
      NonPositiveThresholdCountsAll(front, gts, threshold);
      var matched := Greedy(front, gts, threshold, false).1;
      BestIsFirstMaximum(preds[|preds| - 1], gts, matched);
    }
  }

  /** With threshold 0, one prediction and no ground truth give one true
      positive and -1 false negatives as written, and one false positive
      under the guarded rule. */
  lemma ZeroThresholdExample()
    ensures MatchDetections([Box(0.0, 0.0, 1.0, 1.0)], [], 0.0) == (1, 0, -1)
    ensures MatchDetectionsGuarded([Box(0.0, 0.0, 1.0, 1.0)], [], 0.0) == (0, 1, 0)
  {
    NonPositiveThresholdCountsAll([Box(0.0, 0.0, 1.0, 1.0)], [], 0.0);
    GuardedMatchCounts([Box(0.0, 0.0, 1.0, 1.0)], [], 0.0);
  }

  /** Predictions that lie entirely to the left of every ground truth never
      match under a positive threshold. */
  lemma {:induction false} DisjointNeverMatch(preds: seq<Box>, gts: seq<Box>, threshold: real)
    requires threshold > 0.0
    requires forall p, g :: 0 <= p < |preds| && 0 <= g < |gts| ==> preds[p].x2 <= gts[g].x1
    ensures MatchDetections(preds, gts, threshold) == (0, |preds|, |gts|)
    decreases |preds|
  {
    if |preds| > 0 {
      var front := preds[..|preds| - 1];
      DisjointNeverMatch(front, gts, threshold);
      var pred := preds[|preds| - 1];
      var matched := Greedy(front, gts, threshold, false).1;
      forall g | 0 <= g < |gts| ensures Iou(pred, gts[g]) == 0.0 {
        IouDisjoint(pred, gts[g]);
      }
      BestIsFirstMaximum(pred, gts, matched);
    }
  }

  // ---- Totals over frames ----

  /** One frame's counts: `match_detections` as written, or the corrected
      rule when `guarded`. */
  function FrameCounts(preds: seq<Box>, gts: seq<Box>, threshold: real, guarded: bool): (int, int, int)
  {
    if guarded then MatchDetectionsGuarded(preds, gts, threshold) else MatchDetections(preds, gts, threshold)
  }

  /** `calculate_metrics` totals: the per-frame counts summed over the
      frames both lists have (`zip` stops at the shorter one). Unguarded,
      this is the script as written; guarded, it sums the corrected rule. */
  function Totals(allPreds: seq<seq<Box>>, allGts: seq<seq<Box>>, threshold: real, guarded: bool): (r: (int, int, int))
    ensures |allPreds| == 0 || |allGts| == 0 ==> r == (0, 0, 0)
    decreases |allPreds|
  {
    if |allPreds| == 0 || |allGts| == 0 then (0, 0, 0)
    else Sum3(FrameCounts(allPreds[0], allGts[0], threshold, guarded), Totals(allPreds[1..], allGts[1..], threshold, guarded))
  }

  /** Componentwise sum of two count triples. */
  function Sum3(a: (int, int, int), b: (int, int, int)): (int, int, int)
  {
    (a.0 + b.0, a.1 + b.1, a.2 + b.2)
  }

  /** The number of boxes over the first `n` frames. */
  function BoxCount(frames: seq<seq<Box>>, n: nat): nat
    requires n <= |frames|
  {
    if n == 0 then 0 else BoxCount(frames, n - 1) + |frames[n - 1]|
  }

  lemma {:induction false} BoxCountTail(frames: seq<seq<Box>>, n: nat)
    requires 0 < n <= |frames|
    ensures BoxCount(frames, n) == |frames[0]| + BoxCount(frames[1..], n - 1)
  {
    if n > 1 {
      BoxCountTail(frames, n - 1);
      assert frames[1..][n - 2] == frames[n - 1];
    }
  }

  /** Over the zipped frames, true positives plus false positives are all
      the predicted boxes and true positives plus false negatives all the
      ground-truth boxes, at every threshold; no total is negative under the
      corrected rule, or as written when the threshold is positive. */
  lemma {:induction false} TotalsBalance(allPreds: seq<seq<Box>>, allGts: seq<seq<Box>>, threshold: real, guarded: bool)
    ensures var n := Min(|allPreds|, |allGts|);
      var (tp, fp, fn) := Totals(allPreds, allGts, threshold, guarded);
      && tp + fp == BoxCount(allPreds, n)
      && tp + fn == BoxCount(allGts, n)
      && (guarded || threshold > 0.0 ==> tp >= 0 && fp >= 0 && fn >= 0)
    decreases |allPreds|
  {
    var n := Min(|allPreds|, |allGts|);
    if n > 0 {
      TotalsBalance(allPreds[1..], allGts[1..], threshold, guarded);
      BoxCountTail(allPreds, n);
      BoxCountTail(allGts, n);
      FrameBalance(allPreds[0], allGts[0], threshold, guarded);
    }
  }

  /** One frame's share of `TotalsBalance`. */
  lemma FrameBalance(preds: seq<Box>, gts: seq<Box>, threshold: real, guarded: bool)
    ensures var (tp, fp, fn) := FrameCounts(preds, gts, threshold, guarded);
      && tp + fp == |preds| && tp + fn == |gts|
      && (guarded || threshold > 0.0 ==> tp >= 0 && fp >= 0 && fn >= 0)
  {
    if guarded {
      GuardedMatchCounts(preds, gts, threshold);
    } else if threshold > 0.0 {
      MatchCounts(preds, gts, threshold);
    }
  }

  /** For a positive threshold the script's totals and the corrected totals
      coincide. */
  lemma {:induction false} TotalsGuardAgreesAboveZero(allPreds: seq<seq<Box>>, allGts: seq<seq<Box>>, threshold: real)
    requires threshold > 0.0
    ensures Totals(allPreds, allGts, threshold, true) == Totals(allPreds, allGts, threshold, false)
    decreases |allPreds|
  {
    if |allPreds| > 0 && |allGts| > 0 {
      TotalsGuardAgreesAboveZero(allPreds[1..], allGts[1..], threshold);
      assert FrameCounts(allPreds[0], allGts[0], threshold, true) == FrameCounts(allPreds[0], allGts[0], threshold, false) by {
        GuardAgreesAboveZero(allPreds[0], allGts[0], threshold);
      }
    }
  }

  /** With threshold 0, a single frame holding one predicted box and no
      ground truth totals (1, 0, -1) as written and (0, 1, 0) corrected. */
  lemma TotalsZeroThresholdExample()
    ensures Totals([[Box(0.0, 0.0, 1.0, 1.0)]], [[]], 0.0, false) == (1, 0, -1)
    ensures Totals([[Box(0.0, 0.0, 1.0, 1.0)]], [[]], 0.0, true) == (0, 1, 0)
  {
    ZeroThresholdExample();
    assert Totals([[Box(0.0, 0.0, 1.0, 1.0)]][1..], [[]][1..], 0.0, false) == (0, 0, 0);
    assert Totals([[Box(0.0, 0.0, 1.0, 1.0)]][1..], [[]][1..], 0.0, true) == (0, 0, 0);
  }

  /** Frames beyond the shorter of the two lists play no part. */
  lemma {:induction false} TotalsIgnoreExtraFrames(allPreds: seq<seq<Box>>, allGts: seq<seq<Box>>, threshold: real, guarded: bool)
    ensures var n := Min(|allPreds|, |allGts|);
      Totals(allPreds, allGts, threshold, guarded) == Totals(allPreds[..n], allGts[..n], threshold, guarded)
    decreases |allPreds|
  {
    var n := Min(|allPreds|, |allGts|);
    if n > 0 {
      TotalsIgnoreExtraFrames(allPreds[1..], allGts[1..], threshold, guarded);
      assert allPreds[..n][1..] == allPreds[1..][..n - 1];
      assert allGts[..n][1..] == allGts[1..][..n - 1];
    }
  }

  // ---- Anomaly events ----

  /** A predicted or ground-truth event: its type and frame number. */
  datatype Event = Event(eventType: string, frameNumber: int)

  function Abs(x: int): nat { if x < 0 then -x else x }

  /** Same event type, and frame numbers at most `tolerance` apart. */
  predicate Compatible(p: Event, g: Event, tolerance: int)
  {
    p.eventType == g.eventType && Abs(p.frameNumber - g.frameNumber) <= tolerance
  }

  /** The inner loop: the first still-unmatched ground truth, from index
      `from` on, that is compatible with the prediction. */
  function FirstFit(p: Event, gts: seq<Event>, matched: set<int>, tolerance: int, from: nat): (r: Option<nat>)
    requires from <= |gts|
    ensures r.Some? ==> from <= r.value < |gts| && r.value !in matched && Compatible(p, gts[r.value], tolerance)
    ensures r.Some? ==> forall g :: from <= g < r.value && g !in matched ==> !Compatible(p, gts[g], tolerance)
    ensures r.None? ==> forall g :: from <= g < |gts| && g !in matched ==> !Compatible(p, gts[g], tolerance)
    decreases |gts| - from
  {
    if from == |gts| then None
    else if from !in matched && Compatible(p, gts[from], tolerance) then Some(from)
    else FirstFit(p, gts, matched, tolerance, from + 1)
  }

  /** The state of `evaluate_anomaly_detection` after some predictions: the
      matched prediction and ground-truth indices and the pairs in order. */
  datatype Matching = Matching(preds: set<int>, gts: set<int>, pairs: seq<(nat, nat)>)

  function AnomalyMatch(preds: seq<Event>, gts: seq<Event>, tolerance: int): (r: Matching)
    ensures |r.pairs| <= |preds|
    ensures forall k :: 0 <= k < |r.pairs| ==> r.pairs[k].0 < |preds| && r.pairs[k].1 < |gts|
    decreases |preds|
  {
    if |preds| == 0 then Matching({}, {}, [])
    else
      var m := AnomalyMatch(preds[..|preds| - 1], gts, tolerance);
      var i := |preds| - 1;
      match FirstFit(preds[i], gts, m.gts, tolerance, 0)
      case None => m
      case Some(g) => Matching(m.preds + {i}, m.gts + {g}, m.pairs + [(i, g)])
  }

  /** The prediction indices of a list of pairs. */
  function PredIndices(pairs: seq<(nat, nat)>): set<int>
  {
    if |pairs| == 0 then {} else PredIndices(pairs[..|pairs| - 1]) + {pairs[|pairs| - 1].0}
  }

  /** The ground-truth indices of a list of pairs. */
  function GtIndices(pairs: seq<(nat, nat)>): set<int>
  {
    if |pairs| == 0 then {} else GtIndices(pairs[..|pairs| - 1]) + {pairs[|pairs| - 1].1}
  }

  lemma {:induction false} InGtIndices(pairs: seq<(nat, nat)>, k: nat)
    requires k < |pairs|
    ensures pairs[k].1 in GtIndices(pairs)
    decreases |pairs|
  {
    if k < |pairs| - 1 {
      InGtIndices(pairs[..|pairs| - 1], k);
    }
  }

  /** Every pair is in range and compatible. */
  ghost predicate PairsCompatible(pairs: seq<(nat, nat)>, preds: seq<Event>, gts: seq<Event>, tolerance: int)
  {
    forall k :: 0 <= k < |pairs| ==>
      pairs[k].0 < |preds| && pairs[k].1 < |gts| && Compatible(preds[pairs[k].0], gts[pairs[k].1], tolerance)
  }

  /** Predictions in strictly increasing order, ground truths never repeated. */
  ghost predicate Injective(pairs: seq<(nat, nat)>)
  {
    forall k, l :: 0 <= k < l < |pairs| ==> pairs[k].0 < pairs[l].0 && pairs[k].1 != pairs[l].1
  }

  /** Appending a pair that comes after every prediction and uses a fresh
      ground truth keeps the pairs injective. */
  lemma SnocInjective(pairs: seq<(nat, nat)>, x: (nat, nat))
    requires Injective(pairs)
    requires forall k :: 0 <= k < |pairs| ==> pairs[k].0 < x.0 && pairs[k].1 != x.1
    ensures Injective(pairs + [x])
  {
    var ps := pairs + [x];
    forall k, l | 0 <= k < l < |ps| ensures ps[k].0 < ps[l].0 && ps[k].1 != ps[l].1 {
      assert ps[k] == pairs[k];
      if l < |pairs| {
        assert ps[l] == pairs[l];
      }
    }
  }

  lemma ComponentsSnoc(pairs: seq<(nat, nat)>, x: (nat, nat))
    ensures PredIndices(pairs + [x]) == PredIndices(pairs) + {x.0}
    ensures GtIndices(pairs + [x]) == GtIndices(pairs) + {x.1}
  {
    assert (pairs + [x])[..|pairs|] == pairs;
  }

  /** The matched index sets are the components of the pairs, and the
      matched predictions are indices into the predictions. */
  lemma {:induction false} AnomalyMatchShape(preds: seq<Event>, gts: seq<Event>, tolerance: int)
    ensures var m := AnomalyMatch(preds, gts, tolerance);
      && m.preds == PredIndices(m.pairs) && m.gts == GtIndices(m.pairs)
      && (forall x :: x in m.preds ==> 0 <= x < |preds|)
    decreases |preds|
  {
    if |preds| > 0 {
      var front := preds[..|preds| - 1];
      AnomalyMatchShape(front, gts, tolerance);
      var m := AnomalyMatch(front, gts, tolerance);
      var i := |preds| - 1;
      var fit := FirstFit(preds[i], gts, m.gts, tolerance, 0);
      if fit.Some? {
        ComponentsSnoc(m.pairs, (i, fit.value));
      }
    }
  }

  /** Every matched pair is in range and of compatible events. */
  lemma {:induction false} AnomalyMatchCompatible(preds: seq<Event>, gts: seq<Event>, tolerance: int)
    ensures PairsCompatible(AnomalyMatch(preds, gts, tolerance).pairs, preds, gts, tolerance)
    decreases |preds|
  {
    if |preds| > 0 {
      var front := preds[..|preds| - 1];
      AnomalyMatchCompatible(front, gts, tolerance);
      assert forall k :: 0 <= k < |front| ==> front[k] == preds[k];
    }
  }

  /** No prediction and no ground truth takes part in two pairs. */
  lemma {:induction false} AnomalyMatchInjective(preds: seq<Event>, gts: seq<Event>, tolerance: int)
    ensures Injective(AnomalyMatch(preds, gts, tolerance).pairs)
    decreases |preds|
  {
    if |preds| > 0 {
      var front := preds[..|preds| - 1];
      AnomalyMatchInjective(front, gts, tolerance);
      AnomalyMatchShape(front, gts, tolerance);
      var m := AnomalyMatch(front, gts, tolerance);
      var i := |preds| - 1;
      match FirstFit(preds[i], gts, m.gts, tolerance, 0)
      case None =>
        assert AnomalyMatch(preds, gts, tolerance).pairs == m.pairs;
      case Some(g) =>
        assert forall k :: 0 <= k < |m.pairs| ==> m.pairs[k].0 < i && m.pairs[k].1 != g by {
          forall k | 0 <= k < |m.pairs| ensures m.pairs[k].0 < i && m.pairs[k].1 != g {
            InGtIndices(m.pairs, k);
          }
        }
        SnocInjective(m.pairs, (i, g));
        assert AnomalyMatch(preds, gts, tolerance).pairs == m.pairs + [(i, g)];
    }
  }

  /** Pairs whose ground-truth components never repeat have as many distinct
      components as pairs, on either side. */
  lemma {:induction false} ComponentCounts(pairs: seq<(nat, nat)>)
    requires Injective(pairs)
    ensures |PredIndices(pairs)| == |pairs| && |GtIndices(pairs)| == |pairs|
    decreases |pairs|
  {
    if |pairs| > 0 {
      var front := pairs[..|pairs| - 1];
      var last := pairs[|pairs| - 1];
      ComponentCounts(front);
      forall x | x in PredIndices(front) ensures x < last.0 {
        var k := PredIndexWitness(front, x);
      }
      forall k | 0 <= k < |front| ensures front[k].1 != last.1 {
      }
      if last.1 in GtIndices(front) {
        var k := GtIndexWitness(front, last.1);
        assert false;
      }
    }
  }

  lemma {:induction false} PredIndexWitness(pairs: seq<(nat, nat)>, x: int) returns (k: nat)
    requires x in PredIndices(pairs)
    ensures k < |pairs| && pairs[k].0 == x
    decreases |pairs|
  {
    if pairs[|pairs| - 1].0 == x {
      k := |pairs| - 1;
    } else {
      k := PredIndexWitness(pairs[..|pairs| - 1], x);
    }
  }

  lemma {:induction false} GtIndexWitness(pairs: seq<(nat, nat)>, x: int) returns (k: nat)
    requires x in GtIndices(pairs)
    ensures k < |pairs| && pairs[k].1 == x
    decreases |pairs|
  {
    if pairs[|pairs| - 1].1 == x {
      k := |pairs| - 1;
    } else {
      k := GtIndexWitness(pairs[..|pairs| - 1], x);
    }
  }

  /** Each ground truth compatible with an unmatched prediction was taken by
      the end of the matching. */
  lemma {:induction false} AnomalyMatchMaximal(preds: seq<Event>, gts: seq<Event>, tolerance: int)
    ensures var m := AnomalyMatch(preds, gts, tolerance);
      forall p, g :: 0 <= p < |preds| && p !in m.preds && 0 <= g < |gts| && Compatible(preds[p], gts[g], tolerance)
        ==> g in m.gts
    decreases |preds|
  {
    if |preds| > 0 {
      var front := preds[..|preds| - 1];
      AnomalyMatchMaximal(front, gts, tolerance);
      assert forall k :: 0 <= k < |front| ==> front[k] == preds[k];
    }
  }

  /** Pair `k` takes the first compatible ground truth that no earlier pair
      took. */
  predicate FitsFirst(pairs: seq<(nat, nat)>, k: nat, preds: seq<Event>, gts: seq<Event>, tolerance: int)
    requires k < |pairs|
  {
    && pairs[k].0 < |preds|
    && FirstFit(preds[pairs[k].0], gts, GtIndices(pairs[..k]), tolerance, 0) == Some(pairs[k].1)
  }

  /** Every pair takes the first compatible ground truth left to it. */
  predicate FirstFitPairs(pairs: seq<(nat, nat)>, preds: seq<Event>, gts: seq<Event>, tolerance: int)
  {
    forall k :: 0 <= k < |pairs| ==> FitsFirst(pairs, k, preds, gts, tolerance)
  }

  /** Adding a prediction at the end does not disturb the earlier pairs. */
  lemma FirstFitPairsGrow(pairs: seq<(nat, nat)>, preds: seq<Event>, gts: seq<Event>, tolerance: int)
    requires |preds| > 0 && FirstFitPairs(pairs, preds[..|preds| - 1], gts, tolerance)
    ensures FirstFitPairs(pairs, preds, gts, tolerance)
  {
    var front := preds[..|preds| - 1];
    forall k | 0 <= k < |pairs| ensures FitsFirst(pairs, k, preds, gts, tolerance) {
      assert FitsFirst(pairs, k, front, gts, tolerance);
      assert preds[pairs[k].0] == front[pairs[k].0];
    }
  }

  /** A pair that takes the first compatible ground truth left after all
      earlier pairs can be appended. */
  lemma FirstFitPairsSnoc(pairs: seq<(nat, nat)>, x: (nat, nat), preds: seq<Event>, gts: seq<Event>, tolerance: int)
    requires FirstFitPairs(pairs, preds, gts, tolerance)
    requires x.0 < |preds| && FirstFit(preds[x.0], gts, GtIndices(pairs), tolerance, 0) == Some(x.1)
    ensures FirstFitPairs(pairs + [x], preds, gts, tolerance)
  {
    var ps := pairs + [x];
    forall k | 0 <= k < |ps| ensures FitsFirst(ps, k, preds, gts, tolerance) {
      if k < |pairs| {
        assert ps[..k] == pairs[..k] && ps[k] == pairs[k];
        assert FitsFirst(pairs, k, preds, gts, tolerance);
      } else {
        assert ps[..k] == pairs;
      }
    }
  }

  /** The matching is the first-fit one: each pair's ground truth is the
      first compatible ground truth not taken by an earlier pair. */
  lemma {:induction false} AnomalyMatchIsFirstFit(preds: seq<Event>, gts: seq<Event>, tolerance: int)
    ensures FirstFitPairs(AnomalyMatch(preds, gts, tolerance).pairs, preds, gts, tolerance)
    decreases |preds|
  {
    if |preds| > 0 {
      var front := preds[..|preds| - 1];
      AnomalyMatchIsFirstFit(front, gts, tolerance);
      AnomalyMatchShape(front, gts, tolerance);
      var m := AnomalyMatch(front, gts, tolerance);
      FirstFitPairsGrow(m.pairs, preds, gts, tolerance);
      var i := |preds| - 1;
      match FirstFit(preds[i], gts, m.gts, tolerance, 0)
      case None =>
      case Some(g) =>
        FirstFitPairsSnoc(m.pairs, (i, g), preds, gts, tolerance);
    }
  }

  /** The pairs whose prediction comes before prediction `p`, in order. */
  function PairsBefore(pairs: seq<(nat, nat)>, p: int): seq<(nat, nat)>
  {
    if |pairs| == 0 then []
    else PairsBefore(pairs[..|pairs| - 1], p) + (if pairs[|pairs| - 1].0 < p then [pairs[|pairs| - 1]] else [])
  }

  /** When every prediction of the pairs comes before `p`, all pairs do. */
  lemma {:induction false} PairsBeforeAll(pairs: seq<(nat, nat)>, p: int)
    requires forall k :: 0 <= k < |pairs| ==> pairs[k].0 < p
    ensures PairsBefore(pairs, p) == pairs
    decreases |pairs|
  {
    if |pairs| > 0 {
      var front := pairs[..|pairs| - 1];
      assert forall k :: 0 <= k < |front| ==> front[k] == pairs[k];
      PairsBeforeAll(front, p);
      assert front + [pairs[|pairs| - 1]] == pairs;
    }
  }

  /** A pair for a prediction at or after `p` does not come before it. */
  lemma PairsBeforeSnoc(pairs: seq<(nat, nat)>, x: (nat, nat), p: int)
    requires x.0 >= p
    ensures PairsBefore(pairs + [x], p) == PairsBefore(pairs, p)
  {
    assert (pairs + [x])[..|pairs|] == pairs;
  }

  /** Every prediction left unmatched found no compatible ground truth among
      those the earlier predictions had not taken. */
  predicate SkipsOnlyUnfit(m: Matching, preds: seq<Event>, gts: seq<Event>, tolerance: int)
  {
    forall p :: 0 <= p < |preds| && p !in m.preds ==> NoFitLeft(preds[p], m.pairs, p, gts, tolerance)
  }

  /** Event `e`, with turn `p`, finds no compatible ground truth among those
      the pairs before it have not taken. */
  predicate NoFitLeft(e: Event, pairs: seq<(nat, nat)>, p: int, gts: seq<Event>, tolerance: int)
  {
    FirstFit(e, gts, GtIndices(PairsBefore(pairs, p)), tolerance, 0).None?
  }

  /** A prediction is left unmatched only when, at its turn, no compatible
      ground truth was left. */
  lemma {:induction false} AnomalyMatchSkipsOnlyUnfit(preds: seq<Event>, gts: seq<Event>, tolerance: int)
    ensures SkipsOnlyUnfit(AnomalyMatch(preds, gts, tolerance), preds, gts, tolerance)
    decreases |preds|
  {
    if |preds| > 0 {
      var front := preds[..|preds| - 1];
      AnomalyMatchSkipsOnlyUnfit(front, gts, tolerance);
      AnomalyMatchShape(front, gts, tolerance);
      var m := AnomalyMatch(front, gts, tolerance);
      var i := |preds| - 1;
      match FirstFit(preds[i], gts, m.gts, tolerance, 0)
      case None =>
        SkipUnfitLast(m, preds, gts, tolerance);
      case Some(g) =>
        SkipAfterMatch(m, preds, gts, tolerance, g);
    }
  }

  /** The step of `AnomalyMatchSkipsOnlyUnfit` when the last prediction finds
      no ground truth. */
  lemma SkipUnfitLast(m: Matching, preds: seq<Event>, gts: seq<Event>, tolerance: int)
    requires |preds| > 0 && SkipsOnlyUnfit(m, preds[..|preds| - 1], gts, tolerance)
    requires forall k :: 0 <= k < |m.pairs| ==> m.pairs[k].0 < |preds| - 1
    requires m.gts == GtIndices(m.pairs)
    requires FirstFit(preds[|preds| - 1], gts, m.gts, tolerance, 0).None?
    ensures SkipsOnlyUnfit(m, preds, gts, tolerance)
  {
    var front := preds[..|preds| - 1];
    var i := |preds| - 1;
    forall p | 0 <= p < |preds| && p !in m.preds
      ensures NoFitLeft(preds[p], m.pairs, p, gts, tolerance)
    {
      if p < i {
        assert preds[p] == front[p];
      } else {
        PairsBeforeAll(m.pairs, i);
      }
    }
  }

  /** The step of `AnomalyMatchSkipsOnlyUnfit` when the last prediction is
      matched to `g`. */
  lemma SkipAfterMatch(m: Matching, preds: seq<Event>, gts: seq<Event>, tolerance: int, g: nat)
    requires |preds| > 0 && SkipsOnlyUnfit(m, preds[..|preds| - 1], gts, tolerance)
    ensures SkipsOnlyUnfit(Matching(m.preds + {|preds| - 1}, m.gts + {g}, m.pairs + [(|preds| - 1, g)]),
                           preds, gts, tolerance)
  {
    var front := preds[..|preds| - 1];
    var i := |preds| - 1;
    var r := Matching(m.preds + {i}, m.gts + {g}, m.pairs + [(i, g)]);
    forall p | 0 <= p < |preds| && p !in r.preds
      ensures NoFitLeft(preds[p], r.pairs, p, gts, tolerance)
    {
      assert preds[p] == front[p];
      PairsBeforeSnoc(m.pairs, (i, g), p);
    }
  }

  /** The first-fit reading of `evaluate_anomaly_detection` as a property of
      a list of pairs: predictions in range and ascending, each pair takes
      the first compatible ground truth left to it, and each prediction
      without a pair had none left. */
  predicate FirstFitRun(q: seq<(nat, nat)>, preds: seq<Event>, gts: seq<Event>, tolerance: int)
  {
    && (forall k :: 0 <= k < |q| ==> q[k].0 < |preds|)
    && (forall k, l :: 0 <= k < l < |q| ==> q[k].0 < q[l].0)
    && FirstFitPairs(q, preds, gts, tolerance)
    && SkipsOnlyUnfit(Matching(PredIndices(q), GtIndices(q), q), preds, gts, tolerance)
  }

  /** The matching's pairs are exactly the first-fit run: they satisfy it,
      and no other list of pairs does. */
  lemma AnomalyMatchCharacterised(q: seq<(nat, nat)>, preds: seq<Event>, gts: seq<Event>, tolerance: int)
    ensures FirstFitRun(q, preds, gts, tolerance) <==> q == AnomalyMatch(preds, gts, tolerance).pairs
  {
    AnomalyMatchIsRun(preds, gts, tolerance);
    if FirstFitRun(q, preds, gts, tolerance) {
      FirstFitRunUnique(q, preds, gts, tolerance);
    }
  }

  /** The matching's own pairs form a first-fit run. */
  lemma AnomalyMatchIsRun(preds: seq<Event>, gts: seq<Event>, tolerance: int)
    ensures FirstFitRun(AnomalyMatch(preds, gts, tolerance).pairs, preds, gts, tolerance)
  {
    var m := AnomalyMatch(preds, gts, tolerance);
    AnomalyMatchShape(preds, gts, tolerance);
    AnomalyMatchIsFirstFit(preds, gts, tolerance);
    AnomalyMatchSkipsOnlyUnfit(preds, gts, tolerance);
    AnomalyMatchInjective(preds, gts, tolerance);
    assert Matching(PredIndices(m.pairs), GtIndices(m.pairs), m.pairs) == m;
  }

  /** Only one list of pairs is a first-fit run. */
  lemma {:induction false} FirstFitRunUnique(q: seq<(nat, nat)>, preds: seq<Event>, gts: seq<Event>, tolerance: int)
    requires FirstFitRun(q, preds, gts, tolerance)
    ensures q == AnomalyMatch(preds, gts, tolerance).pairs
    decreases |preds|
  {
    if |preds| == 0 {
      RunLength(q, 0);
    } else {
      var i := |preds| - 1;
      var q' := if |q| > 0 && q[|q| - 1].0 == i then q[..|q| - 1] else q;
      DropLastRun(q, q', preds, gts, tolerance);
      FirstFitRunUnique(q', preds[..i], gts, tolerance);
      if |q| > 0 && q[|q| - 1].0 == i {
        UniqueStepPaired(q, preds, gts, tolerance);
      } else {
        UniqueStepUnpaired(q, preds, gts, tolerance);
      }
    }
  }

  /** Ascending prediction indices below `n` number at most `n`. */
  lemma {:induction false} RunLength(q: seq<(nat, nat)>, n: nat)
    requires forall k :: 0 <= k < |q| ==> q[k].0 < n
    requires forall k, l :: 0 <= k < l < |q| ==> q[k].0 < q[l].0
    ensures |q| <= n
    decreases |q|
  {
    if |q| > 0 {
      var front := q[..|q| - 1];
      assert forall k :: 0 <= k < |front| ==> front[k] == q[k];
      assert q[|q| - 1].0 < n;
      RunLength(front, q[|q| - 1].0);
    }
  }

  /** The inductive step of `FirstFitRunUnique` when the last prediction has
      the run's last pair. */
  lemma UniqueStepPaired(q: seq<(nat, nat)>, preds: seq<Event>, gts: seq<Event>, tolerance: int)
    requires |preds| > 0 && |q| > 0 && q[|q| - 1].0 == |preds| - 1
    requires FirstFitPairs(q, preds, gts, tolerance)
    requires q[..|q| - 1] == AnomalyMatch(preds[..|preds| - 1], gts, tolerance).pairs
    ensures q == AnomalyMatch(preds, gts, tolerance).pairs
  {
    AnomalyMatchShape(preds[..|preds| - 1], gts, tolerance);
    AnomalyMatchStep(preds, gts, tolerance);
    LastPairIsFit(q, preds, gts, tolerance);
    assert q == q[..|q| - 1] + [q[|q| - 1]];
  }

  /** The inductive step of `FirstFitRunUnique` when the last prediction has
      no pair. */
  lemma UniqueStepUnpaired(q: seq<(nat, nat)>, preds: seq<Event>, gts: seq<Event>, tolerance: int)
    requires |preds| > 0 && FirstFitRun(q, preds, gts, tolerance)
    requires !(|q| > 0 && q[|q| - 1].0 == |preds| - 1)
    requires q == AnomalyMatch(preds[..|preds| - 1], gts, tolerance).pairs
    ensures q == AnomalyMatch(preds, gts, tolerance).pairs
  {
    AnomalyMatchShape(preds[..|preds| - 1], gts, tolerance);
    AnomalyMatchStep(preds, gts, tolerance);
    NoPairNoFit(q, preds, gts, tolerance);
  }

  /** One step of the matching: the last prediction adds its first fit, if
      it has one. */
  lemma AnomalyMatchStep(preds: seq<Event>, gts: seq<Event>, tolerance: int)
    requires |preds| > 0
    ensures var m := AnomalyMatch(preds[..|preds| - 1], gts, tolerance);
      var fit := FirstFit(preds[|preds| - 1], gts, m.gts, tolerance, 0);
      AnomalyMatch(preds, gts, tolerance).pairs == m.pairs + (if fit.Some? then [(|preds| - 1, fit.value)] else [])
  {
  }

  /** The last pair of a first-fit list takes the first fit left to it. */
  lemma LastPairIsFit(q: seq<(nat, nat)>, preds: seq<Event>, gts: seq<Event>, tolerance: int)
    requires |q| > 0 && FirstFitPairs(q, preds, gts, tolerance)
    ensures q[|q| - 1].0 < |preds|
    ensures FirstFit(preds[q[|q| - 1].0], gts, GtIndices(q[..|q| - 1]), tolerance, 0) == Some(q[|q| - 1].1)
  {
    assert FitsFirst(q, |q| - 1, preds, gts, tolerance);
  }

  /** When the last prediction has no pair in a first-fit run, it had no fit
      left. */
  lemma NoPairNoFit(q: seq<(nat, nat)>, preds: seq<Event>, gts: seq<Event>, tolerance: int)
    requires |preds| > 0 && FirstFitRun(q, preds, gts, tolerance)
    requires !(|q| > 0 && q[|q| - 1].0 == |preds| - 1)
    ensures FirstFit(preds[|preds| - 1], gts, GtIndices(q), tolerance, 0).None?
  {
    var i := |preds| - 1;
    forall k | 0 <= k < |q| ensures q[k].0 < i {
      if k < |q| - 1 {
        assert q[k].0 < q[|q| - 1].0;
      }
    }
    assert i !in PredIndices(q) by {
      if i in PredIndices(q) {
        var k := PredIndexWitness(q, i);
      }
    }
    assert NoFitLeft(preds[i], q, i, gts, tolerance);
    PairsBeforeAll(q, i);
  }

  /** Removing the pair of the last prediction, if any, leaves a first-fit run
      of the other predictions. */
  lemma DropLastRun(q: seq<(nat, nat)>, q': seq<(nat, nat)>, preds: seq<Event>, gts: seq<Event>, tolerance: int)
    requires |preds| > 0 && FirstFitRun(q, preds, gts, tolerance)
    requires q' == if |q| > 0 && q[|q| - 1].0 == |preds| - 1 then q[..|q| - 1] else q
    ensures FirstFitRun(q', preds[..|preds| - 1], gts, tolerance)
  {
    var i := |preds| - 1;
    var front := preds[..i];
    assert forall k :: 0 <= k < |q'| ==> q'[k] == q[k];
    forall k | 0 <= k < |q'| ensures q'[k].0 < i {
      if k < |q| - 1 {
        assert q[k].0 < q[|q| - 1].0;
      }
    }
    forall k | 0 <= k < |q'| ensures FitsFirst(q', k, front, gts, tolerance) {
      assert FitsFirst(q, k, preds, gts, tolerance);
      assert q'[..k] == q[..k];
      assert front[q'[k].0] == preds[q'[k].0];
    }
    if q' != q {
      DropLastSkips(q', q[|q| - 1], preds, gts, tolerance);
    } else {
      KeepSkips(q, preds, gts, tolerance);
    }
  }

  /** The unmatched-prediction half of `DropLastRun` when the last
      prediction had pair `x`. */
  lemma DropLastSkips(q': seq<(nat, nat)>, x: (nat, nat), preds: seq<Event>, gts: seq<Event>, tolerance: int)
    requires |preds| > 0 && x.0 == |preds| - 1
    requires SkipsOnlyUnfit(Matching(PredIndices(q' + [x]), GtIndices(q' + [x]), q' + [x]), preds, gts, tolerance)
    ensures SkipsOnlyUnfit(Matching(PredIndices(q'), GtIndices(q'), q'), preds[..|preds| - 1], gts, tolerance)
  {
    var i := |preds| - 1;
    var front := preds[..i];
    ComponentsSnoc(q', x);
    forall p | 0 <= p < i && p !in PredIndices(q') ensures NoFitLeft(front[p], q', p, gts, tolerance) {
      assert NoFitLeft(preds[p], q' + [x], p, gts, tolerance);
      PairsBeforeSnoc(q', x, p);
      assert front[p] == preds[p];
    }
  }

  /** The unmatched-prediction half of `DropLastRun` when the last
      prediction had no pair. */
  lemma KeepSkips(q: seq<(nat, nat)>, preds: seq<Event>, gts: seq<Event>, tolerance: int)
    requires |preds| > 0 && SkipsOnlyUnfit(Matching(PredIndices(q), GtIndices(q), q), preds, gts, tolerance)
    ensures SkipsOnlyUnfit(Matching(PredIndices(q), GtIndices(q), q), preds[..|preds| - 1], gts, tolerance)
  {
    var front := preds[..|preds| - 1];
    forall p | 0 <= p < |front| && p !in PredIndices(q) ensures NoFitLeft(front[p], q, p, gts, tolerance) {
      assert front[p] == preds[p];
    }
  }

  /** `evaluate_anomaly_detection` counts: (true positives, false positives,
      false negatives). */
  function EvaluateAnomaly(preds: seq<Event>, gts: seq<Event>, tolerance: int): (r: (int, int, int))
    ensures r.0 + r.1 == |preds|
  {
    var m := AnomalyMatch(preds, gts, tolerance);
    (|m.preds|, |preds| - |m.preds|, |gts| - |m.gts|)
  }

  /** True positives count the matched pairs, which are as many as the
      matched ground truths; false positives and false negatives are never
      negative. */
  lemma AnomalyCounts(preds: seq<Event>, gts: seq<Event>, tolerance: int)
    ensures var (tp, fp, fn) := EvaluateAnomaly(preds, gts, tolerance);
      && tp == |AnomalyMatch(preds, gts, tolerance).pairs|
      && tp + fn == |gts|
      && 0 <= tp && fp >= 0 && fn >= 0
  {
    var m := AnomalyMatch(preds, gts, tolerance);
    AnomalyMatchShape(preds, gts, tolerance);
    AnomalyMatchCompatible(preds, gts, tolerance);
    AnomalyMatchInjective(preds, gts, tolerance);
    ComponentCounts(m.pairs);
    forall x | x in m.gts ensures 0 <= x < |gts| {
      var k := GtIndexWitness(m.pairs, x);
    }
    BoundedIndexSet(m.gts, |gts|);
  }

  /** No predictions: nothing true or false positive, every ground truth missed. */
  lemma NoPredictions(gts: seq<Event>, tolerance: int)
    ensures EvaluateAnomaly([], gts, tolerance) == (0, 0, |gts|)
  {
  }
}
