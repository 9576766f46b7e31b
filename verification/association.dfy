/**
 * Frame-to-frame data association of the tracker
 * (`DeepSORT._associate_detections_to_trackers`): an IoU matrix between
 * detections (rows) and predicted track boxes (columns), a fast path when the
 * thresholded matrix is already a partial permutation, otherwise an optimal
 * assignment solver, then rejection of low-IoU pairs.
 */
module Association {
  import opened Common
  import opened Geometry

  /** (detection index, tracker index). */
  type Pair = (nat, nat)

  type Matrix = seq<seq<real>>

  /** Every row of `m` has `cols` entries. */
  predicate IsMatrix(m: Matrix, cols: nat)
  {
    forall d :: 0 <= d < |m| ==> |m[d]| == cols
  }

  /** The pairwise IoU matrix, one row per detection and one column per tracker. */
  function IouMatrix(dets: seq<Box>, trks: seq<Box>): (m: Matrix)
    ensures |m| == |dets| && IsMatrix(m, |trks|)
    ensures forall d, t :: 0 <= d < |dets| && 0 <= t < |trks| ==> m[d][t] == Iou(dets[d], trks[t])
  {
    seq(|dets|, d requires 0 <= d < |dets| =>
      seq(|trks|, t requires 0 <= t < |trks| => Iou(dets[d], trks[t])))
  }

  /** For well-formed boxes every entry of the IoU matrix lies in [0, 1). */
  lemma IouMatrixRange(dets: seq<Box>, trks: seq<Box>)
    requires forall d :: 0 <= d < |dets| ==> WellFormed(dets[d])
    requires forall t :: 0 <= t < |trks| ==> WellFormed(trks[t])
    ensures var m := IouMatrix(dets, trks);
      forall d, t :: 0 <= d < |dets| && 0 <= t < |trks| ==> 0.0 <= m[d][t] < 1.0
  {
    forall d, t | 0 <= d < |dets| && 0 <= t < |trks|
      ensures 0.0 <= Iou(dets[d], trks[t]) < 1.0
    {
      IouRange(dets[d], trks[t]);
    }
  }

  /** The cost matrix `-iou_matrix` handed to the solver. */
  function Negated(m: Matrix): (c: Matrix)
    ensures |c| == |m|
  {
    seq(|m|, d requires 0 <= d < |m| => seq(|m[d]|, t requires 0 <= t < |m[d]| => -m[d][t]))
  }

  /** A one-to-one pairing of row and column indices within bounds. */
  predicate ValidPairing(ps: seq<Pair>, rows: nat, cols: nat)
  {
    && (forall i :: 0 <= i < |ps| ==> ps[i].0 < rows && ps[i].1 < cols)
    && (forall i, j :: 0 <= i < j < |ps| ==> ps[i].0 != ps[j].0 && ps[i].1 != ps[j].1)
  }

  /** What is assumed of the optimal assignment solver: on a non-empty
      rectangular cost matrix it returns a one-to-one pairing within bounds.
      Its optimality is not modelled. */
  ghost predicate SolverContract(solve: Matrix -> seq<Pair>)
  {
    forall c: Matrix :: |c| > 0 && IsMatrix(c, |c[0]|) ==> ValidPairing(solve(c), |c|, |c[0]|)
  }

  /** Column t of m. */
  function Column(m: Matrix, t: nat): (col: seq<real>)
    requires IsMatrix(m, t + 1) || (forall d :: 0 <= d < |m| ==> t < |m[d]|)
    ensures |col| == |m|
    ensures forall d :: 0 <= d < |m| ==> col[d] == m[d][t]
  {
    seq(|m|, d requires 0 <= d < |m| => m[d][t])
  }

  /** The fast-path test `a.sum(1).max() == 1 and a.sum(0).max() == 1` on
      the matrix thresholded with a strict `>`: no row and no column has two
      entries above the threshold, and some entry is above it. */
  predicate FastPathApplies(m: Matrix, cols: nat, thr: real)
    requires IsMatrix(m, cols)
  {
    && (forall d :: 0 <= d < |m| ==> CountAbove(m[d], thr) <= 1)
    && (exists d :: 0 <= d < |m| && CountAbove(m[d], thr) == 1)
    && (forall t :: 0 <= t < cols ==> CountAbove(Column(m, t), thr) <= 1)
    && (exists t :: 0 <= t < cols && CountAbove(Column(m, t), thr) == 1)
  }

  /** The first index of a row whose entry is above the threshold. */
  function FirstAbove(row: seq<real>, thr: real, from: nat): (r: Option<nat>)
    requires from <= |row|
    ensures r.Some? ==> from <= r.value < |row| && row[r.value] > thr
    ensures r.Some? ==> forall t :: from <= t < r.value ==> row[t] <= thr
    ensures r.None? ==> forall t :: from <= t < |row| ==> row[t] <= thr
    decreases |row| - from
  {
    if from == |row| then None
    else if row[from] > thr then Some(from)
    else FirstAbove(row, thr, from + 1)
  }

  /** `np.where(a)` in row-major order, written for the case the fast path
      admits (at most one entry above the threshold per row): one pair for
      each row that has such an entry, rows ascending. */
  function WherePairs(m: Matrix, cols: nat, thr: real, from: nat): (ps: seq<Pair>)
    requires IsMatrix(m, cols) && from <= |m|
    ensures forall i :: 0 <= i < |ps| ==> from <= ps[i].0 < |m| && ps[i].1 < cols
    ensures forall i :: 0 <= i < |ps| ==> m[ps[i].0][ps[i].1] > thr
    ensures forall i, j :: 0 <= i < j < |ps| ==> ps[i].0 < ps[j].0
    decreases |m| - from
  {
    if from == |m| then []
    else
      var rest := WherePairs(m, cols, thr, from + 1);
      match FirstAbove(m[from], thr, 0)
      case None => rest
      case Some(t) => [(from, t)] + rest
  }

  /** With at most one entry above the threshold per row, the pairs are
      exactly the positions above the threshold: the same list `np.where` gives. */
  lemma {:induction false} WherePairsComplete(m: Matrix, cols: nat, thr: real, from: nat, d: nat, t: nat)
    requires IsMatrix(m, cols) && from <= d < |m| && t < cols
    requires forall k :: 0 <= k < |m| ==> CountAbove(m[k], thr) <= 1
    requires m[d][t] > thr
    ensures (d, t) in WherePairs(m, cols, thr, from)
    decreases |m| - from
  {
    var rest := WherePairs(m, cols, thr, from + 1);
    if d == from {
      var f := FirstAbove(m[from], thr, 0);
      assert f.Some?;
      CountAtMostOneUnique(m[d], thr, f.value, t);
    } else {
      WherePairsComplete(m, cols, thr, from + 1, d, t);
      match FirstAbove(m[from], thr, 0)
      case None =>
      case Some(t') => assert WherePairs(m, cols, thr, from) == [(from, t')] + rest;
    }
  }

  /** The fast-path pairs form a one-to-one pairing. */
  lemma WherePairsValid(m: Matrix, cols: nat, thr: real)
    requires IsMatrix(m, cols)
    requires forall t :: 0 <= t < cols ==> CountAbove(Column(m, t), thr) <= 1
    ensures ValidPairing(WherePairs(m, cols, thr, 0), |m|, cols)
  {
    var ps := WherePairs(m, cols, thr, 0);
    forall i, j | 0 <= i < j < |ps|
      ensures ps[i].1 != ps[j].1
    {
      if ps[i].1 == ps[j].1 {
        var t := ps[i].1;
        CountAtMostOneUnique(Column(m, t), thr, ps[i].0, ps[j].0);
      }
    }
  }

  /** Indices `0..n-1` that are not in `used`, ascending. */
  function NotIn(n: nat, used: set<nat>): (r: seq<nat>)
    ensures forall i :: 0 <= i < |r| ==> r[i] < n && r[i] !in used
    ensures forall k :: 0 <= k < n && k !in used ==> k in r
    ensures forall i, j :: 0 <= i < j < |r| ==> r[i] < r[j]
  {
    if n == 0 then []
    else
      var prefix := NotIn(n - 1, used);
      if n - 1 in used then prefix else prefix + [n - 1]
  }

  /** The detection index (`first`) or the tracker index of a pair. */
  function Side(p: Pair, first: bool): nat { if first then p.0 else p.1 }

  /** The indices of one side used by a list of pairs. */
  function Used(ps: seq<Pair>, first: bool): set<nat> { set i | 0 <= i < |ps| :: Side(ps[i], first) }

  function Firsts(ps: seq<Pair>): set<nat> { Used(ps, true) }
  function Seconds(ps: seq<Pair>): set<nat> { Used(ps, false) }

  /** No pair occurs twice. */
  predicate NoDup<T(==)>(s: seq<T>)
  {
    forall i, j :: 0 <= i < j < |s| ==> s[i] != s[j]
  }

  /** Every pair indexes an entry of `m`. */
  predicate InMatrix(ps: seq<Pair>, m: Matrix)
  {
    forall i :: 0 <= i < |ps| ==> ps[i].0 < |m| && ps[i].1 < |m[ps[i].0]|
  }

  /** The pairs of `ps`, in order, whose IoU reaches the threshold (`keep`
      true) or falls below it (`keep` false). */
  function Filter(ps: seq<Pair>, m: Matrix, thr: real, keep: bool): seq<Pair>
  {
    if |ps| == 0 then []
    else (if Qualifies(ps[0], m, thr, keep) then [ps[0]] else []) + Filter(ps[1..], m, thr, keep)
  }

  /** The pair indexes an entry of `m` on the requested side of the threshold. */
  predicate Qualifies(p: Pair, m: Matrix, thr: real, keep: bool)
  {
    p.0 < |m| && p.1 < |m[p.0]| && (m[p.0][p.1] >= thr) == keep
  }

  /** What `Filter` keeps: only qualifying members of `ps`, every
      qualifying member, and no duplicates unless `ps` has some. */
  lemma {:induction false} FilterMembers(ps: seq<Pair>, m: Matrix, thr: real, keep: bool)
    requires InMatrix(ps, m)
    ensures var r := Filter(ps, m, thr, keep);
      && (forall i :: 0 <= i < |r| ==> r[i] in ps && (m[r[i].0][r[i].1] >= thr) == keep)
      && (forall i :: 0 <= i < |ps| && (m[ps[i].0][ps[i].1] >= thr) == keep ==> ps[i] in r)
      && (NoDup(ps) ==> NoDup(r))
  {
    if |ps| > 0 {
      var rest := Filter(ps[1..], m, thr, keep);
      FilterMembers(ps[1..], m, thr, keep);
      assert forall i :: 0 <= i < |rest| ==> rest[i] in ps[1..];
      assert NoDup(ps) ==> ps[0] !in ps[1..];
      forall i | 1 <= i < |ps| ensures ps[i] == ps[1..][i - 1] {
      }
    }
  }

  /** The candidate pairs, in order, whose IoU reaches the threshold
      (`keep` true) or falls below it (`keep` false). */
  function Select(ps: seq<Pair>, m: Matrix, thr: real, keep: bool): (r: seq<Pair>)
    requires InMatrix(ps, m)
    ensures forall i :: 0 <= i < |r| ==> r[i] in ps && (m[r[i].0][r[i].1] >= thr) == keep
    ensures forall i :: 0 <= i < |ps| && (m[ps[i].0][ps[i].1] >= thr) == keep ==> ps[i] in r
    ensures NoDup(ps) ==> NoDup(r)
  {
    FilterMembers(ps, m, thr, keep);
    Filter(ps, m, thr, keep)
  }

  /** A single candidate is kept exactly when its IoU is on the requested
      side of the threshold. */
  lemma SelectOne(p: Pair, m: Matrix, thr: real, keep: bool)
    requires p.0 < |m| && p.1 < |m[p.0]|
    ensures Select([p], m, thr, keep) == if (m[p.0][p.1] >= thr) == keep then [p] else []
  {
    assert [p][1..] == [];
    assert Filter([p][1..], m, thr, keep) == [];
  }

  /** Selection distributes over concatenation, so the selected pairs keep
      their order and multiplicity in the candidate list. */
  lemma SelectAppend(a: seq<Pair>, b: seq<Pair>, m: Matrix, thr: real, keep: bool)
    requires InMatrix(a, m) && InMatrix(b, m)
    ensures InMatrix(a + b, m)
    ensures Select(a + b, m, thr, keep) == Select(a, m, thr, keep) + Select(b, m, thr, keep)
  {
    InMatrixAppend(a, b, m);
    FilterAppend(a, b, m, thr, keep);
  }

  lemma {:induction false} FilterAppend(a: seq<Pair>, b: seq<Pair>, m: Matrix, thr: real, keep: bool)
    ensures Filter(a + b, m, thr, keep) == Filter(a, m, thr, keep) + Filter(b, m, thr, keep)
    decreases |a|
  {
    if |a| == 0 {
      assert a + b == b;
    } else {
      var tail := a[1..];
      FilterAppend(tail, b, m, thr, keep);
      var h := if Qualifies(a[0], m, thr, keep) then [a[0]] else [];
      var ft, fb := Filter(tail, m, thr, keep), Filter(b, m, thr, keep);
      assert Filter(a + b, m, thr, keep) == h + (ft + fb) by {
        assert (a + b)[1..] == tail + b;
        assert (a + b)[0] == a[0];
      }
      assert Filter(a, m, thr, keep) == h + ft;
      AppendAssoc(h, ft, fb);
    }
  }

  lemma AppendAssoc<T>(x: seq<T>, y: seq<T>, z: seq<T>)
    ensures x + (y + z) == (x + y) + z
  {
  }

  lemma InMatrixAppend(a: seq<Pair>, b: seq<Pair>, m: Matrix)
    requires InMatrix(a, m) && InMatrix(b, m)
    ensures InMatrix(a + b, m)
  {
    var ab := a + b;
    forall i | 0 <= i < |ab| ensures ab[i].0 < |m| && ab[i].1 < |m[ab[i].0]| {
      if i >= |a| {
        assert ab[i] == b[i - |a|];
      }
    }
  }

  /** In a one-to-one pairing, a pair is determined by either of its indices. */
  lemma PairingInjective(ps: seq<Pair>, rows: nat, cols: nat, p: Pair, q: Pair)
    requires ValidPairing(ps, rows, cols)
    requires p in ps && q in ps
    ensures p.0 == q.0 ==> p == q
    ensures p.1 == q.1 ==> p == q
    ensures NoDup(ps)
  {
  }

  /** One side of each pair, in order. */
  function MapSide(ps: seq<Pair>, first: bool): (r: seq<nat>)
    ensures |r| == |ps| && forall i :: 0 <= i < |ps| ==> r[i] == Side(ps[i], first)
  {
    seq(|ps|, i requires 0 <= i < |ps| => Side(ps[i], first))
  }

  /** The unmatched indices of one side: those no candidate uses, ascending,
      then those of rejected candidates in candidate order. */
  function Unmatched(cand: seq<Pair>, m: Matrix, thr: real, bound: nat, first: bool): seq<nat>
    requires InMatrix(cand, m)
  {
    NotIn(bound, Used(cand, first)) + MapSide(Select(cand, m, thr, false), first)
  }

  datatype AssocResult = AssocResult(matches: seq<Pair>, unmatchedDets: seq<nat>, unmatchedTrks: seq<nat>)

  /** The candidate pairing before low-IoU rejection: the fast path when it
      applies, the solver on `-iou_matrix` otherwise, nothing when there are
      no detections. */
  function Candidates(m: Matrix, cols: nat, thr: real, solve: Matrix -> seq<Pair>): (ps: seq<Pair>)
    requires IsMatrix(m, cols) && cols > 0
    requires SolverContract(solve)
    ensures ValidPairing(ps, |m|, cols)
  {
    if |m| == 0 then []
    else if FastPathApplies(m, cols, thr) then
      WherePairsValid(m, cols, thr);
      WherePairs(m, cols, thr, 0)
    else
      var c := Negated(m);
      assert IsMatrix(c, cols) && |c[0]| == cols;
      solve(c)
  }

  /** `_associate_detections_to_trackers`: matches, then unmatched detection
      indices (those in no candidate pair, ascending, followed by those of
      rejected pairs), then unmatched tracker indices in the same layout. */
  function Associate(dets: seq<Box>, trks: seq<Box>, thr: real, solve: Matrix -> seq<Pair>): (r: AssocResult)
    requires SolverContract(solve)
    ensures forall i :: 0 <= i < |r.matches| ==>
      && r.matches[i].0 < |dets| && r.matches[i].1 < |trks|
      && Iou(dets[r.matches[i].0], trks[r.matches[i].1]) >= thr
    ensures |trks| == 0 ==> r.matches == [] && r.unmatchedTrks == [] && r.unmatchedDets == NotIn(|dets|, {})
  {
    if |trks| == 0 then AssocResult([], NotIn(|dets|, {}), [])
    else
      var m := IouMatrix(dets, trks);
      var cand := Candidates(m, |trks|, thr, solve);
      AssocResult(
        Select(cand, m, thr, true),
        Unmatched(cand, m, thr, |dets|, true),
        Unmatched(cand, m, thr, |trks|, false))
  }

  /** Index-partition property of association: every detection index is
      either the first component of exactly one kept match or appears exactly
      once among the unmatched detections, and likewise for tracker indices;
      kept matches are one-to-one with IoU at least the threshold; with no
      trackers every detection is unmatched. */
  lemma AssociatePartition(dets: seq<Box>, trks: seq<Box>, thr: real, solve: Matrix -> seq<Pair>)
    requires SolverContract(solve)
    ensures var r := Associate(dets, trks, thr, solve);
      && ValidPairing(r.matches, |dets|, |trks|)
      && (forall i :: 0 <= i < |r.matches| ==> Iou(dets[r.matches[i].0], trks[r.matches[i].1]) >= thr)
      && (forall i :: 0 <= i < |r.unmatchedDets| ==> r.unmatchedDets[i] < |dets|)
      && NoDup(r.unmatchedDets)
      && (forall d :: 0 <= d < |dets| ==> (d in r.unmatchedDets <==> d !in Firsts(r.matches)))
      && (forall i :: 0 <= i < |r.unmatchedTrks| ==> r.unmatchedTrks[i] < |trks|)
      && NoDup(r.unmatchedTrks)
      && (forall t :: 0 <= t < |trks| ==> (t in r.unmatchedTrks <==> t !in Seconds(r.matches)))
      && (|trks| == 0 ==> r.matches == [] && r.unmatchedDets == NotIn(|dets|, {}))
  {
    if |trks| > 0 {
      var m := IouMatrix(dets, trks);
      var cand := Candidates(m, |trks|, thr, solve);
      KeptValid(cand, m, thr, |dets|, |trks|);
      UnmatchedSide(cand, m, thr, |dets|, |trks|, true);
      UnmatchedSide(cand, m, thr, |dets|, |trks|, false);
    }
  }

  /** Kept pairs of a one-to-one candidate list are one-to-one. */
  lemma KeptValid(cand: seq<Pair>, m: Matrix, thr: real, n: nat, k: nat)
    requires |m| == n && IsMatrix(m, k)
    requires ValidPairing(cand, n, k)
    ensures ValidPairing(Select(cand, m, thr, true), n, k)
  {
    var kept := Select(cand, m, thr, true);
    if |cand| > 0 {
      PairingInjective(cand, n, k, cand[0], cand[0]);
    }
    forall i, j | 0 <= i < j < |kept|
      ensures kept[i].0 != kept[j].0 && kept[i].1 != kept[j].1
    {
      PairingInjective(cand, n, k, kept[i], kept[j]);
    }
  }

  /** The bound on one side's indices. */
  function Bound(n: nat, k: nat, first: bool): nat { if first then n else k }

  /** Rejected candidates use distinct indices, each used by some candidate. */
  lemma RejectedSide(cand: seq<Pair>, m: Matrix, thr: real, n: nat, k: nat, first: bool)
    requires |m| == n && IsMatrix(m, k)
    requires ValidPairing(cand, n, k)
    ensures var rs := MapSide(Select(cand, m, thr, false), first);
      && NoDup(rs)
      && (forall i :: 0 <= i < |rs| ==> rs[i] in Used(cand, first) && rs[i] < Bound(n, k, first))
  {
    var rejected := Select(cand, m, thr, false);
    var rs := MapSide(rejected, first);
    if |cand| > 0 {
      PairingInjective(cand, n, k, cand[0], cand[0]);
    }
    forall i | 0 <= i < |rs| ensures rs[i] in Used(cand, first) && rs[i] < Bound(n, k, first) {
      var c :| 0 <= c < |cand| && cand[c] == rejected[i];
    }
    forall i, j | 0 <= i < j < |rs| ensures rs[i] != rs[j] {
      PairingInjective(cand, n, k, rejected[i], rejected[j]);
    }
  }

  /** The unmatched indices of one side are duplicate-free, in range, and
      exactly the indices that no kept pair uses. */
  lemma UnmatchedSide(cand: seq<Pair>, m: Matrix, thr: real, n: nat, k: nat, first: bool)
    requires |m| == n && IsMatrix(m, k)
    requires ValidPairing(cand, n, k)
    ensures var u := Unmatched(cand, m, thr, Bound(n, k, first), first);
      && (forall i :: 0 <= i < |u| ==> u[i] < Bound(n, k, first))
      && NoDup(u)
      && (forall d :: 0 <= d < Bound(n, k, first) ==> (d in u <==> d !in Used(Select(cand, m, thr, true), first)))
  {
    var b := Bound(n, k, first);
    var nd := NotIn(b, Used(cand, first));
    var rs := MapSide(Select(cand, m, thr, false), first);
    RejectedSide(cand, m, thr, n, k, first);
    var u := nd + rs;
    assert u == Unmatched(cand, m, thr, b, first);
    forall i, j | 0 <= i < j < |u| ensures u[i] != u[j] {
      if i < |nd| && j >= |nd| {
        assert u[j] == rs[j - |nd|];
      }
    }
    forall d | 0 <= d < b ensures d in u <==> d !in Used(Select(cand, m, thr, true), first) {
      UnmatchedPoint(cand, m, thr, n, k, first, d);
    }
  }

  lemma UnmatchedPoint(cand: seq<Pair>, m: Matrix, thr: real, n: nat, k: nat, first: bool, d: nat)
    requires |m| == n && IsMatrix(m, k)
    requires ValidPairing(cand, n, k)
    requires d < Bound(n, k, first)
    ensures d in Unmatched(cand, m, thr, Bound(n, k, first), first) <==> d !in Used(Select(cand, m, thr, true), first)
  {
    if d in Used(Select(cand, m, thr, true), first) {
      KeptNotUnmatched(cand, m, thr, n, k, first, d);
    } else {
      UnkeptUnmatched(cand, m, thr, n, k, first, d);
    }
  }

  /** An index a kept pair uses is not unmatched. */
  lemma KeptNotUnmatched(cand: seq<Pair>, m: Matrix, thr: real, n: nat, k: nat, first: bool, d: nat)
    requires |m| == n && IsMatrix(m, k)
    requires ValidPairing(cand, n, k)
    requires d in Used(Select(cand, m, thr, true), first)
    ensures d !in Unmatched(cand, m, thr, Bound(n, k, first), first)
  {
    var kept := Select(cand, m, thr, true);
    var rejected := Select(cand, m, thr, false);
    var nd := NotIn(Bound(n, k, first), Used(cand, first));
    var rs := MapSide(rejected, first);
    var q :| 0 <= q < |kept| && Side(kept[q], first) == d;
    var c :| 0 <= c < |cand| && cand[c] == kept[q];
    assert d in Used(cand, first);
    assert d !in nd;
    if d in rs {
      var w :| 0 <= w < |rs| && rs[w] == d;
      PairingInjective(cand, n, k, kept[q], rejected[w]);
    }
  }

  /** An index no kept pair uses is unmatched. */
  lemma UnkeptUnmatched(cand: seq<Pair>, m: Matrix, thr: real, n: nat, k: nat, first: bool, d: nat)
    requires |m| == n && IsMatrix(m, k)
    requires ValidPairing(cand, n, k)
    requires d < Bound(n, k, first)
    requires d !in Used(Select(cand, m, thr, true), first)
    ensures d in Unmatched(cand, m, thr, Bound(n, k, first), first)
  {
    var kept := Select(cand, m, thr, true);
    var rejected := Select(cand, m, thr, false);
    var nd := NotIn(Bound(n, k, first), Used(cand, first));
    var rs := MapSide(rejected, first);
    if d in Used(cand, first) {
      var c :| 0 <= c < |cand| && Side(cand[c], first) == d;
      KeptUsed(cand, m, thr, n, k, first, c);
      assert cand[c] in rejected;
      var w :| 0 <= w < |rejected| && rejected[w] == cand[c];
      assert rs[w] == d;
    } else {
      assert d in nd;
    }
  }

  /** A candidate whose IoU reaches the threshold puts its index among the kept ones. */
  lemma KeptUsed(cand: seq<Pair>, m: Matrix, thr: real, n: nat, k: nat, first: bool, c: nat)
    requires |m| == n && IsMatrix(m, k)
    requires ValidPairing(cand, n, k)
    requires c < |cand|
    ensures m[cand[c].0][cand[c].1] >= thr ==> Side(cand[c], first) in Used(Select(cand, m, thr, true), first)
  {
    var kept := Select(cand, m, thr, true);
    if m[cand[c].0][cand[c].1] >= thr {
      var q :| 0 <= q < |kept| && kept[q] == cand[c];
      assert Side(kept[q], first) in Used(kept, first);
    }
  }
}
