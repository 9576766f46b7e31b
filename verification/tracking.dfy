/**
 * The tracker (`backend/tracking/deepsort.py`): per-track counters and the
 * constant-velocity mean step of the Kalman track, and the track manager's
 * per-frame cycle predict -> associate -> update -> create -> report -> prune.
 *
 * Three collaborators are parameters: `toBox` converts a state mean to a box
 * (it takes a square root), `correct` is the Kalman measurement update of the
 * mean (covariance and gain are not modelled), and `solve` is the optimal
 * assignment solver.
 */
module Tracking {
  import opened Common
  import opened Geometry
  import opened Association

  /** Kalman state mean `[cx, cy, s, r, vcx, vcy, vs]`: centre, area, aspect
      ratio and the velocities of centre and area. */
  datatype Mean = Mean(cx: real, cy: real, s: real, r: real, vcx: real, vcy: real, vs: real)

  /** Measurement `[cx, cy, s, r]`. */
  datatype Measurement = Measurement(cx: real, cy: real, s: real, r: real)

  /** `_bbox_to_z` divides by `h + 1e-6`, so that must not be zero. */
  predicate Measurable(b: Box)
  {
    b.y2 - b.y1 + Epsilon != 0.0
  }

  /** `_bbox_to_z`: centre, area and width over (height + 1e-6). */
  function BoxToMeasurement(b: Box): (z: Measurement)
    requires Measurable(b)
    ensures Point(z.cx, z.cy) == Center(b)
    ensures z.s == Area(b)
    ensures z.r * (b.y2 - b.y1 + Epsilon) == b.x2 - b.x1
  {
    var w := b.x2 - b.x1;
    var h := b.y2 - b.y1;
    Measurement(b.x1 + w / 2.0, b.y1 + h / 2.0, w * h, w / (h + Epsilon))
  }

  function ToVector(m: Mean): (v: seq<real>)
    ensures |v| == 7
  {
    [m.cx, m.cy, m.s, m.r, m.vcx, m.vcy, m.vs]
  }

  function FromVector(v: seq<real>): Mean
    requires |v| == 7
  {
    Mean(v[0], v[1], v[2], v[3], v[4], v[5], v[6])
  }

  /** The transition matrix F: each of cx, cy, s advances by its velocity. */
  const F: seq<seq<real>> := [
    [1.0, 0.0, 0.0, 0.0, 1.0, 0.0, 0.0],
    [0.0, 1.0, 0.0, 0.0, 0.0, 1.0, 0.0],
    [0.0, 0.0, 1.0, 0.0, 0.0, 0.0, 1.0],
    [0.0, 0.0, 0.0, 1.0, 0.0, 0.0, 0.0],
    [0.0, 0.0, 0.0, 0.0, 1.0, 0.0, 0.0],
    [0.0, 0.0, 0.0, 0.0, 0.0, 1.0, 0.0],
    [0.0, 0.0, 0.0, 0.0, 0.0, 0.0, 1.0]
  ]

  function Dot7(a: seq<real>, b: seq<real>): real
    requires |a| == 7 && |b| == 7
  {
    a[0] * b[0] + a[1] * b[1] + a[2] * b[2] + a[3] * b[3] + a[4] * b[4] + a[5] * b[5] + a[6] * b[6]
  }

  /** F x: the matrix-vector product the filter's predict step computes for the mean. */
  function Transition(v: seq<real>): (w: seq<real>)
    requires |v| == 7
    ensures |w| == 7
  {
    seq(7, i requires 0 <= i < 7 => Dot7(F[i], v))
  }

  /** The mean step of `predict`: zero the area velocity when the area
      would not stay positive, then apply F. */
  function PredictMean(m: Mean): (p: Mean)
    ensures m.s + m.vs <= 0.0 ==> p.vs == 0.0 && p.s == m.s
    ensures m.s + m.vs > 0.0 ==> p.vs == m.vs && p.s == m.s + m.vs
    ensures p.cx == m.cx + m.vcx && p.cy == m.cy + m.vcy
    ensures p.r == m.r && p.vcx == m.vcx && p.vcy == m.vcy
  {
    var m' := if m.vs + m.s <= 0.0 then m.(vs := 0.0 * m.vs) else m;
    FromVector(Transition(ToVector(m')))
  }

  /** One tracked person (`KalmanTracker`): identity, state mean and counters. */
  datatype Track = Track(id: nat, mean: Mean, hits: nat, hitStreak: nat, age: nat, timeSinceUpdate: nat)

  /** The constructor: the mean starts at the measurement with zero velocities
      and every counter starts at zero. */
  function NewTrack(id: nat, b: Box): (t: Track)
    requires Measurable(b)
    ensures t.id == id
    ensures t.timeSinceUpdate == 0 && t.hits == 0 && t.hitStreak == 0 && t.age == 0
    ensures Point(t.mean.cx, t.mean.cy) == Center(b) && t.mean.s == Area(b)
    ensures t.mean.vcx == 0.0 && t.mean.vcy == 0.0 && t.mean.vs == 0.0
  {
    var z := BoxToMeasurement(b);
    Track(id, Mean(z.cx, z.cy, z.s, z.r, 0.0, 0.0, 0.0), 0, 0, 0, 0)
  }

  /** `predict`: one frame passes without a measurement yet. */
  function Predict(t: Track): (p: Track)
    ensures p.id == t.id && p.hits == t.hits
    ensures p.age == t.age + 1
    ensures p.timeSinceUpdate == t.timeSinceUpdate + 1
    ensures p.hitStreak == (if t.timeSinceUpdate > 0 then 0 else t.hitStreak)
    ensures p.mean == PredictMean(t.mean)
  {
    Track(t.id, PredictMean(t.mean), t.hits,
          if t.timeSinceUpdate > 0 then 0 else t.hitStreak,
          t.age + 1, t.timeSinceUpdate + 1)
  }

  /** `update`: a matched detection is folded in. */
  function UpdateTrack(t: Track, b: Box, correct: (Mean, Measurement) -> Mean): (u: Track)
    requires Measurable(b)
    ensures u.id == t.id && u.age == t.age
    ensures u.timeSinceUpdate == 0
    ensures u.hits == t.hits + 1 && u.hitStreak == t.hitStreak + 1
  {
    Track(t.id, correct(t.mean, BoxToMeasurement(b)), t.hits + 1, t.hitStreak + 1, t.age, 0)
  }

  const DefaultMaxAge: int := 30
  const DefaultMinHits: int := 3
  const DefaultIouThreshold: real := 0.3

  /** `DeepSORT`, with the identity counter that the source keeps as a
      class-wide variable owned by this manager instead. */
  datatype Manager = Manager(maxAge: int, minHits: int, iouThreshold: real,
                             tracks: seq<Track>, frameCount: nat, nextId: nat)

  /** Identities of live tracks are strictly increasing in list order and all
      were issued already. */
  predicate Invariant(mgr: Manager)
  {
    IdsAscending(mgr.tracks) && IdsBelow(mgr.tracks, mgr.nextId)
  }

  predicate IdsAscending(ts: seq<Track>)
  {
    forall i, j :: 0 <= i < j < |ts| ==> ts[i].id < ts[j].id
  }

  predicate IdsBelow(ts: seq<Track>, bound: nat)
  {
    forall i :: 0 <= i < |ts| ==> ts[i].id < bound
  }

  function NewManager(maxAge: int, minHits: int, iouThreshold: real): (mgr: Manager)
    ensures mgr.tracks == [] && mgr.frameCount == 0 && mgr.nextId == 0
    ensures Invariant(mgr)
  {
    Manager(maxAge, minHits, iouThreshold, [], 0, 0)
  }

  /** The detection matched to tracker t, if any. */
  function MatchedDet(ms: seq<Pair>, t: nat): (r: Option<nat>)
    ensures r.Some? <==> exists i :: 0 <= i < |ms| && ms[i].1 == t
    ensures r.Some? ==> exists i :: 0 <= i < |ms| && ms[i] == (r.value, t)
  {
    if |ms| == 0 then None
    else if ms[0].1 == t then Some(ms[0].0)
    else
      var r := MatchedDet(ms[1..], t);
      assert forall i :: 0 <= i < |ms| - 1 ==> ms[1..][i] == ms[i + 1];
      r
  }

  /** Step 3 of `update`: each matched tracker, in match order, is updated
      with the detection it was matched to. */
  function ApplyMatches(ts: seq<Track>, ms: seq<Pair>, dets: seq<Box>,
                        correct: (Mean, Measurement) -> Mean): (r: seq<Track>)
    requires forall i :: 0 <= i < |ms| ==> ms[i].0 < |dets| && ms[i].1 < |ts|
    requires forall d :: 0 <= d < |dets| ==> Measurable(dets[d])
    ensures |r| == |ts|
    ensures forall t :: 0 <= t < |ts| ==> r[t].id == ts[t].id
    decreases |ms|
  {
    if |ms| == 0 then ts
    else
      var p := ms[0];
      ApplyMatches(ts[p.1 := UpdateTrack(ts[p.1], dets[p.0], correct)], ms[1..], dets, correct)
  }

  /** Under a one-to-one matching the sequential updates amount to updating
      each matched tracker once with its own detection and leaving the others. */
  lemma {:induction false} ApplyMatchesEffect(ts: seq<Track>, ms: seq<Pair>, dets: seq<Box>,
                                              correct: (Mean, Measurement) -> Mean, t: nat)
    requires ValidPairing(ms, |dets|, |ts|)
    requires forall d :: 0 <= d < |dets| ==> Measurable(dets[d])
    requires t < |ts|
    ensures var r := ApplyMatches(ts, ms, dets, correct);
      r[t] == (match MatchedDet(ms, t)
               case Some(d) => UpdateTrack(ts[t], dets[d], correct)
               case None => ts[t])
    decreases |ms|
  {
    if |ms| > 0 {
      var p := ms[0];
      var ts' := ts[p.1 := UpdateTrack(ts[p.1], dets[p.0], correct)];
      var rest := ms[1..];
      assert ValidPairing(rest, |dets|, |ts'|) by {
        assert forall i :: 0 <= i < |rest| ==> rest[i] == ms[i + 1];
      }
      ApplyMatchesEffect(ts', rest, dets, correct, t);
      if p.1 == t {
        assert MatchedDet(rest, t).None? by {
          forall i | 0 <= i < |rest| ensures rest[i].1 != t {
            assert rest[i] == ms[i + 1];
          }
        }
      }
    }
  }

  /** One new track per unmatched detection, with consecutive fresh identities. */
  function Spawn(dets: seq<Box>, ud: seq<nat>, nextId: nat): (r: seq<Track>)
    requires forall i :: 0 <= i < |ud| ==> ud[i] < |dets| && Measurable(dets[ud[i]])
    ensures |r| == |ud|
    ensures IdsAscending(r)
    ensures forall i :: 0 <= i < |r| ==> nextId <= r[i].id < nextId + |ud| && r[i].id == nextId + i
    ensures forall i :: 0 <= i < |r| ==>
      && r[i].hits == 0 && r[i].hitStreak == 0 && r[i].age == 0 && r[i].timeSinceUpdate == 0
      && Point(r[i].mean.cx, r[i].mean.cy) == Center(dets[ud[i]]) && r[i].mean.s == Area(dets[ud[i]])
  {
    seq(|ud|, i requires 0 <= i < |ud| => NewTrack(nextId + i, dets[ud[i]]))
  }

  /** The output condition of `update`: matched this frame, and confirmed or
      still within the start-up window. */
  predicate Reportable(t: Track, frameCount: int, minHits: int)
  {
    t.timeSinceUpdate < 1 && (t.hitStreak >= minHits || frameCount <= minHits)
  }

  /** An output entry `{id, bbox}` (the constant confidence 1.0 is dropped). */
  datatype Reported = Reported(id: nat, box: Box)

  /** The output list: reportable tracks in list order with their current boxes. */
  function Report(ts: seq<Track>, frameCount: int, minHits: int, toBox: Mean -> Box): (r: seq<Reported>)
    ensures forall x :: x in r <==>
      exists i :: 0 <= i < |ts| && Reportable(ts[i], frameCount, minHits) && x == Reported(ts[i].id, toBox(ts[i].mean))
  {
    if |ts| == 0 then []
    else
      var rest := Report(ts[1..], frameCount, minHits, toBox);
      assert forall i :: 0 <= i < |ts| - 1 ==> ts[1..][i] == ts[i + 1];
      if Reportable(ts[0], frameCount, minHits) then [Reported(ts[0].id, toBox(ts[0].mean))] + rest else rest
  }

  /** The pruning of `update`: the tracks updated within the last `max_age`
      frames survive, in their order. */
  function Prune(ts: seq<Track>, maxAge: int): (r: seq<Track>)
    ensures forall i :: 0 <= i < |r| ==> r[i] in ts && r[i].timeSinceUpdate < maxAge
    ensures forall i :: 0 <= i < |ts| && ts[i].timeSinceUpdate < maxAge ==> ts[i] in r
    ensures IdsAscending(ts) ==> IdsAscending(r)
  {
    if |ts| == 0 then []
    else
      var rest := Prune(ts[1..], maxAge);
      assert forall i :: 0 <= i < |rest| ==> rest[i] in ts[1..];
      if ts[0].timeSinceUpdate < maxAge then [ts[0]] + rest else rest
  }

  /** Step 1 of `update`: every track is predicted one frame ahead. */
  function PredictAll(ts: seq<Track>): (p: seq<Track>)
    ensures |p| == |ts|
    ensures forall i :: 0 <= i < |ts| ==>
      && p[i].id == ts[i].id && p[i].hits == ts[i].hits
      && p[i].age == ts[i].age + 1 && p[i].timeSinceUpdate == ts[i].timeSinceUpdate + 1
      && p[i].hitStreak == (if ts[i].timeSinceUpdate > 0 then 0 else ts[i].hitStreak)
      && p[i].mean == PredictMean(ts[i].mean)
    ensures IdsAscending(ts) ==> IdsAscending(p)
  {
    seq(|ts|, i requires 0 <= i < |ts| => Predict(ts[i]))
  }

  /** The predicted boxes handed to association. */
  function Boxes(ts: seq<Track>, toBox: Mean -> Box): seq<Box>
  {
    seq(|ts|, i requires 0 <= i < |ts| => toBox(ts[i].mean))
  }

  /** The frame's tracks before pruning, with the association that produced them. */
  datatype Advanced = Advanced(predicted: seq<Track>, assoc: AssocResult, updated: seq<Track>, spawned: seq<Track>)
  {
    function All(): seq<Track> { updated + spawned }
  }

  /** What steps 1-4 guarantee about their intermediate results. */
  predicate WellAdvanced(mgr: Manager, dets: seq<Box>, correct: (Mean, Measurement) -> Mean, a: Advanced)
  {
    && (forall d :: 0 <= d < |dets| ==> Measurable(dets[d]))
    && a.predicted == PredictAll(mgr.tracks)
    && ValidPairing(a.assoc.matches, |dets|, |mgr.tracks|)
    && (forall i :: 0 <= i < |a.assoc.unmatchedDets| ==> a.assoc.unmatchedDets[i] < |dets|)
    && a.updated == ApplyMatches(a.predicted, a.assoc.matches, dets, correct)
    && a.spawned == Spawn(dets, a.assoc.unmatchedDets, mgr.nextId)
  }

  /** Steps 1-4 of `update`: predict every track, associate, update the
      matched tracks and append one new track per unmatched detection. */
  function Advance(mgr: Manager, dets: seq<Box>, toBox: Mean -> Box,
                   correct: (Mean, Measurement) -> Mean, solve: Matrix -> seq<Pair>): (a: Advanced)
    requires SolverContract(solve)
    requires forall d :: 0 <= d < |dets| ==> Measurable(dets[d])
    ensures WellAdvanced(mgr, dets, correct, a)
    ensures a.assoc == Associate(dets, Boxes(a.predicted, toBox), mgr.iouThreshold, solve)
  {
    var predicted := PredictAll(mgr.tracks);
    var boxes := Boxes(predicted, toBox);
    var assoc := Associate(dets, boxes, mgr.iouThreshold, solve);
    AssociatePartition(dets, boxes, mgr.iouThreshold, solve);
    var updated := ApplyMatches(predicted, assoc.matches, dets, correct);
    Advanced(predicted, assoc, updated, Spawn(dets, assoc.unmatchedDets, mgr.nextId))
  }

  /** Steps 5-6 of `update`: report, then drop tracks unmatched for `max_age` frames. */
  function Finish(mgr: Manager, a: Advanced, toBox: Mean -> Box): (r: (seq<Reported>, Manager))
    ensures r.1.frameCount == mgr.frameCount + 1
    ensures r.1.maxAge == mgr.maxAge && r.1.minHits == mgr.minHits && r.1.iouThreshold == mgr.iouThreshold
    ensures forall i :: 0 <= i < |r.1.tracks| ==> r.1.tracks[i].timeSinceUpdate < mgr.maxAge
  {
    var frameCount := mgr.frameCount + 1;
    var all := a.All();
    (Report(all, frameCount, mgr.minHits, toBox),
     Manager(mgr.maxAge, mgr.minHits, mgr.iouThreshold, Prune(all, mgr.maxAge), frameCount,
             mgr.nextId + |a.spawned|))
  }

  /** `DeepSORT.update`: one frame of the track manager. Returns the reported
      tracks and the next manager state. */
  function Step(mgr: Manager, dets: seq<Box>, toBox: Mean -> Box,
                correct: (Mean, Measurement) -> Mean, solve: Matrix -> seq<Pair>): (r: (seq<Reported>, Manager))
    requires SolverContract(solve)
    requires forall d :: 0 <= d < |dets| ==> Measurable(dets[d])
    ensures r.1.frameCount == mgr.frameCount + 1
    ensures r.1.maxAge == mgr.maxAge && r.1.minHits == mgr.minHits && r.1.iouThreshold == mgr.iouThreshold
    ensures forall i :: 0 <= i < |r.1.tracks| ==> r.1.tracks[i].timeSinceUpdate < mgr.maxAge
  {
    Finish(mgr, Advance(mgr, dets, toBox, correct, solve), toBox)
  }

  /** Identities in the pre-pruning list: those of the old tracks in place,
      then the fresh ones. */
  lemma AllIds(mgr: Manager, dets: seq<Box>, correct: (Mean, Measurement) -> Mean, a: Advanced)
    requires WellAdvanced(mgr, dets, correct, a)
    ensures |a.All()| == |mgr.tracks| + |a.spawned|
    ensures forall i :: 0 <= i < |mgr.tracks| ==> a.All()[i].id == mgr.tracks[i].id
    ensures forall i :: |mgr.tracks| <= i < |a.All()| ==> a.All()[i].id == mgr.nextId + (i - |mgr.tracks|)
    ensures forall i :: |mgr.tracks| <= i < |a.All()| ==> a.All()[i] == a.spawned[i - |mgr.tracks|]
  {
  }

  /** Appending consecutive fresh identities from the counter keeps the
      identities ascending and below the advanced counter. */
  lemma ExtendIds(olds: seq<Track>, all: seq<Track>, nextId: nat)
    requires IdsAscending(olds) && IdsBelow(olds, nextId)
    requires |olds| <= |all|
    requires forall i :: 0 <= i < |olds| ==> all[i].id == olds[i].id
    requires forall i :: |olds| <= i < |all| ==> all[i].id == nextId + (i - |olds|)
    ensures IdsAscending(all) && IdsBelow(all, nextId + (|all| - |olds|))
  {
    forall i, j | 0 <= i < j < |all| ensures all[i].id < all[j].id {
      if i < |olds| && j >= |olds| {
        assert all[i].id < nextId;
      }
    }
  }

  /** Pruning keeps only tracks of its input, so an upper bound on identities survives it. */
  lemma PruneBelow(ts: seq<Track>, maxAge: int, bound: nat)
    requires IdsBelow(ts, bound)
    ensures IdsBelow(Prune(ts, maxAge), bound)
  {
    var r := Prune(ts, maxAge);
    forall i | 0 <= i < |r| ensures r[i].id < bound {
      var k :| 0 <= k < |ts| && ts[k] == r[i];
    }
  }

  /** The identity facts about the pre-pruning list. */
  lemma AllInvariant(mgr: Manager, dets: seq<Box>, correct: (Mean, Measurement) -> Mean, a: Advanced)
    requires WellAdvanced(mgr, dets, correct, a)
    requires Invariant(mgr)
    ensures IdsAscending(a.All()) && IdsBelow(a.All(), mgr.nextId + |a.spawned|)
    ensures forall k :: 0 <= k < |a.All()| && a.All()[k].id >= mgr.nextId ==> a.All()[k] in a.spawned
  {
    AllIds(mgr, dets, correct, a);
    ExtendIds(mgr.tracks, a.All(), mgr.nextId);
    forall k | 0 <= k < |a.All()| && a.All()[k].id >= mgr.nextId ensures a.All()[k] in a.spawned {
      if k >= |mgr.tracks| {
        assert a.All()[k] == a.spawned[k - |mgr.tracks|];
      }
    }
  }

  /** Every track that survives a frame keeps an identity issued earlier or
      receives a fresh one, in strictly increasing order: identities are never
      reused. The counter advances by exactly the number of new tracks, and
      the tracks at or above the old counter are new ones. */
  lemma FinishPreservesInvariant(mgr: Manager, dets: seq<Box>, correct: (Mean, Measurement) -> Mean,
                                 a: Advanced, toBox: Mean -> Box)
    requires WellAdvanced(mgr, dets, correct, a)
    requires Invariant(mgr)
    ensures var next := Finish(mgr, a, toBox).1;
      && Invariant(next)
      && next.nextId == mgr.nextId + |a.assoc.unmatchedDets|
      && (forall i :: 0 <= i < |next.tracks| && next.tracks[i].id >= mgr.nextId ==> next.tracks[i] in a.spawned)
  {
    var all := a.All();
    AllInvariant(mgr, dets, correct, a);
    var next := Finish(mgr, a, toBox).1;
    assert next.tracks == Prune(all, mgr.maxAge);
    PruneBelow(all, mgr.maxAge, next.nextId);
    forall i | 0 <= i < |next.tracks| && next.tracks[i].id >= mgr.nextId
      ensures next.tracks[i] in a.spawned
    {
      var k :| 0 <= k < |all| && all[k] == next.tracks[i];
    }
  }

  /** `update` keeps the identity invariant of the manager (see FinishPreservesInvariant). */
  lemma StepPreservesInvariant(mgr: Manager, dets: seq<Box>, toBox: Mean -> Box,
                               correct: (Mean, Measurement) -> Mean, solve: Matrix -> seq<Pair>)
    requires SolverContract(solve)
    requires forall d :: 0 <= d < |dets| ==> Measurable(dets[d])
    requires Invariant(mgr)
    ensures var next := Step(mgr, dets, toBox, correct, solve).1;
      && Invariant(next)
      && next.nextId == mgr.nextId + |Advance(mgr, dets, toBox, correct, solve).assoc.unmatchedDets|
  {
    FinishPreservesInvariant(mgr, dets, correct, Advance(mgr, dets, toBox, correct, solve), toBox);
  }

  /** An old track whose `time_since_update` is zero after the frame was matched. */
  lemma FreshMeansMatched(mgr: Manager, dets: seq<Box>, correct: (Mean, Measurement) -> Mean,
                          a: Advanced, k: nat)
    requires WellAdvanced(mgr, dets, correct, a)
    requires k < |mgr.tracks|
    requires a.updated[k].timeSinceUpdate < 1
    ensures exists j :: 0 <= j < |a.assoc.matches| && a.assoc.matches[j].1 == k
  {
    ApplyMatchesEffect(a.predicted, a.assoc.matches, dets, correct, k);
  }

  /** A track is reported only in a frame in which it was matched to a
      detection or created from one: predicted tracks all have
      `time_since_update >= 1`, and only `update` and the constructor reset it. */
  lemma ReportedWereMatchedOrNew(mgr: Manager, dets: seq<Box>, correct: (Mean, Measurement) -> Mean,
                                 a: Advanced, toBox: Mean -> Box)
    requires WellAdvanced(mgr, dets, correct, a)
    ensures forall x :: x in Finish(mgr, a, toBox).0 ==>
        (exists i :: 0 <= i < |a.spawned| && x.id == a.spawned[i].id) ||
        (exists j :: 0 <= j < |a.assoc.matches| && x.id == mgr.tracks[a.assoc.matches[j].1].id)
  {
    var all := a.All();
    var n := |mgr.tracks|;
    var frameCount := mgr.frameCount + 1;
    AllIds(mgr, dets, correct, a);
    forall x | x in Finish(mgr, a, toBox).0
      ensures (exists i :: 0 <= i < |a.spawned| && x.id == a.spawned[i].id) ||
              (exists j :: 0 <= j < |a.assoc.matches| && x.id == mgr.tracks[a.assoc.matches[j].1].id)
    {
      assert x in Report(all, frameCount, mgr.minHits, toBox);
      var k :| 0 <= k < |all| && Reportable(all[k], frameCount, mgr.minHits) && x == Reported(all[k].id, toBox(all[k].mean));
      if k < n {
        assert all[k] == a.updated[k];
        FreshMeansMatched(mgr, dets, correct, a, k);
        var j :| 0 <= j < |a.assoc.matches| && a.assoc.matches[j].1 == k;
        assert x.id == mgr.tracks[a.assoc.matches[j].1].id;
      } else {
        assert x.id == a.spawned[k - n].id;
      }
    }
  }

  /** Every matched track is reset to `time_since_update == 0` and gains one
      hit, so it is reported exactly when its streak reaches `min_hits` or the
      manager is still in its start-up window. */
  lemma MatchedAreUpdated(mgr: Manager, dets: seq<Box>, correct: (Mean, Measurement) -> Mean,
                          a: Advanced, toBox: Mean -> Box, j: nat)
    requires WellAdvanced(mgr, dets, correct, a)
    requires Invariant(mgr)
    requires j < |a.assoc.matches|
    ensures var t := a.assoc.matches[j].1;
      var old_ := mgr.tracks[t];
      var u := a.updated[t];
      && u.id == old_.id
      && u.timeSinceUpdate == 0
      && u.hits == old_.hits + 1
      && u.hitStreak == (if old_.timeSinceUpdate > 0 then 0 else old_.hitStreak) + 1
      && u.age == old_.age + 1
      && (Reported(u.id, toBox(u.mean)) in Finish(mgr, a, toBox).0 <==>
          (u.hitStreak >= mgr.minHits || mgr.frameCount + 1 <= mgr.minHits))
  {
    var ms := a.assoc.matches;
    var t := ms[j].1;
    ApplyMatchesEffect(a.predicted, ms, dets, correct, t);
    var d := MatchedDet(ms, t);
    assert d.Some?;
    AllInvariant(mgr, dets, correct, a);
    assert a.All()[t] == a.updated[t];
    ReportedOnce(a.All(), t, mgr.frameCount + 1, mgr.minHits, toBox);
  }

  /** In a list of distinct identities, a track's entry is in the report
      exactly when the track is reportable. */
  lemma ReportedOnce(ts: seq<Track>, k: nat, frameCount: int, minHits: int, toBox: Mean -> Box)
    requires IdsAscending(ts) && k < |ts|
    ensures Reported(ts[k].id, toBox(ts[k].mean)) in Report(ts, frameCount, minHits, toBox)
            <==> Reportable(ts[k], frameCount, minHits)
  {
    var x := Reported(ts[k].id, toBox(ts[k].mean));
    if x in Report(ts, frameCount, minHits, toBox) {
      var i :| 0 <= i < |ts| && Reportable(ts[i], frameCount, minHits) && x == Reported(ts[i].id, toBox(ts[i].mean));
      assert ts[i].id == ts[k].id;
      assert i == k;
    }
  }

  /** With no live tracks, each detection starts a new track and nothing is matched. */
  lemma FirstFrame(mgr: Manager, dets: seq<Box>, toBox: Mean -> Box,
                   correct: (Mean, Measurement) -> Mean, solve: Matrix -> seq<Pair>)
    requires SolverContract(solve)
    requires forall d :: 0 <= d < |dets| ==> Measurable(dets[d])
    requires mgr.tracks == []
    ensures var a := Advance(mgr, dets, toBox, correct, solve);
      && a.assoc.matches == []
      && SpawnedFrom(a.spawned, dets, mgr.nextId)
      && Step(mgr, dets, toBox, correct, solve).1.nextId == mgr.nextId + |dets|
  {
    StepSpawns(mgr, dets, toBox, correct, solve);
    NoTracksNoMatches(mgr, dets, toBox, correct, solve);
    var a := Advance(mgr, dets, toBox, correct, solve);
    SpawnedAll(dets, mgr.nextId, a.assoc.unmatchedDets, a.spawned);
  }

  /** A spawn list built from every detection holds the new track of each
      detection, in order. */
  lemma SpawnedAll(dets: seq<Box>, nextId: nat, ud: seq<nat>, spawned: seq<Track>)
    requires forall d :: 0 <= d < |dets| ==> Measurable(dets[d])
    requires ud == NotIn(|dets|, {})
    requires forall i :: 0 <= i < |ud| ==> ud[i] < |dets|
    requires spawned == Spawn(dets, ud, nextId)
    ensures SpawnedFrom(spawned, dets, nextId)
  {
    SpawnAll(dets, nextId);
  }

  /** The i-th track of `spawned` is the new track for detection i, with
      identity `nextId + i`, and there is one per detection. */
  predicate SpawnedFrom(spawned: seq<Track>, dets: seq<Box>, nextId: nat)
  {
    && |spawned| == |dets|
    && forall i :: 0 <= i < |dets| ==> Measurable(dets[i]) && spawned[i] == NewTrack(nextId + i, dets[i])
  }

  /** New tracks come from the unmatched detections, and the counter
      advances by their number. */
  lemma StepSpawns(mgr: Manager, dets: seq<Box>, toBox: Mean -> Box,
                   correct: (Mean, Measurement) -> Mean, solve: Matrix -> seq<Pair>)
    requires SolverContract(solve)
    requires forall d :: 0 <= d < |dets| ==> Measurable(dets[d])
    ensures var a := Advance(mgr, dets, toBox, correct, solve);
      && a.spawned == Spawn(dets, a.assoc.unmatchedDets, mgr.nextId)
      && Step(mgr, dets, toBox, correct, solve).1.nextId == mgr.nextId + |a.spawned|
  {
  }

  /** Spawning for every detection in order gives consecutive identities. */
  lemma SpawnAll(dets: seq<Box>, nextId: nat)
    requires forall d :: 0 <= d < |dets| ==> Measurable(dets[d])
    ensures var r := Spawn(dets, NotIn(|dets|, {}), nextId);
      |r| == |dets| && forall i :: 0 <= i < |dets| ==> r[i] == NewTrack(nextId + i, dets[i])
  {
    var ud := NotIn(|dets|, {});
    NotInAll(|dets|);
    SpawnElements(dets, ud, nextId);
    forall i | 0 <= i < |dets| ensures Spawn(dets, ud, nextId)[i] == NewTrack(nextId + i, dets[i]) {
      assert ud[i] == i;
    }
  }

  /** With no live tracks association has nothing to match. */
  lemma NoTracksNoMatches(mgr: Manager, dets: seq<Box>, toBox: Mean -> Box,
                          correct: (Mean, Measurement) -> Mean, solve: Matrix -> seq<Pair>)
    requires SolverContract(solve)
    requires forall d :: 0 <= d < |dets| ==> Measurable(dets[d])
    requires mgr.tracks == []
    ensures var a := Advance(mgr, dets, toBox, correct, solve);
      a.assoc.matches == [] && a.assoc.unmatchedDets == NotIn(|dets|, {})
  {
    var a := Advance(mgr, dets, toBox, correct, solve);
    assert |Boxes(a.predicted, toBox)| == 0;
  }

  /** The i-th spawned track is the new track for the i-th unmatched detection. */
  lemma SpawnElements(dets: seq<Box>, ud: seq<nat>, nextId: nat)
    requires forall i :: 0 <= i < |ud| ==> ud[i] < |dets| && Measurable(dets[ud[i]])
    ensures forall i :: 0 <= i < |ud| ==> Spawn(dets, ud, nextId)[i] == NewTrack(nextId + i, dets[ud[i]])
  {
  }

  /** With nothing excluded, `NotIn` lists every index in order. */
  lemma {:induction false} NotInAll(n: nat)
    ensures |NotIn(n, {})| == n
    ensures forall i :: 0 <= i < n ==> NotIn(n, {})[i] == i
  {
    if n > 0 {
      NotInAll(n - 1);
      var prefix := NotIn(n - 1, {});
      assert NotIn(n, {}) == prefix + [n - 1] by {
        assert n - 1 !in {};
      }
      IdentitySnoc(prefix, prefix + [n - 1], n);
    }
  }

  /** Appending n - 1 to the indices 0 .. n-2 gives the indices 0 .. n-1. */
  lemma IdentitySnoc(prefix: seq<nat>, r: seq<nat>, n: nat)
    requires n > 0 && |prefix| == n - 1 && r == prefix + [n - 1]
    requires forall i :: 0 <= i < n - 1 ==> prefix[i] == i
    ensures |r| == n
    ensures forall i :: 0 <= i < n ==> r[i] == i
  {
  }
}
