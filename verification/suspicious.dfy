/**
 * The suspicious-activity detector: per-track pose histories, joint
 * velocities between consecutive poses weighted by keypoint visibility, and
 * a fight-like verdict from four statistics of those velocities, latched per
 * track. The Euclidean norm of a displacement is a parameter (`norm`).
 */
module Suspicious {
  import opened Common

  /** One pose landmark in frame pixels, with its visibility score. */
  datatype Keypoint = Keypoint(x: real, y: real, visibility: real)

  /** The keypoints of one person in one frame (33 for the pose model). */
  type Pose = seq<Keypoint>

  const DefaultVelocityThreshold: real := 15.0
  const DefaultMinFrames: int := 10
  /** Poses kept per track. */
  const MaxHistory: int := 100
  /** Shoulders, elbows and wrists in the pose model's landmark numbering. */
  const ArmJoints: seq<nat> := [11, 12, 13, 14, 15, 16]

  datatype Detector = Detector(velocityThreshold: real, minFrames: int,
                               history: map<int, seq<Pose>>, suspicious: set<int>)

  function NewDetector(velocityThreshold: real, minFrames: int): (d: Detector)
    ensures d.velocityThreshold == velocityThreshold && d.minFrames == minFrames
    ensures d.history == map[] && d.suspicious == {}
  {
    Detector(velocityThreshold, minFrames, map[], {})
  }

  /** The stored poses of a track, empty when it has none. */
  function HistoryOf(h: map<int, seq<Pose>>, id: int): seq<Pose>
  {
    if id in h then h[id] else []
  }

  /** Every stored history holds at most `MaxHistory` poses. */
  predicate Bounded(d: Detector)
  {
    forall k :: k in d.history ==> |d.history[k]| <= MaxHistory
  }

  /** `update_pose_history`: appends the pose to the track's history and keeps
      the most recent `MaxHistory` of them. */
  function UpdatePoseHistory(d: Detector, id: int, pose: Pose): (r: Detector)
    ensures id in r.history && forall k :: k in r.history <==> k in d.history || k == id
    ensures Recent(HistoryOf(d.history, id) + [pose], r.history[id])
    ensures |r.history[id]| == if |HistoryOf(d.history, id)| < MaxHistory then |HistoryOf(d.history, id)| + 1 else MaxHistory
    ensures r.velocityThreshold == d.velocityThreshold && r.minFrames == d.minFrames
    ensures r.suspicious == d.suspicious
  {
    var h := HistoryOf(d.history, id) + [pose];
    d.(history := d.history[id := Capped(h)])
  }

  /** `kept` is a suffix of `h`. */
  predicate Recent(h: seq<Pose>, kept: seq<Pose>)
  {
    |kept| <= |h| && forall i :: 0 <= i < |kept| ==> kept[i] == h[|h| - |kept| + i]
  }

  /** The cap of `update_pose_history`: `h[-100:]` only when `h` is longer. */
  function Capped(h: seq<Pose>): (k: seq<Pose>)
    ensures Recent(h, k)
    ensures |k| == (if |h| > MaxHistory then MaxHistory else |h|)
  {
    if |h| > MaxHistory then PySuffix(h, MaxHistory) else h
  }

  /** A track's history grows by one pose per call until it holds
      `MaxHistory` poses and then stays at that length; the newest pose is
      the last one stored, and the other tracks' histories are untouched. */
  lemma UpdateEffect(d: Detector, id: int, pose: Pose)
    ensures var h := UpdatePoseHistory(d, id, pose).history[id];
      && |h| == (if |HistoryOf(d.history, id)| < MaxHistory then |HistoryOf(d.history, id)| + 1 else MaxHistory)
      && h[|h| - 1] == pose
    ensures forall k :: k in d.history && k != id ==> UpdatePoseHistory(d, id, pose).history[k] == d.history[k]
  {
    var h := HistoryOf(d.history, id) + [pose];
    var k := UpdatePoseHistory(d, id, pose).history[id];
    assert k[|k| - 1] == h[|h| - 1];
  }

  /** Recording poses keeps every history within the cap. */
  lemma UpdateKeepsBounded(d: Detector, id: int, pose: Pose)
    requires Bounded(d)
    ensures Bounded(UpdatePoseHistory(d, id, pose))
  {
    UpdateEffect(d, id, pose);
  }

  // ---- Velocities ----

  /** Consecutive poses have the same number of keypoints. */
  predicate Uniform(ps: seq<Pose>)
  {
    forall i :: 1 <= i < |ps| ==> |ps[i]| == |ps[i - 1]|
  }

  /** The distance a keypoint moved between two frames, weighted by the mean
      of its two visibility scores. */
  function Weighted(a: Keypoint, b: Keypoint, norm: (real, real) -> real): real
  {
    norm(b.x - a.x, b.y - a.y) * ((a.visibility + b.visibility) / 2.0)
  }

  /** The weighted distance of every joint between two poses, in joint order. */
  function JointSpeeds(prev: Pose, curr: Pose, norm: (real, real) -> real): (r: seq<real>)
    requires |prev| == |curr|
    ensures |r| == |prev|
    ensures forall j :: 0 <= j < |r| ==> r[j] == Weighted(prev[j], curr[j], norm)
  {
    seq(|prev|, j requires 0 <= j < |prev| => Weighted(prev[j], curr[j], norm))
  }

  /** `_calculate_joint_velocities`: the joint speeds of every pair of
      consecutive poses, concatenated in time order; empty for fewer than two
      poses. */
  function Velocities(ps: seq<Pose>, norm: (real, real) -> real): (r: seq<real>)
    requires Uniform(ps)
    ensures |ps| < 2 ==> r == []
    ensures |ps| >= 2 ==> |r| == (|ps| - 1) * |ps[0]|
    decreases |ps|
  {
    if |ps| < 2 then []
    else
      var front := ps[..|ps| - 1];
      UniformFront(ps);
      UniformLength(ps, |ps| - 2);
      assert |front| >= 2 ==> front[0] == ps[0];
      StepLength(|ps| - 1, |ps[0]|);
      Velocities(front, norm) + JointSpeeds(ps[|ps| - 2], ps[|ps| - 1], norm)
  }

  /** (k - 1) * n + n == k * n. */
  lemma StepLength(k: nat, n: nat)
    requires k >= 1
    ensures (k - 1) * n + n == k * n
  {
  }

  /** The listed joints below `n`, in list order: the joints a pose of `n`
      keypoints has. */
  function Present(joints: seq<nat>, n: nat): (r: seq<nat>)
    ensures |r| <= |joints|
    ensures forall k :: 0 <= k < |r| ==> r[k] < n
    ensures forall j :: j in r <==> j in joints && j < n
    ensures (forall k :: 0 <= k < |joints| ==> joints[k] < n) ==> r == joints
  {
    if |joints| == 0 then []
    else
      var front := joints[..|joints| - 1];
      var j := joints[|joints| - 1];
      assert joints == front + [j];
      Present(front, n) + (if j < n then [j] else [])
  }

  /** The weighted distances of the listed joints that the previous pose has. */
  function ListedSpeeds(prev: Pose, curr: Pose, joints: seq<nat>, norm: (real, real) -> real): (r: seq<real>)
    requires |prev| == |curr|
    ensures |r| == |Present(joints, |prev|)| <= |joints|
    ensures forall k :: 0 <= k < |r| ==> r[k] in JointSpeeds(prev, curr, norm)
    ensures var js := Present(joints, |prev|);
      forall k :: 0 <= k < |r| ==> r[k] == Weighted(prev[js[k]], curr[js[k]], norm)
  {
    if |joints| == 0 then []
    else
      var rest := ListedSpeeds(prev, curr, joints[..|joints| - 1], norm);
      var j := joints[|joints| - 1];
      if j < |prev| then
        assert JointSpeeds(prev, curr, norm)[j] == Weighted(prev[j], curr[j], norm);
        rest + [Weighted(prev[j], curr[j], norm)]
      else rest
  }

  /** `_calculate_specific_joint_velocities` for the arm joints. */
  function ArmVelocities(ps: seq<Pose>, norm: (real, real) -> real): (r: seq<real>)
    requires Uniform(ps)
    ensures |ps| < 2 ==> r == []
    ensures |ps| >= 2 ==> |r| == (|ps| - 1) * |Present(ArmJoints, |ps[0]|)|
    ensures |ps| >= 2 ==> |r| <= (|ps| - 1) * |ArmJoints|
    ensures |ps| >= 2 && |ps[0]| > 16 ==> |r| == (|ps| - 1) * |ArmJoints|
    decreases |ps|
  {
    if |ps| < 2 then []
    else
      var front := ps[..|ps| - 1];
      UniformFront(ps);
      UniformLength(ps, |ps| - 2);
      assert |front| >= 2 ==> front[0] == ps[0];
      StepLength(|ps| - 1, |Present(ArmJoints, |ps[0]|)|);
      StepLength(|ps| - 1, |ArmJoints|);
      ArmVelocities(front, norm) + ListedSpeeds(ps[|ps| - 2], ps[|ps| - 1], ArmJoints, norm)
  }

  /** The weighted distance of joint `j` between poses `i - 1` and `i`. */
  function Transition(ps: seq<Pose>, i: nat, j: nat, norm: (real, real) -> real): real
    requires Uniform(ps) && 1 <= i < |ps| && j < |ps[i]|
  {
    Weighted(ps[i - 1][j], ps[i][j], norm)
  }

  /** Every velocity is the weighted distance of one joint between two
      consecutive poses. */
  predicate FromTransitions(vs: seq<real>, ps: seq<Pose>, norm: (real, real) -> real)
    requires Uniform(ps)
  {
    forall k :: 0 <= k < |vs| ==> IsTransition(vs[k], ps, norm)
  }

  /** `v` is the weighted distance of some joint between two consecutive poses. */
  predicate IsTransition(v: real, ps: seq<Pose>, norm: (real, real) -> real)
    requires Uniform(ps)
  {
    exists i: nat, j: nat :: 1 <= i < |ps| && j < |ps[i]| && v == Transition(ps, i, j, norm)
  }

  /** Dropping the last pose keeps the list uniform. */
  lemma UniformFront(ps: seq<Pose>)
    requires Uniform(ps) && |ps| > 0
    ensures Uniform(ps[..|ps| - 1])
  {
    var front := ps[..|ps| - 1];
    forall i | 1 <= i < |front| ensures |front[i]| == |front[i - 1]| {
      assert front[i] == ps[i] && front[i - 1] == ps[i - 1];
    }
  }

  /** Every velocity is the weighted distance of one joint between two
      consecutive poses. */
  lemma {:induction false} VelocitiesFromTransitions(ps: seq<Pose>, norm: (real, real) -> real)
    requires Uniform(ps)
    ensures FromTransitions(Velocities(ps, norm), ps, norm)
    decreases |ps|
  {
    if |ps| >= 2 {
      var front := ps[..|ps| - 1];
      UniformFront(ps);
      VelocitiesFromTransitions(front, norm);
      var before := Velocities(front, norm);
      var last := JointSpeeds(ps[|ps| - 2], ps[|ps| - 1], norm);
      var vs := Velocities(ps, norm);
      assert vs == before + last;
      forall k | 0 <= k < |vs| ensures IsTransition(vs[k], ps, norm) {
        if k < |before| {
          assert IsTransition(before[k], front, norm);
          var i: nat, j: nat :| 1 <= i < |front| && j < |front[i]| && before[k] == Transition(front, i, j, norm);
          assert front[i - 1] == ps[i - 1] && front[i] == ps[i];
          assert vs[k] == Transition(ps, i, j, norm);
        } else {
          var j := k - |before|;
          assert vs[k] == Transition(ps, |ps| - 1, j, norm);
        }
      }
      assert FromTransitions(vs, ps, norm);
    }
  }

  /** Two poses with at least one keypoint give at least one velocity. */
  lemma VelocitiesNonEmpty(ps: seq<Pose>, norm: (real, real) -> real)
    requires Uniform(ps) && |ps| >= 2 && |ps[0]| > 0
    ensures |Velocities(ps, norm)| > 0
  {
    UniformFront(ps);
    UniformLength(ps, |ps| - 2);
    assert Velocities(ps, norm) == Velocities(ps[..|ps| - 1], norm) + JointSpeeds(ps[|ps| - 2], ps[|ps| - 1], norm);
  }

  /** In a uniform list of poses every pose has as many keypoints as the first. */
  lemma {:induction false} UniformLength(ps: seq<Pose>, i: nat)
    requires Uniform(ps) && i < |ps|
    ensures |ps[i]| == |ps[0]|
  {
    if i > 0 {
      UniformLength(ps, i - 1);
    }
  }

  /** Each arm velocity is also one of the joint velocities. */
  lemma {:induction false} ArmVelocitiesAmongAll(ps: seq<Pose>, norm: (real, real) -> real)
    requires Uniform(ps)
    ensures forall k :: 0 <= k < |ArmVelocities(ps, norm)| ==> ArmVelocities(ps, norm)[k] in Velocities(ps, norm)
    decreases |ps|
  {
    if |ps| >= 2 {
      var front := ps[..|ps| - 1];
      UniformFront(ps);
      ArmVelocitiesAmongAll(front, norm);
      var arms := ArmVelocities(ps, norm);
      var armsBefore := ArmVelocities(front, norm);
      var listed := ListedSpeeds(ps[|ps| - 2], ps[|ps| - 1], ArmJoints, norm);
      var vsBefore := Velocities(front, norm);
      var last := JointSpeeds(ps[|ps| - 2], ps[|ps| - 1], norm);
      assert arms == armsBefore + listed;
      assert Velocities(ps, norm) == vsBefore + last;
      forall k | 0 <= k < |arms| ensures arms[k] in Velocities(ps, norm) {
        if k < |armsBefore| {
          assert arms[k] == armsBefore[k];
        } else {
          assert arms[k] == listed[k - |armsBefore|];
        }
      }
    }
  }

  /** Position `k` of `r` holds joint `k % n` of transition `k / n + 1`. */
  predicate JointsInOrder(r: seq<real>, ps: seq<Pose>, n: nat, norm: (real, real) -> real)
    requires Uniform(ps) && n > 0
  {
    forall k :: 0 <= k < |r| ==> JointAt(r[k], k, ps, n, norm)
  }

  /** `v`, at position `k`, is joint `k % n` of transition `k / n + 1`. */
  predicate JointAt(v: real, k: nat, ps: seq<Pose>, n: nat, norm: (real, real) -> real)
    requires Uniform(ps) && n > 0
  {
    && k / n + 1 < |ps| && k % n < |ps[k / n + 1]|
    && v == Transition(ps, k / n + 1, k % n, norm)
  }

  /** Position `k` of `r` holds joint `js[k % |js|]` of transition
      `k / |js| + 1`. */
  predicate ListedInOrder(r: seq<real>, ps: seq<Pose>, js: seq<nat>, norm: (real, real) -> real)
    requires Uniform(ps) && |js| > 0
  {
    forall k :: 0 <= k < |r| ==> ListedAt(r[k], k, ps, js, norm)
  }

  /** `v`, at position `k`, is joint `js[k % |js|]` of transition
      `k / |js| + 1`. */
  predicate ListedAt(v: real, k: nat, ps: seq<Pose>, js: seq<nat>, norm: (real, real) -> real)
    requires Uniform(ps) && |js| > 0
  {
    && k / |js| + 1 < |ps| && js[k % |js|] < |ps[k / |js| + 1]|
    && v == Transition(ps, k / |js| + 1, js[k % |js|], norm)
  }

  /** Position `k` of the velocities holds joint `k % n` of transition
      `k / n + 1`, for `n` joints per pose: one velocity per joint per
      transition, transitions in time order and joints in index order. */
  lemma {:induction false} VelocitiesInOrder(ps: seq<Pose>, norm: (real, real) -> real)
    requires Uniform(ps) && |ps| >= 2 && |ps[0]| > 0
    ensures JointsInOrder(Velocities(ps, norm), ps, |ps[0]|, norm)
    decreases |ps|
  {
    var front := ps[..|ps| - 1];
    UniformFront(ps);
    UniformLength(ps, |ps| - 2);
    UniformLength(ps, |ps| - 1);
    var before := Velocities(front, norm);
    var last := JointSpeeds(ps[|ps| - 2], ps[|ps| - 1], norm);
    assert Velocities(ps, norm) == before + last;
    assert front[0] == ps[0];
    if |front| >= 2 {
      VelocitiesInOrder(front, norm);
    }
    JointsInOrderSnoc(ps, before, last, norm);
  }

  /** Appending the joint speeds of the last transition extends the order. */
  lemma JointsInOrderSnoc(ps: seq<Pose>, before: seq<real>, last: seq<real>, norm: (real, real) -> real)
    requires Uniform(ps) && |ps| >= 2 && |ps[0]| > 0
    requires Uniform(ps[..|ps| - 1]) && |ps[|ps| - 1]| == |ps[0]|
    requires |before| == (|ps| - 2) * |ps[0]| && JointsInOrder(before, ps[..|ps| - 1], |ps[0]|, norm)
    requires |last| == |ps[0]| && forall j :: 0 <= j < |last| ==> last[j] == Transition(ps, |ps| - 1, j, norm)
    ensures JointsInOrder(before + last, ps, |ps[0]|, norm)
  {
    var n := |ps[0]|;
    var r := before + last;
    forall k | 0 <= k < |r| ensures JointAt(r[k], k, ps, n, norm) {
      if k < |before| {
        assert r[k] == before[k];
        JointEntryBefore(ps, n, before, k, norm);
      } else {
        assert r[k] == last[k - |before|];
        JointEntryLast(ps, |before|, last, k - |before|, norm);
      }
    }
  }

  /** An entry of the order on all poses but the last is in the order on all
      of them. */
  lemma JointEntryBefore(ps: seq<Pose>, n: nat, before: seq<real>, k: nat, norm: (real, real) -> real)
    requires Uniform(ps) && |ps| >= 2 && n > 0 && Uniform(ps[..|ps| - 1])
    requires k < |before| && JointsInOrder(before, ps[..|ps| - 1], n, norm)
    ensures JointAt(before[k], k, ps, n, norm)
  {
    var front := ps[..|ps| - 1];
    assert JointAt(before[k], k, front, n, norm);
    var i := k / n + 1;
    assert front[i] == ps[i] && front[i - 1] == ps[i - 1];
  }

  /** Joint `j` of the last transition sits at position `offset + j`, where
      `offset` counts the earlier transitions' entries. */
  lemma JointEntryLast(ps: seq<Pose>, offset: nat, last: seq<real>, j: nat, norm: (real, real) -> real)
    requires Uniform(ps) && |ps| >= 2 && |ps[0]| > 0 && |ps[|ps| - 1]| == |ps[0]|
    requires offset == (|ps| - 2) * |ps[0]|
    requires j < |last| == |ps[0]| && last[j] == Transition(ps, |ps| - 1, j, norm)
    ensures JointAt(last[j], offset + j, ps, |ps[0]|, norm)
  {
    DivModOf(|ps| - 2, j, |ps[0]|);
  }

  /** Position `k` of the arm velocities holds joint `js[k % |js|]` of
      transition `k / |js| + 1`, where `js` are the arm joints the poses
      have: for each transition, the arm joints present, in list order. */
  lemma {:induction false} ArmVelocitiesListed(ps: seq<Pose>, norm: (real, real) -> real)
    requires Uniform(ps) && |ps| >= 2
    ensures var js := Present(ArmJoints, |ps[0]|);
      |js| > 0 ==> ListedInOrder(ArmVelocities(ps, norm), ps, js, norm)
    decreases |ps|
  {
    var js := Present(ArmJoints, |ps[0]|);
    if |js| > 0 {
      var front := ps[..|ps| - 1];
      UniformFront(ps);
      UniformLength(ps, |ps| - 2);
      UniformLength(ps, |ps| - 1);
      var before := ArmVelocities(front, norm);
      var listed := ListedSpeeds(ps[|ps| - 2], ps[|ps| - 1], ArmJoints, norm);
      assert ArmVelocities(ps, norm) == before + listed;
      assert front[0] == ps[0];
      if |front| >= 2 {
        ArmVelocitiesListed(front, norm);
      }
      ListedInOrderSnoc(ps, js, before, listed, norm);
    }
  }

  /** Position `k` of the arm velocities holds arm joint `k % 6` of
      transition `k / 6 + 1`, when every pose has all the arm joints. */
  lemma ArmVelocitiesInOrder(ps: seq<Pose>, norm: (real, real) -> real)
    requires Uniform(ps) && |ps| >= 2 && |ps[0]| > 16
    ensures ListedInOrder(ArmVelocities(ps, norm), ps, ArmJoints, norm)
  {
    assert forall k :: 0 <= k < |ArmJoints| ==> ArmJoints[k] < |ps[0]|;
    assert Present(ArmJoints, |ps[0]|) == ArmJoints;
    ArmVelocitiesListed(ps, norm);
  }

  /** Appending the listed speeds of the last transition extends the order. */
  lemma ListedInOrderSnoc(ps: seq<Pose>, js: seq<nat>, before: seq<real>, listed: seq<real>, norm: (real, real) -> real)
    requires Uniform(ps) && |ps| >= 2 && |js| > 0
    requires Uniform(ps[..|ps| - 1]) && forall j :: 0 <= j < |js| ==> js[j] < |ps[|ps| - 1]|
    requires |before| == (|ps| - 2) * |js| && ListedInOrder(before, ps[..|ps| - 1], js, norm)
    requires |listed| == |js| && forall j :: 0 <= j < |js| ==> listed[j] == Transition(ps, |ps| - 1, js[j], norm)
    ensures ListedInOrder(before + listed, ps, js, norm)
  {
    var r := before + listed;
    forall k | 0 <= k < |r| ensures ListedAt(r[k], k, ps, js, norm) {
      if k < |before| {
        assert r[k] == before[k];
        ListedEntryBefore(ps, js, before, k, norm);
      } else {
        assert r[k] == listed[k - |before|];
        ListedEntryLast(ps, js, |before|, listed, k - |before|, norm);
      }
    }
  }

  /** Entry `j` of the last transition's speeds sits at position
      `offset + j`, where `offset` counts the earlier transitions' entries. */
  lemma ListedEntryLast(ps: seq<Pose>, js: seq<nat>, offset: nat, listed: seq<real>, j: nat, norm: (real, real) -> real)
    requires Uniform(ps) && |ps| >= 2 && |js| > 0 && offset == (|ps| - 2) * |js|
    requires forall j :: 0 <= j < |js| ==> js[j] < |ps[|ps| - 1]|
    requires j < |listed| == |js| && listed[j] == Transition(ps, |ps| - 1, js[j], norm)
    ensures ListedAt(listed[j], offset + j, ps, js, norm)
  {
    DivModOf(|ps| - 2, j, |js|);
  }

  /** An entry of the order on all poses but the last is in the order on all
      of them. */
  lemma ListedEntryBefore(ps: seq<Pose>, js: seq<nat>, before: seq<real>, k: nat, norm: (real, real) -> real)
    requires Uniform(ps) && |ps| >= 2 && |js| > 0 && Uniform(ps[..|ps| - 1])
    requires k < |before| && ListedInOrder(before, ps[..|ps| - 1], js, norm)
    ensures ListedAt(before[k], k, ps, js, norm)
  {
    var front := ps[..|ps| - 1];
    assert ListedAt(before[k], k, front, js, norm);
    var i := k / |js| + 1;
    assert front[i] == ps[i] && front[i - 1] == ps[i - 1];
  }

  /** Division and remainder of `q * n + r` by `n` recover `q` and `r`. */
  lemma DivModOf(q: nat, r: nat, n: nat)
    requires r < n
    ensures (q * n + r) / n == q && (q * n + r) % n == r
  {
    var k := q * n + r;
    var a, b := k / n, k % n;
    assert (a - q) * n == r - b;
    if a > q {
      AtLeastOnce(a - q, n);
    } else if a < q {
      AtLeastOnce(q - a, n);
    }
  }

  /** A positive multiple of `n` is at least `n`. */
  lemma {:induction false} AtLeastOnce(d: int, n: nat)
    requires d >= 1
    ensures d * n >= n
    decreases d
  {
    if d > 1 {
      AtLeastOnce(d - 1, n);
      assert d * n == (d - 1) * n + n;
    }
  }

  // ---- Statistics and verdict ----

  /** The four figures the verdict is taken from. */
  datatype Motion = Motion(maxVelocity: real, meanVelocity: real, armVelocity: real, fracExceed: real)

  /** numpy's max, or 0 for no velocities. */
  function Peak(vs: seq<real>): real
  {
    if |vs| == 0 then 0.0 else Max(vs)
  }

  /** numpy's mean, or 0 for no velocities. */
  function Average(vs: seq<real>): real
  {
    if |vs| == 0 then 0.0 else Sum(vs) / |vs| as real
  }

  /** The fraction of velocities strictly above `t`, or 0 for none. */
  function FractionAbove(vs: seq<real>, t: real): real
  {
    if |vs| == 0 then 0.0 else CountAbove(vs, t) as real / |vs| as real
  }

  function Measure(vs: seq<real>, arms: seq<real>, t: real): Motion
  {
    Motion(Peak(vs), Average(vs), Average(arms), FractionAbove(vs, t))
  }

  /** The verdict: a high peak with a high mean and at least a quarter of the
      velocities above the threshold, or fast arms with at least a fifth. */
  predicate FightLike(m: Motion, t: real)
  {
    (m.maxVelocity > t * 1.2 && m.meanVelocity > t * 0.6 && m.fracExceed >= 0.25)
    || (m.armVelocity > t * 1.4 && m.fracExceed >= 0.2)
  }

  /** The mean of a non-empty list whose entries are all at most `b` is at most `b`. */
  lemma AverageAtMost(s: seq<real>, b: real)
    requires |s| > 0
    requires forall k :: 0 <= k < |s| ==> s[k] <= b
    ensures Average(s) <= b
  {
    SumAtMost(s, b);
    var n := |s| as real;
    assert Sum(s) <= n * b;
  }

  /** The mean never exceeds the peak. */
  lemma AverageAtMostPeak(vs: seq<real>)
    ensures Average(vs) <= Peak(vs)
  {
    if |vs| > 0 {
      AverageAtMost(vs, Max(vs));
    }
  }

  /** The fraction above a threshold is a proportion. */
  lemma FractionIsProportion(vs: seq<real>, t: real)
    ensures 0.0 <= FractionAbove(vs, t) <= 1.0
  {
    if |vs| > 0 {
      var c := CountAbove(vs, t) as real;
      var n := |vs| as real;
      assert 0.0 <= c <= n && n > 0.0;
      RatioBetweenZeroAndOne(c, n);
    }
  }

  lemma RatioBetweenZeroAndOne(c: real, n: real)
    requires 0.0 <= c <= n && n > 0.0
    ensures 0.0 <= c / n <= 1.0
  {
    assert c / n * n == c;
  }

  /** When the arm velocities are among the joint velocities, their mean
      never exceeds the peak joint velocity. */
  lemma ArmAverageAtMostPeak(vs: seq<real>, arms: seq<real>)
    requires |arms| > 0
    requires forall k :: 0 <= k < |arms| ==> arms[k] in vs
    ensures Average(arms) <= Peak(vs)
  {
    assert arms[0] in vs;
    var m := Max(vs);
    forall k | 0 <= k < |arms| ensures arms[k] <= m {
      assert arms[k] in vs;
      var i :| 0 <= i < |vs| && vs[i] == arms[k];
    }
    AverageAtMost(arms, m);
  }

  /** The reported figures are ordered: the mean and the arm mean never
      exceed the peak, and the fraction is a proportion. */
  lemma MeasureBounds(ps: seq<Pose>, t: real, norm: (real, real) -> real)
    requires Uniform(ps)
    ensures var m := Measure(Velocities(ps, norm), ArmVelocities(ps, norm), t);
      && m.meanVelocity <= m.maxVelocity
      && 0.0 <= m.fracExceed <= 1.0
      && (|ArmVelocities(ps, norm)| > 0 ==> m.armVelocity <= m.maxVelocity)
  {
    var vs := Velocities(ps, norm);
    var arms := ArmVelocities(ps, norm);
    AverageAtMostPeak(vs);
    FractionIsProportion(vs, t);
    if |arms| > 0 {
      ArmVelocitiesAmongAll(ps, norm);
      ArmAverageAtMostPeak(vs, arms);
    }
  }

  /** Velocities that all exceed 1.2 times a non-negative threshold make
      the motion fight-like: the peak and the mean are above the bounds and
      every velocity counts towards the fraction. */
  lemma FastMotionIsFightLike(vs: seq<real>, arms: seq<real>, t: real)
    requires t >= 0.0 && |vs| > 0
    requires forall k :: 0 <= k < |vs| ==> vs[k] > t * 1.2
    ensures FightLike(Measure(vs, arms, t), t)
  {
    SumAbove(vs, t * 1.2);
    var n := |vs| as real;
    assert Sum(vs) / n > t * 1.2 by {
      assert Sum(vs) > n * (t * 1.2);
    }
    CountAboveAll(vs, t);
    assert FractionAbove(vs, t) == 1.0;
  }

  /** With a non-negative threshold, velocities that are all zero (or absent)
      never look fight-like. */
  lemma StillMotionIsNormal(vs: seq<real>, arms: seq<real>, t: real)
    requires t >= 0.0
    requires forall k :: 0 <= k < |vs| ==> vs[k] == 0.0
    requires forall k :: 0 <= k < |arms| ==> arms[k] == 0.0
    ensures !FightLike(Measure(vs, arms, t), t)
  {
    SumConstant(vs, 0.0);
    SumConstant(arms, 0.0);
    CountAboveNone(vs, t);
    if |vs| > 0 {
      var i :| 0 <= i < |vs| && vs[i] == Max(vs);
    }
  }

  // ---- Detection ----

  /** The report of `detect_fight_like_motion`: no data at all, a sequence
      shorter than the minimum, or the analysed figures. */
  datatype Report =
    | NoData
    | TooShort(trackId: Option<int>, framesAnalyzed: nat)
    | Analysed(isSuspicious: bool, trackId: Option<int>, motion: Motion,
               framesAnalyzed: nat, alertTriggered: bool)

  /** `result.get('is_suspicious')`: only an analysed report can be
      suspicious, and then as its verdict says. */
  function IsSuspicious(r: Report): (s: bool)
    ensures s ==> r.Analysed?
    ensures r.Analysed? ==> s == r.isSuspicious
  {
    r.Analysed? && r.isSuspicious
  }

  function AlertTriggered(r: Report): bool
  {
    r.Analysed? && r.alertTriggered
  }

  /** The poses examined: the given sequence, else the track's history. */
  function Sequence(d: Detector, poses: Option<seq<Pose>>, trackId: Option<int>): seq<Pose>
  {
    if poses.Some? then poses.value
    else if trackId.Some? then HistoryOf(d.history, trackId.value)
    else []
  }

  /** The last `min_frames` poses of the examined sequence. */
  function Window(d: Detector, poses: Option<seq<Pose>>, trackId: Option<int>): seq<Pose>
  {
    PySuffix(Sequence(d, poses, trackId), d.minFrames)
  }

  function ActiveThreshold(d: Detector, threshold: Option<real>): real
  {
    if threshold.Some? then threshold.value else d.velocityThreshold
  }

  /** `detect_fight_like_motion`. Without a sequence and without a track
      there is nothing to analyse. A sequence shorter than `min_frames`
      reports that and changes nothing. Otherwise the velocities of the last
      `min_frames` poses decide the verdict, and for a given track the latch
      is set or cleared, alerting when it goes from clear to set. */
  function Detect(d: Detector, poses: Option<seq<Pose>>, threshold: Option<real>,
                  trackId: Option<int>, norm: (real, real) -> real): (r: (Report, Detector))
    requires (poses.Some? || trackId.Some?) && |Sequence(d, poses, trackId)| >= d.minFrames ==>
      Uniform(Window(d, poses, trackId))
    ensures r.1.history == d.history && r.1.velocityThreshold == d.velocityThreshold
    ensures r.1.minFrames == d.minFrames
    ensures poses.None? && trackId.None? ==> r == (NoData, d)
    ensures (poses.Some? || trackId.Some?) && |Sequence(d, poses, trackId)| < d.minFrames ==>
      r == (TooShort(trackId, |Sequence(d, poses, trackId)|), d)
    ensures (poses.Some? || trackId.Some?) && |Sequence(d, poses, trackId)| >= d.minFrames ==>
      var w := Window(d, poses, trackId);
      var t := ActiveThreshold(d, threshold);
      var m := Measure(Velocities(w, norm), ArmVelocities(w, norm), t);
      && r.0.Analysed?
      && r.0.motion == m
      && r.0.isSuspicious == FightLike(m, t)
      && r.0.trackId == trackId
      && r.0.framesAnalyzed == |Sequence(d, poses, trackId)|
      && r.0.alertTriggered == (trackId.Some? && FightLike(m, t) && trackId.value !in d.suspicious)
      && r.1.suspicious == (if trackId.Some? then Latch(d.suspicious, trackId.value, FightLike(m, t)) else d.suspicious)
  {
    if poses.None? && trackId.None? then (NoData, d)
    else
      var ps := Sequence(d, poses, trackId);
      if |ps| < d.minFrames then (TooShort(trackId, |ps|), d)
      else
        var w := Window(d, poses, trackId);
        var t := ActiveThreshold(d, threshold);
        var m := Measure(Velocities(w, norm), ArmVelocities(w, norm), t);
        var suspicious := FightLike(m, t);
        if trackId.None? then (Analysed(suspicious, trackId, m, |ps|, false), d)
        else
          var id := trackId.value;
          var alert := suspicious && id !in d.suspicious;
          (Analysed(suspicious, trackId, m, |ps|, alert), d.(suspicious := Latch(d.suspicious, id, suspicious)))
  }

  /** `np.linalg.norm` of a two-dimensional displacement: the non-negative
      square root of its squared length, which is 0 for no displacement. */
  ghost predicate IsNorm(norm: (real, real) -> real)
  {
    && norm(0.0, 0.0) == 0.0
    && forall dx: real, dy: real :: norm(dx, dy) >= 0.0 && norm(dx, dy) * norm(dx, dy) == dx * dx + dy * dy
  }

  /** With a true norm and non-negative visibilities a weighted distance is non-negative. */
  lemma WeightedNonNegative(a: Keypoint, b: Keypoint, norm: (real, real) -> real)
    requires IsNorm(norm)
    requires a.visibility >= 0.0 && b.visibility >= 0.0
    ensures Weighted(a, b, norm) >= 0.0
  {
    assert norm(b.x - a.x, b.y - a.y) >= 0.0;
  }

  /** With a true norm and non-negative visibilities every joint speed
      between two poses is non-negative. */
  lemma JointSpeedsNonNegative(prev: Pose, curr: Pose, norm: (real, real) -> real)
    requires IsNorm(norm) && |prev| == |curr|
    requires forall j :: 0 <= j < |prev| ==> prev[j].visibility >= 0.0 && curr[j].visibility >= 0.0
    ensures forall j :: 0 <= j < |prev| ==> JointSpeeds(prev, curr, norm)[j] >= 0.0
  {
    forall j | 0 <= j < |prev| ensures JointSpeeds(prev, curr, norm)[j] >= 0.0 {
      WeightedNonNegative(prev[j], curr[j], norm);
    }
  }

  /** Every pose of the list has non-negative visibility scores. */
  predicate Visible(ps: seq<Pose>)
  {
    forall i, j :: 0 <= i < |ps| && 0 <= j < |ps[i]| ==> ps[i][j].visibility >= 0.0
  }

  /** With a true norm and non-negative visibilities, every velocity is non-negative. */
  lemma VelocitiesNonNegative(ps: seq<Pose>, norm: (real, real) -> real)
    requires IsNorm(norm) && Uniform(ps) && Visible(ps)
    ensures forall k :: 0 <= k < |Velocities(ps, norm)| ==> Velocities(ps, norm)[k] >= 0.0
  {
    var vs := Velocities(ps, norm);
    VelocitiesFromTransitions(ps, norm);
    forall k | 0 <= k < |vs| ensures vs[k] >= 0.0 {
      assert IsTransition(vs[k], ps, norm);
      var i: nat, j: nat :| 1 <= i < |ps| && j < |ps[i]| && vs[k] == Transition(ps, i, j, norm);
      WeightedNonNegative(ps[i - 1][j], ps[i][j], norm);
    }
  }

  /** Non-negative velocities, of which the arm velocities are a part, give
      non-negative figures. */
  lemma MeasureNonNegative(vs: seq<real>, arms: seq<real>, t: real)
    requires forall k :: 0 <= k < |vs| ==> vs[k] >= 0.0
    requires forall k :: 0 <= k < |arms| ==> arms[k] in vs
    ensures var m := Measure(vs, arms, t);
      m.maxVelocity >= 0.0 && m.meanVelocity >= 0.0 && m.armVelocity >= 0.0
  {
    forall k | 0 <= k < |arms| ensures arms[k] >= 0.0 {
      assert arms[k] in vs;
      var i :| 0 <= i < |vs| && vs[i] == arms[k];
    }
    SumAtLeastZero(vs);
    SumAtLeastZero(arms);
    if |vs| > 0 {
      assert Max(vs) >= vs[0];
    }
  }

  /** With a true norm and non-negative visibilities, every reported figure is non-negative. */
  lemma FiguresNonNegative(ps: seq<Pose>, t: real, norm: (real, real) -> real)
    requires IsNorm(norm) && Uniform(ps) && Visible(ps)
    ensures var m := Measure(Velocities(ps, norm), ArmVelocities(ps, norm), t);
      m.maxVelocity >= 0.0 && m.meanVelocity >= 0.0 && m.armVelocity >= 0.0
  {
    VelocitiesNonNegative(ps, norm);
    ArmVelocitiesAmongAll(ps, norm);
    MeasureNonNegative(Velocities(ps, norm), ArmVelocities(ps, norm), t);
  }

  /** A list of non-negative reals has a non-negative sum. */
  lemma {:induction false} SumAtLeastZero(s: seq<real>)
    requires forall k :: 0 <= k < |s| ==> s[k] >= 0.0
    ensures Sum(s) >= 0.0
  {
    if |s| > 0 {
      var p := s[..|s| - 1];
      assert forall k :: 0 <= k < |p| ==> p[k] == s[k];
      SumAtLeastZero(p);
    }
  }

  /** Identical poses give zero velocities for every joint and every arm joint. */
  lemma StillVelocities(w: seq<Pose>, norm: (real, real) -> real)
    requires IsNorm(norm) && Uniform(w)
    requires forall i :: 0 <= i < |w| ==> w[i] == w[0]
    ensures forall k :: 0 <= k < |Velocities(w, norm)| ==> Velocities(w, norm)[k] == 0.0
    ensures forall k :: 0 <= k < |ArmVelocities(w, norm)| ==> ArmVelocities(w, norm)[k] == 0.0
  {
    var vs := Velocities(w, norm);
    var arms := ArmVelocities(w, norm);
    StillJointVelocities(w, norm);
    ArmVelocitiesAmongAll(w, norm);
    forall k | 0 <= k < |arms| ensures arms[k] == 0.0 {
      assert arms[k] in vs;
      var i :| 0 <= i < |vs| && vs[i] == arms[k];
    }
  }

  /** The all-joints half of `StillVelocities`. */
  lemma StillJointVelocities(w: seq<Pose>, norm: (real, real) -> real)
    requires IsNorm(norm) && Uniform(w)
    requires forall i :: 0 <= i < |w| ==> w[i] == w[0]
    ensures forall k :: 0 <= k < |Velocities(w, norm)| ==> Velocities(w, norm)[k] == 0.0
  {
    var vs := Velocities(w, norm);
    VelocitiesFromTransitions(w, norm);
    forall k | 0 <= k < |vs| ensures vs[k] == 0.0 {
      assert IsTransition(vs[k], w, norm);
      var i: nat, j: nat :| 1 <= i < |w| && j < |w[i]| && vs[k] == Transition(w, i, j, norm);
      assert w[i - 1] == w[i];
      var a := w[i][j];
      assert a.x - a.x == 0.0 && a.y - a.y == 0.0;
    }
  }

  /** A person who does not move between the examined frames is never
      flagged when the threshold is non-negative, whatever the visibilities. */
  lemma StillPersonIsNotSuspicious(d: Detector, poses: seq<Pose>, threshold: Option<real>,
                                   trackId: Option<int>, norm: (real, real) -> real)
    requires IsNorm(norm)
    requires forall i :: 0 <= i < |poses| ==> poses[i] == poses[0]
    requires ActiveThreshold(d, threshold) >= 0.0
    ensures Uniform(Window(d, Some(poses), trackId))
    ensures !IsSuspicious(Detect(d, Some(poses), threshold, trackId, norm).0)
    ensures !AlertTriggered(Detect(d, Some(poses), threshold, trackId, norm).0)
  {
    var w := Window(d, Some(poses), trackId);
    assert forall i :: 0 <= i < |w| ==> w[i] == poses[|poses| - |w| + i];
    assert forall i :: 0 <= i < |w| ==> w[i] == w[0];
    StillVelocities(w, norm);
    StillMotionIsNormal(Velocities(w, norm), ArmVelocities(w, norm), ActiveThreshold(d, threshold));
  }

  /** When every joint of every examined transition moves faster than 1.2
      times a non-negative threshold, the person is flagged, and a tracked
      person not yet flagged raises an alert. */
  lemma FastPersonIsSuspicious(d: Detector, poses: seq<Pose>, threshold: Option<real>,
                               trackId: Option<int>, norm: (real, real) -> real)
    requires Uniform(Window(d, Some(poses), trackId))
    requires |poses| >= d.minFrames
    requires var w := Window(d, Some(poses), trackId);
      |w| >= 2 && |w[0]| > 0 &&
      forall i: nat, j: nat :: 1 <= i < |w| && j < |w[i]| ==>
        Transition(w, i, j, norm) > ActiveThreshold(d, threshold) * 1.2
    requires ActiveThreshold(d, threshold) >= 0.0
    ensures IsSuspicious(Detect(d, Some(poses), threshold, trackId, norm).0)
    ensures trackId.Some? && trackId.value !in d.suspicious ==>
      AlertTriggered(Detect(d, Some(poses), threshold, trackId, norm).0)
  {
    var w := Window(d, Some(poses), trackId);
    var vs := Velocities(w, norm);
    VelocitiesFromTransitions(w, norm);
    VelocitiesNonEmpty(w, norm);
    forall k | 0 <= k < |vs| ensures vs[k] > ActiveThreshold(d, threshold) * 1.2 {
      assert IsTransition(vs[k], w, norm);
      var i: nat, j: nat :| 1 <= i < |w| && j < |w[i]| && vs[k] == Transition(w, i, j, norm);
    }
    FastMotionIsFightLike(vs, ArmVelocities(w, norm), ActiveThreshold(d, threshold));
  }

  /** Asking twice about the same track with the same poses raises at most
      one alert: the first positive verdict sets the latch. */
  lemma SecondCallDoesNotAlert(d: Detector, poses: seq<Pose>, id: int, norm: (real, real) -> real)
    requires Uniform(Window(d, Some(poses), Some(id)))
    ensures var (_, d1) := Detect(d, Some(poses), None, Some(id), norm);
      Uniform(Window(d1, Some(poses), Some(id))) &&
      !AlertTriggered(Detect(d1, Some(poses), None, Some(id), norm).0)
  {
  }

  /** `cleanup_old_tracks`: drops the history of every track not in the
      active list and unflags those tracks. A flagged track without a
      history entry stays flagged. */
  function Cleanup(d: Detector, active: seq<int>): (r: Detector)
    ensures r.history.Keys == set k | k in d.history && k in active
    ensures forall k :: k in r.history ==> r.history[k] == d.history[k]
    ensures forall k :: k in r.suspicious <==> k in d.suspicious && (k in active || k !in d.history)
    ensures r.velocityThreshold == d.velocityThreshold && r.minFrames == d.minFrames
  {
    var gone := set k | k in d.history && k !in active;
    d.(history := map k | k in d.history && k in active :: d.history[k],
       suspicious := d.suspicious - gone)
  }

  /** Cleaning up twice with the same active list changes nothing more, and
      cleanup keeps histories within the cap. */
  lemma CleanupIdempotent(d: Detector, active: seq<int>)
    ensures Cleanup(Cleanup(d, active), active) == Cleanup(d, active)
    ensures Bounded(d) ==> Bounded(Cleanup(d, active))
  {
    var once := Cleanup(d, active);
    var twice := Cleanup(once, active);
    assert twice.history == once.history;
    assert twice.suspicious == once.suspicious;
  }
}
