/**
 * The pure decisions of the live stream loop: the per-key cooldown that
 * debounces outgoing alerts, and the post-processing of a suspicious-activity
 * verdict (nearest neighbour, subtype, reliability score and alert gate).
 * Wall-clock time enters as the parameter `now`; distances are kept squared.
 */
module LiveAlerts {
  import opened Common
  import opened Geometry
  import Tracking
  import Suspicious

  // ---- Debounce ----

  datatype EventType = Overcrowding | Loitering | ZoneViolation | SuspiciousActivity

  /** The cooldown key: the event type and the report's track id, if any. */
  datatype AlertKey = AlertKey(event: EventType, trackId: Option<int>)

  const CooldownSeconds: real := 5.0

  /** When an alert with this key was last sent; 0 when never. */
  function LastSent(last: map<AlertKey, real>, key: AlertKey): real
  {
    if key in last then last[key] else 0.0
  }

  /** The cooldown of `send_anomaly_alert`: an alert goes out only when at
      least `CooldownSeconds` have passed since the last one with the same
      key, and sending it records `now` for that key. A suppressed alert
      changes nothing. */
  function Debounce(last: map<AlertKey, real>, key: AlertKey, now: real): (r: (bool, map<AlertKey, real>))
    ensures r.0 <==> now - LastSent(last, key) >= CooldownSeconds
    ensures r.0 ==> key in r.1 && r.1[key] == now
    ensures r.0 ==> forall k :: k != key ==> (k in r.1 <==> k in last) && (k in last ==> r.1[k] == last[k])
    ensures !r.0 ==> r.1 == last
  {
    if now - LastSent(last, key) < CooldownSeconds then (false, last)
    else (true, last[key := now])
  }

  /** One call of `send_anomaly_alert`. */
  datatype Call = Call(key: AlertKey, now: real)

  /** The calls of a session in order, with the alert decisions and the final cooldown map. */
  function Replay(last: map<AlertKey, real>, calls: seq<Call>): (r: (seq<bool>, map<AlertKey, real>))
    ensures |r.0| == |calls|
    decreases |calls|
  {
    if |calls| == 0 then ([], last)
    else
      var (sent, m) := Replay(last, calls[..|calls| - 1]);
      var c := calls[|calls| - 1];
      var (s, m') := Debounce(m, c.key, c.now);
      (sent + [s], m')
  }

  /** The clock never goes backwards between calls. */
  predicate Chronological(calls: seq<Call>)
  {
    forall i, j :: 0 <= i < j < |calls| ==> calls[i].now <= calls[j].now
  }

  /** Every alert that went out is remembered for its key at a time no earlier than its own. */
  predicate Remembers(calls: seq<Call>, sent: seq<bool>, m: map<AlertKey, real>)
    requires |sent| == |calls|
  {
    forall i :: 0 <= i < |calls| && sent[i] ==> calls[i].key in m && calls[i].now <= m[calls[i].key]
  }

  lemma {:induction false} ReplayRemembers(last: map<AlertKey, real>, calls: seq<Call>)
    requires Chronological(calls)
    ensures Remembers(calls, Replay(last, calls).0, Replay(last, calls).1)
    decreases |calls|
  {
    if |calls| > 0 {
      var front := calls[..|calls| - 1];
      assert Chronological(front) by {
        forall i, j | 0 <= i < j < |front| ensures front[i].now <= front[j].now {
          assert front[i] == calls[i] && front[j] == calls[j];
        }
      }
      ReplayRemembers(last, front);
      var (sent, m) := Replay(last, front);
      var c := calls[|calls| - 1];
      var (s, m') := Debounce(m, c.key, c.now);
      var all := sent + [s];
      assert Replay(last, calls) == (all, m');
      forall i | 0 <= i < |calls| && all[i]
        ensures calls[i].key in m' && calls[i].now <= m'[calls[i].key]
      {
        if i < |front| {
          assert calls[i] == front[i] && all[i] == sent[i];
          if s && calls[i].key == c.key {
            assert calls[i].now <= c.now;
          }
        }
      }
    }
  }

  /** Alerts with the same key that both go out are at least the cooldown apart. */
  lemma {:induction false} SentAlertsAreSpaced(last: map<AlertKey, real>, calls: seq<Call>, i: nat, j: nat)
    requires Chronological(calls)
    requires i < j < |calls| && calls[i].key == calls[j].key
    requires Replay(last, calls).0[i] && Replay(last, calls).0[j]
    ensures calls[j].now - calls[i].now >= CooldownSeconds
    decreases |calls|
  {
    var front := calls[..|calls| - 1];
    assert Chronological(front) by {
      forall a, b | 0 <= a < b < |front| ensures front[a].now <= front[b].now {
        assert front[a] == calls[a] && front[b] == calls[b];
      }
    }
    var (sent, m) := Replay(last, front);
    var c := calls[|calls| - 1];
    assert Replay(last, calls).0 == sent + [Debounce(m, c.key, c.now).0];
    if j < |calls| - 1 {
      assert front[i] == calls[i] && front[j] == calls[j];
      SentAlertsAreSpaced(last, front, i, j);
    } else {
      ReplayRemembers(last, front);
      assert front[i] == calls[i] && sent[i];
    }
  }

  // ---- Nearest neighbour ----

  /** The squared centre distance from `c` to the nearest track with another
      id, or None when every track has this id. The loop keeps the first
      strictly smaller distance, which leaves the minimum. */
  function NearestSq(tracks: seq<Tracking.Reported>, id: int, c: Point): (r: Option<real>)
    ensures r.None? <==> forall i :: 0 <= i < |tracks| ==> tracks[i].id == id
    ensures r.Some? ==> exists i :: 0 <= i < |tracks| && tracks[i].id != id && r.value == SqDist(Center(tracks[i].box), c)
    ensures r.Some? ==> forall i :: 0 <= i < |tracks| && tracks[i].id != id ==> r.value <= SqDist(Center(tracks[i].box), c)
    decreases |tracks|
  {
    if |tracks| == 0 then None
    else
      var front := tracks[..|tracks| - 1];
      var t := tracks[|tracks| - 1];
      var best := NearestSq(front, id, c);
      assert forall i :: 0 <= i < |front| ==> front[i] == tracks[i];
      if t.id == id then best
      else
        var dist := SqDist(Center(t.box), c);
        if best.None? || dist < best.value then Some(dist) else best
  }

  /** A neighbour exists and is closer than `radius` (`min_dist < radius`). */
  predicate Within(nearSq: Option<real>, radius: real)
  {
    nearSq.Some? && DistanceBelow(nearSq.value, radius)
  }

  // ---- Subtype, reliability and gate ----

  /** The labels of a suspicious verdict; `Generic` is 'suspicious'. */
  datatype Subtype = Fight | Intimacy | Cruelty | Generic

  /** The subtype heuristic, first match wins: fast peak with fast arms is a
      fight; a close, calm neighbour is intimacy; fast arms near someone is
      cruelty; anything else is generic. */
  function Classify(m: Suspicious.Motion, t: real, nearSq: Option<real>): (s: Subtype)
    ensures s == Fight <==> m.maxVelocity > t && m.armVelocity > t * 1.2
    ensures s == Intimacy <==>
      !(m.maxVelocity > t && m.armVelocity > t * 1.2) && Within(nearSq, 60.0) && m.meanVelocity < t * 0.4
    ensures s == Cruelty <==>
      && !(m.maxVelocity > t && m.armVelocity > t * 1.2)
      && !(Within(nearSq, 60.0) && m.meanVelocity < t * 0.4)
      && Within(nearSq, 80.0) && m.armVelocity > t
    ensures s == Generic <==>
      && !(m.maxVelocity > t && m.armVelocity > t * 1.2)
      && !(Within(nearSq, 60.0) && m.meanVelocity < t * 0.4)
      && !(Within(nearSq, 80.0) && m.armVelocity > t)
  {
    if m.maxVelocity > t && m.armVelocity > t * 1.2 then Fight
    else if Within(nearSq, 60.0) && m.meanVelocity < t * 0.4 then Intimacy
    else if m.armVelocity > t && Within(nearSq, 80.0) then Cruelty
    else Generic
  }

  /** The reliability score: 0.4 of a capped motion factor, 0.4 of a capped
      spread factor and 0.2 of a proximity factor, clamped to [0, 1]. The
      motion factor divides by 1.2 times the threshold, which raises for a
      zero threshold. */
  function Reliability(m: Suspicious.Motion, t: real, nearSq: Option<real>): (r: Outcome<real>)
    ensures r.ZeroDivisionError? <==> t == 0.0
    ensures r.Ok? ==> 0.0 <= r.value <= 1.0
  {
    if t * 1.2 == 0.0 then ZeroDivisionError
    else
      var proximity := Proximity(nearSq);
      var motion := RMin(1.0, (m.maxVelocity / (t * 1.2)) * 0.5 + (m.armVelocity / (t * 1.2)) * 0.5);
      var spread := RMin(1.0, m.fracExceed / 0.35);
      Ok(RMax(0.0, RMin(1.0, 0.4 * motion + 0.4 * spread + 0.2 * proximity)))
  }

  /** The proximity factor: full for a neighbour closer than 80, else 0.6. */
  function Proximity(nearSq: Option<real>): (p: real)
    ensures p == 1.0 <==> Within(nearSq, 80.0)
    ensures p == 0.6 <==> !Within(nearSq, 80.0)
  {
    if Within(nearSq, 80.0) then 1.0 else 0.6
  }

  /** Without a neighbour closer than 80 the score stays at most 0.92, so a
      lone person needs strong motion and spread to reach the gates. */
  lemma DistantScoreCapped(m: Suspicious.Motion, t: real, nearSq: Option<real>)
    requires t != 0.0 && !Within(nearSq, 80.0)
    ensures Reliability(m, t, nearSq).value <= 0.92
  {
  }

  /** Peak and arm velocities of at least 1.2 times a positive threshold,
      more than a third of the velocities above it, and a neighbour closer
      than 80 give the full score. */
  lemma FullScore(m: Suspicious.Motion, t: real, nearSq: Option<real>)
    requires t > 0.0 && m.maxVelocity >= t * 1.2 && m.armVelocity >= t * 1.2
    requires m.fracExceed >= 0.35 && Within(nearSq, 80.0)
    ensures Reliability(m, t, nearSq) == Ok(1.0)
  {
    RatioAtLeastOne(m.maxVelocity, t * 1.2);
    RatioAtLeastOne(m.armVelocity, t * 1.2);
    assert m.fracExceed / 0.35 >= 1.0;
  }

  lemma RatioAtLeastOne(a: real, k: real)
    requires k > 0.0 && a >= k
    ensures a / k >= 1.0
  {
    assert (a / k) * k == a;
  }

  /** The alert gate by subtype: fights and cruelty need a score of 0.6 and
      a neighbour closer than 120 or 140; intimacy never alerts; the generic
      label needs a score of 0.5. */
  function Gate(s: Subtype, reliability: real, nearSq: Option<real>): (open: bool)
    ensures open ==> reliability >= 0.5 && s != Intimacy
    ensures open && s != Generic ==> reliability >= 0.6 && nearSq.Some? && nearSq.value < 140.0 * 140.0
    ensures s == Fight ==> (open <==> reliability >= 0.6 && Within(nearSq, 120.0))
    ensures s == Cruelty ==> (open <==> reliability >= 0.6 && Within(nearSq, 140.0))
    ensures s == Generic ==> (open <==> reliability >= 0.5)
  {
    match s
    case Fight => reliability >= 0.6 && Within(nearSq, 120.0)
    case Cruelty => reliability >= 0.6 && Within(nearSq, 140.0)
    case Intimacy => false
    case Generic => reliability >= 0.5
  }

  /** Whether the live loop sends a suspicious-activity alert for a report.
      For a suspicious verdict the gate replaces the detector's edge flag;
      when the score raises, the handler falls back to that flag; otherwise
      the flag stands. */
  function FinalAlert(report: Suspicious.Report, t: real, nearSq: Option<real>): (alert: bool)
    ensures !Suspicious.IsSuspicious(report) ==> alert == Suspicious.AlertTriggered(report)
    ensures Suspicious.IsSuspicious(report) && t != 0.0 ==>
      alert == Gate(Classify(report.motion, t, nearSq), Reliability(report.motion, t, nearSq).value, nearSq)
    ensures Suspicious.IsSuspicious(report) && t == 0.0 ==> alert == report.alertTriggered
  {
    if !Suspicious.IsSuspicious(report) then Suspicious.AlertTriggered(report)
    else
      match Reliability(report.motion, t, nearSq)
      case ZeroDivisionError => report.alertTriggered
      case Ok(rel) => Gate(Classify(report.motion, t, nearSq), rel, nearSq)
  }

  /** Intimacy never alerts, and a person with no neighbour closer than 120
      can only alert under the generic label. */
  lemma GateProperties(s: Subtype, rel: real, nearSq: Option<real>)
    ensures s == Intimacy ==> !Gate(s, rel, nearSq)
    ensures Gate(s, rel, nearSq) && !Within(nearSq, 120.0) ==> s == Cruelty || s == Generic
    ensures Gate(s, rel, nearSq) && nearSq.None? ==> s == Generic && rel >= 0.5
  {
  }

  /** The gate in the handler's own terms, for a neighbour at distance
      `dist`: a fight alerts exactly with a score of 0.6 and `dist < 120`, a
      cruelty report exactly with 0.6 and `dist < 140`, intimacy never, and a
      generic report exactly with 0.5; with no neighbour only a generic report
      with 0.5 alerts. */
  lemma GateByDistance(s: Subtype, rel: real, dist: real)
    requires dist >= 0.0
    ensures s == Fight ==> (Gate(s, rel, Some(dist * dist)) <==> rel >= 0.6 && dist < 120.0)
    ensures s == Cruelty ==> (Gate(s, rel, Some(dist * dist)) <==> rel >= 0.6 && dist < 140.0)
    ensures s == Intimacy ==> !Gate(s, rel, Some(dist * dist))
    ensures s == Generic ==> (Gate(s, rel, Some(dist * dist)) <==> rel >= 0.5)
    ensures Gate(s, rel, None) <==> s == Generic && rel >= 0.5
  {
    DistanceBelowMatchesRoot(dist, dist * dist, 120.0);
    DistanceBelowMatchesRoot(dist, dist * dist, 140.0);
  }

  /** Intimacy is checked before cruelty: a calm person with fast arms close
      to a neighbour is labelled intimacy, and so never alerts, whatever the
      score. */
  lemma IntimacyShadowsCruelty(m: Suspicious.Motion, t: real, nearSq: Option<real>, rel: real)
    requires !(m.maxVelocity > t && m.armVelocity > t * 1.2)
    requires Within(nearSq, 60.0) && m.meanVelocity < t * 0.4
    requires m.armVelocity > t
    ensures Classify(m, t, nearSq) == Intimacy
    ensures !Gate(Classify(m, t, nearSq), rel, nearSq)
  {
  }

  /** The live suspicious-activity step for one tracked person on an analysed
      frame: the detector's verdict on the stored poses, then the gate. */
  function LiveSuspicious(d: Suspicious.Detector, tracks: seq<Tracking.Reported>, id: int, c: Point,
                          norm: (real, real) -> real): (r: (bool, Suspicious.Report, Suspicious.Detector))
    requires Suspicious.Uniform(Suspicious.Window(d, None, Some(id)))
    ensures (r.1, r.2) == Suspicious.Detect(d, None, None, Some(id), norm)
    ensures r.0 == FinalAlert(r.1, d.velocityThreshold, NearestSq(tracks, id, c))
  {
    var (report, next) := Suspicious.Detect(d, None, None, Some(id), norm);
    (FinalAlert(report, d.velocityThreshold, NearestSq(tracks, id, c)), report, next)
  }

  /** The live loop only alerts on a suspicious verdict. */
  lemma LiveAlertNeedsSuspicion(d: Suspicious.Detector, tracks: seq<Tracking.Reported>, id: int, c: Point,
                                norm: (real, real) -> real)
    requires Suspicious.Uniform(Suspicious.Window(d, None, Some(id)))
    ensures var (alert, report, _) := LiveSuspicious(d, tracks, id, c, norm);
      alert ==> Suspicious.IsSuspicious(report)
  {
  }

  /** With a non-zero threshold the detector's latch plays no part in the
      live alert: two detectors that differ only in their latched tracks give
      the same answer, so an already-latched person can alert again. */
  lemma LatchIgnoredByGate(d1: Suspicious.Detector, d2: Suspicious.Detector, tracks: seq<Tracking.Reported>,
                           id: int, c: Point, norm: (real, real) -> real)
    requires d1.velocityThreshold != 0.0
    requires d1.velocityThreshold == d2.velocityThreshold && d1.minFrames == d2.minFrames
    requires d1.history == d2.history
    requires Suspicious.Uniform(Suspicious.Window(d1, None, Some(id)))
    ensures Suspicious.Uniform(Suspicious.Window(d2, None, Some(id)))
    ensures LiveSuspicious(d1, tracks, id, c, norm).0 == LiveSuspicious(d2, tracks, id, c, norm).0
  {
    assert Suspicious.Window(d1, None, Some(id)) == Suspicious.Window(d2, None, Some(id));
    var r1 := Suspicious.Detect(d1, None, None, Some(id), norm).0;
    var r2 := Suspicious.Detect(d2, None, None, Some(id), norm).0;
    DetectIgnoresLatch(d1, d2, id, norm);
    FinalAlertIgnoresFlag(r1, r2, d1.velocityThreshold, NearestSq(tracks, id, c));
  }

  /** Two detectors that differ only in their latched tracks reach the same
      verdict on the same figures, and neither alerts without a verdict. */
  lemma DetectIgnoresLatch(d1: Suspicious.Detector, d2: Suspicious.Detector, id: int, norm: (real, real) -> real)
    requires d1.velocityThreshold == d2.velocityThreshold && d1.minFrames == d2.minFrames
    requires d1.history == d2.history
    requires Suspicious.Uniform(Suspicious.Window(d1, None, Some(id)))
    ensures Suspicious.Window(d1, None, Some(id)) == Suspicious.Window(d2, None, Some(id))
    ensures var r1 := Suspicious.Detect(d1, None, None, Some(id), norm).0;
      var r2 := Suspicious.Detect(d2, None, None, Some(id), norm).0;
      && Suspicious.IsSuspicious(r1) == Suspicious.IsSuspicious(r2)
      && (r1.Analysed? ==> r2.Analysed? && r1.motion == r2.motion)
      && (!Suspicious.IsSuspicious(r1) ==> !Suspicious.AlertTriggered(r1) && !Suspicious.AlertTriggered(r2))
  {
    assert Suspicious.Window(d1, None, Some(id)) == Suspicious.Window(d2, None, Some(id));
  }

  /** The final alert of a suspicious report depends only on its figures,
      and a report that is not suspicious and raised no alert stays silent. */
  lemma FinalAlertIgnoresFlag(r1: Suspicious.Report, r2: Suspicious.Report, t: real, nearSq: Option<real>)
    requires t != 0.0
    requires Suspicious.IsSuspicious(r1) == Suspicious.IsSuspicious(r2)
    requires Suspicious.IsSuspicious(r1) ==> r1.motion == r2.motion
    requires !Suspicious.IsSuspicious(r1) ==> !Suspicious.AlertTriggered(r1) && !Suspicious.AlertTriggered(r2)
    ensures FinalAlert(r1, t, nearSq) == FinalAlert(r2, t, nearSq)
  {
  }

  /** A person alone in the frame can only raise the generic alert, and only
      with a score of at least 0.5. */
  lemma AloneOnlyGeneric(d: Suspicious.Detector, tracks: seq<Tracking.Reported>, id: int, c: Point,
                         norm: (real, real) -> real)
    requires Suspicious.Uniform(Suspicious.Window(d, None, Some(id)))
    requires d.velocityThreshold != 0.0
    requires forall i :: 0 <= i < |tracks| ==> tracks[i].id == id
    ensures var (alert, report, _) := LiveSuspicious(d, tracks, id, c, norm);
      alert ==>
        Classify(report.motion, d.velocityThreshold, None) == Generic &&
        Reliability(report.motion, d.velocityThreshold, None).value >= 0.5
  {
    var (alert, report, _) := LiveSuspicious(d, tracks, id, c, norm);
    if alert {
      GateProperties(Classify(report.motion, d.velocityThreshold, None),
                     Reliability(report.motion, d.velocityThreshold, None).value, None);
    }
  }
}
