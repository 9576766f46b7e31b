# Crowd anomaly detection: tracker, detectors and evaluation in Dafny

This project models the decision logic of a crowd-monitoring backend that
follows people through a video and raises alerts. The model has four parts:

- **Tracker.** A DeepSORT-style tracker in `backend/tracking/deepsort.py`. Each
  frame it predicts every track with a constant-velocity Kalman mean. It then
  associates detections to tracks by IoU, using a fast path or an assignment
  solver. Matched tracks are updated, unmatched detections start new tracks,
  confirmed tracks are reported, and stale tracks are pruned.
- **Four anomaly detectors** in `backend/anomaly/`: overcrowding by count,
  loitering by the spread of recent centre positions, zone violation by
  polygon containment, and fight-like motion by pose keypoint velocities.
  Each detector keeps its alert latch per track (or per process).
- **Live alert post-processing** in `backend/routes/stream.py`: the per-key
  cooldown that debounces alerts, and the step that turns a suspicious
  verdict into a subtype, a reliability score and an alert gate. It uses the
  nearest other track.
- **Offline evaluation** in `scripts/eval_metrics.py`: greedy IoU matching of
  predicted to ground-truth boxes, the totals over frames, and first-fit
  matching of predicted to ground-truth anomaly events.

Modules: `Common` (Option, Python's `s[-k:]`, ZeroDivisionError as an
outcome, latches, sums), `Geometry` (boxes, IoU, squared distances),
`Association`, `Tracking`, `Overcrowding`, `Loitering`, `Zones`, `Suspicious`,
`LiveAlerts`, `EvalMetrics`.

Collaborators the model cannot see are parameters:

- the state-to-box conversion `toBox`, which takes a square root;
- the Kalman measurement update of the mean, `correct`;
- the optimal assignment solver `solve`, assumed only to return a one-to-one
  pairing within bounds;
- the polygon containment test of the geometry library, `contains`;
- the Euclidean norm `norm` used for joint displacements. `IsNorm` pins it to
  the non-negative square root.

Wall-clock time is the parameter `now`. Distances that the source compares
after a square root are compared here as squares against squared bounds.
`Geometry.DistanceBelowMatchesRoot` proves the two tests agree.

Behaviour of the code worth knowing:

- **IoU of a box with itself.** IoU adds `1e-6` to the union, so a box
  scores A / (A + 1e-6) < 1 against itself, not 1 (`Geometry.IouSelf`).
- **Overcrowding with threshold 0.** A threshold of 0 and a positive count
  raise ZeroDivisionError in the severity computation, after the latch is
  stored (`Overcrowding.Detect`). In the live loop this ends the stream.
- **The live gate.** For a suspicious verdict, the live loop replaces the
  detector's edge-triggered flag with the gate. A person who is still
  latched can therefore alert again; only the 5-second cooldown holds it
  back (`LiveAlerts.LatchIgnoredByGate`).

## Model

| member | source | states |
|---|---|---|
| Common.PySuffix | backend/anomaly/loitering.py:80 | Python's `s[-k:]`: the last k elements for positive k, all of s for k = 0, s without its first -k elements for negative k; always a suffix of s |
| Common.Latch | backend/anomaly/loitering.py:88-95 | the per-id alert set after an observation holds the id exactly when the observation is positive and leaves every other id unchanged |
| Common.Max | backend/anomaly/loitering.py:127 | the maximum bounds every entry and is one of them |
| Geometry.DistanceBelowMatchesRoot | backend/anomaly/loitering.py:126-129 | for the non-negative root m of a squared distance, `m < threshold` holds exactly when the squared test holds |
| Geometry.IouSymmetric | backend/tracking/deepsort.py:234-248 | IoU does not depend on argument order |
| Geometry.IouRange | backend/tracking/deepsort.py:234-248 | for well-formed boxes the denominator is at least 1e-6 and IoU lies in [0, 1) |
| Geometry.Iou | backend/tracking/deepsort.py:234-248 | the score times the union-plus-1e-6 denominator is the intersection area, and boxes with no overlap score 0 |
| Geometry.IouSelf | backend/tracking/deepsort.py:241-248 | a box against itself scores Area / (Area + 1e-6), which is below 1 |
| Geometry.IouDisjoint | scripts/eval_metrics.py:11-25 | boxes separated on the x axis score 0 |
| Association.IouMatrixRange | backend/tracking/deepsort.py:192-196 | for well-formed detection and tracker boxes every entry of the IoU matrix lies in [0, 1) |
| Association.FirstAbove | backend/tracking/deepsort.py:199-201 | the first column (from a start) whose entry is strictly above the threshold, with none before it above; none exactly when no entry from the start is above |
| Association.WherePairs | backend/tracking/deepsort.py:199-201 | the fast-path pairs are in range, all strictly above the threshold, rows ascending |
| Association.WherePairsComplete | backend/tracking/deepsort.py:199-201 | with at most one entry above the threshold per row, every position above the threshold is one of the pairs, as `np.where` lists them |
| Association.WherePairsValid | backend/tracking/deepsort.py:199-201 | when no column has two entries above the threshold, the fast-path pairs are one-to-one |
| Association.NotIn | backend/tracking/deepsort.py:207-215 | every index below n outside the used set, and only those, strictly ascending |
| Association.Select | backend/tracking/deepsort.py:217-224 | the candidate pairs whose IoU reaches (or falls below) the threshold: each kept pair comes from the candidates and is on that side, no such candidate is missed, and no duplicates are introduced |
| Association.SelectOne | backend/tracking/deepsort.py:217-224 | a single candidate is kept exactly when its IoU is on the requested side of the threshold |
| Association.SelectAppend | backend/tracking/deepsort.py:217-224 | filtering the candidates distributes over concatenation, so the kept pairs appear in candidate order with their multiplicity |
| Association.Candidates | backend/tracking/deepsort.py:198-205 | fast path or solver, the candidate pairing is one-to-one and within bounds |
| Association.AssociatePartition | backend/tracking/deepsort.py:182-231 | kept matches are one-to-one with IoU at least the threshold; each detection index is either matched or listed once as unmatched, and likewise each tracker index; with no trackers every detection is unmatched |
| Association.Associate | backend/tracking/deepsort.py:182-231 | every returned match indexes a real detection and tracker whose IoU reaches the threshold; with no trackers there are no matches, no unmatched trackers, and every detection index in ascending order is unmatched |
| Association.KeptValid | backend/tracking/deepsort.py:218-229 | rejecting low-IoU pairs keeps the matching one-to-one |
| Association.UnmatchedSide | backend/tracking/deepsort.py:207-222 | the unmatched indices of one side are in range, duplicate-free, and exactly those no kept pair uses |
| Tracking.BoxToMeasurement | backend/tracking/deepsort.py:84-92 | the measurement holds the box centre, its area, and a ratio that times (height + 1e-6) gives the width |
| Tracking.PredictMean | backend/tracking/deepsort.py:29-37 | the area velocity is zeroed when area plus velocity is not positive; centre and area advance by their velocities, aspect ratio and velocities are kept |
| Tracking.NewTrack | backend/tracking/deepsort.py:19-59 | a new track starts at the box's centre and area with zero velocities and all counters at zero |
| Tracking.Predict | backend/tracking/deepsort.py:68-77 | age and time since update grow by one, the hit streak resets when the previous frame had no update, hits are kept |
| Tracking.UpdateTrack | backend/tracking/deepsort.py:61-66 | time since update returns to 0, hits and hit streak grow by one, identity and age are kept |
| Tracking.NewManager | backend/tracking/deepsort.py:109-122 | an empty manager with frame count 0 satisfies the identity invariant |
| Tracking.MatchedDet | backend/tracking/deepsort.py:158-159 | the detection paired with a tracker exists exactly when some match names that tracker |
| Tracking.ApplyMatches | backend/tracking/deepsort.py:158-159 | updating the matched trackers keeps the list length and every identity |
| Tracking.ApplyMatchesEffect | backend/tracking/deepsort.py:158-159 | under a one-to-one matching each matched tracker is updated once with its own detection and the others are untouched |
| Tracking.Spawn | backend/tracking/deepsort.py:162-164 | one new track per unmatched detection, the i-th with identity next_id + i (so ascending and all unused), all counters zero, centred on that detection with its area |
| Tracking.SpawnAll | backend/tracking/deepsort.py:162-164 | when every detection is unmatched, the i-th new track is the one created from detection i with identity next_id + i |
| Tracking.Report | backend/tracking/deepsort.py:166-175 | an entry is reported exactly when its track was updated this frame and is confirmed or the manager is within its first `min_hits` frames |
| Tracking.Prune | backend/tracking/deepsort.py:178 | a track survives exactly when its time since update is below `max_age`, and ascending identities stay ascending |
| Tracking.PredictAll | backend/tracking/deepsort.py:142-143 | one prediction per track in place: identity and hits kept, age and time since update one more, the streak reset after a missed frame, the mean advanced by the motion model; ascending identities stay ascending |
| Tracking.Advance | backend/tracking/deepsort.py:136-164 | predict, associate, update matched tracks, create tracks for unmatched detections, with the association computed on the predicted boxes |
| Tracking.NoTracksNoMatches | backend/tracking/deepsort.py:189-190 | with no live tracks association returns no matches and lists every detection as unmatched, in order |
| Tracking.Finish | backend/tracking/deepsort.py:166-180 | the frame count grows by one, configuration is kept, and no surviving track has reached `max_age` |
| Tracking.Step | backend/tracking/deepsort.py:124-180 | one `update`: frame count plus one, configuration kept, survivors younger than `max_age` |
| Tracking.FinishPreservesInvariant | backend/tracking/deepsort.py:55-56 | identities stay strictly ascending and below the counter, the counter advances by the number of new tracks, and identities at or above the old counter belong to new tracks |
| Tracking.StepPreservesInvariant | backend/tracking/deepsort.py:124-180 | a full frame keeps the identity invariant, so identities are never reused |
| Tracking.ReportedWereMatchedOrNew | backend/tracking/deepsort.py:169 | every reported track was matched this frame or created from an unmatched detection |
| Tracking.MatchedAreUpdated | backend/tracking/deepsort.py:61-77 | a matched track ends the frame with time since update 0, one more hit, its streak continued or restarted, and is reported exactly when confirmed or still starting up |
| Tracking.FirstFrame | backend/tracking/deepsort.py:189-190 | with no tracks nothing matches and every detection starts a track with consecutive identities |
| Overcrowding.NewDetector | backend/anomaly/overcrowding.py:14-22 | the stored threshold is the given one and the latch is clear |
| Overcrowding.SeverityOf | backend/anomaly/overcrowding.py:56-73 | 'none' exactly up to the threshold; ZeroDivisionError exactly for threshold 0 and a positive count |
| Overcrowding.SeverityBands | backend/anomaly/overcrowding.py:66-73 | for a positive threshold the ratio bands are low up to 1.2, medium up to 1.5 and high above |
| Overcrowding.NegativeThresholdIsLow | backend/anomaly/overcrowding.py:63-69 | a negative threshold exceeded by the count always gives 'low' |
| Overcrowding.SeverityMonotone | backend/anomaly/overcrowding.py:56-73 | with a positive threshold a larger count never gets a milder label |
| Overcrowding.Detect | backend/anomaly/overcrowding.py:24-53 | the override applies to this call only; the latch records count > threshold even when the severity raises; an alert fires only on a clear-to-set change |
| Overcrowding.SetThreshold | backend/anomaly/overcrowding.py:75-77 | only the stored threshold changes |
| Overcrowding.Run | backend/anomaly/overcrowding.py:24-53 | one outcome per count, the stored threshold unchanged |
| Overcrowding.RunAlertsOnRisingEdges | backend/anomaly/overcrowding.py:39-45 | with a non-zero threshold an alert fires exactly on frames where the count rises above the threshold, and the final latch reflects the last count |
| Overcrowding.TestScenario | backend/tests/test_anomaly.py:11-23 | threshold 5 and counts 3, 8, 8, 3, 8: only the second and fifth alert, and 8 is 'high' |
| Loitering.NewDetector | backend/anomaly/loitering.py:16-32 | the frame threshold is time threshold times fps, with no histories and no flags |
| Loitering.UpdateTrack | backend/anomaly/loitering.py:34-48 | the new sample is appended and only the most recent `frame_threshold + 100` samples are kept; other fields are unchanged |
| Loitering.Capped | backend/anomaly/loitering.py:46-48 | the kept samples are a suffix of the history ending with the newest, and for a positive cap their number is min(length, cap) |
| Loitering.UpdateTrackLength | backend/anomaly/loitering.py:43-48 | a history grows by one per call until it reaches the cap, then stays there |
| Loitering.UpdateTrackOthers | backend/anomaly/loitering.py:43 | other tracks' histories are unchanged |
| Loitering.UpdateTrackBelowCap | backend/anomaly/loitering.py:43-48 | below the cap the sample is simply appended |
| Loitering.MaxSqDeviation | backend/anomaly/loitering.py:108-129 | 0 for fewer than two samples, otherwise the largest squared distance of a sample from the centroid |
| Loitering.DetectLoitering | backend/anomaly/loitering.py:50-105 | a short history reports not loitering and changes nothing; otherwise the last window decides, the latch follows the verdict, an alert fires on the rising edge, and fps = 0 raises after the latch update |
| Loitering.LoiteringIffAllClose | backend/anomaly/loitering.py:83-86 | loitering exactly when the threshold is positive and every sample is strictly within it of the centroid |
| Loitering.StationaryWindow | backend/anomaly/loitering.py:121-129 | samples all at one point have that point as centroid and zero movement |
| Loitering.SecondCallDoesNotAlert | backend/anomaly/loitering.py:88-95 | asking twice about an unchanged track raises at most one alert |
| Loitering.Cleanup | backend/anomaly/loitering.py:131-142 | histories of inactive tracks are dropped and those tracks unflagged; a flagged track without a history stays flagged |
| Loitering.CleanupIdempotent | backend/anomaly/loitering.py:131-142 | cleaning up twice with the same active list changes nothing more |
| Loitering.Configure | backend/routes/stream.py:338-346 | each given value replaces the stored one and the frame threshold is recomputed |
| Loitering.OperationsKeepConsistent | backend/anomaly/loitering.py:28 | recording, detection and cleanup keep frame threshold = time threshold times fps |
| Loitering.Feed | backend/anomaly/loitering.py:34-48 | repeated recording leaves thresholds and flags unchanged |
| Loitering.FeedKeepsAll | backend/anomaly/loitering.py:43-48 | feeding a new track no more samples than the cap keeps all of them, in order |
| Loitering.StationaryHistoryLoiters | backend/anomaly/loitering.py:79-96 | a history that fills the window at one point loiters under a positive pixel threshold; the first query alerts exactly when the track was not flagged, and a repeat reports loitering without an alert |
| Loitering.StationaryTrackLoiters | backend/tests/test_anomaly.py:26-36 | 300 frames at (100, 100) with a 50-pixel, 10-second threshold at 30 fps loiter and alert once |
| Zones.LargeEnough | backend/anomaly/zone_violation.py:39-41 | every kept polygon comes from the list and has at least three vertices, and every such polygon of the list is kept |
| Zones.LargeEnoughOne | backend/anomaly/zone_violation.py:39-41 | a single polygon is kept exactly when it has at least three vertices |
| Zones.LargeEnoughAppend | backend/anomaly/zone_violation.py:26-28 | acceptance distributes over concatenation, so the kept zones keep the order and multiplicity they were given in |
| Zones.AddZone | backend/anomaly/zone_violation.py:32-45 | a polygon of fewer than three vertices is ignored, otherwise appended; flags unchanged |
| Zones.AddZones | backend/anomaly/zone_violation.py:26-28 | adding a list appends exactly the polygons `add_zone` accepts from it, flags unchanged |
| Zones.NewDetector | backend/anomaly/zone_violation.py:16-30 | the constructor keeps the large-enough zones and no flags |
| Zones.RemoveZone | backend/anomaly/zone_violation.py:47-52 | an index in range removes that zone and shifts the rest; any other index changes nothing |
| Zones.ClearZones | backend/anomaly/zone_violation.py:54-59 | no zones and no flagged tracks |
| Zones.ReplaceZones | backend/routes/stream.py:349-352 | clearing and re-adding equals constructing from the new zones |
| Zones.Violated | backend/anomaly/zone_violation.py:84-89 | exactly the indices of the polygons containing the point, ascending |
| Zones.Detect | backend/anomaly/zone_violation.py:61-109 | no polygons reports nothing; otherwise the violated zones are exactly the indices of the zones containing the point, in ascending order, and for a given track the latch follows the verdict and alerts on its rising edge |
| Zones.SecondDetectionDoesNotAlert | backend/anomaly/zone_violation.py:93-101 | a track that stays inside alerts once |
| Zones.HorizontalNeverToggles | backend/anomaly/zone_violation.py:145-151 | a horizontal edge never toggles, so the stale intersection value is never read |
| Zones.FlippedIsParity | backend/anomaly/zone_violation.py:140-151 | a flag that flips at every crossing ends true exactly when the number of crossings is odd |
| Zones.CrossesEdge | backend/anomaly/zone_violation.py:145-151 | the nested tests of one edge decide exactly whether the ray crosses it |
| Zones.PointInPolygon | backend/anomaly/zone_violation.py:126-154 | the ray-casting loop returns true exactly when the ray from the point crosses an odd number of the polygon's edges |
| Zones.UnitSquare | backend/tests/test_anomaly.py:57-67 | (50, 50) is inside and (150, 150) outside the 100-square |
| Zones.SquareZone | backend/tests/test_anomaly.py:39-54 | the test's square zone contains (150, 150) and not (300, 300) under ray casting |
| Zones.ZoneScenario | backend/tests/test_anomaly.py:39-54 | track 1 inside the square zone violates and alerts, track 2 outside does not |
| Suspicious.NewDetector | backend/anomaly/suspicious_activity.py:18-41 | thresholds as given, no histories and no flags |
| Suspicious.UpdatePoseHistory | backend/anomaly/suspicious_activity.py:89-102 | the pose is appended and only the most recent 100 poses are kept: the stored history is a suffix of the old one plus the pose, one longer until it reaches 100; other fields unchanged |
| Suspicious.Capped | backend/anomaly/suspicious_activity.py:100-102 | the kept poses are the most recent ones, at most 100 |
| Suspicious.UpdateEffect | backend/anomaly/suspicious_activity.py:97-102 | the history grows by one up to 100, ends with the new pose, and other tracks are unchanged |
| Suspicious.UpdateKeepsBounded | backend/anomaly/suspicious_activity.py:99-102 | no history ever exceeds 100 poses |
| Suspicious.JointSpeedsNonNegative | backend/anomaly/suspicious_activity.py:199-205 | with a true norm and non-negative visibilities, every joint's visibility-weighted displacement is non-negative |
| Suspicious.Present | backend/anomaly/suspicious_activity.py:233-234 | the listed joints a pose of n keypoints has: every one is below n, a joint is kept exactly when it is listed and below n, and the whole list is kept when every joint is below n |
| Suspicious.ListedSpeeds | backend/anomaly/suspicious_activity.py:229-238 | one entry per listed joint the pose has, in list order: entry k is the visibility-weighted displacement of the k-th such joint, and every entry is one of the joint speeds of the transition |
| Suspicious.VelocitiesFromTransitions | backend/anomaly/suspicious_activity.py:180-209 | every velocity is the weighted displacement of some joint between consecutive poses |
| Suspicious.Velocities | backend/anomaly/suspicious_activity.py:180-209 | no velocities for fewer than two poses; otherwise (poses - 1) times joints of them |
| Suspicious.VelocitiesInOrder | backend/anomaly/suspicious_activity.py:195-207 | for n joints per pose, position k holds the weighted displacement of joint k mod n between poses k div n and k div n + 1: one velocity per joint per transition, transitions in time order, joints in index order |
| Suspicious.ArmVelocitiesAmongAll | backend/anomaly/suspicious_activity.py:212-240 | every arm velocity is among the velocities of all joints |
| Suspicious.ArmVelocities | backend/anomaly/suspicious_activity.py:212-240 | no arm velocities for fewer than two poses; otherwise (poses - 1) times the number of arm joints the poses have, so at most six per transition and exactly six when every pose has all arm joints |
| Suspicious.ArmVelocitiesListed | backend/anomaly/suspicious_activity.py:229-238 | for poses of any size, position k holds the weighted displacement of the (k mod m)-th arm joint the poses have between poses k div m and k div m + 1, where m is how many of joints 11-16 the poses have |
| Suspicious.ArmVelocitiesInOrder | backend/anomaly/suspicious_activity.py:229-238 | when every pose has joints 11-16, position k holds the weighted displacement of arm joint k mod 6 (11, 12, ..., 16) between poses k div 6 and k div 6 + 1 |
| Suspicious.AverageAtMostPeak | backend/anomaly/suspicious_activity.py:138-139 | the mean velocity never exceeds the maximum |
| Suspicious.FractionIsProportion | backend/anomaly/suspicious_activity.py:142 | the fraction above the threshold lies in [0, 1] |
| Suspicious.MeasureBounds | backend/anomaly/suspicious_activity.py:134-149 | mean at most max, fraction in [0, 1], and the arm mean at most the max |
| Suspicious.FastMotionIsFightLike | backend/anomaly/suspicious_activity.py:153-155 | velocities all above 1.2 times a non-negative threshold make the motion fight-like |
| Suspicious.StillMotionIsNormal | backend/anomaly/suspicious_activity.py:153-155 | zero velocities are never fight-like for a non-negative threshold |
| Suspicious.Detect | backend/anomaly/suspicious_activity.py:104-177 | no sequence and no track gives no data; a short sequence reports that and changes nothing, whatever its poses; otherwise the last `min_frames` poses decide, and for a track the latch follows the verdict and alerts on its rising edge |
| Suspicious.IsSuspicious | backend/anomaly/suspicious_activity.py:121-168 | a report is suspicious only when the window was analysed, and then exactly when the detector's verdict was suspicious; the early returns are never suspicious |
| Suspicious.WeightedNonNegative | backend/anomaly/suspicious_activity.py:201-205 | with non-negative visibilities a weighted displacement is non-negative |
| Suspicious.VelocitiesNonNegative | backend/anomaly/suspicious_activity.py:180-209 | all velocities are non-negative for visible poses |
| Suspicious.FiguresNonNegative | backend/anomaly/suspicious_activity.py:134-149 | with a true norm and non-negative visibilities, the max, mean and arm mean velocities are non-negative |
| Suspicious.StillVelocities | backend/anomaly/suspicious_activity.py:195-207 | identical poses give zero velocities everywhere |
| Suspicious.StillPersonIsNotSuspicious | backend/anomaly/suspicious_activity.py:134-165 | a static pose sequence is never suspicious and never alerts |
| Suspicious.FastPersonIsSuspicious | backend/anomaly/suspicious_activity.py:134-162 | every joint moving faster than 1.2 times the threshold is suspicious, and alerts for an unflagged track |
| Suspicious.SecondCallDoesNotAlert | backend/anomaly/suspicious_activity.py:157-165 | repeating the same query for a track raises at most one alert |
| Suspicious.Cleanup | backend/anomaly/suspicious_activity.py:242-248 | histories of inactive tracks are dropped and those tracks unflagged; a flagged track without a history stays flagged |
| Suspicious.CleanupIdempotent | backend/anomaly/suspicious_activity.py:242-248 | cleaning up twice changes nothing more and keeps histories bounded |
| LiveAlerts.Debounce | backend/routes/stream.py:211-222 | an alert goes out exactly when 5 seconds have passed since the last one with the same key; sending records the time, suppressing changes nothing |
| LiveAlerts.ReplayRemembers | backend/routes/stream.py:211-222 | with a clock that never goes back, every sent alert is remembered for its key at a time no earlier than its own |
| LiveAlerts.SentAlertsAreSpaced | backend/routes/stream.py:64-66 | two sent alerts with the same key are at least the cooldown apart |
| LiveAlerts.NearestSq | backend/routes/stream.py:461-474 | none exactly when every track has this id; otherwise the least squared centre distance to another track |
| LiveAlerts.Classify | backend/routes/stream.py:482-489 | the branches in order: fight exactly when the peak exceeds the threshold and the arms exceed 1.2 times it; intimacy exactly when not fight and within 60 pixels at a mean below 0.4 times it; cruelty exactly when neither and within 80 pixels with arms above it; generic exactly when none of the three holds |
| LiveAlerts.IntimacyShadowsCruelty | backend/routes/stream.py:482-507 | a calm person with fast arms within 60 pixels is labelled intimacy before cruelty is tried, and therefore never alerts |
| LiveAlerts.Reliability | backend/routes/stream.py:492-497 | ZeroDivisionError exactly for threshold 0, otherwise a score in [0, 1] |
| LiveAlerts.Proximity | backend/routes/stream.py:493 | 1.0 exactly with a neighbour closer than 80, else 0.6 |
| LiveAlerts.DistantScoreCapped | backend/routes/stream.py:493-496 | without a neighbour closer than 80 the score is at most 0.92 |
| LiveAlerts.FullScore | backend/routes/stream.py:493-496 | strong motion, enough spread and a close neighbour give score 1 |
| LiveAlerts.GateProperties | backend/routes/stream.py:498-507 | intimacy never alerts; without a neighbour closer than 120 only cruelty or generic can; with no neighbour only generic with score 0.5 or more |
| LiveAlerts.Gate | backend/routes/stream.py:498-507 | a fight opens the gate exactly with a score of 0.6 and a neighbour closer than 120, cruelty exactly with 0.6 and closer than 140, a generic report exactly with 0.5, and intimacy never |
| LiveAlerts.GateByDistance | backend/routes/stream.py:498-507 | the same rule in the handler's terms for a neighbour at root distance d: fight iff score 0.6 and d < 120, cruelty iff 0.6 and d < 140, generic iff 0.5, intimacy never; with no neighbour only a generic report of 0.5 or more alerts |
| LiveAlerts.FinalAlert | backend/routes/stream.py:476-513 | a non-suspicious report keeps the detector's flag; a suspicious one takes the gate's answer, or the flag when the score raises |
| LiveAlerts.LiveSuspicious | backend/routes/stream.py:455-513 | the detector's verdict on the stored poses followed by the gate |
| LiveAlerts.LiveAlertNeedsSuspicion | backend/routes/stream.py:476-510 | the live loop alerts only on a suspicious verdict |
| LiveAlerts.LatchIgnoredByGate | backend/routes/stream.py:508 | with a non-zero threshold the detector's latch does not affect the live alert |
| LiveAlerts.DetectIgnoresLatch | backend/anomaly/suspicious_activity.py:153-177 | two detectors that differ only in their latched tracks reach the same verdict on the same figures, and neither alerts without a verdict |
| LiveAlerts.FinalAlertIgnoresFlag | backend/routes/stream.py:476-513 | with a non-zero threshold the final alert of a suspicious report depends only on its figures, not on the detector's flag |
| LiveAlerts.AloneOnlyGeneric | backend/routes/stream.py:463-507 | a person alone can only alert under the generic label with score 0.5 or more |
| EvalMetrics.BestIsFirstMaximum | scripts/eval_metrics.py:43-53 | the scan finds the first unmatched ground truth of maximal positive IoU, or -1 with IoU 0 when none overlaps |
| EvalMetrics.Greedy | scripts/eval_metrics.py:39-57 | at most one true positive per prediction and at most one matched index per true positive; matched indices are ground-truth indices or -1, and never -1 under the guard |
| EvalMetrics.MatchDetections | scripts/eval_metrics.py:28-62 | true plus false positives are the predictions, true positives plus false negatives the ground truths |
| EvalMetrics.MatchDetectionsGuarded | scripts/eval_metrics.py:55-57 | the corrected rule, which counts a prediction only when it is paired with an actual ground truth, keeps the same balance of predictions and ground truths |
| EvalMetrics.GreedyClaimsDistinct | scripts/eval_metrics.py:39-57 | each counted prediction claims a distinct ground-truth index in range (guarded, or threshold positive) |
| EvalMetrics.MatchCounts | scripts/eval_metrics.py:55-62 | with a positive threshold, true positives at most min(predictions, ground truths) and no negative count |
| EvalMetrics.GuardedMatchCounts | scripts/eval_metrics.py:55-62 | the guarded counts are never negative at any threshold |
| EvalMetrics.GuardAgreesAboveZero | scripts/eval_metrics.py:51-57 | for a positive threshold the guard changes nothing |
| EvalMetrics.NonPositiveThresholdCountsAll | scripts/eval_metrics.py:43-57 | as written, a threshold of at most 0 counts every prediction as a true positive |
| EvalMetrics.ZeroThresholdExample | scripts/eval_metrics.py:55-60 | threshold 0, one prediction, no ground truth gives (1, 0, -1) as written and (0, 1, 0) guarded |
| EvalMetrics.DisjointNeverMatch | scripts/eval_metrics.py:42-62 | predictions disjoint from every ground truth give (0, predictions, ground truths) |
| EvalMetrics.TotalsBalance | scripts/eval_metrics.py:81-89 | over the zipped frames, at every threshold tp + fp is the number of predicted boxes and tp + fn the number of ground-truth boxes; no total is negative under the corrected rule, or as written with a positive threshold |
| EvalMetrics.Totals | scripts/eval_metrics.py:81-89 | with no frames on either side all totals are 0 |
| EvalMetrics.TotalsGuardAgreesAboveZero | scripts/eval_metrics.py:81-89 | for a positive threshold the script's totals and the corrected totals coincide |
| EvalMetrics.TotalsZeroThresholdExample | scripts/eval_metrics.py:85-89 | threshold 0 and one frame with one predicted box and no ground truth total (1, 0, -1) as written and (0, 1, 0) corrected |
| EvalMetrics.TotalsIgnoreExtraFrames | scripts/eval_metrics.py:85 | frames beyond the shorter list play no part |
| EvalMetrics.FirstFit | scripts/eval_metrics.py:154-163 | the first unmatched compatible ground truth, or none when no unmatched one is compatible |
| EvalMetrics.AnomalyMatch | scripts/eval_metrics.py:150-163 | at most one pair per prediction, every pair indexes a real prediction and ground truth |
| EvalMetrics.AnomalyMatchIsFirstFit | scripts/eval_metrics.py:153-163 | each pair's ground truth is the first compatible one, in list order, not taken by an earlier pair |
| EvalMetrics.AnomalyMatchSkipsOnlyUnfit | scripts/eval_metrics.py:153-163 | a prediction is left unmatched only when no compatible ground truth was left at its turn, that is, none outside those taken by the pairs of earlier predictions |
| EvalMetrics.AnomalyMatchIsRun | scripts/eval_metrics.py:150-163 | the matching's pairs form a first-fit run: predictions in range and ascending, each pair takes the first compatible ground truth left to it, each prediction without a pair had none left |
| EvalMetrics.FirstFitRunUnique | scripts/eval_metrics.py:150-163 | any list of pairs that forms a first-fit run is the matching's list, so the loop's greedy order singles out one matching among all maximal ones |
| EvalMetrics.AnomalyMatchCharacterised | scripts/eval_metrics.py:150-163 | a list of pairs is the matching's list exactly when it forms a first-fit run |
| EvalMetrics.AnomalyMatchShape | scripts/eval_metrics.py:150-163 | the matched index sets are the components of the pairs, predictions in range |
| EvalMetrics.AnomalyMatchCompatible | scripts/eval_metrics.py:158-162 | every pair has the same event type and frames within the tolerance |
| EvalMetrics.AnomalyMatchInjective | scripts/eval_metrics.py:153-163 | predictions are paired in increasing order and no ground truth is used twice |
| EvalMetrics.AnomalyMatchMaximal | scripts/eval_metrics.py:153-163 | every ground truth compatible with an unmatched prediction was taken |
| EvalMetrics.EvaluateAnomaly | scripts/eval_metrics.py:165-167 | true plus false positives are the predictions |
| EvalMetrics.AnomalyCounts | scripts/eval_metrics.py:165-167 | true positives are the pairs, true positives plus false negatives the ground truths, no count negative |
| EvalMetrics.NoPredictions | scripts/eval_metrics.py:150-167 | no predictions give (0, 0, number of ground truths) |

## Left out

- Kalman covariance, gain and noise matrices: only the mean's transition is modelled; the measurement update of the mean is the parameter `correct`.
- `_z_to_bbox` and the NaN check after prediction: the square root makes the conversion a parameter `toBox`, and no box in the model can be NaN, so the NaN removal of predicted rows does not appear.
- Optimality of `linear_sum_assignment`: only the one-to-one shape of its answer is assumed.
- The `np.where` fast path when a row has two entries above the threshold: the fast path only applies when no row and no column has more than one, so `WherePairs` is written for that case.
- The geometry library's `Polygon.contains`: it is the parameter `contains`; the ray-casting routine is modelled in full.
- Zones.PointInPolygon: requires a non-empty polygon, because the source indexes vertex 0 and raises on an empty list.
- Floating-point arithmetic: all reals are exact; `1e-6` is the exact rational.
- Geometry.Iou: a zero denominator (only possible for degenerate boxes) gives 0, where numpy returns inf or nan and the evaluation script raises.
- Square roots: movement, nearest-neighbour distance and joint displacement lengths are kept squared or supplied by `norm`; `nearest_distance` in the report is not produced.
- Suspicious.Detect: requires every pose in the analysed window to have the same number of joints (only when a window is analysed; the early returns require nothing); numpy's subtraction would also broadcast a single-joint pose against a larger one, which pose extraction never produces; pose extraction (`extract_pose`, MediaPipe) and the person detector are not modelled.
- Suspicious.Detect: the `activity_type` label is omitted; it is 'fight_like' exactly when `isSuspicious`.
- The live loop's I/O: websocket connections, broadcast, frame capture, JPEG previews, snapshots, `_to_py` sanitising, asyncio and cancellation are not modelled.
- The live loop's cadence (`frame_num % 5 == 0`) and its per-frame ordering of detector calls: each detector step is modelled on its own.
- The stream configuration of the suspicious velocity threshold and the overcrowding threshold: plain field assignments, covered by `Overcrowding.SetThreshold` and the detectors' threshold parameters.
- `calculate_counting_metrics` (MAE, MSE, RMSE) and the precision, recall and F1 divisions with their `1e-6` terms: only the counts are modelled.
- Logging and the `duration_seconds` float of loitering: the division by fps is modelled only as the ZeroDivisionError it can raise.
- Integer widths: Python integers are unbounded, as here.
- Tracking.Measurable: excludes a box of height exactly -1e-6, where `_bbox_to_z` divides Python floats by zero and raises ZeroDivisionError, which leaves `update` and reaches the stream's outer handler; such a box is not a real detection.
- Association.IouMatrixRange: the matrix is exact here, while `_associate_detections_to_trackers` stores it as `np.float32`, where A / (A + 1e-6) rounds to exactly 1.0 once the area A exceeds about 34 square pixels; so in the program an identical pair can pass a threshold of 1.0, which the exact bound [0, 1) does not describe.

## Findings

| source | as written | input that shows it | evidently intended | confidence | as-written member | corrected member |
|---|---|---|---|---|---|---|
| scripts/eval_metrics.py:43-57 | a prediction counts as a true positive when `best_iou >= iou_threshold`, even when no ground truth was found (`best_gt_idx == -1`), and -1 is added to the matched set | `--iou_threshold 0` with one predicted box and no ground truth in a frame gives (tp, fp, fn) = (1, 0, -1) | a true positive needs an actual ground truth, so false negatives are never negative | medium, not executed | EvalMetrics.ZeroThresholdExample, EvalMetrics.TotalsZeroThresholdExample | EvalMetrics.MatchDetectionsGuarded, EvalMetrics.Totals |
