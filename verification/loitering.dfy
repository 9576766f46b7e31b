/**
 * The loitering detector: per-track histories of centre positions, and a
 * track is loitering when, over its most recent window of frames, no
 * position strays from the window's centroid by `pixel_threshold` or more.
 */
module Loitering {
  import opened Common
  import opened Geometry

  /** One history entry `(x, y, frame_num)`. */
  datatype Sample = Sample(x: real, y: real, frame: int)

  function Pos(s: Sample): Point
  {
    Point(s.x, s.y)
  }

  const DefaultPixelThreshold: real := 50.0
  const DefaultTimeThreshold: int := 300
  const DefaultFps: int := 30

  /** Extra history kept beyond `frame_threshold`. */
  const HistoryBuffer: int := 100

  /** The detector: thresholds, per-track histories and the set of tracks
      currently flagged (the alert latch). */
  datatype Detector = Detector(pixelThreshold: real, timeThreshold: int, fps: int, frameThreshold: int,
                               history: map<int, seq<Sample>>, loitering: set<int>)

  /** `frame_threshold` is the time threshold in frames. */
  predicate Consistent(d: Detector)
  {
    d.frameThreshold == d.timeThreshold * d.fps
  }

  function NewDetector(pixelThreshold: real, timeThreshold: int, fps: int): (d: Detector)
    ensures Consistent(d)
    ensures d.pixelThreshold == pixelThreshold && d.timeThreshold == timeThreshold && d.fps == fps
    ensures d.history == map[] && d.loitering == {}
  {
    Detector(pixelThreshold, timeThreshold, fps, timeThreshold * fps, map[], {})
  }

  /** `history.get(id, [])`. */
  function HistoryOf(h: map<int, seq<Sample>>, id: int): seq<Sample>
  {
    if id in h then h[id] else []
  }

  /** `update_track`: appends the sample, then keeps only the last
      `frame_threshold + 100` entries when the history is longer than that. */
  function UpdateTrack(d: Detector, id: int, center: Point, frame: int): (r: Detector)
    ensures forall k :: k in r.history <==> k in d.history || k == id
    ensures Kept(HistoryOf(d.history, id) + [Sample(center.x, center.y, frame)], HistoryOf(r.history, id))
    ensures var k := HistoryOf(r.history, id); |k| > 0 ==> k[|k| - 1] == Sample(center.x, center.y, frame)
    ensures r.pixelThreshold == d.pixelThreshold && r.timeThreshold == d.timeThreshold
    ensures r.fps == d.fps && r.frameThreshold == d.frameThreshold && r.loitering == d.loitering
  {
    var h := HistoryOf(d.history, id) + [Sample(center.x, center.y, frame)];
    d.(history := d.history[id := Capped(h, d.frameThreshold + HistoryBuffer)])
  }

  /** `h[-cap:]` when `h` is longer than `cap`, else `h`. */
  function Capped(h: seq<Sample>, cap: int): (k: seq<Sample>)
    ensures Kept(h, k)
    ensures |h| > 0 && |k| > 0 ==> k[|k| - 1] == h[|h| - 1]
    ensures cap > 0 ==> |k| == Min(|h|, cap)
  {
    if |h| > cap then PySuffix(h, cap) else h
  }

  /** With a positive cap, a track's history grows by one sample per call
      until it holds `frame_threshold + 100` samples, and then stays there. */
  lemma UpdateTrackLength(d: Detector, id: int, center: Point, frame: int)
    requires d.frameThreshold + HistoryBuffer > 0
    ensures |UpdateTrack(d, id, center, frame).history[id]|
            == Min(|HistoryOf(d.history, id)| + 1, d.frameThreshold + HistoryBuffer)
  {
  }

  /** Recording a sample for one track leaves every other history as it was. */
  lemma UpdateTrackOthers(d: Detector, id: int, center: Point, frame: int, other: int)
    requires other in d.history && other != id
    ensures UpdateTrack(d, id, center, frame).history[other] == d.history[other]
  {
  }

  /** Below the cap nothing is dropped: the sample is simply appended. */
  lemma UpdateTrackBelowCap(d: Detector, id: int, center: Point, frame: int)
    requires |HistoryOf(d.history, id)| < d.frameThreshold + HistoryBuffer
    ensures UpdateTrack(d, id, center, frame).history[id]
            == HistoryOf(d.history, id) + [Sample(center.x, center.y, frame)]
  {
  }

  /** `kept` is a suffix of `h`. */
  predicate Kept(h: seq<Sample>, kept: seq<Sample>)
  {
    |kept| <= |h| && kept == h[|h| - |kept|..]
  }

  /** Arithmetic mean of the x (or y) coordinates. */
  function Xs(ps: seq<Sample>): (r: seq<real>)
    ensures |r| == |ps| && forall i :: 0 <= i < |ps| ==> r[i] == ps[i].x
  {
    seq(|ps|, i requires 0 <= i < |ps| => ps[i].x)
  }

  function Ys(ps: seq<Sample>): (r: seq<real>)
    ensures |r| == |ps| && forall i :: 0 <= i < |ps| ==> r[i] == ps[i].y
  {
    seq(|ps|, i requires 0 <= i < |ps| => ps[i].y)
  }

  /** The mean position of a non-empty window. */
  function Centroid(ps: seq<Sample>): Point
    requires |ps| > 0
  {
    Point(Sum(Xs(ps)) / |ps| as real, Sum(Ys(ps)) / |ps| as real)
  }

  /** Squared distance of every sample from the window's centroid. */
  function Deviations(ps: seq<Sample>): (r: seq<real>)
    requires |ps| > 0
    ensures |r| == |ps| && forall i :: 0 <= i < |ps| ==> r[i] == SqDist(Pos(ps[i]), Centroid(ps))
  {
    var c := Centroid(ps);
    seq(|ps|, i requires 0 <= i < |ps| => SqDist(Pos(ps[i]), c))
  }

  /** `_calculate_movement`, squared: the largest squared distance from the
      centroid, and 0 for fewer than two samples. The source returns its
      square root. */
  function MaxSqDeviation(ps: seq<Sample>): (m: real)
    ensures m >= 0.0
    ensures |ps| < 2 ==> m == 0.0
    ensures |ps| >= 2 ==> (forall i :: 0 <= i < |ps| ==> SqDist(Pos(ps[i]), Centroid(ps)) <= m)
    ensures |ps| >= 2 ==> exists i :: 0 <= i < |ps| && SqDist(Pos(ps[i]), Centroid(ps)) == m
  {
    if |ps| < 2 then 0.0
    else
      var devs := Deviations(ps);
      assert devs[0] >= 0.0;
      Max(devs)
  }

  /** The dictionary `detect_loitering` returns. `durationSeconds` and
      `position` are absent on the short-history path; `movementSq` is the
      square of `movement_distance`. */
  datatype Report = Report(isLoitering: bool, trackId: int, durationFrames: nat,
                           durationSeconds: Option<real>, movementSq: real,
                           alertTriggered: bool, position: Option<Point>)

  /** The positions examined: the override when given, else the stored history. */
  function Positions(d: Detector, id: int, history: Option<seq<Sample>>): seq<Sample>
  {
    if history.Some? then history.value else HistoryOf(d.history, id)
  }

  /** The window length in frames: the override when given, else `frame_threshold`. */
  function WindowFrames(d: Detector, timeThreshold: Option<int>): int
  {
    if timeThreshold.Some? then timeThreshold.value else d.frameThreshold
  }

  function PixelLimit(d: Detector, pixelThreshold: Option<real>): real
  {
    if pixelThreshold.Some? then pixelThreshold.value else d.pixelThreshold
  }

  /** `detect_loitering` with its three optional overrides. A history shorter
      than the active frame threshold reports nothing and changes nothing.
      Otherwise the last `threshold` samples are examined and the latch is
      set or cleared; the report then divides by `fps`, which raises when
      `fps` is 0, after the latch has been updated. */
  function DetectLoitering(d: Detector, id: int, history: Option<seq<Sample>>,
                           pixelThreshold: Option<real>, timeThreshold: Option<int>): (r: (Outcome<Report>, Detector))
    ensures r.1.history == d.history && r.1.pixelThreshold == d.pixelThreshold
    ensures r.1.timeThreshold == d.timeThreshold && r.1.fps == d.fps && r.1.frameThreshold == d.frameThreshold
    ensures |Positions(d, id, history)| < WindowFrames(d, timeThreshold) ==>
      && r.1 == d && r.0.Ok? && !r.0.value.isLoitering && !r.0.value.alertTriggered
      && r.0.value.durationFrames == |Positions(d, id, history)|
    ensures |Positions(d, id, history)| >= WindowFrames(d, timeThreshold) ==>
      var recent := PySuffix(Positions(d, id, history), WindowFrames(d, timeThreshold));
      var isLoitering := DistanceBelow(MaxSqDeviation(recent), PixelLimit(d, pixelThreshold));
      && r.1.loitering == Latch(d.loitering, id, isLoitering)
      && (r.0.ZeroDivisionError? <==> d.fps == 0)
      && (r.0.Ok? ==>
            && r.0.value.isLoitering == isLoitering
            && r.0.value.alertTriggered == (isLoitering && id !in d.loitering)
            && r.0.value.durationFrames == |recent|
            && r.0.value.movementSq == MaxSqDeviation(recent))
  {
    var positions := Positions(d, id, history);
    var frames := WindowFrames(d, timeThreshold);
    if |positions| < frames then
      (Ok(Report(false, id, |positions|, None, 0.0, false, None)), d)
    else
      var recent := PySuffix(positions, frames);
      var movementSq := MaxSqDeviation(recent);
      var isLoitering := DistanceBelow(movementSq, PixelLimit(d, pixelThreshold));
      var alertTriggered := isLoitering && id !in d.loitering;
      var next := d.(loitering := Latch(d.loitering, id, isLoitering));
      if d.fps == 0 then (ZeroDivisionError, next)
      else
        var position := if |recent| > 0 then Some(Pos(recent[|recent| - 1])) else None;
        (Ok(Report(isLoitering, id, |recent|, Some(|recent| as real / d.fps as real), movementSq,
                   alertTriggered, position)), next)
  }

  /** With at least two samples in the window, a track is loitering exactly
      when the threshold is positive and every sample lies strictly within it
      of the centroid. */
  lemma LoiteringIffAllClose(recent: seq<Sample>, threshold: real)
    requires |recent| >= 2
    ensures DistanceBelow(MaxSqDeviation(recent), threshold) <==>
      threshold > 0.0 &&
      forall i :: 0 <= i < |recent| ==> SqDist(Pos(recent[i]), Centroid(recent)) < threshold * threshold
  {
  }

  /** A window whose samples all sit at one point has that point as centroid
      and zero movement. */
  lemma StationaryWindow(ps: seq<Sample>, p: Point)
    requires |ps| > 0
    requires forall i :: 0 <= i < |ps| ==> Pos(ps[i]) == p
    ensures Centroid(ps) == p
    ensures MaxSqDeviation(ps) == 0.0
  {
    SumConstant(Xs(ps), p.x);
    SumConstant(Ys(ps), p.y);
    var n := |ps| as real;
    assert Sum(Xs(ps)) / n == p.x;
    assert Sum(Ys(ps)) / n == p.y;
    assert Centroid(ps) == Point(p.x, p.y);
  }

  /** Asking twice about the same unchanged track raises at most one alert:
      the first positive answer sets the latch, which silences the second. */
  lemma SecondCallDoesNotAlert(d: Detector, id: int)
    ensures var (_, d1) := DetectLoitering(d, id, None, None, None);
      var (r2, _) := DetectLoitering(d1, id, None, None, None);
      r2.Ok? ==> !r2.value.alertTriggered
  {
  }

  /** `cleanup_old_tracks`: drops the history of every track not in the
      active list, and unflags those tracks. A flagged track without a
      history entry stays flagged. */
  function Cleanup(d: Detector, active: seq<int>): (r: Detector)
    ensures r.history.Keys == set k | k in d.history && k in active
    ensures forall k :: k in r.history ==> r.history[k] == d.history[k]
    ensures forall k :: k in r.loitering <==> k in d.loitering && (k in active || k !in d.history)
    ensures r.pixelThreshold == d.pixelThreshold && r.timeThreshold == d.timeThreshold
    ensures r.fps == d.fps && r.frameThreshold == d.frameThreshold
  {
    var gone := set k | k in d.history && k !in active;
    d.(history := map k | k in d.history && k in active :: d.history[k],
       loitering := d.loitering - gone)
  }

  /** Cleaning up twice with the same active list changes nothing more. */
  lemma CleanupIdempotent(d: Detector, active: seq<int>)
    ensures Cleanup(Cleanup(d, active), active) == Cleanup(d, active)
  {
    var once := Cleanup(d, active);
    var twice := Cleanup(once, active);
    assert twice.history == once.history;
    assert twice.loitering == once.loitering;
  }

  /** The configuration update of the live stream: each given value replaces
      the stored one, and `frame_threshold` is recomputed from the (possibly
      new) time threshold and frame rate. */
  function Configure(d: Detector, pixelThreshold: Option<real>, timeThreshold: Option<int>, fps: Option<int>): (r: Detector)
    ensures Consistent(r)
    ensures r.pixelThreshold == (if pixelThreshold.Some? then pixelThreshold.value else d.pixelThreshold)
    ensures r.timeThreshold == (if timeThreshold.Some? then timeThreshold.value else d.timeThreshold)
    ensures r.fps == (if fps.Some? then fps.value else d.fps)
    ensures r.history == d.history && r.loitering == d.loitering
  {
    var p := if pixelThreshold.Some? then pixelThreshold.value else d.pixelThreshold;
    var t := if timeThreshold.Some? then timeThreshold.value else d.timeThreshold;
    var f := if fps.Some? then fps.value else d.fps;
    d.(pixelThreshold := p, timeThreshold := t, fps := f, frameThreshold := t * f)
  }

  /** Recording, detection and cleanup never touch the thresholds, so the
      frame threshold stays equal to time threshold times frame rate. */
  lemma OperationsKeepConsistent(d: Detector, id: int, c: Point, frame: int, active: seq<int>)
    requires Consistent(d)
    ensures Consistent(UpdateTrack(d, id, c, frame))
    ensures Consistent(DetectLoitering(d, id, None, None, None).1)
    ensures Consistent(Cleanup(d, active))
  {
  }

  /** Records the same centre for each of the given frame numbers in turn. */
  function Feed(d: Detector, id: int, c: Point, frames: seq<int>): (r: Detector)
    ensures r.frameThreshold == d.frameThreshold && r.fps == d.fps && r.loitering == d.loitering
    ensures r.pixelThreshold == d.pixelThreshold && r.timeThreshold == d.timeThreshold
  {
    if |frames| == 0 then d
    else UpdateTrack(Feed(d, id, c, frames[..|frames| - 1]), id, c, frames[|frames| - 1])
  }

  /** `h` holds one sample at `c` per frame number, in order. */
  predicate Samples(h: seq<Sample>, c: Point, frames: seq<int>)
  {
    |h| == |frames| && forall i :: 0 <= i < |frames| ==> h[i] == Sample(c.x, c.y, frames[i])
  }

  lemma AppendSample(before: seq<Sample>, c: Point, frames: seq<int>)
    requires |frames| > 0 && Samples(before, c, frames[..|frames| - 1])
    ensures Samples(before + [Sample(c.x, c.y, frames[|frames| - 1])], c, frames)
  {
    var h := before + [Sample(c.x, c.y, frames[|frames| - 1])];
    forall i | 0 <= i < |frames|
      ensures h[i] == Sample(c.x, c.y, frames[i])
    {
      if i < |before| {
        assert h[i] == before[i] && frames[..|frames| - 1][i] == frames[i];
      }
    }
  }

  /** Feeding a new track no more samples than the history cap keeps all of them. */
  lemma {:induction false} FeedKeepsAll(d: Detector, id: int, c: Point, frames: seq<int>)
    requires id !in d.history
    requires |frames| <= d.frameThreshold + HistoryBuffer
    ensures Samples(HistoryOf(Feed(d, id, c, frames).history, id), c, frames)
  {
    if |frames| > 0 {
      var init := frames[..|frames| - 1];
      FeedKeepsAll(d, id, c, init);
      var prev := Feed(d, id, c, init);
      UpdateTrackBelowCap(prev, id, c, frames[|frames| - 1]);
      AppendSample(HistoryOf(prev.history, id), c, frames);
    }
  }

  /** A track whose stored history fills the window and sits at one point
      loiters under a positive pixel threshold: the first query alerts
      exactly when the track was not flagged, and a second query still
      reports loitering but raises no alert. */
  lemma StationaryHistoryLoiters(d: Detector, id: int, p: Point)
    requires d.pixelThreshold > 0.0 && d.fps != 0 && d.frameThreshold > 0
    requires |HistoryOf(d.history, id)| >= d.frameThreshold
    requires forall i :: 0 <= i < |HistoryOf(d.history, id)| ==> Pos(HistoryOf(d.history, id)[i]) == p
    ensures var (r, d1) := DetectLoitering(d, id, None, None, None);
      && r.Ok? && r.value.isLoitering && r.value.alertTriggered == (id !in d.loitering)
      && r.value.durationFrames == d.frameThreshold
      && id in d1.loitering
      && (var (r2, _) := DetectLoitering(d1, id, None, None, None);
          r2.Ok? && r2.value.isLoitering && !r2.value.alertTriggered)
  {
    var h := HistoryOf(d.history, id);
    var recent := PySuffix(h, d.frameThreshold);
    forall i | 0 <= i < |recent| ensures Pos(recent[i]) == p {
      assert recent[i] == h[|h| - |recent| + i];
    }
    StationaryWindow(recent, p);
    assert DistanceBelow(MaxSqDeviation(recent), d.pixelThreshold);
    var d1 := DetectLoitering(d, id, None, None, None).1;
    assert HistoryOf(d1.history, id) == h;
  }

  /** The unit test: with a 50-pixel, 10-second threshold at 30 fps, a track
      seen at (100, 100) in frames 0 to 299 is loitering and raises an alert;
      asking again raises none. */
  lemma StationaryTrackLoiters()
    ensures var d := Feed(NewDetector(50.0, 10, 30), 1, Point(100.0, 100.0), seq(300, i => i));
      var (r, d1) := DetectLoitering(d, 1, None, None, None);
      && r.Ok? && r.value.isLoitering && r.value.alertTriggered
      && r.value.durationFrames == 300
      && 1 in d1.loitering
      && (var (r2, _) := DetectLoitering(d1, 1, None, None, None);
          r2.Ok? && r2.value.isLoitering && !r2.value.alertTriggered)
  {
    var d0 := NewDetector(50.0, 10, 30);
    var frames := seq(300, i => i);
    var p := Point(100.0, 100.0);
    FeedKeepsAll(d0, 1, p, frames);
    var d := Feed(d0, 1, p, frames);
    var h := HistoryOf(d.history, 1);
    assert |h| == 300 && d.frameThreshold == 300;
    forall i | 0 <= i < |h| ensures Pos(h[i]) == p {
      assert h[i] == Sample(p.x, p.y, frames[i]);
    }
    StationaryHistoryLoiters(d, 1, p);
  }
}
