/**
 * The overcrowding detector: a people count compared with a threshold, an
 * alert latched on the rising edge, and a severity label from the ratio of
 * count to threshold.
 */
module Overcrowding {
  import opened Common

  /** The severity labels; `Calm` stands for the label 'none'. */
  datatype Severity = Calm | Low | Medium | High

  /** Position of a label on the scale none < low < medium < high. */
  function Rank(s: Severity): nat
  {
    match s
    case Calm => 0
    case Low => 1
    case Medium => 2
    case High => 3
  }

  const DefaultThreshold: int := 10

  /** The detector's state: its stored threshold and the alert latch. */
  datatype Detector = Detector(threshold: int, alertActive: bool)

  function NewDetector(threshold: int): (d: Detector)
    ensures d.threshold == threshold && !d.alertActive
  {
    Detector(threshold, false)
  }

  /** The dictionary `detect_overcrowding` returns. */
  datatype Report = Report(isOvercrowded: bool, currentCount: int, threshold: int,
                           alertTriggered: bool, severity: Severity)

  /** `_calculate_severity`: 'none' up to the threshold, then low, medium or
      high by the ratio count / threshold against 1.2 and 1.5. Python's true
      division raises when the threshold is 0 and the count is above it. */
  function SeverityOf(count: int, threshold: int): (r: Outcome<Severity>)
    ensures r.ZeroDivisionError? <==> threshold == 0 && count > 0
    ensures r == Ok(Calm) <==> count <= threshold
  {
    if count <= threshold then Ok(Calm)
    else if threshold == 0 then ZeroDivisionError
    else
      var ratio := count as real / threshold as real;
      if ratio <= 1.2 then Ok(Low)
      else if ratio <= 1.5 then Ok(Medium)
      else Ok(High)
  }

  /** For a positive threshold the ratio bands are integer comparisons:
      low up to 6/5 of the threshold, medium up to 3/2, high beyond. */
  lemma SeverityBands(count: int, threshold: int)
    requires threshold > 0 && count > threshold
    ensures SeverityOf(count, threshold) == Ok(Low) <==> 5 * count <= 6 * threshold
    ensures SeverityOf(count, threshold) == Ok(Medium) <==> 6 * threshold < 5 * count && 2 * count <= 3 * threshold
    ensures SeverityOf(count, threshold) == Ok(High) <==> 3 * threshold < 2 * count
  {
    var c := count as real;
    var t := threshold as real;
    RatioAtMost(c, t, 1.2);
    RatioAtMost(c, t, 1.5);
  }

  /** Dividing by a positive denominator and comparing is comparing the product. */
  lemma RatioAtMost(c: real, t: real, q: real)
    requires t > 0.0
    ensures c / t <= q <==> c <= q * t
  {
    var ratio := c / t;
    assert ratio * t == c;
    if ratio <= q {
      assert ratio * t <= q * t;
    } else {
      assert q * t < ratio * t;
    }
  }

  /** A negative threshold is exceeded by every count from 0 up, and the
      (non-positive or below 1) ratio always lands in the low band. */
  lemma NegativeThresholdIsLow(count: int, threshold: int)
    requires threshold < 0 && count > threshold
    ensures SeverityOf(count, threshold) == Ok(Low)
  {
    var c := count as real;
    var t := threshold as real;
    var ratio := c / t;
    assert ratio * t == c;
  }

  /** With a positive threshold, a larger crowd never gets a milder label. */
  lemma SeverityMonotone(c1: int, c2: int, threshold: int)
    requires threshold > 0 && c1 <= c2
    ensures SeverityOf(c1, threshold).Ok? && SeverityOf(c2, threshold).Ok?
    ensures Rank(SeverityOf(c1, threshold).value) <= Rank(SeverityOf(c2, threshold).value)
  {
    if c1 > threshold {
      SeverityBands(c1, threshold);
      SeverityBands(c2, threshold);
    }
  }

  /** `detect_overcrowding`: the override (when given) replaces the stored
      threshold for this call only; the latch records whether the count is
      above it, and an alert fires only when it goes from clear to set. The
      latch is stored before the severity is computed, so it is updated even
      when that computation raises. */
  function Detect(d: Detector, count: int, threshold: Option<int>): (r: (Outcome<Report>, Detector))
    ensures var active := if threshold.Some? then threshold.value else d.threshold;
      && r.1.threshold == d.threshold
      && r.1.alertActive == (count > active)
      && (r.0.ZeroDivisionError? <==> active == 0 && count > 0)
      && (r.0.Ok? ==>
            && r.0.value.isOvercrowded == (count > active)
            && r.0.value.currentCount == count
            && r.0.value.threshold == active
            && r.0.value.alertTriggered == (count > active && !d.alertActive)
            && Ok(r.0.value.severity) == SeverityOf(count, active))
  {
    var active := if threshold.Some? then threshold.value else d.threshold;
    var isOvercrowded := count > active;
    var alertTriggered := isOvercrowded && !d.alertActive;
    var next := d.(alertActive := isOvercrowded);
    match SeverityOf(count, active)
    case Ok(severity) => (Ok(Report(isOvercrowded, count, active, alertTriggered, severity)), next)
    case ZeroDivisionError => (ZeroDivisionError, next)
  }

  /** `set_threshold`: only the stored threshold changes. */
  function SetThreshold(d: Detector, threshold: int): (r: Detector)
    ensures r.threshold == threshold && r.alertActive == d.alertActive
  {
    d.(threshold := threshold)
  }

  /** Feeds a sequence of counts to the detector, one call per frame, with no override. */
  function Run(d: Detector, counts: seq<int>): (r: (seq<Outcome<Report>>, Detector))
    ensures |r.0| == |counts|
    ensures r.1.threshold == d.threshold
    decreases |counts|
  {
    if |counts| == 0 then ([], d)
    else
      var (o, d1) := Detect(d, counts[0], None);
      var (rest, dn) := Run(d1, counts[1..]);
      ([o] + rest, dn)
  }

  /** Over a run with a non-zero threshold, an alert fires exactly on the
      frames where the count rises above the threshold from at or below it
      (or, on the first frame, when the latch was clear), and the final latch
      reflects the last count. */
  lemma {:induction false} RunAlertsOnRisingEdges(d: Detector, counts: seq<int>)
    requires d.threshold != 0
    ensures var (out, last) := Run(d, counts);
      && (forall i :: 0 <= i < |counts| ==> out[i].Ok?)
      && (forall i :: 0 <= i < |counts| ==>
            out[i].value.alertTriggered ==
            (counts[i] > d.threshold && (if i == 0 then !d.alertActive else counts[i - 1] <= d.threshold)))
      && last.alertActive == (if |counts| == 0 then d.alertActive else counts[|counts| - 1] > d.threshold)
    decreases |counts|
  {
    if |counts| > 0 {
      var d1 := Detect(d, counts[0], None).1;
      var rest := counts[1..];
      RunAlertsOnRisingEdges(d1, rest);
      var (out, last) := Run(d, counts);
      var (outRest, _) := Run(d1, rest);
      assert out == [Detect(d, counts[0], None).0] + outRest;
      assert out[0] == Detect(d, counts[0], None).0;
      forall i | 0 <= i < |counts|
        ensures out[i].Ok?
        ensures out[i].value.alertTriggered ==
                (counts[i] > d.threshold && (if i == 0 then !d.alertActive else counts[i - 1] <= d.threshold))
      {
        if i > 0 {
          assert out[i] == outRest[i - 1];
          assert rest[i - 1] == counts[i];
          if i > 1 {
            assert rest[i - 2] == counts[i - 1];
          }
        }
      }
    }
  }

  /** The detector of the unit test: threshold 5, counts 3 then 8. The count
      of 3 is not overcrowded; 8 is, and alerts. Repeating 8 does not alert
      again, dropping back to 3 clears the latch, and 8 alerts once more. */
  lemma TestScenario()
    ensures var (out, _) := Run(NewDetector(5), [3, 8, 8, 3, 8]);
      && out[0].Ok? && !out[0].value.isOvercrowded
      && out[1].Ok? && out[1].value.isOvercrowded && out[1].value.currentCount == 8 && out[1].value.alertTriggered
      && out[1].value.severity == High
      && out[2].Ok? && !out[2].value.alertTriggered
      && out[3].Ok? && !out[3].value.alertTriggered
      && out[4].Ok? && out[4].value.alertTriggered
  {
    var counts := [3, 8, 8, 3, 8];
    RunAlertsOnRisingEdges(NewDetector(5), counts);
    var out := Run(NewDetector(5), counts).0;
    assert out[1] == Detect(Detector(5, false), 8, None).0;
    SeverityBands(8, 5);
  }
}
