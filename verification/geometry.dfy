/**
 * Plane geometry shared by the tracker and the evaluation script: points,
 * axis-aligned boxes `[x1, y1, x2, y2]`, and the intersection-over-union
 * ratio both of them compute with the same formula.
 */
module Geometry {

  datatype Point = Point(x: real, y: real)

  /** A bounding box `[x1, y1, x2, y2]`. */
  datatype Box = Box(x1: real, y1: real, x2: real, y2: real)

  /** The `1e-6` both IoU implementations add to the union area. */
  const Epsilon: real := 0.000001

  /** Corners in the expected order; every detector box has this shape. */
  predicate WellFormed(b: Box)
  {
    b.x1 <= b.x2 && b.y1 <= b.y2
  }

  function Area(b: Box): real
  {
    (b.x2 - b.x1) * (b.y2 - b.y1)
  }

  function Center(b: Box): Point
  {
    Point((b.x1 + b.x2) / 2.0, (b.y1 + b.y2) / 2.0)
  }

  /** Squared Euclidean distance; the source's distances are the square roots of these. */
  function SqDist(p: Point, q: Point): (d: real)
    ensures d >= 0.0
  {
    (p.x - q.x) * (p.x - q.x) + (p.y - q.y) * (p.y - q.y)
  }

  /** `dist < threshold` for the distance whose square is `sq`: the
      detectors compare squared distances with the square of the bound. */
  predicate DistanceBelow(sq: real, threshold: real)
  {
    threshold > 0.0 && sq < threshold * threshold
  }

  /** The squared test agrees with the source's test on the square root:
      for any non-negative `m` with `m * m == sq`, `m < threshold` exactly
      when `DistanceBelow(sq, threshold)`. */
  lemma DistanceBelowMatchesRoot(m: real, sq: real, threshold: real)
    requires m >= 0.0 && m * m == sq
    ensures m < threshold <==> DistanceBelow(sq, threshold)
  {
    if m < threshold {
      calc {
        m * m;
      <= { MulMono(m, m, m, threshold); }
        m * threshold;
      < { MulStrict(m, threshold); }
        threshold * threshold;
      }
    } else if threshold > 0.0 {
      MulMono(threshold, threshold, m, m);
    }
  }

  lemma MulStrict(m: real, t: real)
    requires 0.0 <= m < t
    ensures m * t < t * t
  {
  }

  function RMax(a: real, b: real): real { if a >= b then a else b }
  function RMin(a: real, b: real): real { if a <= b then a else b }

  /** Length of the overlap of [lo1, hi1] and [lo2, hi2], clamped at zero. */
  function Overlap(lo1: real, hi1: real, lo2: real, hi2: real): (o: real)
    ensures o >= 0.0
  {
    RMax(0.0, RMin(hi1, hi2) - RMax(lo1, lo2))
  }

  function Intersection(a: Box, b: Box): real
  {
    Overlap(a.x1, a.x2, b.x1, b.x2) * Overlap(a.y1, a.y2, b.y1, b.y2)
  }

  /** The denominator `union + 1e-6`. */
  function IouDenominator(a: Box, b: Box): real
  {
    Area(a) + Area(b) - Intersection(a, b) + Epsilon
  }

  /** Intersection over (union + 1e-6). The one input Python cannot divide
      by, a denominator of exactly zero, needs degenerate boxes; it is given
      the value 0 here. */
  function Iou(a: Box, b: Box): (r: real)
    ensures IouDenominator(a, b) != 0.0 ==> r * IouDenominator(a, b) == Intersection(a, b)
    ensures Intersection(a, b) == 0.0 ==> r == 0.0
  {
    var den := IouDenominator(a, b);
    if den == 0.0 then 0.0 else Intersection(a, b) / den
  }

  /** IoU does not depend on the order of its arguments. */
  lemma IouSymmetric(a: Box, b: Box)
    ensures Iou(a, b) == Iou(b, a)
  {
    assert Overlap(a.x1, a.x2, b.x1, b.x2) == Overlap(b.x1, b.x2, a.x1, a.x2);
    assert Overlap(a.y1, a.y2, b.y1, b.y2) == Overlap(b.y1, b.y2, a.y1, a.y2);
  }

  lemma MulMono(a: real, b: real, c: real, d: real)
    requires 0.0 <= a <= c && 0.0 <= b <= d
    ensures a * b <= c * d
  {
    assert a * b <= c * b;
    assert c * b <= c * d;
  }

  /** The overlap of two well-formed boxes is no larger than either box. */
  lemma IntersectionBounded(a: Box, b: Box)
    requires WellFormed(a) && WellFormed(b)
    ensures 0.0 <= Intersection(a, b)
    ensures Intersection(a, b) <= Area(a)
    ensures Intersection(a, b) <= Area(b)
  {
    var ox := Overlap(a.x1, a.x2, b.x1, b.x2);
    var oy := Overlap(a.y1, a.y2, b.y1, b.y2);
    MulMono(ox, oy, a.x2 - a.x1, a.y2 - a.y1);
    MulMono(ox, oy, b.x2 - b.x1, b.y2 - b.y1);
    MulMono(0.0, 0.0, ox, oy);
  }

  /** For well-formed boxes the IoU lies in [0, 1): the epsilon keeps it strictly below 1. */
  lemma IouRange(a: Box, b: Box)
    requires WellFormed(a) && WellFormed(b)
    ensures IouDenominator(a, b) >= Epsilon
    ensures 0.0 <= Iou(a, b) < 1.0
  {
    IntersectionBounded(a, b);
    var i := Intersection(a, b);
    var den := IouDenominator(a, b);
    assert den > i;
    assert i / den < 1.0 by {
      assert i < den;
    }
  }

  /** A box against itself scores A / (A + 1e-6), which is below 1 however large the box. */
  lemma IouSelf(a: Box)
    requires WellFormed(a)
    ensures Iou(a, a) == Area(a) / (Area(a) + Epsilon)
    ensures Iou(a, a) < 1.0
  {
    MulMono(0.0, 0.0, a.x2 - a.x1, a.y2 - a.y1);
    assert Intersection(a, a) == Area(a);
    IouRange(a, a);
  }

  /** Boxes that do not overlap on the x axis score 0. */
  lemma IouDisjoint(a: Box, b: Box)
    requires a.x2 <= b.x1
    ensures Iou(a, b) == 0.0
  {
    assert Overlap(a.x1, a.x2, b.x1, b.x2) == 0.0;
  }
}
