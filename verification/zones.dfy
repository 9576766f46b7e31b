/**
 * The zone-violation detector: a list of restricted polygons, a per-track
 * latch, and the ray-casting point-in-polygon test the module also provides.
 * The polygon containment used by detection comes from a geometry library
 * and is a parameter here (`contains`).
 */
module Zones {
  import opened Common
  import opened Geometry

  /** A zone: its vertices in order. */
  type Polygon = seq<Point>

  /** Fewer than three vertices do not make a zone. */
  const MinVertices: int := 3

  /** The detector: the restricted zones and the tracks currently inside one. */
  datatype Detector = Detector(zones: seq<Polygon>, violating: set<int>)

  /** Every stored zone has at least three vertices. */
  predicate Valid(d: Detector)
  {
    forall i :: 0 <= i < |d.zones| ==> |d.zones[i]| >= MinVertices
  }

  /** The zones of `zs`, in order, that have at least three vertices. */
  function Accepted(zs: seq<Polygon>): seq<Polygon>
  {
    if |zs| == 0 then []
    else (if |zs[0]| >= MinVertices then [zs[0]] else []) + Accepted(zs[1..])
  }

  /** What `Accepted` keeps: no more zones than given, only large-enough
      members of `zs`, and every large-enough member. */
  lemma {:induction false} AcceptedMembers(zs: seq<Polygon>)
    ensures var r := Accepted(zs);
      && |r| <= |zs|
      && (forall i :: 0 <= i < |r| ==> |r[i]| >= MinVertices && r[i] in zs)
      && (forall z :: z in zs && |z| >= MinVertices ==> z in r)
  {
    if |zs| > 0 {
      AcceptedMembers(zs[1..]);
      assert forall z :: z in zs[1..] ==> z in zs;
      assert forall z :: z in zs ==> z == zs[0] || z in zs[1..];
    }
  }

  /** The zones of `zs` that `add_zone` accepts, in order. */
  function LargeEnough(zs: seq<Polygon>): (r: seq<Polygon>)
    ensures |r| <= |zs|
    ensures forall i :: 0 <= i < |r| ==> |r[i]| >= MinVertices && r[i] in zs
    ensures forall z :: z in zs && |z| >= MinVertices ==> z in r
  {
    AcceptedMembers(zs);
    Accepted(zs)
  }

  /** A single polygon is accepted exactly when it has three vertices. */
  lemma LargeEnoughOne(z: Polygon)
    ensures LargeEnough([z]) == if |z| >= MinVertices then [z] else []
  {
    assert [z][1..] == [];
    assert Accepted([z][1..]) == [];
  }

  /** Acceptance distributes over concatenation, so the accepted zones keep
      the order and multiplicity they were given in. */
  lemma LargeEnoughAppend(a: seq<Polygon>, b: seq<Polygon>)
    ensures LargeEnough(a + b) == LargeEnough(a) + LargeEnough(b)
  {
    AcceptedAppend(a, b);
  }

  lemma {:induction false} AcceptedAppend(a: seq<Polygon>, b: seq<Polygon>)
    ensures Accepted(a + b) == Accepted(a) + Accepted(b)
    decreases |a|
  {
    if |a| == 0 {
      assert a + b == b;
    } else {
      AcceptedAppend(a[1..], b);
      assert (a + b)[1..] == a[1..] + b;
      assert (a + b)[0] == a[0];
      var h := if |a[0]| >= MinVertices then [a[0]] else [];
      assert h + (Accepted(a[1..]) + Accepted(b)) == (h + Accepted(a[1..])) + Accepted(b);
    }
  }

  /** `add_zone`: a polygon with fewer than three vertices is ignored. */
  function AddZone(d: Detector, zone: Polygon): (r: Detector)
    ensures |zone| < MinVertices ==> r == d
    ensures |zone| >= MinVertices ==> r.zones == d.zones + [zone]
    ensures r.violating == d.violating
    ensures Valid(d) ==> Valid(r)
  {
    if |zone| < MinVertices then d else d.(zones := d.zones + [zone])
  }

  /** `add_zone` for each polygon in turn. */
  function AddZones(d: Detector, zs: seq<Polygon>): (r: Detector)
    ensures r.zones == d.zones + LargeEnough(zs)
    ensures r.violating == d.violating
    decreases |zs|
  {
    if |zs| == 0 then d
    else
      var r := AddZones(AddZone(d, zs[0]), zs[1..]);
      AddZoneThenRest(d.zones, zs);
      r
  }

  /** Accepting the first polygon and then the rest accepts the same list. */
  lemma AddZoneThenRest(zones: seq<Polygon>, zs: seq<Polygon>)
    requires |zs| > 0
    ensures (if |zs[0]| >= MinVertices then zones + [zs[0]] else zones) + LargeEnough(zs[1..])
            == zones + LargeEnough(zs)
  {
    var h := if |zs[0]| >= MinVertices then [zs[0]] else [];
    var rest := Accepted(zs[1..]);
    assert Accepted(zs) == h + rest;
    assert (if |zs[0]| >= MinVertices then zones + [zs[0]] else zones) == zones + h;
    assert (zones + h) + rest == zones + (h + rest);
  }

  /** The constructor: an empty detector to which each given zone is added. */
  function NewDetector(zs: seq<Polygon>): (d: Detector)
    ensures d.zones == LargeEnough(zs) && d.violating == {}
    ensures Valid(d)
  {
    AddZones(Detector([], {}), zs)
  }

  /** `remove_zone`: an index outside the list is ignored. */
  function RemoveZone(d: Detector, index: int): (r: Detector)
    ensures !(0 <= index < |d.zones|) ==> r == d
    ensures 0 <= index < |d.zones| ==>
      && |r.zones| == |d.zones| - 1
      && (forall j :: 0 <= j < index ==> r.zones[j] == d.zones[j])
      && (forall j :: index <= j < |r.zones| ==> r.zones[j] == d.zones[j + 1])
    ensures r.violating == d.violating
    ensures Valid(d) ==> Valid(r)
  {
    if 0 <= index < |d.zones| then d.(zones := d.zones[..index] + d.zones[index + 1..]) else d
  }

  /** `clear_zones`: no zones and no flagged tracks. */
  function ClearZones(d: Detector): (r: Detector)
    ensures r.zones == [] && r.violating == {}
    ensures Valid(r)
  {
    Detector([], {})
  }

  /** The live stream's zone reconfiguration: clear, then add each zone. */
  function ReplaceZones(d: Detector, zs: seq<Polygon>): (r: Detector)
    ensures r == NewDetector(zs)
  {
    AddZones(ClearZones(d), zs)
  }

  /** Indices, from `from` on, of the polygons that contain `p`, ascending. */
  function Violated(polys: seq<Polygon>, p: Point, contains: (Polygon, Point) -> bool, from: nat): (r: seq<nat>)
    requires from <= |polys|
    ensures forall i :: i in r <==> from <= i < |polys| && contains(polys[i], p)
    ensures forall k :: 0 <= k < |r| ==> from <= r[k] < |polys|
    ensures forall k, l :: 0 <= k < l < |r| ==> r[k] < r[l]
    decreases |polys| - from
  {
    if from == |polys| then []
    else
      var rest := Violated(polys, p, contains, from + 1);
      if contains(polys[from], p) then [from] + rest else rest
  }

  /** The dictionary `detect_zone_violation` returns (without the echoed point and id). */
  datatype Report = Report(isViolation: bool, violatedZones: seq<nat>, alertTriggered: bool)

  /** `detect_zone_violation`. With no polygons to test nothing is reported
      and the latch is left alone; otherwise every polygon is checked, and
      when a track id is given its latch is set or cleared, alerting on the
      rising edge. */
  function Detect(d: Detector, center: Point, polygons: Option<seq<Polygon>>, trackId: Option<int>,
                  contains: (Polygon, Point) -> bool): (r: (Report, Detector))
    ensures r.1.zones == d.zones
    ensures var polys := if polygons.Some? then polygons.value else d.zones;
      && (|polys| == 0 ==> r == (Report(false, [], false), d))
      && (forall i :: i in r.0.violatedZones <==> 0 <= i < |polys| && contains(polys[i], center))
      && (forall k, l :: 0 <= k < l < |r.0.violatedZones| ==> r.0.violatedZones[k] < r.0.violatedZones[l])
      && (r.0.isViolation <==> exists i :: 0 <= i < |polys| && contains(polys[i], center))
      && (r.0.alertTriggered <==> trackId.Some? && r.0.isViolation && trackId.value !in d.violating)
      && (trackId.None? || |polys| == 0 ==> r.1.violating == d.violating)
      && (trackId.Some? && |polys| > 0 ==> r.1.violating == Latch(d.violating, trackId.value, r.0.isViolation))
  {
    var polys := if polygons.Some? then polygons.value else d.zones;
    if |polys| == 0 then (Report(false, [], false), d)
    else
      var violated := Violated(polys, center, contains, 0);
      var isViolation := |violated| > 0;
      assert isViolation ==> violated[0] in violated;
      match trackId
      case None => (Report(isViolation, violated, false), d)
      case Some(id) =>
        var alertTriggered := isViolation && id !in d.violating;
        (Report(isViolation, violated, alertTriggered), d.(violating := Latch(d.violating, id, isViolation)))
  }

  /** A track that stays inside a zone alerts once: the second identical call
      finds it already flagged. */
  lemma SecondDetectionDoesNotAlert(d: Detector, center: Point, id: int, contains: (Polygon, Point) -> bool)
    ensures var (_, d1) := Detect(d, center, None, Some(id), contains);
      !Detect(d1, center, None, Some(id), contains).0.alertTriggered
  {
  }

  // ---- Ray casting ----

  /** Where the line through p1 and p2 meets the horizontal through `q`. */
  function Abscissa(p1: Point, p2: Point, q: Point): real
    requires p1.y != p2.y
  {
    (q.y - p1.y) * (p2.x - p1.x) / (p2.y - p1.y) + p1.x
  }

  /** Whether the horizontal ray from `q` towards +x crosses the edge p1-p2,
      as the ray-casting loop decides it. The intersection abscissa is only
      computed for non-horizontal edges. */
  predicate EdgeToggles(p1: Point, p2: Point, q: Point)
  {
    && q.y > RMin(p1.y, p2.y)
    && q.y <= RMax(p1.y, p2.y)
    && q.x <= RMax(p1.x, p2.x)
    && (p1.x == p2.x || (p1.y != p2.y && q.x <= Abscissa(p1, p2, q)))
  }

  /** A horizontal edge never toggles, so the loop never reads an
      intersection abscissa it did not compute for that edge. */
  lemma HorizontalNeverToggles(p1: Point, p2: Point, q: Point)
    requires p1.y == p2.y
    ensures !EdgeToggles(p1, p2, q)
  {
  }

  /** Edge `i` (1-based) of the loop runs from vertex `i - 1` to vertex `i mod n`. */
  predicate Toggles(poly: Polygon, q: Point, i: nat)
    requires 1 <= i <= |poly|
  {
    EdgeToggles(poly[i - 1], poly[i % |poly|], q)
  }

  /** Whether the ray crosses each of the first `k` edges, in loop order. */
  function Flags(poly: Polygon, q: Point, k: nat): (bs: seq<bool>)
    requires k <= |poly|
    ensures |bs| == k
    ensures forall i :: 0 <= i < k ==> bs[i] == Toggles(poly, q, i + 1)
  {
    seq(k, i requires 0 <= i < k => Toggles(poly, q, i + 1))
  }

  /** How many flags are set. */
  function CountTrue(bs: seq<bool>): (c: nat)
    ensures c <= |bs|
  {
    if |bs| == 0 then 0
    else CountTrue(bs[..|bs| - 1]) + (if bs[|bs| - 1] then 1 else 0)
  }

  /** A flag that starts false and flips at every set entry. */
  predicate Flipped(bs: seq<bool>)
  {
    if |bs| == 0 then false
    else Flipped(bs[..|bs| - 1]) != bs[|bs| - 1]
  }

  /** Flipping at every set entry computes the parity of their number. */
  lemma {:induction false} FlippedIsParity(bs: seq<bool>)
    ensures Flipped(bs) <==> CountTrue(bs) % 2 == 1
  {
    if |bs| > 0 {
      FlippedIsParity(bs[..|bs| - 1]);
    }
  }

  /** Counting the set flags of a four-edge polygon. */
  lemma CountFour(a: bool, b: bool, c: bool, d: bool)
    ensures CountTrue([a, b, c, d]) == (if a then 1 else 0) + (if b then 1 else 0) + (if c then 1 else 0) + (if d then 1 else 0)
  {
    assert [a, b, c, d][..3] == [a, b, c];
    assert [a, b, c][..2] == [a, b];
    assert [a, b][..1] == [a];
    assert [a][..0] == [];
    assert CountTrue([a]) == (if a then 1 else 0);
    assert CountTrue([a, b]) == CountTrue([a]) + (if b then 1 else 0);
    assert CountTrue([a, b, c]) == CountTrue([a, b]) + (if c then 1 else 0);
  }

  /** The number of polygon edges the ray from `q` crosses. */
  function Crossings(poly: Polygon, q: Point): nat
  {
    CountTrue(Flags(poly, q, |poly|))
  }

  /** The ray-casting rule: inside when the ray crosses an odd number of edges. */
  predicate InPolygon(poly: Polygon, q: Point)
  {
    Crossings(poly, q) % 2 == 1
  }

  /** The loop's successor index `i mod n` stays `i` until it wraps to 0 at `n`. */
  lemma WrapIndex(i: nat, n: nat)
    requires 1 <= i <= n
    ensures i % n == if i < n then i else 0
  {
  }

  /** The body of the ray-casting loop for one edge, with its nested tests. */
  method CrossesEdge(p1: Point, p2: Point, q: Point) returns (toggle: bool)
    ensures toggle == EdgeToggles(p1, p2, q)
  {
    toggle := false;
    if q.y > RMin(p1.y, p2.y) {
      if q.y <= RMax(p1.y, p2.y) {
        if q.x <= RMax(p1.x, p2.x) {
          assert p1.y != p2.y;
          if p1.x == p2.x || q.x <= Abscissa(p1, p2, q) {
            toggle := true;
          }
        }
      }
    }
  }

  /** The ray-casting loop as written: it walks the edges once, flipping
      `inside` at every crossing, and so computes the parity of the number of
      crossings. */
  method PointInPolygon(poly: Polygon, q: Point) returns (inside: bool)
    requires |poly| > 0
    ensures inside == InPolygon(poly, q)
  {
    var n := |poly|;
    inside := false;
    var p1 := poly[0];
    var i := 1;
    while i < n + 1
      invariant 1 <= i <= n + 1
      invariant i <= n ==> p1 == poly[i - 1]
      invariant inside == Flipped(Flags(poly, q, i - 1))
    {
      WrapIndex(i, n);
      var p2 := poly[i % n];
      var toggle := CrossesEdge(p1, p2, q);
      assert toggle == Toggles(poly, q, i);
      assert Flags(poly, q, i)[..i - 1] == Flags(poly, q, i - 1);
      if toggle {
        inside := !inside;
      }
      p1 := p2;
      i := i + 1;
    }
    FlippedIsParity(Flags(poly, q, n));
  }

  /** The unit test's square with corners (0, 0) and (100, 100): (50, 50) is
      inside and (150, 150) is outside. */
  lemma UnitSquare()
    ensures InPolygon([Point(0.0, 0.0), Point(100.0, 0.0), Point(100.0, 100.0), Point(0.0, 100.0)], Point(50.0, 50.0))
    ensures !InPolygon([Point(0.0, 0.0), Point(100.0, 0.0), Point(100.0, 100.0), Point(0.0, 100.0)], Point(150.0, 150.0))
  {
    var sq := [Point(0.0, 0.0), Point(100.0, 0.0), Point(100.0, 100.0), Point(0.0, 100.0)];
    var inner := Point(50.0, 50.0);
    var outer := Point(150.0, 150.0);
    assert !Toggles(sq, inner, 1) && Toggles(sq, inner, 2) && !Toggles(sq, inner, 3) && !Toggles(sq, inner, 4);
    assert Flags(sq, inner, 4) == [false, true, false, false];
    CountFour(false, true, false, false);
    assert !Toggles(sq, outer, 1) && !Toggles(sq, outer, 2) && !Toggles(sq, outer, 3) && !Toggles(sq, outer, 4);
    assert Flags(sq, outer, 4) == [false, false, false, false];
    CountFour(false, false, false, false);
  }

  /** Ray casting as a containment test, for polygons with at least one vertex. */
  predicate RayCastContains(poly: Polygon, q: Point)
  {
    |poly| > 0 && InPolygon(poly, q)
  }

  /** The square with corners (100, 100) and (200, 200) contains (150, 150)
      and not (300, 300) under ray casting. */
  lemma SquareZone()
    ensures RayCastContains([Point(100.0, 100.0), Point(200.0, 100.0), Point(200.0, 200.0), Point(100.0, 200.0)], Point(150.0, 150.0))
    ensures !RayCastContains([Point(100.0, 100.0), Point(200.0, 100.0), Point(200.0, 200.0), Point(100.0, 200.0)], Point(300.0, 300.0))
  {
    var zone := [Point(100.0, 100.0), Point(200.0, 100.0), Point(200.0, 200.0), Point(100.0, 200.0)];
    var inner := Point(150.0, 150.0);
    var outer := Point(300.0, 300.0);
    assert !Toggles(zone, inner, 1) && Toggles(zone, inner, 2) && !Toggles(zone, inner, 3) && !Toggles(zone, inner, 4);
    assert Flags(zone, inner, 4) == [false, true, false, false];
    CountFour(false, true, false, false);
    assert !Toggles(zone, outer, 1) && !Toggles(zone, outer, 2) && !Toggles(zone, outer, 3) && !Toggles(zone, outer, 4);
    assert Flags(zone, outer, 4) == [false, false, false, false];
    CountFour(false, false, false, false);
  }

  /** The unit test of detection: after adding the square with corners
      (100, 100) and (200, 200), track 1 at (150, 150) violates it and alerts,
      and track 2 at (300, 300) does not, when containment is decided by ray
      casting. */
  lemma ZoneScenario()
    ensures var zone := [Point(100.0, 100.0), Point(200.0, 100.0), Point(200.0, 200.0), Point(100.0, 200.0)];
      var d := AddZone(NewDetector([]), zone);
      var (r1, d1) := Detect(d, Point(150.0, 150.0), None, Some(1), RayCastContains);
      var (r2, _) := Detect(d1, Point(300.0, 300.0), None, Some(2), RayCastContains);
      && r1.isViolation && r1.alertTriggered && r1.violatedZones == [0]
      && !r2.isViolation && !r2.alertTriggered
  {
    var zone := [Point(100.0, 100.0), Point(200.0, 100.0), Point(200.0, 200.0), Point(100.0, 200.0)];
    SquareZone();
    var d := AddZone(NewDetector([]), zone);
    assert d.zones == [zone];
    assert Violated(d.zones, Point(150.0, 150.0), RayCastContains, 0) == [0];
  }
}
