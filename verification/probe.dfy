/** The edge-proximity probe (midPointIsCloseToEdge) and the rounded midpoint
    of two candidates (findMidPoint). The probe walks radii 0, 1, ... outward
    from a point, looks at the four diagonal pixels at each radius, and stops
    at the first radius where one of them is brighter than the limit. */
module Probe {
  import opened Model
  import opened Pixels

  /** JavaScript's Math.round: the nearest integer, halves rounded up. */
  function Round(v: real): int {
    (v + 0.5).Floor
  }

  lemma RoundOfHalfSum(a: int, b: int)
    ensures Round(a as real + 0.5 * (b - a) as real) == (a + b + 1) / 2
  {
    var s := a + b + 1;
    var q, rem := s / 2, s % 2;
    assert s == 2 * q + rem;
    assert a as real + 0.5 * (b - a) as real + 0.5 == q as real + rem as real / 2.0;
  }

  /** The point halfway between two candidates, each coordinate rounded to the
      nearest integer (halves upward). */
  function FindMidPoint(point1: Point, point2: Point): (r: Point)
    ensures r.x == (point1.x + point2.x + 1) / 2
    ensures r.y == (point1.y + point2.y + 1) / 2
    ensures Min(point1.x, point2.x) <= r.x <= Max(point1.x, point2.x)
    ensures Min(point1.y, point2.y) <= r.y <= Max(point1.y, point2.y)
  {
    RoundOfHalfSum(point1.x, point2.x);
    RoundOfHalfSum(point1.y, point2.y);
    Point(Round(point1.x as real + 0.5 * (point2.x - point1.x) as real),
          Round(point1.y as real + 0.5 * (point2.y - point1.y) as real))
  }

  /** The midpoint does not depend on the order of its arguments, and the
      midpoint of a point with itself is that point. */
  lemma FindMidPointSymmetric(point1: Point, point2: Point)
    ensures FindMidPoint(point1, point2) == FindMidPoint(point2, point1)
    ensures FindMidPoint(point1, point1) == point1
  {
  }

  /** The four coordinates looked at at radius `i` around `point`. */
  function Measurement(point: Point, i: int): MidPointMeasurement {
    MidPointMeasurement(point.x + i, point.x - i, point.y + i, point.y - i)
  }

  /** One of the four diagonal pixels at radius `i` (top-left, top-right,
      bottom-right, bottom-left, in that order) is brighter than the limit. */
  predicate RadiusHits(img: ImageData, point: Point, i: int, highPassLimit: real) {
    var m := Measurement(point, i);
    || SampleExceeds(img, GetFirstColorIndexForCoord(m.negX, m.negY, img.width), highPassLimit)
    || SampleExceeds(img, GetFirstColorIndexForCoord(m.posX, m.negY, img.width), highPassLimit)
    || SampleExceeds(img, GetFirstColorIndexForCoord(m.posX, m.posY, img.width), highPassLimit)
    || SampleExceeds(img, GetFirstColorIndexForCoord(m.negX, m.posY, img.width), highPassLimit)
  }

  /** Some radius below `maxDistance` has a diagonal pixel brighter than the limit. */
  predicate EdgeWithin(img: ImageData, point: Point, maxDistance: int, highPassLimit: real) {
    exists i :: 0 <= i < maxDistance && RadiusHits(img, point, i, highPassLimit)
  }

  /** The probe from radius `i` on: measure radius `i`, stop if it is bright,
      otherwise go on outward. */
  function ProbeFrom(img: ImageData, point: Point, maxDistance: int, highPassLimit: real, i: nat): MeasuredMidPoint
    decreases maxDistance - i
  {
    if i >= maxDistance then
      MeasuredMidPoint(point, false, [])
    else if RadiusHits(img, point, i, highPassLimit) then
      MeasuredMidPoint(point, true, [Measurement(point, i)])
    else
      var rest := ProbeFrom(img, point, maxDistance, highPassLimit, i + 1);
      MeasuredMidPoint(point, rest.hitEdge, [Measurement(point, i)] + rest.midPointMeasurements)
  }

  /** Probes `point` for a bright pixel within `maxDistance` radii. */
  function MidPointIsCloseToEdge(img: ImageData, point: Point, maxDistance: int, highPassLimit: real): (r: MeasuredMidPoint)
    ensures r.point == point
  {
    ProbeFromKeepsPoint(img, point, maxDistance, highPassLimit, 0);
    ProbeFrom(img, point, maxDistance, highPassLimit, 0)
  }

  lemma {:induction false} ProbeFromKeepsPoint(img: ImageData, point: Point, maxDistance: int, highPassLimit: real, i: nat)
    ensures ProbeFrom(img, point, maxDistance, highPassLimit, i).point == point
    decreases maxDistance - i
  {
    if i < maxDistance && !RadiusHits(img, point, i, highPassLimit) {
      ProbeFromKeepsPoint(img, point, maxDistance, highPassLimit, i + 1);
    }
  }

  /** What the probe from radius `i` on records and reports. */
  lemma {:induction false} ProbeFromSpec(img: ImageData, point: Point, maxDistance: int, highPassLimit: real, i: nat)
    ensures var r := ProbeFrom(img, point, maxDistance, highPassLimit, i);
      && (forall k :: 0 <= k < |r.midPointMeasurements| ==> r.midPointMeasurements[k] == Measurement(point, i + k))
      && (r.hitEdge <==> exists j :: i <= j < maxDistance && RadiusHits(img, point, j, highPassLimit))
      && (r.hitEdge ==> |r.midPointMeasurements| > 0
                        && RadiusHits(img, point, i + |r.midPointMeasurements| - 1, highPassLimit)
                        && forall j :: i <= j < i + |r.midPointMeasurements| - 1 ==> !RadiusHits(img, point, j, highPassLimit))
      && (!r.hitEdge ==> |r.midPointMeasurements| == Max(maxDistance - i, 0))
    decreases maxDistance - i
  {
    if i < maxDistance && !RadiusHits(img, point, i, highPassLimit) {
      ProbeFromSpec(img, point, maxDistance, highPassLimit, i + 1);
      var rest := ProbeFrom(img, point, maxDistance, highPassLimit, i + 1);
      assert rest.hitEdge ==> exists j :: i <= j < maxDistance && RadiusHits(img, point, j, highPassLimit);
    }
  }

  /** The probe's contract. The point comes back unchanged; the edge is hit
      exactly when some radius below `maxDistance` has a bright diagonal
      pixel; measurement k describes radius k; a hit stops at the first
      bright radius, a miss records every radius. */
  lemma MidPointIsCloseToEdgeSpec(img: ImageData, point: Point, maxDistance: int, highPassLimit: real)
    ensures var r := MidPointIsCloseToEdge(img, point, maxDistance, highPassLimit);
      && r.point == point
      && (r.hitEdge <==> EdgeWithin(img, point, maxDistance, highPassLimit))
      && (forall k :: 0 <= k < |r.midPointMeasurements| ==> r.midPointMeasurements[k] == Measurement(point, k))
      && (r.hitEdge ==> |r.midPointMeasurements| > 0
                        && RadiusHits(img, point, |r.midPointMeasurements| - 1, highPassLimit)
                        && forall j :: 0 <= j < |r.midPointMeasurements| - 1 ==> !RadiusHits(img, point, j, highPassLimit))
      && (!r.hitEdge ==> |r.midPointMeasurements| == Max(maxDistance, 0))
  {
    ProbeFromSpec(img, point, maxDistance, highPassLimit, 0);
  }

  /** A probe with no radius to try records nothing and finds no edge. */
  lemma ProbeWithoutRadius(img: ImageData, point: Point, maxDistance: int, highPassLimit: real)
    requires maxDistance <= 0
    ensures MidPointIsCloseToEdge(img, point, maxDistance, highPassLimit) == MeasuredMidPoint(point, false, [])
  {
  }

  /** Lowering the percentage never loses a hit. */
  lemma {:induction false} ProbeThresholdMonotonic(img: ImageData, point: Point, maxDistance: int, lower: real, higher: real)
    requires lower <= higher
    requires MidPointIsCloseToEdge(img, point, maxDistance, higher).hitEdge
    ensures MidPointIsCloseToEdge(img, point, maxDistance, lower).hitEdge
  {
    MidPointIsCloseToEdgeSpec(img, point, maxDistance, higher);
    MidPointIsCloseToEdgeSpec(img, point, maxDistance, lower);
    var i :| 0 <= i < maxDistance && RadiusHits(img, point, i, higher);
    assert RadiusHits(img, point, i, lower);
  }

  /** At 100 percent or more nothing is ever hit, not even pure white: the
      mean of three bytes cannot exceed 255. */
  lemma {:induction false} ProbeNeverHitsAtFullLimit(img: ImageData, point: Point, maxDistance: int, highPassLimit: real)
    requires highPassLimit >= 100.0
    ensures !MidPointIsCloseToEdge(img, point, maxDistance, highPassLimit).hitEdge
  {
    MidPointIsCloseToEdgeSpec(img, point, maxDistance, highPassLimit);
    forall i | 0 <= i < maxDistance
      ensures !RadiusHits(img, point, i, highPassLimit)
    {
      var m := Measurement(point, i);
      NoSampleExceedsFullLimit(img, GetFirstColorIndexForCoord(m.negX, m.negY, img.width), highPassLimit);
      NoSampleExceedsFullLimit(img, GetFirstColorIndexForCoord(m.posX, m.negY, img.width), highPassLimit);
      NoSampleExceedsFullLimit(img, GetFirstColorIndexForCoord(m.posX, m.posY, img.width), highPassLimit);
      NoSampleExceedsFullLimit(img, GetFirstColorIndexForCoord(m.negX, m.posY, img.width), highPassLimit);
    }
  }

  /** A 10 x 10 black picture with one white pixel at (5, 5): probing that
      pixel with one radius at 50 percent hits at radius 0. */
  lemma WhitePixelIsHit()
    ensures var img := ImageData(seq(400, i => if 220 <= i < 223 then 255 else 0), 10, 10);
      MidPointIsCloseToEdge(img, Point(5, 5), 1, 50.0)
        == MeasuredMidPoint(Point(5, 5), true, [MidPointMeasurement(5, 5, 5, 5)])
  {
    var img := ImageData(seq(400, i => if 220 <= i < 223 then 255 else 0), 10, 10);
    assert GetFirstColorIndexForCoord(5, 5, 10) == 220;
    assert ChannelSum(img, 220) == 765;
    assert RadiusHits(img, Point(5, 5), 0, 50.0);
  }

  /** A buffer with no bytes makes every sample NaN, so nothing is ever hit. */
  lemma EmptyBufferNeverHits(img: ImageData, point: Point, maxDistance: int, highPassLimit: real)
    requires |img.data| == 0
    ensures !MidPointIsCloseToEdge(img, point, maxDistance, highPassLimit).hitEdge
  {
    MidPointIsCloseToEdgeSpec(img, point, maxDistance, highPassLimit);
  }
}
