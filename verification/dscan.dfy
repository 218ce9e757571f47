/** The older copy of the corner-selection logic: the private methods of the
    DScan class. It follows the same steps as the exported helpers but keeps
    no trace: each edge search returns only the chosen pair and its midpoint,
    and the probe returns only whether an edge was hit. Each method here is
    stated against the helpers' model as well as on its own terms. */
module DScan {
  import opened Model
  import opened Pixels
  import Probe
  import Ranking
  import Search

  /** The pair chosen for one edge and the midpoint that was probed. */
  datatype EdgeChoice = EdgeChoice(point1: Point, point2: Point, midPoint: Point)

  /** What the helpers' trace reduces to here: the pair and midpoint of its
      final entry, or the same error. */
  function Chosen(r: Result<seq<Model.EdgePoints>>): Result<EdgeChoice>
    requires r.Success? ==> |r.value| > 0
  {
    match r
    case Failure(e) => Failure(e)
    case Success(trace) =>
      var last := Search.Last(trace);
      Success(EdgeChoice(last.point1, last.point2, last.measuredMidPoint.point))
  }

  method TruncateColor(value: real) returns (r: real)
    ensures 0.0 <= r <= 255.0
    ensures 0.0 <= value <= 255.0 ==> r == value
    ensures r == Pixels.TruncateColor(value)
  {
    r := value;
    if r < 0.0 {
      r := 0.0;
    } else if r > 255.0 {
      r := 255.0;
    }
  }

  method GetFirstColorIndexForCoord(x: int, y: int, width: int) returns (r: int)
    ensures r % 4 == 0 && r / 4 == y * width + x
    ensures r == Pixels.GetFirstColorIndexForCoord(x, y, width)
  {
    r := y * (width * 4) + x * 4;
    ColorIndexDecodes(x, y, width);
  }

  /** The rounded point halfway between two points. */
  method FindPointBetween(point1: Point, point2: Point) returns (r: Point)
    ensures r.x == (point1.x + point2.x + 1) / 2 && r.y == (point1.y + point2.y + 1) / 2
    ensures Min(point1.x, point2.x) <= r.x <= Max(point1.x, point2.x)
    ensures Min(point1.y, point2.y) <= r.y <= Max(point1.y, point2.y)
    ensures r == Probe.FindMidPoint(point1, point2)
  {
    var location := 0.5;
    Probe.RoundOfHalfSum(point1.x, point2.x);
    Probe.RoundOfHalfSum(point1.y, point2.y);
    r := Point(Probe.Round(point1.x as real + location * (point2.x - point1.x) as real),
               Probe.Round(point1.y as real + location * (point2.y - point1.y) as real));
  }

  /** Whether a pixel brighter than the limit lies on one of the diagonals
      within `maxDistance` radii of `point`. */
  method PointIsCloseToEdge(img: ImageData, point: Point, maxDistance: int, highPassLimit: real) returns (hit: bool)
    ensures hit <==> Probe.EdgeWithin(img, point, maxDistance, highPassLimit)
    ensures hit == Probe.MidPointIsCloseToEdge(img, point, maxDistance, highPassLimit).hitEdge
  {
    Probe.MidPointIsCloseToEdgeSpec(img, point, maxDistance, highPassLimit);
    var limit := Limit(highPassLimit);
    var i := 0;
    while i < maxDistance
      invariant 0 <= i
      invariant forall j :: 0 <= j < i ==> !Probe.RadiusHits(img, point, j, highPassLimit)
    {
      var posX, negX, posY, negY := point.x + i, point.x - i, point.y + i, point.y - i;
      var topLeft := GetFirstColorIndexForCoord(negX, negY, img.width);
      var topRight := GetFirstColorIndexForCoord(posX, negY, img.width);
      var bottomRight := GetFirstColorIndexForCoord(posX, posY, img.width);
      var bottomLeft := GetFirstColorIndexForCoord(negX, posY, img.width);
      var topLeftNormColor := NormColor(img, topLeft);
      var topRightNormColor := NormColor(img, topRight);
      var bottomRightNormColor := NormColor(img, bottomRight);
      var bottomLeftNormColor := NormColor(img, bottomLeft);
      if Above(topLeftNormColor, limit) || Above(topRightNormColor, limit)
         || Above(bottomRightNormColor, limit) || Above(bottomLeftNormColor, limit)
      {
        assert Probe.RadiusHits(img, point, i, highPassLimit);
        return true;
      }
      i := i + 1;
    }
    return false;
  }

  /** Searches one edge for the first pair, in attempt order, whose midpoint
      is close to an edge; falls back to the rank-0 pair. Reading a rank a
      list does not have throws. */
  method FindPointsCloseToEdge(img: ImageData, points1: seq<Point>, points2: seq<Point>,
                               maxIndex: int, maxDistance: int, highPassLimit: real) returns (r: Result<EdgeChoice>)
    ensures r == Chosen(Search.FindPointsCloseToEdge(img, points1, points2, maxIndex, maxDistance, highPassLimit))
    ensures r.Success? ==> r.value.midPoint == Probe.FindMidPoint(r.value.point1, r.value.point2)
  {
    var q := Search.EdgeQuery(img, points1, points2, maxDistance, highPassLimit);
    var indexMods := Search.IndexMods;
    var pIndex := 0;
    while pIndex < maxIndex
      invariant 0 <= pIndex <= Max(maxIndex, 0)
      invariant Search.MissesBetween(q, 0, 4 * pIndex)
    {
      var mIndex := 0;
      while mIndex < 4
        invariant 0 <= mIndex <= 4
        invariant Search.MissesBetween(q, 0, 4 * pIndex + mIndex)
      {
        var k: nat := 4 * pIndex + mIndex;
        assert Search.Index1(k) == pIndex + indexMods[mIndex].0 && Search.Index2(k) == pIndex + indexMods[mIndex].1;
        var index1 := pIndex + indexMods[mIndex].0;
        var index2 := pIndex + indexMods[mIndex].1;
        if index1 >= |points1| {
          Search.SearchFailsAtFirstMissingRank(q, 4 * maxIndex, 0, k);
          return Failure(UndefinedPoint(index1));
        }
        if index2 >= |points2| {
          Search.SearchFailsAtFirstMissingRank(q, 4 * maxIndex, 0, k);
          return Failure(UndefinedPoint(index2));
        }
        var midPoint := FindPointBetween(points1[index1], points2[index2]);
        var hit := PointIsCloseToEdge(img, midPoint, maxDistance, highPassLimit);
        if hit {
          Search.SearchStopsAtFirstHit(q, 4 * maxIndex, 0, k);
          return Success(EdgeChoice(points1[index1], points2[index2], midPoint));
        }
        assert Search.Misses(q, k);
        mIndex := mIndex + 1;
      }
      pIndex := pIndex + 1;
    }
    Search.SearchFallsBackWhenAllMiss(q, 4 * maxIndex, 0);
    if |points1| == 0 || |points2| == 0 {
      return Failure(UndefinedPoint(0));
    }
    var point1, point2 := points1[0], points2[0];
    var midPoint := FindPointBetween(point1, point2);
    return Success(EdgeChoice(point1, point2, midPoint));
  }

  /** Searches the four edges and returns their choices as [left, top,
      right, bottom]; the first edge that throws ends the search. */
  method FindPointsCloseToEdges(img: ImageData, points: MaxCornerPoints, maxDistance: int, highPassLimit: real)
    returns (r: Result<seq<EdgeChoice>>)
    ensures r.Success? <==> Search.FindBestCornerPoints(img, points, maxDistance, highPassLimit).Success?
    ensures r.Failure? ==> r.error == Search.FindBestCornerPoints(img, points, maxDistance, highPassLimit).error
    ensures r.Success? ==> |r.value| == 4 && forall i :: 0 <= i < 4 ==>
              Success(r.value[i]) == Chosen(Search.SearchEdge(img, points, Search.EdgeOrder[i], maxDistance, highPassLimit))
  {
    assert Search.EdgeOrder == [Search.Left, Search.Top, Search.Right, Search.Bottom];
    var left := FindPointsCloseToEdge(img, points.topLeft, points.bottomLeft, points.length, maxDistance, highPassLimit);
    if left.Failure? {
      return Failure(left.error);
    }
    var top := FindPointsCloseToEdge(img, points.topLeft, points.topRight, points.length, maxDistance, highPassLimit);
    if top.Failure? {
      return Failure(top.error);
    }
    var right := FindPointsCloseToEdge(img, points.topRight, points.bottomRight, points.length, maxDistance, highPassLimit);
    if right.Failure? {
      return Failure(right.error);
    }
    var bottom := FindPointsCloseToEdge(img, points.bottomRight, points.bottomLeft, points.length, maxDistance, highPassLimit);
    if bottom.Failure? {
      return Failure(bottom.error);
    }
    return Success([left.value, top.value, right.value, bottom.value]);
  }

  /** Copies `points` and sorts the copy for the role, inserting the
      candidates one by one from the front. */
  method SortCopy(role: Ranking.Role, points: seq<Point>) returns (sorted: seq<Point>)
    ensures Ranking.IsRanking(role, points, sorted)
  {
    sorted := [];
    var i := 0;
    while i < |points|
      invariant 0 <= i <= |points|
      invariant Ranking.IsRanking(role, points[..i], sorted)
    {
      sorted := Ranking.Insert(role, points[i], sorted);
      assert points[..i + 1] == points[..i] + [points[i]];
      i := i + 1;
    }
    assert points[..|points|] == points;
  }

  /** Ranks the candidates for the four corners. Each list is a permutation
      of the candidates sorted for its role; against the helpers' copy it
      may differ only in the order of equal-score candidates. */
  method FindMaxCornerPoints(points: seq<Point>) returns (r: MaxCornerPoints)
    ensures Ranking.RanksAll(points, r)
    ensures var h := Ranking.FindMaxCornerPoints(points);
      && Ranking.SameScores(Ranking.TopLeft, r.topLeft, h.topLeft)
      && Ranking.SameScores(Ranking.TopRight, r.topRight, h.topRight)
      && Ranking.SameScores(Ranking.BottomLeft, r.bottomLeft, h.bottomLeft)
      && Ranking.SameScores(Ranking.BottomRight, r.bottomRight, h.bottomRight)
  {
    var topLeft := SortCopy(Ranking.TopLeft, points);
    var topRight := SortCopy(Ranking.TopRight, points);
    var bottomLeft := SortCopy(Ranking.BottomLeft, points);
    var bottomRight := SortCopy(Ranking.BottomRight, points);
    r := MaxCornerPoints(topLeft, topRight, bottomLeft, bottomRight, |points|);
    var h := Ranking.FindMaxCornerPoints(points);
    Ranking.RankingsAgreeOnScores(Ranking.TopLeft, points, r.topLeft, h.topLeft);
    Ranking.RankingsAgreeOnScores(Ranking.TopRight, points, r.topRight, h.topRight);
    Ranking.RankingsAgreeOnScores(Ranking.BottomLeft, points, r.bottomLeft, h.bottomLeft);
    Ranking.RankingsAgreeOnScores(Ranking.BottomRight, points, r.bottomRight, h.bottomRight);
  }
}
