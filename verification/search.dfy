/** The per-edge pair search (findPointsCloseToEdge) and the four-edge driver
    (findBestCornerPoints).

    For one edge the search is given two ranked lists. Attempt k pairs rank
    Index1(k) of the first list with rank Index2(k) of the second, where the
    base index is k / 4 and the modifier k % 4 picks (0,0), (1,0), (0,1) or
    (1,1). It probes the rounded midpoint of each pair, logs every attempt and
    stops at the first hit. Reading a rank the list does not have dereferences
    `undefined` and throws, modelled as `Failure`. */
module Search {
  import opened Model
  import opened Pixels
  import opened Probe
  import Ranking

  /** The inputs one edge search keeps fixed. */
  datatype EdgeQuery = EdgeQuery(
    img: ImageData,
    points1: seq<Point>,
    points2: seq<Point>,
    maxDistance: int,
    highPassLimit: real)

  /** How far each attempt of one base index advances the two lists. */
  const IndexMods: seq<(nat, nat)> := [(0, 0), (1, 0), (0, 1), (1, 1)]

  function Index1(k: nat): nat {
    k / 4 + IndexMods[k % 4].0
  }

  function Index2(k: nat): nat {
    k / 4 + IndexMods[k % 4].1
  }

  /** Both ranks read by attempt k exist. */
  predicate InRange(q: EdgeQuery, k: nat) {
    Index1(k) < |q.points1| && Index2(k) < |q.points2|
  }

  /** The slot whose absence makes attempt k throw: the first list is read first. */
  function MissingIndex(q: EdgeQuery, k: nat): int {
    if Index1(k) >= |q.points1| then Index1(k) else Index2(k)
  }

  /** The probe of attempt k's midpoint. */
  function Measure(q: EdgeQuery, k: nat): MeasuredMidPoint
    requires InRange(q, k)
  {
    MidPointIsCloseToEdge(q.img, FindMidPoint(q.points1[Index1(k)], q.points2[Index2(k)]), q.maxDistance, q.highPassLimit)
  }

  /** Attempt k reads two existing points and finds no edge. */
  predicate Misses(q: EdgeQuery, k: nat) {
    InRange(q, k) && !Measure(q, k).hitEdge
  }

  /** Every attempt from `lo` up to, not including, `hi` misses. */
  predicate MissesBetween(q: EdgeQuery, lo: nat, hi: int) {
    forall j: nat :: lo <= j < hi ==> Misses(q, j)
  }

  /** The trace entry of attempt k. */
  function Entry(q: EdgeQuery, k: nat, bestMatch: bool): EdgePoints
    requires InRange(q, k)
  {
    EdgePoints(q.points1[Index1(k)], q.points2[Index2(k)], bestMatch, Measure(q, k))
  }

  /** The trace entries of the missed attempts `lo` .. `hi` - 1, in order. */
  function MissEntries(q: EdgeQuery, lo: nat, hi: int): (r: seq<EdgePoints>)
    requires MissesBetween(q, lo, hi)
    ensures |r| == Max(hi - lo, 0)
    decreases hi - lo
  {
    if lo >= hi then []
    else
      assert Misses(q, lo);
      [Entry(q, lo, false)] + MissEntries(q, lo + 1, hi)
  }

  /** Entry i of the run of misses from `lo` is the rejected entry of attempt lo + i. */
  lemma {:induction false} MissEntriesSpec(q: EdgeQuery, lo: nat, hi: int)
    requires MissesBetween(q, lo, hi)
    ensures forall i :: 0 <= i < |MissEntries(q, lo, hi)| ==>
              Misses(q, lo + i) && MissEntries(q, lo, hi)[i] == Entry(q, lo + i, false)
    decreases hi - lo
  {
    if lo < hi {
      MissesBetweenTail(q, lo, hi);
      MissEntriesSpec(q, lo + 1, hi);
      var r, rest := MissEntries(q, lo, hi), MissEntries(q, lo + 1, hi);
      assert r == [Entry(q, lo, false)] + rest;
      forall i | 0 <= i < |r|
        ensures Misses(q, lo + i) && r[i] == Entry(q, lo + i, false)
      {
        if i > 0 {
          assert r[i] == rest[i - 1];
          assert Misses(q, (lo + 1) + (i - 1)) && rest[i - 1] == Entry(q, (lo + 1) + (i - 1), false);
        }
      }
    } else {
      assert |MissEntries(q, lo, hi)| == 0;
    }
  }

  /** The unconditional entry pairing rank 0 of both lists, with an empty probe. */
  function Fallback(q: EdgeQuery): Result<EdgePoints> {
    if |q.points1| == 0 then Failure(UndefinedPoint(0))
    else if |q.points2| == 0 then Failure(UndefinedPoint(0))
    else
      var point1, point2 := q.points1[0], q.points2[0];
      Success(EdgePoints(point1, point2, true, MeasuredMidPoint(FindMidPoint(point1, point2), false, [])))
  }

  /** The final entry of a trace. */
  function Last(trace: seq<EdgePoints>): EdgePoints
    requires |trace| > 0
  {
    trace[|trace| - 1]
  }

  /** Every entry but the last is a rejected attempt, and the last is the accepted one. */
  predicate WellFormedTrace(trace: seq<EdgePoints>) {
    && |trace| > 0
    && trace[|trace| - 1].bestMatch
    && forall j :: 0 <= j < |trace| - 1 ==> !trace[j].bestMatch && !trace[j].measuredMidPoint.hitEdge
  }

  /** The search from attempt k on, giving up after attempt `limit` - 1. */
  function SearchFrom(q: EdgeQuery, limit: int, k: nat): (r: Result<seq<EdgePoints>>)
    ensures r.Success? ==> WellFormedTrace(r.value)
    decreases limit - k
  {
    if k >= limit then
      match Fallback(q)
      case Success(e) => Success([e])
      case Failure(err) => Failure(err)
    else if !InRange(q, k) then
      Failure(UndefinedPoint(MissingIndex(q, k)))
    else if Measure(q, k).hitEdge then
      Success([Entry(q, k, true)])
    else
      match SearchFrom(q, limit, k + 1)
      case Failure(err) => Failure(err)
      case Success(rest) => Success([Entry(q, k, false)] + rest)
  }

  /** Searches one edge: the base index runs from 0 while it is below
      `maxIndex`, so the last base index also reads rank `maxIndex`. */
  function FindPointsCloseToEdge(img: ImageData, points1: seq<Point>, points2: seq<Point>,
                                 maxIndex: int, maxDistance: int, highPassLimit: real): (r: Result<seq<EdgePoints>>)
    ensures r.Success? ==> WellFormedTrace(r.value)
  {
    SearchFrom(EdgeQuery(img, points1, points2, maxDistance, highPassLimit), 4 * maxIndex, 0)
  }

  // ---- The search of one edge, attempt by attempt ----

  /** If every attempt before j reads two existing points and misses, and
      attempt j hits, the edge search returns those misses and then the hit. */
  lemma EdgeSearchStopsAtFirstHit(img: ImageData, points1: seq<Point>, points2: seq<Point>,
                                  maxIndex: int, maxDistance: int, highPassLimit: real, j: nat)
    requires j < 4 * maxIndex
    requires var q := EdgeQuery(img, points1, points2, maxDistance, highPassLimit);
      MissesBetween(q, 0, j) && InRange(q, j) && Measure(q, j).hitEdge
    ensures var q := EdgeQuery(img, points1, points2, maxDistance, highPassLimit);
      FindPointsCloseToEdge(img, points1, points2, maxIndex, maxDistance, highPassLimit)
        == Success(MissEntries(q, 0, j) + [Entry(q, j, true)])
  {
    SearchStopsAtFirstHit(EdgeQuery(img, points1, points2, maxDistance, highPassLimit), 4 * maxIndex, 0, j);
  }

  /** If every attempt before j misses and attempt j reads a rank one of
      the lists does not have, the edge search throws with that rank. */
  lemma EdgeSearchThrowsAtFirstMissingRank(img: ImageData, points1: seq<Point>, points2: seq<Point>,
                                           maxIndex: int, maxDistance: int, highPassLimit: real, j: nat)
    requires j < 4 * maxIndex
    requires var q := EdgeQuery(img, points1, points2, maxDistance, highPassLimit);
      MissesBetween(q, 0, j) && !InRange(q, j)
    ensures var q := EdgeQuery(img, points1, points2, maxDistance, highPassLimit);
      FindPointsCloseToEdge(img, points1, points2, maxIndex, maxDistance, highPassLimit)
        == Failure(UndefinedPoint(MissingIndex(q, j)))
  {
    SearchFailsAtFirstMissingRank(EdgeQuery(img, points1, points2, maxDistance, highPassLimit), 4 * maxIndex, 0, j);
  }

  /** If all 4 * maxIndex attempts miss, the edge search returns them all and
      then the rank-0 fallback, or throws when a list is empty. */
  lemma EdgeSearchFallsBackWhenAllMiss(img: ImageData, points1: seq<Point>, points2: seq<Point>,
                                       maxIndex: int, maxDistance: int, highPassLimit: real)
    requires MissesBetween(EdgeQuery(img, points1, points2, maxDistance, highPassLimit), 0, 4 * maxIndex)
    ensures var q := EdgeQuery(img, points1, points2, maxDistance, highPassLimit);
      FindPointsCloseToEdge(img, points1, points2, maxIndex, maxDistance, highPassLimit) ==
        if |points1| == 0 || |points2| == 0 then Failure(UndefinedPoint(0))
        else Success(MissEntries(q, 0, 4 * maxIndex)
                     + [EdgePoints(points1[0], points2[0], true,
                                   MeasuredMidPoint(FindMidPoint(points1[0], points2[0]), false, []))])
  {
    SearchFallsBackWhenAllMiss(EdgeQuery(img, points1, points2, maxDistance, highPassLimit), 4 * maxIndex, 0);
  }

  // ---- Characterising the search by its first attempt that does not miss ----

  lemma SearchStepHit(q: EdgeQuery, limit: int, k: nat)
    requires k < limit && InRange(q, k) && Measure(q, k).hitEdge
    ensures SearchFrom(q, limit, k) == Success([Entry(q, k, true)])
  {
  }

  lemma SearchStepMiss(q: EdgeQuery, limit: int, k: nat)
    requires k < limit && Misses(q, k)
    ensures SearchFrom(q, limit, k) ==
      match SearchFrom(q, limit, k + 1)
      case Failure(err) => Failure(err)
      case Success(rest) => Success([Entry(q, k, false)] + rest)
  {
  }

  /** A miss in front of a successful rest adds its entry to the front. */
  lemma MissThenSuccess(q: EdgeQuery, limit: int, k: nat, rest: seq<EdgePoints>)
    requires k < limit && Misses(q, k)
    requires SearchFrom(q, limit, k + 1) == Success(rest)
    ensures SearchFrom(q, limit, k) == Success([Entry(q, k, false)] + rest)
  {
    SearchStepMiss(q, limit, k);
  }

  /** A miss in front of a throwing rest throws the same error. */
  lemma MissThenFailure(q: EdgeQuery, limit: int, k: nat, err: SearchError)
    requires k < limit && Misses(q, k)
    requires SearchFrom(q, limit, k + 1) == Failure(err)
    ensures SearchFrom(q, limit, k) == Failure(err)
  {
    SearchStepMiss(q, limit, k);
  }

  lemma SearchStepEnd(q: EdgeQuery, limit: int, k: nat)
    requires k >= limit
    ensures SearchFrom(q, limit, k) ==
      match Fallback(q)
      case Success(e) => Success([e])
      case Failure(err) => Failure(err)
  {
  }

  lemma MissEntriesStep(q: EdgeQuery, k: nat, hi: int)
    requires k < hi && MissesBetween(q, k, hi)
    ensures Misses(q, k)
    ensures MissEntries(q, k, hi) == [Entry(q, k, false)] + MissEntries(q, k + 1, hi)
  {
    assert Misses(q, k);
  }

  /** The search stops at the first hit: its trace is the misses before it
      followed by the hit, marked as the best match. */
  lemma {:induction false} SearchStopsAtFirstHit(q: EdgeQuery, limit: int, k: nat, j: nat)
    requires k <= j < limit
    requires MissesBetween(q, k, j)
    requires InRange(q, j) && Measure(q, j).hitEdge
    ensures SearchFrom(q, limit, k) == Success(MissEntries(q, k, j) + [Entry(q, j, true)])
    decreases j - k
  {
    if k < j {
      MissesBetweenTail(q, k, j);
      var misses, hit := MissEntries(q, k + 1, j), Entry(q, j, true);
      SearchStopsAtFirstHit(q, limit, k + 1, j);
      MissThenSuccess(q, limit, k, misses + [hit]);
      MissEntriesCons(q, k, j, hit);
    } else {
      SearchStepHit(q, limit, j);
      assert MissEntries(q, k, j) == [];
      assert [] + [Entry(q, j, true)] == [Entry(q, j, true)];
    }
  }

  /** Dropping the first attempt of a run of misses leaves a run of misses. */
  lemma MissesBetweenTail(q: EdgeQuery, k: nat, j: int)
    requires k < j && MissesBetween(q, k, j)
    ensures Misses(q, k) && MissesBetween(q, k + 1, j)
  {
    assert Misses(q, k);
  }

  /** The misses from k on, then `last`, are the miss at k followed by the
      misses from k + 1 on, then `last`. */
  lemma MissEntriesCons(q: EdgeQuery, k: nat, j: int, last: EdgePoints)
    requires k < j && MissesBetween(q, k, j)
    ensures Misses(q, k)
    ensures [Entry(q, k, false)] + (MissEntries(q, k + 1, j) + [last]) == MissEntries(q, k, j) + [last]
  {
    MissEntriesStep(q, k, j);
    var e, misses := Entry(q, k, false), MissEntries(q, k + 1, j);
    assert [e] + (misses + [last]) == ([e] + misses) + [last];
  }

  /** The search throws at the first attempt that reads a missing rank. */
  lemma {:induction false} SearchFailsAtFirstMissingRank(q: EdgeQuery, limit: int, k: nat, j: nat)
    requires k <= j < limit
    requires MissesBetween(q, k, j)
    requires !InRange(q, j)
    ensures SearchFrom(q, limit, k) == Failure(UndefinedPoint(MissingIndex(q, j)))
    decreases j - k
  {
    if k < j {
      assert Misses(q, k);
      SearchFailsAtFirstMissingRank(q, limit, k + 1, j);
      MissThenFailure(q, limit, k, UndefinedPoint(MissingIndex(q, j)));
    }
  }

  /** When every attempt misses, the trace is all the misses followed by the
      rank-0 fallback, which throws instead if a list is empty. */
  lemma {:induction false} SearchFallsBackWhenAllMiss(q: EdgeQuery, limit: int, k: nat)
    requires MissesBetween(q, k, limit)
    ensures SearchFrom(q, limit, k) ==
      match Fallback(q)
      case Success(e) => Success(MissEntries(q, k, limit) + [e])
      case Failure(err) => Failure(err)
    decreases limit - k
  {
    if k < limit {
      MissEntriesStep(q, k, limit);
      SearchStepMiss(q, limit, k);
      SearchFallsBackWhenAllMiss(q, limit, k + 1);
      match Fallback(q)
      case Success(f) =>
        var e, misses := Entry(q, k, false), MissEntries(q, k + 1, limit);
        assert [e] + (misses + [f]) == ([e] + misses) + [f];
      case Failure(err) =>
    } else {
      SearchStepEnd(q, limit, k);
      assert MissEntries(q, k, limit) == [];
      match Fallback(q)
      case Success(f) =>
        assert [] + [f] == [f];
      case Failure(err) =>
    }
  }

  /** Below any attempt that does not miss there is a first one that does not. */
  lemma {:induction false} FirstNonMiss(q: EdgeQuery, k: nat, bound: nat) returns (j: nat)
    requires k <= bound && !Misses(q, bound)
    ensures k <= j <= bound && MissesBetween(q, k, j) && !Misses(q, j)
    decreases bound - k
  {
    if !Misses(q, k) {
      j := k;
    } else {
      j := FirstNonMiss(q, k + 1, bound);
    }
  }

  /** The search ends in a hit exactly when some attempt below the limit hits
      and every attempt before it reads two existing points and misses. */
  lemma {:induction false} SearchHitsIff(q: EdgeQuery, limit: int)
    ensures (SearchFrom(q, limit, 0).Success? && Last(SearchFrom(q, limit, 0).value).measuredMidPoint.hitEdge)
            <==> exists j: nat :: j < limit && MissesBetween(q, 0, j) && InRange(q, j) && Measure(q, j).hitEdge
  {
    if j: nat :| j < limit && MissesBetween(q, 0, j) && InRange(q, j) && Measure(q, j).hitEdge {
      SearchStopsAtFirstHit(q, limit, 0, j);
    } else if j: nat :| j < limit && !Misses(q, j) {
      var first := FirstNonMiss(q, 0, j);
      SearchFailsAtFirstMissingRank(q, limit, 0, first);
    } else {
      SearchFallsBackWhenAllMiss(q, limit, 0);
    }
  }

  /** With both lists exactly `maxIndex` long, the fallback is unreachable:
      either some attempt hits, or the search throws on rank `maxIndex`. */
  lemma {:induction false} FullLengthListsNeverFallBack(img: ImageData, points1: seq<Point>, points2: seq<Point>,
                                                        maxIndex: nat, maxDistance: int, highPassLimit: real)
    requires |points1| == maxIndex && |points2| == maxIndex
    ensures var r := FindPointsCloseToEdge(img, points1, points2, maxIndex, maxDistance, highPassLimit);
      && (r.Success? ==> Last(r.value).measuredMidPoint.hitEdge)
      && (r.Failure? ==> r.error == UndefinedPoint(maxIndex))
  {
    var q := EdgeQuery(img, points1, points2, maxDistance, highPassLimit);
    if maxIndex == 0 {
      return;
    }
    var bound: nat := 4 * (maxIndex - 1) + 1;
    assert Index1(bound) == maxIndex;
    var j := FirstNonMiss(q, 0, bound);
    if InRange(q, j) {
      SearchStopsAtFirstHit(q, 4 * maxIndex, 0, j);
    } else {
      assert j == bound;
      SearchFailsAtFirstMissingRank(q, 4 * maxIndex, 0, j);
    }
  }

  // ---- The four edges ----

  datatype Edge = Left | Top | Right | Bottom

  /** The order in which the edges are searched and their traces joined. */
  const EdgeOrder: seq<Edge> := [Left, Top, Right, Bottom]

  /** The two ranked lists an edge pairs up: left joins top-left with
      bottom-left, top joins top-left with top-right, right joins top-right
      with bottom-right, and bottom joins bottom-right with bottom-left. */
  function EdgeLists(points: MaxCornerPoints, edge: Edge): (seq<Point>, seq<Point>) {
    match edge
    case Left => (points.topLeft, points.bottomLeft)
    case Top => (points.topLeft, points.topRight)
    case Right => (points.topRight, points.bottomRight)
    case Bottom => (points.bottomRight, points.bottomLeft)
  }

  /** The search of one edge, over all `length` base indices. */
  function SearchEdge(img: ImageData, points: MaxCornerPoints, edge: Edge, maxDistance: int, highPassLimit: real): Result<seq<EdgePoints>> {
    var lists := EdgeLists(points, edge);
    FindPointsCloseToEdge(img, lists.0, lists.1, points.length, maxDistance, highPassLimit)
  }

  /** Searches the four edges in the order left, top, right, bottom and joins
      their traces. It succeeds when every edge search does; the result is
      then the four traces joined in that order, and its accepted entries
      are the four edges' final entries. The first edge that throws ends the
      whole search with its error. */
  function FindBestCornerPoints(img: ImageData, points: MaxCornerPoints, maxDistance: int, highPassLimit: real): (r: Result<seq<EdgePoints>>)
    ensures r.Success? <==> forall i :: 0 <= i < 4 ==> SearchEdge(img, points, EdgeOrder[i], maxDistance, highPassLimit).Success?
    ensures r.Success? ==> && SearchEdge(img, points, Left, maxDistance, highPassLimit).Success?
                           && SearchEdge(img, points, Top, maxDistance, highPassLimit).Success?
                           && SearchEdge(img, points, Right, maxDistance, highPassLimit).Success?
                           && SearchEdge(img, points, Bottom, maxDistance, highPassLimit).Success?
                           && r.value == SearchEdge(img, points, Left, maxDistance, highPassLimit).value
                                      + SearchEdge(img, points, Top, maxDistance, highPassLimit).value
                                      + SearchEdge(img, points, Right, maxDistance, highPassLimit).value
                                      + SearchEdge(img, points, Bottom, maxDistance, highPassLimit).value
    ensures r.Success? ==> Accepted(r.value) == seq(4, i requires 0 <= i < 4 =>
                              Last(SearchEdge(img, points, EdgeOrder[i], maxDistance, highPassLimit).value))
    ensures r.Failure? ==> exists i :: 0 <= i < 4
                              && SearchEdge(img, points, EdgeOrder[i], maxDistance, highPassLimit) == Failure(r.error)
                              && forall j :: 0 <= j < i ==> SearchEdge(img, points, EdgeOrder[j], maxDistance, highPassLimit).Success?
  {
    assert EdgeOrder == [Left, Top, Right, Bottom];
    var left := SearchEdge(img, points, Left, maxDistance, highPassLimit);
    if left.Failure? then
      assert SearchEdge(img, points, EdgeOrder[0], maxDistance, highPassLimit) == left;
      Failure(left.error)
    else
    var top := SearchEdge(img, points, Top, maxDistance, highPassLimit);
    if top.Failure? then
      assert SearchEdge(img, points, EdgeOrder[1], maxDistance, highPassLimit) == top;
      Failure(top.error)
    else
    var right := SearchEdge(img, points, Right, maxDistance, highPassLimit);
    if right.Failure? then
      assert SearchEdge(img, points, EdgeOrder[2], maxDistance, highPassLimit) == right;
      Failure(right.error)
    else
    var bottom := SearchEdge(img, points, Bottom, maxDistance, highPassLimit);
    if bottom.Failure? then
      assert SearchEdge(img, points, EdgeOrder[3], maxDistance, highPassLimit) == bottom;
      Failure(bottom.error)
    else
    JoinedTracesAccepted(left.value, top.value, right.value, bottom.value);
    Success(left.value + top.value + right.value + bottom.value)
  }

  lemma JoinedTracesAccepted(left: seq<EdgePoints>, top: seq<EdgePoints>, right: seq<EdgePoints>, bottom: seq<EdgePoints>)
    requires WellFormedTrace(left) && WellFormedTrace(top) && WellFormedTrace(right) && WellFormedTrace(bottom)
    ensures Accepted(left + top + right + bottom) == [Last(left), Last(top), Last(right), Last(bottom)]
  {
    AcceptedOfConcat(left, top);
    AcceptedOfConcat(left + top, right);
    AcceptedOfConcat(left + top + right, bottom);
    AcceptedOfTrace(left);
    AcceptedOfTrace(top);
    AcceptedOfTrace(right);
    AcceptedOfTrace(bottom);
  }

  /** The entries of a trace marked as best match, in order. */
  function Accepted(trace: seq<EdgePoints>): seq<EdgePoints> {
    if trace == [] then []
    else (if trace[0].bestMatch then [trace[0]] else []) + Accepted(trace[1..])
  }

  lemma {:induction false} AcceptedOfConcat(s: seq<EdgePoints>, t: seq<EdgePoints>)
    ensures Accepted(s + t) == Accepted(s) + Accepted(t)
    decreases |s|
  {
    if s != [] {
      assert (s + t)[1..] == s[1..] + t;
      AcceptedOfConcat(s[1..], t);
    } else {
      assert s + t == t;
    }
  }

  lemma {:induction false} AcceptedOfTrace(trace: seq<EdgePoints>)
    requires WellFormedTrace(trace)
    ensures Accepted(trace) == [Last(trace)]
    decreases |trace|
  {
    if |trace| > 1 {
      AcceptedOfTrace(trace[1..]);
    } else {
      assert trace[1..] == [];
    }
  }

  /** On lists that all hold `length` points, as ranked lists always do, the
      four-edge search either finds a hit on every edge or throws on rank
      `length`: the rank-0 fallback is never used. */
  lemma {:induction false} BestCornerPointsNeverFallBack(img: ImageData, points: MaxCornerPoints, maxDistance: int, highPassLimit: real)
    requires |points.topLeft| == |points.topRight| == |points.bottomLeft| == |points.bottomRight| == points.length
    ensures var r := FindBestCornerPoints(img, points, maxDistance, highPassLimit);
      && (r.Success? ==> |Accepted(r.value)| == 4
                         && forall i :: 0 <= i < 4 ==> Accepted(r.value)[i].measuredMidPoint.hitEdge)
      && (r.Failure? ==> r.error == UndefinedPoint(points.length))
  {
    var n := points.length;
    FullLengthListsNeverFallBack(img, points.topLeft, points.bottomLeft, n, maxDistance, highPassLimit);
    FullLengthListsNeverFallBack(img, points.topLeft, points.topRight, n, maxDistance, highPassLimit);
    FullLengthListsNeverFallBack(img, points.topRight, points.bottomRight, n, maxDistance, highPassLimit);
    FullLengthListsNeverFallBack(img, points.bottomRight, points.bottomLeft, n, maxDistance, highPassLimit);
  }

  /** Ranking a candidate list and then searching it: a result always carries
      a verified edge on all four sides. */
  lemma {:induction false} RankedSearchNeverFallsBack(img: ImageData, candidates: seq<Point>, maxDistance: int, highPassLimit: real)
    ensures var r := FindBestCornerPoints(img, Ranking.FindMaxCornerPoints(candidates), maxDistance, highPassLimit);
      && (r.Success? ==> forall e :: e in Accepted(r.value) ==> e.measuredMidPoint.hitEdge)
      && (r.Failure? ==> r.error == UndefinedPoint(|candidates|))
  {
    BestCornerPointsNeverFallBack(img, Ranking.FindMaxCornerPoints(candidates), maxDistance, highPassLimit);
  }

  // ---- The search with the base index kept inside the lists ----

  /** Searches one edge with the base index running only while it is below
      `maxIndex` - 1, so that rank `p + 1` exists in lists of `maxIndex`
      points and the rank-0 fallback can be reached. */
  function FindPointsCloseToEdgeWithinRanks(img: ImageData, points1: seq<Point>, points2: seq<Point>,
                                            maxIndex: int, maxDistance: int, highPassLimit: real): (r: Result<seq<EdgePoints>>)
    ensures r.Success? ==> WellFormedTrace(r.value)
    ensures 0 < |points1| && 0 < |points2| && maxIndex <= |points1| && maxIndex <= |points2| ==> r.Success?
  {
    var q := EdgeQuery(img, points1, points2, maxDistance, highPassLimit);
    WithinRanksNeverThrows(q, maxIndex);
    SearchFrom(q, 4 * (maxIndex - 1), 0)
  }

  lemma {:induction false} WithinRanksNeverThrows(q: EdgeQuery, maxIndex: int)
    ensures 0 < |q.points1| && 0 < |q.points2| && maxIndex <= |q.points1| && maxIndex <= |q.points2|
            ==> SearchFrom(q, 4 * (maxIndex - 1), 0).Success?
  {
    if !(0 < |q.points1| && 0 < |q.points2| && maxIndex <= |q.points1| && maxIndex <= |q.points2|) {
      return;
    }
    var limit := 4 * (maxIndex - 1);
    assert forall j: nat :: j < limit ==> InRange(q, j) by {
      forall j: nat | j < limit
        ensures InRange(q, j)
      {
        assert j / 4 <= maxIndex - 2;
      }
    }
    if j: nat :| j < limit && !Misses(q, j) {
      var first := FirstNonMiss(q, 0, j);
      SearchStopsAtFirstHit(q, limit, 0, first);
    } else {
      SearchFallsBackWhenAllMiss(q, limit, 0);
    }
  }

  /** The four-edge search over the corrected per-edge search. */
  function FindBestCornerPointsWithinRanks(img: ImageData, points: MaxCornerPoints, maxDistance: int, highPassLimit: real): (r: Result<seq<EdgePoints>>)
    ensures r.Success? ==> |Accepted(r.value)| == 4
    ensures |points.topLeft| == |points.topRight| == |points.bottomLeft| == |points.bottomRight| == points.length > 0
            ==> r.Success?
  {
    var left :- FindPointsCloseToEdgeWithinRanks(img, points.topLeft, points.bottomLeft, points.length, maxDistance, highPassLimit);
    var top :- FindPointsCloseToEdgeWithinRanks(img, points.topLeft, points.topRight, points.length, maxDistance, highPassLimit);
    var right :- FindPointsCloseToEdgeWithinRanks(img, points.topRight, points.bottomRight, points.length, maxDistance, highPassLimit);
    var bottom :- FindPointsCloseToEdgeWithinRanks(img, points.bottomRight, points.bottomLeft, points.length, maxDistance, highPassLimit);
    JoinedTracesAccepted(left, top, right, bottom);
    Success(left + top + right + bottom)
  }

  /** One candidate, a buffer with no bytes, one rank: the search as written
      finds no edge at attempt 0 and then throws reading rank 1. */
  lemma SingleCandidateThrows()
    ensures FindPointsCloseToEdge(ImageData([], 0, 0), [Point(0, 0)], [Point(0, 0)], 1, 4, 90.0)
            == Failure(UndefinedPoint(1))
  {
    var q := EdgeQuery(ImageData([], 0, 0), [Point(0, 0)], [Point(0, 0)], 4, 90.0);
    assert InRange(q, 0);
    EmptyBufferNeverHits(q.img, FindMidPoint(Point(0, 0), Point(0, 0)), 4, 90.0);
    assert Misses(q, 0);
    assert MissesBetween(q, 0, 1);
    assert !InRange(q, 1);
    SearchFailsAtFirstMissingRank(q, 4, 0, 1);
  }

  /** The same input under the corrected search returns the rank-0 fallback. */
  lemma SingleCandidateFallsBackWithinRanks()
    ensures FindPointsCloseToEdgeWithinRanks(ImageData([], 0, 0), [Point(0, 0)], [Point(0, 0)], 1, 4, 90.0)
            == Success([EdgePoints(Point(0, 0), Point(0, 0), true, MeasuredMidPoint(Point(0, 0), false, []))])
  {
    var q := EdgeQuery(ImageData([], 0, 0), [Point(0, 0)], [Point(0, 0)], 4, 90.0);
    assert FindMidPoint(Point(0, 0), Point(0, 0)) == Point(0, 0);
    SearchStepEnd(q, 0, 0);
  }
}
