/** Ranking the candidate points for each of the four document corners
    (findMaxCornerPoints). Each role sorts a full copy of the candidates by its
    own score; nothing is dropped, and the order of equal-score candidates is
    left open, as the comparator does not order them consistently. */
module Ranking {
  import opened Model

  datatype Role = TopLeft | TopRight | BottomLeft | BottomRight

  /** The score a role ranks by: x + y for top-left and bottom-right,
      x - y for top-right and bottom-left. */
  function Score(role: Role, p: Point): int {
    match role
    case TopLeft => p.x + p.y
    case BottomRight => p.x + p.y
    case TopRight => p.x - p.y
    case BottomLeft => p.x - p.y
  }

  /** Top-left and bottom-left want the smallest score first; the other two
      roles want the largest first. */
  predicate Ascending(role: Role) {
    role == TopLeft || role == BottomLeft
  }

  /** The role's score turned so that the best candidate has the smallest key. */
  function Key(role: Role, p: Point): int {
    if Ascending(role) then Score(role, p) else -Score(role, p)
  }

  /** `a` may stand before `b` in the role's ranking. */
  predicate Precedes(role: Role, a: Point, b: Point) {
    Key(role, a) <= Key(role, b)
  }

  predicate SortedFor(role: Role, s: seq<Point>) {
    forall i, j :: 0 <= i < j < |s| ==> Precedes(role, s[i], s[j])
  }

  /** `ranked` is the candidate list reordered for the role: the same points
      with the same multiplicities, best first. */
  predicate IsRanking(role: Role, points: seq<Point>, ranked: seq<Point>) {
    multiset(ranked) == multiset(points) && SortedFor(role, ranked)
  }

  /** All four lists of `m` rank `points`, and `length` is the candidate count. */
  predicate RanksAll(points: seq<Point>, m: MaxCornerPoints) {
    && m.length == |points|
    && IsRanking(TopLeft, points, m.topLeft)
    && IsRanking(TopRight, points, m.topRight)
    && IsRanking(BottomLeft, points, m.bottomLeft)
    && IsRanking(BottomRight, points, m.bottomRight)
  }

  /** Inserts `p` into a ranked list, before the first entry it may precede. */
  function Insert(role: Role, p: Point, s: seq<Point>): (r: seq<Point>)
    requires SortedFor(role, s)
    ensures multiset(r) == multiset(s) + multiset{p}
    ensures SortedFor(role, r)
    decreases |s|
  {
    if s == [] then [p]
    else if Precedes(role, p, s[0]) then
      assert forall j :: 0 < j < |s| ==> Precedes(role, s[0], s[j]);
      [p] + s
    else
      var t := Insert(role, p, s[1..]);
      assert s == [s[0]] + s[1..];
      HeadPrecedesInsertion(role, p, s, t);
      [s[0]] + t
  }

  lemma HeadPrecedesInsertion(role: Role, p: Point, s: seq<Point>, t: seq<Point>)
    requires SortedFor(role, s) && |s| > 0
    requires !Precedes(role, p, s[0])
    requires multiset(t) == multiset(s[1..]) + multiset{p}
    ensures forall j :: 0 <= j < |t| ==> Precedes(role, s[0], t[j])
  {
    forall j | 0 <= j < |t|
      ensures Precedes(role, s[0], t[j])
    {
      assert t[j] in multiset(t);
      if t[j] != p {
        assert t[j] in multiset(s[1..]);
        var k :| 0 <= k < |s[1..]| && s[1..][k] == t[j];
        assert s[k + 1] == t[j];
      }
    }
  }

  /** Sorts a copy of `s` for the role. */
  function SortForRole(role: Role, s: seq<Point>): (r: seq<Point>)
    ensures IsRanking(role, s, r)
    decreases |s|
  {
    if s == [] then []
    else
      assert s == [s[0]] + s[1..];
      Insert(role, s[0], SortForRole(role, s[1..]))
  }

  /** Copies the candidate list four times and sorts each copy for its role. */
  function FindMaxCornerPoints(points: seq<Point>): (r: MaxCornerPoints)
    ensures RanksAll(points, r)
    ensures |r.topLeft| == |r.topRight| == |r.bottomLeft| == |r.bottomRight| == r.length
  {
    var r := MaxCornerPoints(
      SortForRole(TopLeft, points),
      SortForRole(TopRight, points),
      SortForRole(BottomLeft, points),
      SortForRole(BottomRight, points),
      |points|);
    assert |multiset(r.topLeft)| == |multiset(points)|;
    assert |multiset(r.topRight)| == |multiset(points)|;
    assert |multiset(r.bottomLeft)| == |multiset(points)|;
    assert |multiset(r.bottomRight)| == |multiset(points)|;
    r
  }

  /** The first entry of a ranking is a candidate that may precede every candidate. */
  lemma {:induction false} RankingHeadIsExtremal(role: Role, points: seq<Point>, ranked: seq<Point>, q: Point)
    requires IsRanking(role, points, ranked)
    requires q in points
    ensures |ranked| > 0 && ranked[0] in points
    ensures Precedes(role, ranked[0], q)
  {
    assert q in multiset(points);
    var k :| 0 <= k < |ranked| && ranked[k] == q;
    assert ranked[0] in multiset(ranked);
    if k > 0 {
      assert Precedes(role, ranked[0], ranked[k]);
    }
  }

  /** Element 0 of each list is extremal for its role: least x+y for top-left,
      greatest x-y for top-right, least x-y for bottom-left, greatest x+y for
      bottom-right. */
  lemma {:induction false} CornerHeadsAreExtremal(points: seq<Point>, q: Point)
    requires q in points
    ensures var m := FindMaxCornerPoints(points);
      && |m.topLeft| > 0 && |m.topRight| > 0 && |m.bottomLeft| > 0 && |m.bottomRight| > 0
      && m.topLeft[0].x + m.topLeft[0].y <= q.x + q.y
      && m.topRight[0].x - m.topRight[0].y >= q.x - q.y
      && m.bottomLeft[0].x - m.bottomLeft[0].y <= q.x - q.y
      && m.bottomRight[0].x + m.bottomRight[0].y >= q.x + q.y
  {
    var m := FindMaxCornerPoints(points);
    RankingHeadIsExtremal(TopLeft, points, m.topLeft, q);
    RankingHeadIsExtremal(TopRight, points, m.topRight, q);
    RankingHeadIsExtremal(BottomLeft, points, m.bottomLeft, q);
    RankingHeadIsExtremal(BottomRight, points, m.bottomRight, q);
  }

  function Keys(role: Role, s: seq<Point>): seq<int> {
    seq(|s|, i requires 0 <= i < |s| => Key(role, s[i]))
  }

  lemma {:induction false} KeysPreserveMultiset(role: Role, a: seq<Point>, b: seq<Point>)
    requires multiset(a) == multiset(b)
    ensures multiset(Keys(role, a)) == multiset(Keys(role, b))
    decreases |a|
  {
    if a == [] {
      assert |b| == |multiset(b)| == 0;
    } else {
      var x := a[0];
      assert x in multiset(b);
      var j :| 0 <= j < |b| && b[j] == x;
      var u, v := b[..j], b[j + 1..];
      assert b == u + [x] + v;
      assert a == [x] + a[1..];
      assert multiset(a[1..]) == multiset(u + v) by {
        assert multiset(b) == multiset(u) + multiset{x} + multiset(v);
        assert multiset(a) == multiset{x} + multiset(a[1..]);
        assert multiset(a[1..]) == multiset(a) - multiset{x};
        assert multiset(u + v) == multiset(u) + multiset(v);
        assert multiset(u + v) == multiset(b) - multiset{x};
      }
      KeysPreserveMultiset(role, a[1..], u + v);
      KeysOfConcat(role, u, [x]);
      KeysOfConcat(role, u + [x], v);
      KeysOfConcat(role, u, v);
      KeysOfConcat(role, [x], a[1..]);
    }
  }

  lemma KeysOfConcat(role: Role, s: seq<Point>, t: seq<Point>)
    ensures Keys(role, s + t) == Keys(role, s) + Keys(role, t)
  {
  }

  predicate NonDecreasing(s: seq<int>) {
    forall i, j :: 0 <= i < j < |s| ==> s[i] <= s[j]
  }

  /** Two non-decreasing integer sequences with the same elements are equal. */
  lemma {:induction false} SortedIntsUnique(a: seq<int>, b: seq<int>)
    requires NonDecreasing(a) && NonDecreasing(b)
    requires multiset(a) == multiset(b)
    ensures a == b
    decreases |a|
  {
    assert |a| == |multiset(a)| == |multiset(b)| == |b|;
    if a != [] {
      assert a[0] in multiset(b);
      assert b[0] in multiset(a);
      assert a[0] == b[0];
      assert a == [a[0]] + a[1..];
      assert b == [b[0]] + b[1..];
      assert multiset(a) == multiset{a[0]} + multiset(a[1..]);
      assert multiset(b) == multiset{b[0]} + multiset(b[1..]);
      assert multiset(a[1..]) == multiset(a) - multiset{a[0]};
      assert multiset(b[1..]) == multiset(b) - multiset{b[0]};
      SortedIntsUnique(a[1..], b[1..]);
    }
  }

  /** Same length and the same score at every rank. */
  predicate SameScores(role: Role, a: seq<Point>, b: seq<Point>) {
    |a| == |b| && forall i :: 0 <= i < |a| ==> Score(role, a[i]) == Score(role, b[i])
  }

  /** Two rankings of the same candidates for the same role differ at most in
      the order of equal-score candidates: they have the same length and the
      same score at every rank. */
  lemma {:induction false} RankingsAgreeOnScores(role: Role, points: seq<Point>, a: seq<Point>, b: seq<Point>)
    requires IsRanking(role, points, a) && IsRanking(role, points, b)
    ensures SameScores(role, a, b)
  {
    KeysPreserveMultiset(role, a, b);
    assert NonDecreasing(Keys(role, a));
    assert NonDecreasing(Keys(role, b));
    SortedIntsUnique(Keys(role, a), Keys(role, b));
    assert |a| == |Keys(role, a)| == |Keys(role, b)| == |b|;
    forall i | 0 <= i < |a|
      ensures Score(role, a[i]) == Score(role, b[i])
    {
      assert Keys(role, a)[i] == Keys(role, b)[i];
    }
  }
}
