/** Points in the plane of a throat facet, with exact real coordinates
    standing in for the floating-point coordinates of the source. */
module Points {

  type Point = (real, real)

  datatype Axis = X | Y

  function Coord(p: Point, axis: Axis): real
  {
    match axis
    case X => p.0
    case Y => p.1
  }

  /** Square of the Euclidean distance between two points. */
  function Dist2(p: Point, q: Point): (r: real)
    ensures r >= 0.0
  {
    var dx := p.0 - q.0;
    var dy := p.1 - q.1;
    SquareNonNegative(dx);
    SquareNonNegative(dy);
    dx * dx + dy * dy
  }

  lemma SquareNonNegative(x: real)
    ensures x * x >= 0.0
  {
    if x < 0.0 {
      assert x * x == (-x) * (-x);
    }
  }

  /** A point is at distance zero from itself. */
  lemma Dist2Self(p: Point)
    ensures Dist2(p, p) == 0.0
  {
    assert p.0 - p.0 == 0.0 && p.1 - p.1 == 0.0;
  }

  /** The squared distance does not depend on the order of the points. */
  lemma Dist2Symmetric(p: Point, q: Point)
    ensures Dist2(p, q) == Dist2(q, p)
  {
    assert (p.0 - q.0) * (p.0 - q.0) == (q.0 - p.0) * (q.0 - p.0);
    assert (p.1 - q.1) * (p.1 - q.1) == (q.1 - p.1) * (q.1 - p.1);
  }

  /** Largest coordinate along `axis` (numpy's max over a column). */
  function MaxCoord(ps: seq<Point>, axis: Axis): real
    requires |ps| > 0
  {
    if |ps| == 1 then Coord(ps[0], axis)
    else
      var rest := MaxCoord(ps[1..], axis);
      if Coord(ps[0], axis) > rest then Coord(ps[0], axis) else rest
  }

  /** Smallest coordinate along `axis` (numpy's min over a column). */
  function MinCoord(ps: seq<Point>, axis: Axis): real
    requires |ps| > 0
  {
    if |ps| == 1 then Coord(ps[0], axis)
    else
      var rest := MinCoord(ps[1..], axis);
      if Coord(ps[0], axis) < rest then Coord(ps[0], axis) else rest
  }

  /** MaxCoord is an upper bound attained by some point. */
  lemma {:induction false} MaxCoordIsLargest(ps: seq<Point>, axis: Axis)
    requires |ps| > 0
    ensures forall i :: 0 <= i < |ps| ==> Coord(ps[i], axis) <= MaxCoord(ps, axis)
    ensures exists i :: 0 <= i < |ps| && Coord(ps[i], axis) == MaxCoord(ps, axis)
  {
    if |ps| > 1 {
      MaxCoordIsLargest(ps[1..], axis);
      assert forall i :: 1 <= i < |ps| ==> ps[i] == ps[1..][i - 1];
      var k :| 0 <= k < |ps[1..]| && Coord(ps[1..][k], axis) == MaxCoord(ps[1..], axis);
      assert ps[k + 1] == ps[1..][k];
      if MaxCoord(ps, axis) != Coord(ps[0], axis) {
        assert Coord(ps[k + 1], axis) == MaxCoord(ps, axis);
      }
    } else {
      assert Coord(ps[0], axis) == MaxCoord(ps, axis);
    }
  }

  /** MinCoord is a lower bound attained by some point. */
  lemma {:induction false} MinCoordIsSmallest(ps: seq<Point>, axis: Axis)
    requires |ps| > 0
    ensures forall i :: 0 <= i < |ps| ==> MinCoord(ps, axis) <= Coord(ps[i], axis)
    ensures exists i :: 0 <= i < |ps| && Coord(ps[i], axis) == MinCoord(ps, axis)
  {
    if |ps| > 1 {
      MinCoordIsSmallest(ps[1..], axis);
      assert forall i :: 1 <= i < |ps| ==> ps[i] == ps[1..][i - 1];
      var k :| 0 <= k < |ps[1..]| && Coord(ps[1..][k], axis) == MinCoord(ps[1..], axis);
      assert ps[k + 1] == ps[1..][k];
      if MinCoord(ps, axis) != Coord(ps[0], axis) {
        assert Coord(ps[k + 1], axis) == MinCoord(ps, axis);
      }
    } else {
      assert Coord(ps[0], axis) == MinCoord(ps, axis);
    }
  }

  /** Extent of the points along `axis` (max minus min of that column). */
  function Span(ps: seq<Point>, axis: Axis): real
    requires |ps| > 0
  {
    MaxCoord(ps, axis) - MinCoord(ps, axis)
  }

  /** The span is non-negative, no two points are further apart along the axis,
      and some two points are exactly that far apart. */
  lemma {:induction false} SpanIsExtent(ps: seq<Point>, axis: Axis)
    requires |ps| > 0
    ensures Span(ps, axis) >= 0.0
    ensures forall i, j :: 0 <= i < |ps| && 0 <= j < |ps| ==> Coord(ps[i], axis) - Coord(ps[j], axis) <= Span(ps, axis)
    ensures exists i, j :: 0 <= i < |ps| && 0 <= j < |ps| && Coord(ps[i], axis) - Coord(ps[j], axis) == Span(ps, axis)
  {
    MaxCoordIsLargest(ps, axis);
    MinCoordIsSmallest(ps, axis);
    var i :| 0 <= i < |ps| && Coord(ps[i], axis) == MaxCoord(ps, axis);
    var j :| 0 <= j < |ps| && Coord(ps[j], axis) == MinCoord(ps, axis);
    assert Coord(ps[i], axis) - Coord(ps[j], axis) == Span(ps, axis);
  }

  /** Twice the signed area of the triangle spanned by the origin, `p` and `q`. */
  function Cross(p: Point, q: Point): real
  {
    p.0 * q.1 - q.0 * p.1
  }

  /** The shoelace term of the edge from vertex i to the next vertex, cyclically. */
  function EdgeTerm(pts: seq<Point>, i: nat): real
    requires i < |pts|
  {
    Cross(pts[i], pts[(i + 1) % |pts|])
  }

  /** Sum of the edge terms of the first n edges. */
  function ShoelaceSum(pts: seq<Point>, n: nat): real
    requires n <= |pts|
  {
    if n == 0 then 0.0 else ShoelaceSum(pts, n - 1) + EdgeTerm(pts, n - 1)
  }

  function Abs(x: real): (r: real)
    ensures r >= 0.0 && (r == x || r == -x)
  {
    if x < 0.0 then -x else x
  }

  /** Area of a polygon given by its vertices in hull order (the shoelace formula). */
  function PolyArea2D(pts: seq<Point>): (area: real)
    ensures area >= 0.0
  {
    0.5 * Abs(ShoelaceSum(pts, |pts|))
  }

  /** A polygon with fewer than three vertices encloses no area. */
  lemma {:induction false} DegeneratePolygonHasNoArea(pts: seq<Point>)
    requires |pts| < 3
    ensures PolyArea2D(pts) == 0.0
  {
    if |pts| == 1 {
      assert ShoelaceSum(pts, 1) == Cross(pts[0], pts[0]);
    } else if |pts| == 2 {
      assert ShoelaceSum(pts, 1) == Cross(pts[0], pts[1]);
      assert ShoelaceSum(pts, 2) == Cross(pts[0], pts[1]) + Cross(pts[1], pts[0]);
    }
  }

  /** The vertex list started one vertex later. */
  function RotateLeft(pts: seq<Point>): (r: seq<Point>)
    requires |pts| > 0
    ensures |r| == |pts|
  {
    pts[1..] + [pts[0]]
  }

  lemma {:induction false} RotatedEdgeTerm(pts: seq<Point>, i: nat)
    requires 2 <= |pts| && i < |pts| - 1
    ensures EdgeTerm(RotateLeft(pts), i) == EdgeTerm(pts, i + 1)
  {
    var n, q := |pts|, RotateLeft(pts);
    ModBelow(i + 1, n);
    if i + 2 < n {
      ModBelow(i + 2, n);
      assert q[i] == pts[i + 1] && q[i + 1] == pts[i + 2];
    } else {
      ModSelf(n);
      assert q[i] == pts[i + 1] && q[i + 1] == pts[0];
    }
  }

  lemma ModBelow(x: nat, n: nat)
    requires x < n
    ensures x % n == x
  {
  }

  lemma ModSelf(n: nat)
    requires n > 0
    ensures n % n == 0
  {
  }

  lemma {:induction false} RotatedPrefixSum(pts: seq<Point>, k: nat)
    requires 2 <= |pts| && k < |pts|
    ensures ShoelaceSum(RotateLeft(pts), k) == ShoelaceSum(pts, k + 1) - EdgeTerm(pts, 0)
  {
    if k > 0 {
      RotatedPrefixSum(pts, k - 1);
      RotatedEdgeTerm(pts, k - 1);
    } else {
      assert ShoelaceSum(pts, 1) == EdgeTerm(pts, 0);
    }
  }

  /** The area does not depend on which hull vertex is listed first. */
  lemma {:induction false} AreaIgnoresStartingVertex(pts: seq<Point>)
    requires |pts| > 0
    ensures PolyArea2D(RotateLeft(pts)) == PolyArea2D(pts)
  {
    var n, q := |pts|, RotateLeft(pts);
    if n == 1 {
      assert q == pts;
    } else {
      RotatedPrefixSum(pts, n - 1);
      ModSelf(n);
      ModBelow(1, n);
      assert q[n - 1] == pts[0] && q[0] == pts[1];
      assert EdgeTerm(q, n - 1) == EdgeTerm(pts, 0);
      assert ShoelaceSum(q, n) == ShoelaceSum(pts, n);
    }
  }
}
