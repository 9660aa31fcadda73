/** Greedy fusing of points that lie within a given distance of each other:
    each point not yet taken seeds a cluster made of itself and every later
    point within the distance, and the cluster is replaced by its average. */
module Fuse {
  import opened Points

  /** Point t lies strictly within the fusing distance of point s, with d2 the
      squared fusing distance. */
  predicate Close(points: seq<Point>, d2: real, s: nat, t: nat)
    requires s < |points| && t < |points|
  {
    Dist2(points[s], points[t]) < d2
  }

  /** Point t has been taken by one of the clusters seeded at indices 0 .. i-1. */
  predicate Covered(points: seq<Point>, d2: real, i: nat, t: nat)
    requires i <= t < |points|
    decreases i, 0
  {
    i > 0 && (Covered(points, d2, i - 1, t) || (IsSeed(points, d2, i - 1) && Close(points, d2, i - 1, t)))
  }

  /** Point t seeds a cluster of its own: no earlier cluster has taken it. */
  predicate IsSeed(points: seq<Point>, d2: real, t: nat)
    requires t < |points|
    decreases t, 1
  {
    !Covered(points, d2, t, t)
  }

  /** Coordinate sums of the cluster seeded at s over the seed and the close
      points among s+1 .. j-1, whether or not an earlier cluster took them. */
  function ClusterSum(points: seq<Point>, d2: real, s: nat, j: nat): Point
    requires s < j <= |points|
    decreases j
  {
    if j == s + 1 then points[s]
    else
      var p := ClusterSum(points, d2, s, j - 1);
      if Close(points, d2, s, j - 1) then (p.0 + points[j - 1].0, p.1 + points[j - 1].1) else p
  }

  /** Number of points summed by ClusterSum. */
  function ClusterSize(points: seq<Point>, d2: real, s: nat, j: nat): (c: nat)
    requires s < j <= |points|
    ensures 1 <= c <= j - s
    decreases j
  {
    if j == s + 1 then 1
    else ClusterSize(points, d2, s, j - 1) + (if Close(points, d2, s, j - 1) then 1 else 0)
  }

  /** The average of the cluster seeded at s. */
  function Centroid(points: seq<Point>, d2: real, s: nat): Point
    requires s < |points|
  {
    var sum := ClusterSum(points, d2, s, |points|);
    var count := ClusterSize(points, d2, s, |points|) as real;
    (sum.0 / count, sum.1 / count)
  }

  /** The averages of the clusters seeded at indices 0 .. i-1, in index order. */
  function FusedUpTo(points: seq<Point>, d2: real, i: nat): seq<Point>
    requires i <= |points|
  {
    if i == 0 then []
    else FusedUpTo(points, d2, i - 1) + (if IsSeed(points, d2, i - 1) then [Centroid(points, d2, i - 1)] else [])
  }

  /** What fusing the points within distance d returns. */
  function Fused(points: seq<Point>, d: real): seq<Point>
  {
    FusedUpTo(points, d * d, |points|)
  }

  /** Fuses points closer than d, marking each point taken as it joins a cluster. */
  method Fuse(points: seq<Point>, d: real) returns (ret: seq<Point>)
    ensures ret == Fused(points, d)
  {
    ret := [];
    var d2 := d * d;
    var n := |points|;
    var taken := new bool[n](_ => false);
    for i := 0 to n
      invariant forall t :: 0 <= t < i ==> taken[t]
      invariant forall t :: i <= t < n ==> (taken[t] <==> Covered(points, d2, i, t))
      invariant ret == FusedUpTo(points, d2, i)
    {
      if !taken[i] {
        var count := 1;
        var x, y := points[i].0, points[i].1;
        taken[i] := true;
        for j := i + 1 to n
          invariant (x, y) == ClusterSum(points, d2, i, j)
          invariant count == ClusterSize(points, d2, i, j)
          invariant forall t :: 0 <= t <= i ==> taken[t]
          invariant forall t :: i < t < n ==>
                      (taken[t] <==> Covered(points, d2, i, t) || (t < j && Close(points, d2, i, t)))
        {
          if Dist2(points[i], points[j]) < d2 {
            x := x + points[j].0;
            y := y + points[j].1;
            count := count + 1;
            taken[j] := true;
          }
        }
        x := x / count as real;
        y := y / count as real;
        ret := ret + [(x, y)];
      }
    }
  }

  // ---------------------------------------------------------------------------
  // What fusing guarantees

  /** A point is taken by the first i clusters exactly when one of the seeds
      among 0 .. i-1 lies close to it. */
  lemma {:induction false} CoveredBySeed(points: seq<Point>, d2: real, i: nat, t: nat)
    requires i <= t < |points|
    ensures Covered(points, d2, i, t) <==> exists s :: 0 <= s < i && IsSeed(points, d2, s) && Close(points, d2, s, t)
  {
    if i > 0 {
      CoveredBySeed(points, d2, i - 1, t);
    }
  }

  /** Every point ends up taken: it seeds a cluster or lies close to an earlier seed. */
  lemma {:induction false} EveryPointTaken(points: seq<Point>, d2: real, t: nat)
    requires t < |points|
    ensures IsSeed(points, d2, t) || exists s :: 0 <= s < t && IsSeed(points, d2, s) && Close(points, d2, s, t)
  {
    CoveredBySeed(points, d2, t, t);
  }

  /** A point close to an earlier seed never seeds a cluster, so no two seeds are close. */
  lemma {:induction false} SeedsApart(points: seq<Point>, d2: real, s: nat, t: nat)
    requires s < t < |points|
    requires IsSeed(points, d2, s) && IsSeed(points, d2, t)
    ensures !Close(points, d2, s, t)
  {
    CoveredBySeed(points, d2, t, t);
  }

  lemma {:induction false} FusedUpToBounds(points: seq<Point>, d2: real, i: nat)
    requires i <= |points|
    ensures |FusedUpTo(points, d2, i)| <= i
    ensures i >= 1 ==> |FusedUpTo(points, d2, i)| >= 1 && FusedUpTo(points, d2, i)[0] == Centroid(points, d2, 0)
  {
    if i > 0 {
      FusedUpToBounds(points, d2, i - 1);
      if i == 1 {
        assert IsSeed(points, d2, 0);
      }
    }
  }

  /** One output per cluster: none for no points, otherwise at least one and
      at most one per point, the first being the cluster seeded by point 0. */
  lemma {:induction false} FusedBounds(points: seq<Point>, d: real)
    ensures points == [] ==> Fused(points, d) == []
    ensures points != [] ==> 1 <= |Fused(points, d)| <= |points|
    ensures points != [] ==> Fused(points, d)[0] == Centroid(points, d * d, 0)
  {
    FusedUpToBounds(points, d * d, |points|);
  }

  /** With squared distance 0 nothing is close, so every cluster is a single point. */
  lemma {:induction false} SingletonClusters(points: seq<Point>, s: nat, j: nat)
    requires s < j <= |points|
    ensures ClusterSum(points, 0.0, s, j) == points[s]
    ensures ClusterSize(points, 0.0, s, j) == 1
    decreases j
  {
    if j > s + 1 {
      SingletonClusters(points, s, j - 1);
    }
  }

  lemma {:induction false} FusedUpToZero(points: seq<Point>, i: nat)
    requires i <= |points|
    ensures FusedUpTo(points, 0.0, i) == points[..i]
  {
    if i > 0 {
      FusedUpToZero(points, i - 1);
      CoveredBySeed(points, 0.0, i - 1, i - 1);
      SingletonClusters(points, i - 1, |points|);
      assert points[..i] == points[..i - 1] + [points[i - 1]];
    }
  }

  /** Fusing with distance 0 returns the points unchanged and in order. */
  lemma {:induction false} FuseWithZeroDistance(points: seq<Point>)
    ensures Fused(points, 0.0) == points
  {
    FusedUpToZero(points, |points|);
    assert points[..|points|] == points;
  }

  // ---------------------------------------------------------------------------
  // Fusing the vertices of a facet

  /** The fusing distance: percentage times the larger of the x-span and the y-span. */
  function FuseTolerance(verts: seq<Point>, percentage: real): real
    requires |verts| > 0
  {
    var xSpan := Span(verts, X);
    var ySpan := Span(verts, Y);
    if xSpan > ySpan then xSpan * percentage else ySpan * percentage
  }

  /** For a non-negative percentage the distance is non-negative and is that
      percentage of the larger span: at least the percentage of each span. */
  lemma FuseToleranceBounds(verts: seq<Point>, percentage: real)
    requires |verts| > 0 && percentage >= 0.0
    ensures FuseTolerance(verts, percentage) >= 0.0
    ensures FuseTolerance(verts, percentage) >= Span(verts, X) * percentage
    ensures FuseTolerance(verts, percentage) >= Span(verts, Y) * percentage
  {
    var xSpan, ySpan := Span(verts, X), Span(verts, Y);
    SpanIsExtent(verts, X);
    SpanIsExtent(verts, Y);
    LargerScaled(xSpan, ySpan, percentage);
  }

  /** Scaling the larger of two non-negative numbers by c >= 0 gives a
      non-negative bound on both scaled numbers. */
  lemma LargerScaled(a: real, b: real, c: real)
    requires a >= 0.0 && b >= 0.0 && c >= 0.0
    ensures (if a > b then a * c else b * c) >= 0.0
    ensures (if a > b then a * c else b * c) >= a * c
    ensures (if a > b then a * c else b * c) >= b * c
  {
    if a > b {
      ScaleMonotone(b, a, c);
    } else {
      ScaleMonotone(a, b, c);
    }
  }

  lemma ScaleMonotone(a: real, b: real, c: real)
    requires 0.0 <= a <= b && c >= 0.0
    ensures 0.0 <= a * c <= b * c
  {
    assert b * c - a * c == (b - a) * c;
  }

  /** Fuses the vertices within the given percentage of their larger span. */
  method FuseVerts(verts: seq<Point>, percentage: real) returns (fused: seq<Point>)
    requires |verts| > 0
    ensures fused == Fused(verts, FuseTolerance(verts, percentage))
  {
    var xSpan := Span(verts, X);
    var ySpan := Span(verts, Y);
    var tolerance;
    if xSpan > ySpan {
      tolerance := xSpan * percentage;
    } else {
      tolerance := ySpan * percentage;
    }
    assert tolerance == FuseTolerance(verts, percentage);
    fused := Fuse(verts, tolerance);
  }

  /** With percentage 0 no vertices are fused. */
  lemma {:induction false} FuseVertsWithZeroPercentage(verts: seq<Point>)
    requires |verts| > 0
    ensures Fused(verts, FuseTolerance(verts, 0.0)) == verts
  {
    assert FuseTolerance(verts, 0.0) == 0.0;
    FuseWithZeroDistance(verts);
  }
}
