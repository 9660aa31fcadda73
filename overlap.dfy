/** The overlap bookkeeping of the throat-erosion routine: which offset
    vertices fall inside another vertex's sweep circle, the pass that joins
    up overlapping regions, and the full-occlusion test. */
module Overlap {
  import opened Matrices
  import opened Points
  import LinePoints

  /** Offset vertex j lies strictly inside the sweep circle of hull vertex i,
      the circle about vertex i through its own offset vertex. */
  predicate Inside(verts: seq<Point>, offset: seq<Point>, i: nat, j: nat)
    requires |offset| == |verts| && i < |verts| && j < |verts|
  {
    Dist2(verts[i], offset[j]) < Dist2(verts[i], offset[i])
  }

  /** The matrix after the first pass: a 1 wherever one of the two vertices has
      the other's offset vertex inside its sweep circle. */
  function FirstPassMatrix(verts: seq<Point>, offset: seq<Point>): (m: Matrix)
    requires |offset| == |verts|
    ensures |m| == |verts| && IsSquare(m)
  {
    seq(|verts|, i requires 0 <= i < |verts| =>
      seq(|verts|, j requires 0 <= j < |verts| =>
        if Inside(verts, offset, i, j) || Inside(verts, offset, j, i) then 1 else 0))
  }

  /** The first pass marks both [i][j] and [j][i], and no vertex is strictly
      inside its own sweep circle. */
  lemma {:induction false} FirstPassShape(verts: seq<Point>, offset: seq<Point>)
    requires |offset| == |verts|
    ensures IsBinary(FirstPassMatrix(verts, offset))
    ensures IsSymmetric(FirstPassMatrix(verts, offset))
    ensures ZeroDiagonal(FirstPassMatrix(verts, offset))
    ensures forall i, j :: 0 <= i < |verts| && 0 <= j < |verts| ==>
              (FirstPassMatrix(verts, offset)[i][j] == 1 <==> Inside(verts, offset, i, j) || Inside(verts, offset, j, i))
  {
  }

  /** Entry [x][y] has been set once the first pass has handled rows 0 .. i-1
      and columns 0 .. j-1 of row i. */
  predicate MarkedSoFar(verts: seq<Point>, offset: seq<Point>, i: nat, j: nat, x: nat, y: nat)
    requires |offset| == |verts| && i <= |verts| && x < |verts| && y < |verts|
  {
    (x < i && Inside(verts, offset, x, y)) || (y < i && Inside(verts, offset, y, x))
    || (x == i && y < j && Inside(verts, offset, x, y))
    || (y == i && x < j && Inside(verts, offset, y, x))
  }

  /** First pass of the overlap test, with the squared sweep radius of each vertex. */
  method FirstPass(verts: seq<Point>, offset: seq<Point>) returns (m: Matrix, sweep2: seq<real>)
    requires |offset| == |verts|
    ensures m == FirstPassMatrix(verts, offset)
    ensures |sweep2| == |verts|
    ensures forall i :: 0 <= i < |verts| ==> sweep2[i] == Dist2(verts[i], offset[i])
  {
    var dim := |verts|;
    m := Zeros(dim);
    sweep2 := [];
    for i := 0 to dim
      invariant |m| == dim && IsSquare(m)
      invariant |sweep2| == i
      invariant forall x :: 0 <= x < i ==> sweep2[x] == Dist2(verts[x], offset[x])
      invariant forall x, y :: 0 <= x < dim && 0 <= y < dim ==>
                  m[x][y] == if MarkedSoFar(verts, offset, i, 0, x, y) then 1 else 0
    {
      sweep2 := sweep2 + [Dist2(verts[i], offset[i])];
      for j := 0 to dim
        invariant |m| == dim && IsSquare(m)
        invariant forall x, y :: 0 <= x < dim && 0 <= y < dim ==>
                    m[x][y] == if MarkedSoFar(verts, offset, i, j, x, y) then 1 else 0
      {
        if Dist2(verts[i], offset[j]) < sweep2[i] {
          m := m[i := m[i][j := 1]];
          m := m[j := m[j][i := 1]];
        }
      }
      assert forall x, y :: 0 <= x < dim && 0 <= y < dim ==>
               MarkedSoFar(verts, offset, i, dim, x, y) == MarkedSoFar(verts, offset, i + 1, 0, x, y);
    }
    assert forall x :: 0 <= x < dim ==> m[x] == FirstPassMatrix(verts, offset)[x];
  }

  /** Marks offset vertex k as overlapping hull vertex i. */
  function Mark(m: Matrix, i: nat, k: nat): (r: Matrix)
    requires IsSquare(m) && i < |m| && k < |m|
    ensures IsSquare(r) && |r| == |m|
  {
    m[i := m[i][k := 1]]
  }

  /** The matrix after the closure pass's k-loop for row i and column j has
      visited columns 0 .. n-1: row j's overlaps, except i itself, are added to row i. */
  function JoinColumns(m: Matrix, i: nat, j: nat, n: nat): (r: Matrix)
    requires IsSquare(m) && i < |m| && j < |m| && n <= |m|
    ensures IsSquare(r) && |r| == |m|
  {
    if n == 0 then m
    else
      var s := JoinColumns(m, i, j, n - 1);
      if s[j][n - 1] == 1 && n - 1 != i then Mark(s, i, n - 1) else s
  }

  /** The matrix after the closure pass's j-loop for row i has visited columns 0 .. n-1. */
  function JoinRow(m: Matrix, i: nat, n: nat): (r: Matrix)
    requires IsSquare(m) && i < |m| && n <= |m|
    ensures IsSquare(r) && |r| == |m|
  {
    if n == 0 then m
    else
      var s := JoinRow(m, i, n - 1);
      if s[i][n - 1] == 1 then JoinColumns(s, i, n - 1, |s|) else s
  }

  /** The matrix after the closure pass has processed rows 0 .. n-1. */
  function JoinRows(m: Matrix, n: nat): (r: Matrix)
    requires IsSquare(m) && n <= |m|
    ensures IsSquare(r) && |r| == |m|
  {
    if n == 0 then m else JoinRow(JoinRows(m, n - 1), n - 1, |m|)
  }

  /** The matrix after the whole closure pass ("join up overlapping regions"). */
  function Closure(m: Matrix): (r: Matrix)
    requires IsSquare(m)
    ensures IsSquare(r) && |r| == |m|
  {
    JoinRows(m, |m|)
  }

  /** The closure pass, updating the matrix entry by entry as the source does. */
  method JoinOverlaps(m0: Matrix) returns (m: Matrix)
    requires IsSquare(m0)
    ensures m == Closure(m0)
  {
    var dim := |m0|;
    m := m0;
    for i := 0 to dim
      invariant m == JoinRows(m0, i)
    {
      ghost var rowStart := m;
      for j := 0 to dim
        invariant m == JoinRow(rowStart, i, j)
      {
        if m[i][j] == 1 {
          ghost var columnStart := m;
          for k := 0 to dim
            invariant m == JoinColumns(columnStart, i, j, k)
          {
            if m[j][k] == 1 && k != i {
              m := m[i := m[i][k := 1]];
            }
          }
        }
      }
    }
  }

  // ---------------------------------------------------------------------------
  // What the closure pass preserves and adds

  /** Facts one mark keeps: ones stay ones, a 0/1 matrix stays 0/1, and the
      diagonal is untouched when i != k. */
  predicate Keeps(m: Matrix, r: Matrix)
    requires IsSquare(m) && IsSquare(r) && |r| == |m|
  {
    Covers(r, m) && (IsBinary(m) ==> IsBinary(r)) &&
    (forall i :: 0 <= i < |m| ==> r[i][i] == m[i][i])
  }

  lemma {:induction false} JoinColumnsKeeps(m: Matrix, i: nat, j: nat, n: nat)
    requires IsSquare(m) && i < |m| && j < |m| && n <= |m|
    ensures Keeps(m, JoinColumns(m, i, j, n))
  {
    if n > 0 {
      JoinColumnsKeeps(m, i, j, n - 1);
    }
  }

  lemma {:induction false} JoinRowKeeps(m: Matrix, i: nat, n: nat)
    requires IsSquare(m) && i < |m| && n <= |m|
    ensures Keeps(m, JoinRow(m, i, n))
  {
    if n > 0 {
      JoinRowKeeps(m, i, n - 1);
      var s := JoinRow(m, i, n - 1);
      JoinColumnsKeeps(s, i, n - 1, |s|);
    }
  }

  lemma {:induction false} JoinRowsKeeps(m: Matrix, n: nat)
    requires IsSquare(m) && n <= |m|
    ensures Keeps(m, JoinRows(m, n))
  {
    if n > 0 {
      JoinRowsKeeps(m, n - 1);
      JoinRowKeeps(JoinRows(m, n - 1), n - 1, |m|);
    }
  }

  /** The closure pass only writes 1s off the diagonal: it clears nothing, keeps
      a 0/1 matrix 0/1 and leaves the diagonal as it was. */
  lemma {:induction false} ClosureKeeps(m: Matrix)
    requires IsSquare(m)
    ensures Covers(Closure(m), m)
    ensures IsBinary(m) ==> IsBinary(Closure(m))
    ensures forall i :: 0 <= i < |m| ==> Closure(m)[i][i] == m[i][i]
    ensures ZeroDiagonal(m) ==> ZeroDiagonal(Closure(m))
  {
    JoinRowsKeeps(m, |m|);
  }

  lemma {:induction false} JoinColumnsWithin(m: Matrix, i: nat, j: nat, n: nat, t: Matrix)
    requires IsSquare(m) && i < |m| && j < |m| && n <= |m|
    requires IsSquare(t) && |t| == |m| && IsTransitive(t) && Covers(t, m)
    requires m[i][j] == 1
    ensures Covers(t, JoinColumns(m, i, j, n))
  {
    if n > 0 {
      JoinColumnsWithin(m, i, j, n - 1, t);
      JoinColumnsKeeps(m, i, j, n - 1);
    }
  }

  lemma {:induction false} JoinRowWithin(m: Matrix, i: nat, n: nat, t: Matrix)
    requires IsSquare(m) && i < |m| && n <= |m|
    requires IsSquare(t) && |t| == |m| && IsTransitive(t) && Covers(t, m)
    ensures Covers(t, JoinRow(m, i, n))
  {
    if n > 0 {
      JoinRowWithin(m, i, n - 1, t);
      var s := JoinRow(m, i, n - 1);
      if s[i][n - 1] == 1 {
        JoinColumnsWithin(s, i, n - 1, |s|, t);
      }
    }
  }

  lemma {:induction false} JoinRowsWithin(m: Matrix, n: nat, t: Matrix)
    requires IsSquare(m) && n <= |m|
    requires IsSquare(t) && |t| == |m| && IsTransitive(t) && Covers(t, m)
    ensures Covers(t, JoinRows(m, n))
  {
    if n > 0 {
      JoinRowsWithin(m, n - 1, t);
      JoinRowWithin(JoinRows(m, n - 1), n - 1, |m|, t);
    }
  }

  /** Everything the closure pass adds is implied by transitivity: the result
      lies within every transitive relation that contains the input, so in
      particular within the input's transitive closure. */
  lemma {:induction false} ClosureWithinTransitive(m: Matrix, t: Matrix)
    requires IsSquare(m) && IsSquare(t) && |t| == |m|
    requires IsTransitive(t) && Covers(t, m)
    ensures Covers(t, Closure(m))
  {
    JoinRowsWithin(m, |m|, t);
  }

  /** The k-loop adds to row i every overlap of row j other than i itself. */
  lemma {:induction false} JoinColumnsAdds(m: Matrix, i: nat, j: nat, n: nat)
    requires IsSquare(m) && i < |m| && j < |m| && n <= |m|
    ensures forall k :: 0 <= k < n && m[j][k] == 1 && k != i ==> JoinColumns(m, i, j, n)[i][k] == 1
  {
    if n > 0 {
      JoinColumnsAdds(m, i, j, n - 1);
      JoinColumnsKeeps(m, i, j, n - 1);
      var s := JoinColumns(m, i, j, n - 1);
      JoinColumnsKeeps(s, i, j, 0);
    }
  }

  /** Processing row i adds every two-step overlap i -> j -> k present when the
      row is reached. */
  lemma {:induction false} JoinRowAdds(m: Matrix, i: nat, n: nat)
    requires IsSquare(m) && i < |m| && n <= |m|
    ensures forall j, k :: 0 <= j < n && 0 <= k < |m| && m[i][j] == 1 && m[j][k] == 1 && k != i ==>
              JoinRow(m, i, n)[i][k] == 1
  {
    if n > 0 {
      JoinRowAdds(m, i, n - 1);
      JoinRowKeeps(m, i, n - 1);
      var s := JoinRow(m, i, n - 1);
      if s[i][n - 1] == 1 {
        JoinColumnsAdds(s, i, n - 1, |s|);
        JoinColumnsKeeps(s, i, n - 1, |s|);
      }
    }
  }

  /** After the closure pass, vertex i overlaps every k (other than itself)
      reachable in two steps i -> j -> k through the input's overlaps. */
  lemma {:induction false} ClosureAddsTwoSteps(m: Matrix, i: nat, j: nat, k: nat)
    requires IsSquare(m) && i < |m| && j < |m| && k < |m|
    requires m[i][j] == 1 && m[j][k] == 1 && k != i
    ensures Closure(m)[i][k] == 1
  {
    var before := JoinRows(m, i);
    JoinRowsKeeps(m, i);
    JoinRowAdds(before, i, |m|);
    var after := JoinRows(m, i + 1);
    assert after == JoinRow(before, i, |m|);
    JoinRowsKeeps(after, 0);
    LaterRowsKeep(m, i + 1, |m|);
  }

  /** Rows processed later never clear an entry. */
  lemma {:induction false} LaterRowsKeep(m: Matrix, a: nat, b: nat)
    requires IsSquare(m) && a <= b <= |m|
    ensures Covers(JoinRows(m, b), JoinRows(m, a))
  {
    if a < b {
      LaterRowsKeep(m, a, b - 1);
      JoinRowKeeps(JoinRows(m, b - 1), b - 1, |m|);
    }
  }

  /** The k-loop in closed form: row i gains row j's 1s among the first n
      columns, except its own column, and no other row changes. */
  lemma {:induction false} JoinColumnsRow(m: Matrix, i: nat, j: nat, n: nat)
    requires IsSquare(m) && i < |m| && j < |m| && n <= |m|
    ensures JoinColumns(m, i, j, n) == m[i := JoinedRow(m, i, j, n)]
  {
    if n > 0 {
      JoinColumnsRow(m, i, j, n - 1);
      var s := JoinColumns(m, i, j, n - 1);
      assert s[j][n - 1] == m[j][n - 1];
      if m[j][n - 1] == 1 && n - 1 != i {
        assert s[i][n - 1 := 1] == JoinedRow(m, i, j, n);
      } else {
        assert s[i] == JoinedRow(m, i, j, n);
      }
    } else {
      assert JoinedRow(m, i, j, 0) == m[i];
    }
  }

  /** Row i after the k-loop has visited columns 0 .. n-1 for row j. */
  function JoinedRow(m: Matrix, i: nat, j: nat, n: nat): (row: seq<int>)
    requires IsSquare(m) && i < |m| && j < |m|
    ensures |row| == |m|
  {
    seq(|m|, k requires 0 <= k < |m| => if k < n && k != i && m[j][k] == 1 then 1 else m[i][k])
  }

  /** One pass does not join everything: on the path 0 - 3 - 1 - 2 (a symmetric
      0/1 matrix with a zero diagonal, as the first pass produces) row 0 is
      processed before row 3 has picked up vertex 2, so the result holds 2 -> 0
      but not 0 -> 2 and is neither symmetric nor transitive. */
  lemma ClosureIsPartial()
    ensures var m := [[0, 0, 0, 1], [0, 0, 1, 1], [0, 1, 0, 0], [1, 1, 0, 0]];
            IsSquare(m) && IsBinary(m) && IsSymmetric(m) && ZeroDiagonal(m) &&
            Closure(m)[0][2] == 0 && Closure(m)[2][0] == 1
  {
    var m := [[0, 0, 0, 1], [0, 0, 1, 1], [0, 1, 0, 0], [1, 1, 0, 0]];
    var r1 := [[0, 1, 0, 1], [0, 0, 1, 1], [0, 1, 0, 0], [1, 1, 0, 0]];
    var r2 := [[0, 1, 0, 1], [1, 0, 1, 1], [0, 1, 0, 0], [1, 1, 0, 0]];
    var r3 := [[0, 1, 0, 1], [1, 0, 1, 1], [1, 1, 0, 0], [1, 1, 0, 0]];
    var r4 := [[0, 1, 0, 1], [1, 0, 1, 1], [1, 1, 0, 1], [1, 1, 0, 0]];
    var r5 := [[0, 1, 0, 1], [1, 0, 1, 1], [1, 1, 0, 1], [1, 1, 1, 0]];
    // The pass row by row, with the row each mark leaves behind.
    // Row 0: j = 3 adds column 1.
    assert m[0][1 := 1] == [0, 1, 0, 1];
    assert JoinColumns(m, 0, 3, 4) == r1;
    assert JoinRow(m, 0, 4) == r1;
    assert JoinRows(m, 1) == r1;
    // Row 1: j = 2 adds nothing, j = 3 adds column 0.
    assert JoinColumns(r1, 1, 2, 4) == r1;
    assert r1[1][0 := 1] == [1, 0, 1, 1];
    assert JoinColumns(r1, 1, 3, 4) == r2;
    assert JoinRow(r1, 1, 4) == r2;
    assert JoinRows(m, 2) == r2;
    // Row 2: j = 1 adds columns 0 and 3, j = 3 adds nothing.
    assert r2[2][0 := 1] == [1, 1, 0, 0];
    assert r3[2][3 := 1] == [1, 1, 0, 1];
    assert JoinColumns(r2, 2, 1, 4) == r4;
    assert r4[2][0 := 1] == [1, 1, 0, 1];
    assert r4[2][1 := 1] == [1, 1, 0, 1];
    assert JoinColumns(r4, 2, 3, 4) == r4;
    assert JoinRow(r2, 2, 4) == r4;
    assert JoinRows(m, 3) == r4;
    // Row 3: j = 1 adds column 2; column 2 of row 0 stays 0.
    assert r4[3][1 := 1] == [1, 1, 0, 0];
    assert JoinColumns(r4, 3, 0, 4) == r4;
    assert r4[3][0 := 1] == [1, 1, 0, 0];
    assert r4[3][2 := 1] == [1, 1, 1, 0];
    assert JoinColumns(r4, 3, 1, 4) == r5;
    assert r5[3][0 := 1] == [1, 1, 1, 0];
    assert r5[3][1 := 1] == [1, 1, 1, 0];
    assert JoinColumns(r5, 3, 2, 4) == r5;
    assert JoinRow(r4, 3, 4) == r5;
    assert JoinRows(m, 4) == r5;
  }

  // ---------------------------------------------------------------------------
  // The whole overlap computation

  /** Overlap matrix, squared sweep radii and line endpoints for one facet. */
  method SetOverlap(verts: seq<Point>, offset: seq<Point>)
    returns (overlap: Matrix, sweep2: seq<real>, linePoints: seq<seq<LinePoints.Option<LinePoints.LineEnds>>>)
    requires |offset| == |verts|
    ensures overlap == Closure(FirstPassMatrix(verts, offset))
    ensures |sweep2| == |verts|
    ensures forall i :: 0 <= i < |verts| ==> sweep2[i] == Dist2(verts[i], offset[i])
    ensures linePoints == LinePoints.LinePointsOf(overlap)
  {
    var first;
    first, sweep2 := FirstPass(verts, offset);
    overlap := JoinOverlaps(first);
    linePoints := LinePoints.LinePoints(overlap);
  }

  /** The overlap matrix is 0/1 with a zero diagonal, records every sweep-circle
      overlap in both directions, and contains every two-step overlap of the
      first pass. */
  lemma {:induction false} OverlapMatrixShape(verts: seq<Point>, offset: seq<Point>)
    requires |offset| == |verts|
    ensures IsBinary(Closure(FirstPassMatrix(verts, offset)))
    ensures ZeroDiagonal(Closure(FirstPassMatrix(verts, offset)))
    ensures forall i, j :: 0 <= i < |verts| && 0 <= j < |verts| && Inside(verts, offset, i, j) ==>
              Closure(FirstPassMatrix(verts, offset))[i][j] == 1 && Closure(FirstPassMatrix(verts, offset))[j][i] == 1
  {
    var m := FirstPassMatrix(verts, offset);
    FirstPassShape(verts, offset);
    ClosureKeeps(m);
  }

  // ---------------------------------------------------------------------------
  // Full occlusion

  /** Every offset vertex (column) is overlapped by at least one vertex (row). */
  predicate EveryColumnOverlapped(a: Matrix)
    requires IsSquare(a)
  {
    forall i :: 0 <= i < |a| ==> ColumnOverlapped(a, i)
  }

  /** Some vertex (row) overlaps offset vertex i (column). */
  predicate ColumnOverlapped(a: Matrix, i: nat)
    requires IsSquare(a) && i < |a|
  {
    exists j :: 0 <= j < |a| && a[j][i] == 1
  }

  /** Number of true entries (Python's sum over a list of booleans). */
  function CountTrue(s: seq<bool>): nat
  {
    if s == [] then 0 else CountTrue(s[..|s| - 1]) + (if s[|s| - 1] then 1 else 0)
  }

  /** The count reaches the length exactly when every entry is true. */
  lemma {:induction false} CountTrueAll(s: seq<bool>)
    ensures CountTrue(s) <= |s|
    ensures CountTrue(s) == |s| <==> forall i :: 0 <= i < |s| ==> s[i]
  {
    if s != [] {
      var init := s[..|s| - 1];
      CountTrueAll(init);
      assert forall i :: 0 <= i < |init| ==> init[i] == s[i];
    }
  }

  /** Whether the throat is fully occluded: every column of the overlap matrix
      holds a 1 (true for the empty matrix). */
  method AllOverlap(a: Matrix) returns (allOverlap: bool)
    requires IsSquare(a)
    ensures allOverlap == EveryColumnOverlapped(a)
  {
    var dim := |a|;
    var overlap := seq(dim, _ => false);
    allOverlap := false;
    for i := 0 to dim
      invariant |overlap| == dim
      invariant forall x :: 0 <= x < i ==> (overlap[x] <==> ColumnOverlapped(a, x))
      invariant forall x :: i <= x < dim ==> !overlap[x]
    {
      for j := 0 to dim
        invariant |overlap| == dim
        invariant forall x :: 0 <= x < i ==> (overlap[x] <==> ColumnOverlapped(a, x))
        invariant overlap[i] <==> exists y :: 0 <= y < j && a[y][i] == 1
        invariant forall x :: i < x < dim ==> !overlap[x]
      {
        if a[j][i] == 1 {
          overlap := overlap[i := true];
        }
      }
    }
    CountTrueAll(overlap);
    if CountTrue(overlap) == dim {
      allOverlap := true;
    }
  }
}
