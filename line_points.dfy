/** The line-endpoint search of the throat-erosion routine: for every pair of
    hull vertices whose offset vertices overlap each other, find the hull edges
    just outside the run of overlapped offset vertices, scanning cyclically
    forwards and backwards through the row of the overlap matrix. */
module LinePoints {
  import opened Matrices

  datatype Option<T> = None | Some(value: T)

  /** Two hull indices. */
  type IndexPair = (int, int)

  /** The two indices in ascending order (Python's list.sort on a pair). */
  function SortPair(a: int, b: int): (p: IndexPair)
    ensures p.0 <= p.1
    ensures (p.0 == a && p.1 == b) || (p.0 == b && p.1 == a)
  {
    if a <= b then (a, b) else (b, a)
  }

  /** The hull edges either side of a run of overlapped offset vertices. */
  datatype LineEnds = LineEnds(forward: IndexPair, backward: IndexPair)

  /** `p` is an edge of a closed hull of `dim` vertices: its two ends are
      consecutive indices, or the last and the first. */
  predicate IsHullEdge(p: IndexPair, dim: nat)
  {
    0 <= p.0 <= p.1 < dim && (p.1 == p.0 + 1 || (p.0 == 0 && p.1 == dim - 1))
  }

  /** Index x taken cyclically into [0, dim), for the range the scans produce
      (one lap either side); WrapIsMod shows it is Python's x % dim there. */
  function Wrap(x: int, dim: nat): (w: nat)
    requires dim >= 1 && 0 <= x + dim && x < 2 * dim
    ensures w < dim
  {
    if x < 0 then x + dim else if x >= dim then x - dim else x
  }

  /** Column j of `row` rolled back by t places (numpy's roll(row, -t)[j]). */
  function Ahead(row: seq<int>, j: nat, t: nat): int
    requires j < |row| && t <= |row|
  {
    row[Wrap(j + t, |row|)]
  }

  /** Column j of `row` rolled on by t places (numpy's roll(row, t)[j]). */
  function Behind(row: seq<int>, j: nat, t: nat): int
    requires j < |row| && t <= |row|
  {
    row[Wrap(j - t, |row|)]
  }

  /** Scanning `row` forwards cyclically from column j, the first step k >= from
      at which column (j + k) mod |row| is 0; |row| when there is none. */
  function ForwardStop(row: seq<int>, j: nat, from: nat): (k: nat)
    requires j < |row| && 1 <= from <= |row|
    ensures from <= k <= |row|
    ensures forall t :: from <= t < k ==> Ahead(row, j, t) != 0
    ensures k < |row| ==> Ahead(row, j, k) == 0
    decreases |row| - from
  {
    if from < |row| && Ahead(row, j, from) != 0 then ForwardStop(row, j, from + 1) else from
  }

  /** Scanning `row` backwards cyclically from column j, the first step k >= from
      at which column (j - k) mod |row| is 0; |row| when there is none. */
  function BackwardStop(row: seq<int>, j: nat, from: nat): (k: nat)
    requires j < |row| && 1 <= from <= |row|
    ensures from <= k <= |row|
    ensures forall t :: from <= t < k ==> Behind(row, j, t) != 0
    ensures k < |row| ==> Behind(row, j, k) == 0
    decreases |row| - from
  {
    if from < |row| && Behind(row, j, from) != 0 then BackwardStop(row, j, from + 1) else from
  }

  /** The edge from the first unoverlapped index after j back to the index before it. */
  function ForwardLine(row: seq<int>, j: nat): IndexPair
    requires j < |row|
  {
    var k := ForwardStop(row, j, 1);
    SortPair(Wrap(j + k, |row|), Wrap(j + k - 1, |row|))
  }

  /** The edge from the first unoverlapped index before j forward to the index after it. */
  function BackwardLine(row: seq<int>, j: nat): IndexPair
    requires j < |row|
  {
    var k := BackwardStop(row, j, 1);
    SortPair(Wrap(j - k, |row|), Wrap(j - k + 1, |row|))
  }

  /** What the search records for hull vertex i and offset vertex j. */
  function Cell(a: Matrix, i: nat, j: nat): Option<LineEnds>
    requires IsSquare(a) && i < |a| && j < |a|
  {
    if a[i][j] == 1 && a[j][i] == 1 then Some(LineEnds(ForwardLine(a[i], j), BackwardLine(a[i], j)))
    else None
  }

  /** The whole table the search builds. */
  function LinePointsOf(a: Matrix): (lp: seq<seq<Option<LineEnds>>>)
    requires IsSquare(a)
    ensures |lp| == |a| && forall i :: 0 <= i < |a| ==> |lp[i]| == |a|
  {
    seq(|a|, i requires 0 <= i < |a| => seq(|a|, j requires 0 <= j < |a| => Cell(a, i, j)))
  }

  /** Wrap agrees with Python's (and Dafny's) remainder on the range it accepts. */
  lemma WrapIsMod(x: int, dim: nat)
    requires dim >= 1 && 0 <= x + dim && x < 2 * dim
    ensures Wrap(x, dim) == x % dim
  {
    if x < 0 {
      ModUnique(x, dim, -1, x + dim);
    } else if x >= dim {
      ModUnique(x, dim, 1, x - dim);
    } else {
      ModUnique(x, dim, 0, x);
    }
  }

  /** Cyclically consecutive indices x - 1 and x form a hull edge, in either order. */
  lemma WrapNeighbours(x: int, dim: nat)
    requires dim >= 1 && 0 < x + dim && x < 2 * dim
    ensures IsHullEdge(SortPair(Wrap(x - 1, dim), Wrap(x, dim)), dim)
    ensures IsHullEdge(SortPair(Wrap(x, dim), Wrap(x - 1, dim)), dim)
  {
  }

  /** The remainder is determined by any decomposition x == q * dim + r with 0 <= r < dim. */
  lemma ModUnique(x: int, dim: nat, q: int, r: int)
    requires dim >= 1 && 0 <= r < dim && x == q * dim + r
    ensures x % dim == r
  {
    var q', r' := x / dim, x % dim;
    assert q' * dim + r' == q * dim + r;
    if q' > q {
      assert (q' - q) * dim == q' * dim - q * dim;
      MulAtLeast(q' - q, dim);
    } else if q' < q {
      assert (q - q') * dim == q * dim - q' * dim;
      MulAtLeast(q - q', dim);
    }
  }

  lemma MulAtLeast(a: int, b: nat)
    requires a >= 1
    ensures a * b >= b
  {
    var c := a - 1;
    assert a * b == c * b + b;
  }

  /** A cell is filled exactly for mutually overlapping pairs, and then holds two
      hull edges. */
  lemma {:induction false} LinePointsAreHullEdges(a: Matrix, i: nat, j: nat)
    requires IsSquare(a) && i < |a| && j < |a|
    ensures LinePointsOf(a)[i][j].Some? <==> a[i][j] == 1 && a[j][i] == 1
    ensures LinePointsOf(a)[i][j].Some? ==>
              IsHullEdge(LinePointsOf(a)[i][j].value.forward, |a|) &&
              IsHullEdge(LinePointsOf(a)[i][j].value.backward, |a|)
  {
    assert LinePointsOf(a)[i][j] == Cell(a, i, j);
    var k := ForwardStop(a[i], j, 1);
    WrapNeighbours(j + k, |a|);
    var k' := BackwardStop(a[i], j, 1);
    WrapNeighbours(j - k' + 1, |a|);
  }

  /** On a 0/1 matrix the scans of row i from column j pass over overlapped
      offset vertices (1s) only and stop at the first unoverlapped one (a 0),
      or after the whole row. */
  lemma ScansStopAtFirstZero(a: Matrix, i: nat, j: nat)
    requires IsSquare(a) && IsBinary(a) && i < |a| && j < |a|
    ensures forall t :: 1 <= t < ForwardStop(a[i], j, 1) ==> Ahead(a[i], j, t) == 1
    ensures ForwardStop(a[i], j, 1) < |a| ==> Ahead(a[i], j, ForwardStop(a[i], j, 1)) == 0
    ensures forall t :: 1 <= t < BackwardStop(a[i], j, 1) ==> Behind(a[i], j, t) == 1
    ensures BackwardStop(a[i], j, 1) < |a| ==> Behind(a[i], j, BackwardStop(a[i], j, 1)) == 0
  {
  }

  /** Rolls `row` forwards from column j to the first unoverlapped index. */
  method RollForward(row: seq<int>, j: nat) returns (k: nat)
    requires j < |row|
    ensures k == ForwardStop(row, j, 1)
  {
    var dim := |row|;
    k := 1;
    while k < dim
      invariant 1 <= k <= dim
      invariant ForwardStop(row, j, k) == ForwardStop(row, j, 1)
    {
      if Ahead(row, j, k) == 0 {
        break;
      }
      k := k + 1;
    }
  }

  /** Rolls `row` backwards from column j to the first unoverlapped index. */
  method RollBackward(row: seq<int>, j: nat) returns (k: nat)
    requires j < |row|
    ensures k == BackwardStop(row, j, 1)
  {
    var dim := |row|;
    k := 1;
    while k < dim
      invariant 1 <= k <= dim
      invariant BackwardStop(row, j, k) == BackwardStop(row, j, 1)
    {
      if Behind(row, j, k) == 0 {
        break;
      }
      k := k + 1;
    }
  }

  /** Builds the table with the cyclic forward and backward scans. */
  method LinePoints(a: Matrix) returns (lp: seq<seq<Option<LineEnds>>>)
    requires IsSquare(a)
    ensures lp == LinePointsOf(a)
  {
    var dim := |a|;
    var unset: seq<Option<LineEnds>> := seq(dim, _ => None);
    lp := seq(dim, _ => unset);
    for i := 0 to dim
      invariant |lp| == dim
      invariant forall x :: 0 <= x < i ==> lp[x] == LinePointsOf(a)[x]
    {
      var row := unset;
      for j := 0 to dim
        invariant |row| == dim
        invariant forall y :: 0 <= y < j ==> row[y] == Cell(a, i, y)
        invariant forall y :: j <= y < dim ==> row[y] == None
      {
        if a[i][j] == 1 && a[j][i] == 1 {
          var k := RollForward(a[i], j);
          var forwardLine := SortPair(Wrap(j + k, dim), Wrap(j + k - 1, dim));
          k := RollBackward(a[i], j);
          var backwardLine := SortPair(Wrap(j - k, dim), Wrap(j - k + 1, dim));
          row := row[j := Some(LineEnds(forwardLine, backwardLine))];
        }
      }
      assert row == LinePointsOf(a)[i];
      lp := lp[i := row];
    }
  }
}
