/** Square 0/1 matrices as used by the throat-erosion routine: row i stands for
    hull vertex i, column j for offset vertex j. */
module Matrices {

  /** A dim x dim matrix of integers, as a sequence of rows. */
  type Matrix = seq<seq<int>>

  /** Every row is as long as there are rows. */
  predicate IsSquare(m: Matrix)
  {
    forall i :: 0 <= i < |m| ==> |m[i]| == |m|
  }

  /** Every entry is 0 or 1. */
  predicate IsBinary(m: Matrix)
    requires IsSquare(m)
  {
    forall i, j :: 0 <= i < |m| && 0 <= j < |m| ==> m[i][j] == 0 || m[i][j] == 1
  }

  /** No vertex overlaps itself. */
  predicate ZeroDiagonal(m: Matrix)
    requires IsSquare(m)
  {
    forall i :: 0 <= i < |m| ==> m[i][i] == 0
  }

  predicate IsSymmetric(m: Matrix)
    requires IsSquare(m)
  {
    forall i, j :: 0 <= i < |m| && 0 <= j < |m| ==> m[i][j] == m[j][i]
  }

  /** Every 1 of `small` is also a 1 of `big` (both of the same size). */
  predicate Covers(big: Matrix, small: Matrix)
    requires IsSquare(big) && IsSquare(small) && |big| == |small|
  {
    forall i, j :: 0 <= i < |small| && 0 <= j < |small| && small[i][j] == 1 ==> big[i][j] == 1
  }

  /** The 1s of `t` form a transitive relation on indices. */
  predicate IsTransitive(t: Matrix)
    requires IsSquare(t)
  {
    forall i, j, k :: 0 <= i < |t| && 0 <= j < |t| && 0 <= k < |t| && t[i][j] == 1 && t[j][k] == 1 ==> t[i][k] == 1
  }

  /** The all-zero dim x dim matrix (numpy's zeros). */
  function Zeros(dim: nat): (m: Matrix)
    ensures |m| == dim && IsSquare(m)
    ensures forall i, j :: 0 <= i < dim && 0 <= j < dim ==> m[i][j] == 0
  {
    seq(dim, _ => seq(dim, _ => 0))
  }
}
