/**
 * Square integer matrices as sequences of rows, the shape every matrix of the
 * graph generator has, and the small predicates the other modules state
 * their properties with.
 */
module Matrices {

  /** A matrix is a sequence of rows; `m[i][j]` is row `i`, column `j`. */
  type Matrix = seq<seq<int>>

  /** `m` has `n` rows of `n` cells each. */
  predicate IsSquare(m: Matrix, n: nat)
  {
    |m| == n && forall i :: 0 <= i < n ==> |m[i]| == n
  }

  predicate IsSymmetric(m: Matrix)
    requires IsSquare(m, |m|)
  {
    forall i, j :: 0 <= i < |m| && 0 <= j < |m| ==> m[i][j] == m[j][i]
  }

  /** Every cell is 0 or 1. */
  predicate IsBinary(m: Matrix)
    requires IsSquare(m, |m|)
  {
    forall i, j :: 0 <= i < |m| && 0 <= j < |m| ==> m[i][j] == 0 || m[i][j] == 1
  }

  predicate IsNonNegative(m: Matrix)
    requires IsSquare(m, |m|)
  {
    forall i, j :: 0 <= i < |m| && 0 <= j < |m| ==> m[i][j] >= 0
  }

  /** `Math.max` on two integers. */
  function Max(a: int, b: int): (r: int)
    ensures r >= a && r >= b
    ensures r == a || r == b
  {
    if a < b then b else a
  }

  function Min(a: int, b: int): (r: int)
    ensures r <= a && r <= b
    ensures r == a || r == b
  {
    if a < b then a else b
  }
}
