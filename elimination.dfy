/**
 * The elimination determinant: triangularise with row additions only,
 * then multiply the diagonal.
 *
 * The functions follow the helper methods of the matrix class one for
 * one (`findUsableRow`, `makeUsable`, `subtractDown`, the outer loop of
 * `makeUpperTriangular`, `fastDeterminant`).  The lemmas show that the
 * triangularisation leaves the determinant unchanged and really yields
 * an upper-triangular matrix, so that the diagonal product equals the
 * cofactor determinant.
 */
module Elimination {
  import opened Grids
  import opened Determinants

  /** Row `i` has an entry in column `c`, and it is nonzero. */
  predicate Usable(A: Grid, i: nat, c: nat)
    requires i < |A|
  {
    c < |A[i]| && A[i][c] != 0.0
  }

  /** The first usable row at or after row `k`, or -1 when there is none. */
  function UsableRowFrom(A: Grid, c: nat, k: nat): (u: int)
    ensures u == -1 || k <= u < |A|
    ensures u == -1 <==> forall i :: k <= i < |A| ==> !Usable(A, i, c)
    ensures u != -1 ==> Usable(A, u, c) && forall i :: k <= i < u ==> !Usable(A, i, c)
    decreases |A| - k
  {
    if k >= |A| then -1
    else if Usable(A, k, c) then k
    else UsableRowFrom(A, c, k + 1)
  }

  /** `findUsableRow(r, c)`: the first row below row `r` with a nonzero entry in column `c`, or -1. */
  function UsableRow(A: Grid, r: nat, c: nat): int {
    UsableRowFrom(A, c, r + 1)
  }

  /** `makeUsable(r, c)`: add the usable row below `r` onto row `r`, if there is one. */
  function MakeUsable(A: Grid, n: nat, r: nat, c: nat): (B: Grid)
    requires IsShape(A, |A|, n)
    ensures IsShape(B, |A|, n)
  {
    var u := UsableRow(A, r, c);
    if u >= 0 then RowOp(A, u, r, 1.0) else A
  }

  /** One turn of the loop of `subtractDown(r, c)`: add `-(A[k][c] / A[r][c])` times row `r` to row `k`. */
  function ClearEntry(A: Grid, n: nat, r: nat, c: nat, k: nat): (B: Grid)
    requires IsShape(A, |A|, n) && r < |A| && k < |A| && c < n && A[r][c] != 0.0
    ensures IsShape(B, |A|, n)
  {
    RowOp(A, r, k, (A[k][c] / A[r][c]) * -1.0)
  }

  /**
   * The loop of `subtractDown(r, c)` from row `k` on, while the pivot
   * `A[r][c]` is nonzero.
   */
  function SubtractDownFrom(A: Grid, n: nat, r: nat, c: nat, k: nat): (B: Grid)
    requires IsShape(A, |A|, n) && r < k && (k < |A| ==> c < n)
    ensures IsShape(B, |A|, n)
    decreases |A| - k
  {
    if k >= |A| then A
    else if A[r][c] == 0.0 then A
    else SubtractDownFrom(ClearEntry(A, n, r, c, k), n, r, c, k + 1)
  }

  /** One turn of the loop of `subtractDown`, with a nonzero pivot. */
  lemma {:induction false} SubtractDownFromStep(A: Grid, n: nat, r: nat, c: nat, k: nat)
    requires IsShape(A, |A|, n) && r < k < |A| && c < n && A[r][c] != 0.0
    ensures SubtractDownFrom(A, n, r, c, k) == SubtractDownFrom(ClearEntry(A, n, r, c, k), n, r, c, k + 1)
  {
  }

  /** The loop of `subtractDown` stops at the last row or at a zero pivot. */
  lemma {:induction false} SubtractDownFromStop(A: Grid, n: nat, r: nat, c: nat, k: nat)
    requires IsShape(A, |A|, n) && r < k && (k < |A| ==> c < n)
    requires k >= |A| || A[r][c] == 0.0
    ensures SubtractDownFrom(A, n, r, c, k) == A
  {
  }

  function SubtractDown(A: Grid, n: nat, r: nat, c: nat): (B: Grid)
    requires IsShape(A, |A|, n) && (r + 1 < |A| ==> c < n)
    ensures IsShape(B, |A|, n)
  {
    SubtractDownFrom(A, n, r, c, r + 1)
  }

  /** One pass of `makeUpperTriangular` at the diagonal entry `(p, p)`. */
  function PivotStep(A: Grid, n: nat, p: nat): (B: Grid)
    requires IsShape(A, |A|, n) && p < |A| && p < n
    ensures IsShape(B, |A|, n)
  {
    var W := if A[p][p] == 0.0 then MakeUsable(A, n, p, p) else A;
    SubtractDown(W, n, p, p)
  }

  /** `makeUpperTriangular` after its outer loop has handled rows `0 .. k-1`. */
  function TriangularPrefix(A: Grid, n: nat, k: nat): (B: Grid)
    requires IsShape(A, |A|, n) && k <= |A|
    ensures IsShape(B, |A|, n)
  {
    if k == 0 then A
    else
      var W := TriangularPrefix(A, n, k - 1);
      if k - 1 < n then PivotStep(W, n, k - 1) else W
  }

  lemma {:induction false} TriangularPrefixStep(A: Grid, n: nat, k: nat)
    requires IsShape(A, |A|, n) && k < |A| && k < n
    ensures TriangularPrefix(A, n, k + 1) == PivotStep(TriangularPrefix(A, n, k), n, k)
  {
  }

  function UpperTriangular(A: Grid, n: nat): (B: Grid)
    requires IsShape(A, |A|, n)
    ensures IsShape(B, |A|, n)
  {
    TriangularPrefix(A, n, |A|)
  }

  /** `fastDeterminant()`: the diagonal product of the triangularised matrix. */
  function FastDet(A: Grid, n: nat): Fraction
    requires IsShape(A, |A|, n) && |A| <= n
  {
    DiagProduct(UpperTriangular(A, n), |A|)
  }

  // ---------------------------------------------------------------------
  // The determinant is unchanged

  lemma {:induction false} SubtractDownFromKeepsDet(A: Grid, r: nat, c: nat, k: nat)
    requires IsSquare(A) && r < k && (k < |A| ==> c < |A|)
    ensures Det(SubtractDownFrom(A, |A|, r, c, k)) == Det(A)
    decreases |A| - k
  {
    if k < |A| && A[r][c] != 0.0 {
      var m := (A[k][c] / A[r][c]) * -1.0;
      DetRowOp(A, r, k, m);
      SubtractDownFromKeepsDet(ClearEntry(A, |A|, r, c, k), r, c, k + 1);
    }
  }

  lemma {:induction false} PivotStepKeepsDet(A: Grid, p: nat)
    requires IsSquare(A) && p < |A|
    ensures Det(PivotStep(A, |A|, p)) == Det(A)
  {
    var n := |A|;
    var W := if A[p][p] == 0.0 then MakeUsable(A, n, p, p) else A;
    if A[p][p] == 0.0 && UsableRow(A, p, p) >= 0 {
      DetRowOp(A, UsableRow(A, p, p), p, 1.0);
    }
    SubtractDownFromKeepsDet(W, p, p, p + 1);
  }

  lemma {:induction false} TriangularPrefixKeepsDet(A: Grid, k: nat)
    requires IsSquare(A) && k <= |A|
    ensures Det(TriangularPrefix(A, |A|, k)) == Det(A)
  {
    if k > 0 {
      TriangularPrefixKeepsDet(A, k - 1);
      PivotStepKeepsDet(TriangularPrefix(A, |A|, k - 1), k - 1);
    }
  }

  // ---------------------------------------------------------------------
  // The result is upper triangular

  /** Columns `0 .. k-1` are zero below the diagonal. */
  predicate ZeroBelow(A: Grid, n: nat, k: nat)
    requires IsShape(A, |A|, n) && k <= n
  {
    forall i, j :: 0 <= j < k && j < i < |A| ==> A[i][j] == 0.0
  }

  /** A row operation between rows at or below row `k` keeps columns `0 .. k-1` clear. */
  lemma {:induction false} RowOpKeepsZeroBelow(A: Grid, n: nat, k: nat, o: nat, t: nat, m: Fraction)
    requires IsShape(A, |A|, n) && k <= n && ZeroBelow(A, n, k)
    requires k <= o < |A| && k <= t < |A|
    ensures IsShape(RowOp(A, o, t, m), |A|, n) && ZeroBelow(RowOp(A, o, t, m), n, k)
  {
  }

  /**
   * With a nonzero pivot, the loop of `subtractDown` clears column `c`
   * below row `r` and leaves rows before `k` (the pivot row among them) alone.
   */
  lemma {:induction false} SubtractDownFromClears(A: Grid, n: nat, r: nat, c: nat, k: nat)
    requires IsShape(A, |A|, n) && r < k && r < |A| && c < n && A[r][c] != 0.0
    requires forall i :: r < i < k && i < |A| ==> A[i][c] == 0.0
    ensures var B := SubtractDownFrom(A, n, r, c, k);
      (forall i :: r < i < |A| ==> B[i][c] == 0.0) &&
      (forall i :: 0 <= i < k && i < |A| ==> B[i] == A[i])
    decreases |A| - k
  {
    if k < |A| {
      var m := (A[k][c] / A[r][c]) * -1.0;
      var A' := ClearEntry(A, n, r, c, k);
      assert A'[k][c] == 0.0 by {
        assert A'[k][c] == A[k][c] + A[r][c] * ((A[k][c] / A[r][c]) * -1.0);
      }
      SubtractDownFromClears(A', n, r, c, k + 1);
    }
  }

  lemma {:induction false} SubtractDownFromKeepsZeroBelow(A: Grid, n: nat, p: nat, c: nat, k: nat)
    requires IsShape(A, |A|, n) && p < k && p <= n && (k < |A| ==> c < n) && ZeroBelow(A, n, p)
    ensures ZeroBelow(SubtractDownFrom(A, n, p, c, k), n, p)
    decreases |A| - k
  {
    if k < |A| && A[p][c] != 0.0 {
      var m := (A[k][c] / A[p][c]) * -1.0;
      RowOpKeepsZeroBelow(A, n, p, p, k, m);
      SubtractDownFromKeepsZeroBelow(ClearEntry(A, n, p, c, k), n, p, c, k + 1);
    }
  }

  /** A zero pivot stops `subtractDown` at once. */
  lemma {:induction false} SubtractDownZeroPivot(A: Grid, n: nat, r: nat, c: nat)
    requires IsShape(A, |A|, n) && r < |A| && c < n && A[r][c] == 0.0
    ensures SubtractDown(A, n, r, c) == A
  {
  }

  /** One pivot step clears one more column. */
  lemma {:induction false} PivotStepClears(A: Grid, n: nat, p: nat)
    requires IsShape(A, |A|, n) && p < |A| && p < n && ZeroBelow(A, n, p)
    ensures ZeroBelow(PivotStep(A, n, p), n, p + 1)
  {
    var W := if A[p][p] == 0.0 then MakeUsable(A, n, p, p) else A;
    var u := UsableRow(A, p, p);
    if A[p][p] == 0.0 && u >= 0 {
      RowOpKeepsZeroBelow(A, n, p, u, p, 1.0);
      assert W[p][p] == A[p][p] + A[u][p] * 1.0;
    }
    assert ZeroBelow(W, n, p);
    var B := SubtractDown(W, n, p, p);
    SubtractDownFromKeepsZeroBelow(W, n, p, p, p + 1);
    if W[p][p] != 0.0 {
      SubtractDownFromClears(W, n, p, p, p + 1);
    } else {
      // no usable row: the column is already clear below the pivot
      assert u == -1 && W == A;
      SubtractDownZeroPivot(W, n, p, p);
      forall i | p < i < |A|
        ensures B[i][p] == 0.0
      {
        assert !Usable(A, i, p);
      }
    }
  }

  lemma {:induction false} TriangularPrefixClears(A: Grid, n: nat, k: nat)
    requires IsShape(A, |A|, n) && k <= |A|
    ensures ZeroBelow(TriangularPrefix(A, n, k), n, if k <= n then k else n)
  {
    if k > 0 {
      TriangularPrefixClears(A, n, k - 1);
      if k - 1 < n {
        PivotStepClears(TriangularPrefix(A, n, k - 1), n, k - 1);
      }
    }
  }

  /** `makeUpperTriangular` leaves only zeros below the diagonal. */
  lemma {:induction false} UpperTriangularIsUpper(A: Grid, n: nat)
    requires IsShape(A, |A|, n)
    ensures var U := UpperTriangular(A, n);
      forall i, j :: 0 <= j < i < |A| && j < n ==> U[i][j] == 0.0
  {
    TriangularPrefixClears(A, n, |A|);
  }

  // ---------------------------------------------------------------------
  // The two determinants agree

  /** The elimination determinant is the determinant, for every square matrix. */
  lemma {:induction false} FastDetIsDet(A: Grid)
    requires IsSquare(A)
    ensures FastDet(A, |A|) == Det(A)
  {
    var U := UpperTriangular(A, |A|);
    TriangularPrefixKeepsDet(A, |A|);
    UpperTriangularIsUpper(A, |A|);
    assert IsUpperTriangular(U);
    DetUpperTriangular(U);
  }

  /** `fastDeterminant()` equals `determinant()` for every square matrix of size 2 or more. */
  lemma {:induction false} FastDetAgreesWithCofactorDet(A: Grid)
    requires IsSquare(A) && |A| >= 2
    ensures FastDet(A, |A|) == CofactorDet(A)
  {
    FastDetIsDet(A);
    CofactorDetIsDet(A);
  }
}
