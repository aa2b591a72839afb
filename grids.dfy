/**
 * Matrices as values: a grid of exact rationals, stored row by row.
 *
 * These are the functions the imperative `Matrix` class is specified
 * against, with the algebraic facts the Java code relies on or promises
 * (round trips, transposition laws, the entry formula of a minor).
 */
module Grids {

  /** An entry of a matrix: an exact rational number (Dafny's `real` is exact). */
  type Fraction = real

  /** A matrix given by its rows. */
  type Grid = seq<seq<Fraction>>

  /** `A` has `m` rows of `n` entries each. */
  predicate IsShape(A: Grid, m: nat, n: nat) {
    |A| == m && forall i :: 0 <= i < m ==> |A[i]| == n
  }

  predicate IsSquare(A: Grid) {
    IsShape(A, |A|, |A|)
  }

  /** `A` and `B` have the same number of rows, and rows of the same lengths. */
  predicate SameShape(A: Grid, B: Grid) {
    |A| == |B| && forall i :: 0 <= i < |A| ==> |A[i]| == |B[i]|
  }

  /** Two grids of one shape with the same entries are equal. */
  lemma {:induction false} GridsEqual(A: Grid, B: Grid, m: nat, n: nat)
    requires IsShape(A, m, n) && IsShape(B, m, n)
    requires forall i, j :: 0 <= i < m && 0 <= j < n ==> A[i][j] == B[i][j]
    ensures A == B
  {
    forall i | 0 <= i < m
      ensures A[i] == B[i]
    {
      assert forall j :: 0 <= j < n ==> A[i][j] == B[i][j];
    }
  }

  // ---------------------------------------------------------------------
  // Construction

  /** The all-zero `m` by `n` matrix. */
  function Zero(m: nat, n: nat): (Z: Grid)
    ensures IsShape(Z, m, n)
  {
    seq(m, _ => seq(n, _ => 0.0))
  }

  /** The `n` by `n` identity matrix. */
  function Identity(n: nat): (I: Grid)
    ensures IsSquare(I) && |I| == n
  {
    seq(n, i => seq(n, j => if i == j then 1.0 else 0.0))
  }

  /**
   * What `makeIdentityMatrix` yields for an `m` by `n` receiver: the
   * identity when square, and otherwise a zero matrix of the same shape.
   */
  function IdentityOfShape(m: nat, n: nat): (I: Grid)
    ensures IsShape(I, m, n)
  {
    if m == n then Identity(n) else Zero(m, n)
  }

  lemma {:induction false} RowMajorBound(i: nat, j: nat, m: nat, n: nat)
    requires i < m && j < n
    ensures i * n + j < m * n
  {
    assert (i + 1) * n <= m * n by {
      assert m * n == (i + 1) * n + (m - i - 1) * n;
    }
  }

  /** The `m` by `n` matrix filled row by row from the flat sequence `e`. */
  function FromFlat(m: nat, n: nat, e: seq<Fraction>): (A: Grid)
    requires |e| == m * n
    ensures IsShape(A, m, n)
  {
    seq(m, i requires 0 <= i < m =>
      seq(n, j requires 0 <= j < n => RowMajorBound(i, j, m, n); e[i * n + j]))
  }

  /** The entries of `A` in row-major order. */
  function Flatten(A: Grid): seq<Fraction> {
    if |A| == 0 then [] else Flatten(A[..|A| - 1]) + A[|A| - 1]
  }

  /** Listing one more row appends that row. */
  lemma {:induction false} FlattenSnoc(A: Grid, k: nat)
    requires k < |A|
    ensures Flatten(A[..k + 1]) == Flatten(A[..k]) + A[k]
  {
    assert A[..k + 1][..k] == A[..k];
  }

  lemma {:induction false} FlattenLength(A: Grid, m: nat, n: nat)
    requires IsShape(A, m, n)
    ensures |Flatten(A)| == m * n
  {
    if m > 0 {
      FlattenLength(A[..m - 1], m - 1, n);
    }
  }

  /** Entry `(i, j)` of `A` sits at offset `i * n + j` of its row-major listing. */
  lemma {:induction false} FlattenAt(A: Grid, m: nat, n: nat, i: nat, j: nat)
    requires IsShape(A, m, n) && i < m && j < n
    ensures |Flatten(A)| == m * n && i * n + j < m * n
    ensures Flatten(A)[i * n + j] == A[i][j]
  {
    FlattenLength(A, m, n);
    RowMajorBound(i, j, m, n);
    var P := A[..m - 1];
    FlattenLength(P, m - 1, n);
    assert Flatten(A) == Flatten(P) + A[m - 1];
    if i < m - 1 {
      FlattenAt(P, m - 1, n, i, j);
      RowMajorBound(i, j, m - 1, n);
    } else {
      assert i * n + j == (m - 1) * n + j;
    }
  }

  /** Filling a matrix from a flat sequence and listing it again gives the sequence back. */
  lemma {:induction false} FlattenFromFlat(m: nat, n: nat, e: seq<Fraction>)
    requires |e| == m * n
    ensures Flatten(FromFlat(m, n, e)) == e
  {
    var A := FromFlat(m, n, e);
    FlattenLength(A, m, n);
    forall p | 0 <= p < m * n
      ensures Flatten(A)[p] == e[p]
    {
      var i, j := RowMajorSplit(p, m, n);
      FlattenAt(A, m, n, i, j);
    }
  }

  /** Offset `p` of a row-major listing of `m` rows of `n` is entry `(p / n, p % n)`. */
  lemma {:induction false} RowMajorSplit(p: nat, m: nat, n: nat) returns (i: nat, j: nat)
    requires p < m * n
    ensures i < m && j < n && p == i * n + j
  {
    assert n > 0;
    i, j := p / n, p % n;
    assert (m - i) * n == m * n - i * n;
    assert (m - i) * n > 0;
  }

  /** Listing a matrix row by row and filling a matrix of its shape from the list gives it back. */
  lemma {:induction false} FromFlatFlatten(A: Grid, m: nat, n: nat)
    requires IsShape(A, m, n)
    ensures |Flatten(A)| == m * n && FromFlat(m, n, Flatten(A)) == A
  {
    FlattenLength(A, m, n);
    forall i, j | 0 <= i < m && 0 <= j < n
      ensures FromFlat(m, n, Flatten(A))[i][j] == A[i][j]
    {
      FlattenAt(A, m, n, i, j);
    }
    GridsEqual(FromFlat(m, n, Flatten(A)), A, m, n);
  }

  // ---------------------------------------------------------------------
  // Entrywise arithmetic

  function Sum(A: Grid, B: Grid): (S: Grid)
    requires SameShape(A, B)
    ensures SameShape(S, A)
  {
    seq(|A|, i requires 0 <= i < |A| =>
      seq(|A[i]|, j requires 0 <= j < |A[i]| => A[i][j] + B[i][j]))
  }

  function Difference(A: Grid, B: Grid): (D: Grid)
    requires SameShape(A, B)
    ensures SameShape(D, A)
  {
    seq(|A|, i requires 0 <= i < |A| =>
      seq(|A[i]|, j requires 0 <= j < |A[i]| => A[i][j] - B[i][j]))
  }

  function Scaled(A: Grid, k: Fraction): (S: Grid)
    ensures SameShape(S, A)
  {
    seq(|A|, i requires 0 <= i < |A| =>
      seq(|A[i]|, j requires 0 <= j < |A[i]| => A[i][j] * k))
  }

  /** Subtracting what was added gives back the original matrix. */
  lemma {:induction false} DifferenceUndoesSum(A: Grid, B: Grid)
    requires SameShape(A, B)
    ensures Difference(Sum(A, B), B) == A
  {
    forall i | 0 <= i < |A|
      ensures Difference(Sum(A, B), B)[i] == A[i]
    {
      assert forall j :: 0 <= j < |A[i]| ==> Difference(Sum(A, B), B)[i][j] == A[i][j];
    }
  }

  lemma {:induction false} SumCommutes(A: Grid, B: Grid)
    requires SameShape(A, B)
    ensures Sum(A, B) == Sum(B, A)
  {
    forall i | 0 <= i < |A|
      ensures Sum(A, B)[i] == Sum(B, A)[i]
    {
      assert forall j :: 0 <= j < |A[i]| ==> Sum(A, B)[i][j] == Sum(B, A)[i][j];
    }
  }

  /** Scaling distributes over addition. */
  lemma {:induction false} ScaledDistributes(A: Grid, B: Grid, k: Fraction)
    requires SameShape(A, B)
    ensures Scaled(Sum(A, B), k) == Sum(Scaled(A, k), Scaled(B, k))
  {
    forall i | 0 <= i < |A|
      ensures Scaled(Sum(A, B), k)[i] == Sum(Scaled(A, k), Scaled(B, k))[i]
    {
      forall j | 0 <= j < |A[i]|
        ensures Scaled(Sum(A, B), k)[i][j] == Sum(Scaled(A, k), Scaled(B, k))[i][j]
      {
        assert (A[i][j] + B[i][j]) * k == A[i][j] * k + B[i][j] * k;
      }
    }
  }

  // ---------------------------------------------------------------------
  // Columns, transposition, product

  /** Column `c` of `A`, top to bottom. */
  function Column(A: Grid, c: nat): (col: seq<Fraction>)
    requires forall i :: 0 <= i < |A| ==> c < |A[i]|
    ensures |col| == |A|
  {
    seq(|A|, i requires 0 <= i < |A| => A[i][c])
  }

  /** The transpose of a square matrix. */
  function Transposed(A: Grid): (T: Grid)
    requires IsSquare(A)
    ensures IsSquare(T) && |T| == |A|
  {
    seq(|A|, i requires 0 <= i < |A| => seq(|A|, j requires 0 <= j < |A| => A[j][i]))
  }

  /** Row `c` of the transpose is column `c` of the original. */
  lemma {:induction false} ColumnIsTransposedRow(A: Grid, c: nat)
    requires IsSquare(A) && c < |A|
    ensures Column(A, c) == Transposed(A)[c]
  {
  }

  lemma {:induction false} TransposedTwice(A: Grid)
    requires IsSquare(A)
    ensures Transposed(Transposed(A)) == A
  {
    GridsEqual(Transposed(Transposed(A)), A, |A|, |A|);
  }

  /** `u[0] * v[0] + ... + u[k-1] * v[k-1]`, accumulated left to right from zero. */
  function Dot(u: seq<Fraction>, v: seq<Fraction>, k: nat): Fraction
    requires k <= |u| && k <= |v|
  {
    if k == 0 then 0.0 else Dot(u, v, k - 1) + u[k - 1] * v[k - 1]
  }

  lemma {:induction false} DotCommutes(u: seq<Fraction>, v: seq<Fraction>, k: nat)
    requires k <= |u| && k <= |v|
    ensures Dot(u, v, k) == Dot(v, u, k)
  {
    if k > 0 {
      DotCommutes(u, v, k - 1);
    }
  }

  /** Dot product with the `c`-th unit vector picks out entry `c`. */
  lemma {:induction false} DotUnit(u: seq<Fraction>, n: nat, c: nat, k: nat)
    requires |u| == n && c < n && k <= n
    ensures Dot(u, Identity(n)[c], k) == if c < k then u[c] else 0.0
  {
    if k > 0 {
      DotUnit(u, n, c, k - 1);
    }
  }

  /**
   * The product of `A` (rows of length `|B|`) and `B` (`p` columns):
   * entry `(i, j)` is the dot product of row `i` of `A` with column `j` of `B`.
   */
  function Product(A: Grid, B: Grid, p: nat): (P: Grid)
    requires forall i :: 0 <= i < |A| ==> |A[i]| == |B|
    requires IsShape(B, |B|, p)
    ensures IsShape(P, |A|, p)
  {
    seq(|A|, i requires 0 <= i < |A| =>
      seq(p, j requires 0 <= j < p => Dot(A[i], Column(B, j), |B|)))
  }

  /** The identity is a right unit of the product. */
  lemma {:induction false} ProductIdentity(A: Grid, m: nat, n: nat)
    requires IsShape(A, m, n)
    ensures Product(A, Identity(n), n) == A
  {
    forall i, j | 0 <= i < m && 0 <= j < n
      ensures Product(A, Identity(n), n)[i][j] == A[i][j]
    {
      assert Column(Identity(n), j) == Identity(n)[j];
      DotUnit(A[i], n, j, n);
    }
    GridsEqual(Product(A, Identity(n), n), A, m, n);
  }

  /** Transposition reverses a product of square matrices. */
  lemma {:induction false} TransposedProduct(A: Grid, B: Grid)
    requires IsSquare(A) && IsSquare(B) && |A| == |B|
    ensures Transposed(Product(A, B, |B|)) == Product(Transposed(B), Transposed(A), |A|)
  {
    var n := |A|;
    var L, R := Transposed(Product(A, B, n)), Product(Transposed(B), Transposed(A), n);
    forall i, j | 0 <= i < n && 0 <= j < n
      ensures L[i][j] == R[i][j]
    {
      assert Transposed(B)[i] == Column(B, i);
      assert Column(Transposed(A), j) == A[j];
      DotCommutes(A[j], Column(B, i), n);
    }
    GridsEqual(L, R, n, n);
  }

  // ---------------------------------------------------------------------
  // Minors

  /** The index, in the original, of index `i` of a minor that dropped index `r`. */
  function Skip(i: nat, r: nat): nat {
    if i < r then i else i + 1
  }

  /** The index, in a minor that dropped index `r`, of original index `x != r`. */
  function Unskip(x: nat, r: nat): nat
    requires x != r
  {
    if x < r then x else x - 1
  }

  /** `A` (`n` columns) with row `r` and column `c` deleted. */
  function Minor(A: Grid, n: nat, r: nat, c: nat): (M: Grid)
    requires IsShape(A, |A|, n) && r < |A| && c < n
    ensures IsShape(M, |A| - 1, n - 1)
  {
    seq(|A| - 1, i requires 0 <= i < |A| - 1 =>
      seq(n - 1, j requires 0 <= j < n - 1 => A[Skip(i, r)][Skip(j, c)]))
  }

  /** The minor of the transpose is the transpose of the minor. */
  lemma {:induction false} MinorOfTransposed(A: Grid, r: nat, c: nat)
    requires IsSquare(A) && r < |A| && c < |A|
    ensures Minor(Transposed(A), |A|, c, r) == Transposed(Minor(A, |A|, r, c))
  {
    var n := |A|;
    GridsEqual(Minor(Transposed(A), n, c, r), Transposed(Minor(A, n, r, c)), n - 1, n - 1);
  }

  /** `w` with entry `c` deleted. */
  function DropAt(w: seq<Fraction>, c: nat): (d: seq<Fraction>)
    requires c < |w|
    ensures |d| == |w| - 1
  {
    seq(|w| - 1, j requires 0 <= j < |w| - 1 => w[Skip(j, c)])
  }

  /** A minor does not see the row it deletes. */
  lemma {:induction false} MinorIgnoresRow(A: Grid, n: nat, r: nat, c: nat, w: seq<Fraction>)
    requires IsShape(A, |A|, n) && r < |A| && c < n && |w| == n
    ensures Minor(A[r := w], n, r, c) == Minor(A, n, r, c)
  {
    GridsEqual(Minor(A[r := w], n, r, c), Minor(A, n, r, c), |A| - 1, n - 1);
  }

  /** Replacing a row that a minor keeps replaces the corresponding row of the minor. */
  lemma {:induction false} MinorReplaceRow(A: Grid, n: nat, t: nat, w: seq<Fraction>, r: nat, c: nat)
    requires IsShape(A, |A|, n) && t < |A| && r < |A| && t != r && c < n && |w| == n
    ensures Minor(A[t := w], n, r, c) == Minor(A, n, r, c)[Unskip(t, r) := DropAt(w, c)]
  {
    GridsEqual(Minor(A[t := w], n, r, c), Minor(A, n, r, c)[Unskip(t, r) := DropAt(w, c)], |A| - 1, n - 1);
  }

  // ---------------------------------------------------------------------
  // Row operations

  /** `u + v * m`, entry by entry. */
  function AddMultiple(u: seq<Fraction>, v: seq<Fraction>, m: Fraction): (w: seq<Fraction>)
    requires |u| == |v|
    ensures |w| == |u|
  {
    seq(|u|, j requires 0 <= j < |u| => u[j] + v[j] * m)
  }

  /** Row `t` replaced by row `t` plus `m` times row `o`; every other row, `o` included, kept. */
  function RowOp(A: Grid, o: nat, t: nat, m: Fraction): (B: Grid)
    requires o < |A| && t < |A| && |A[o]| == |A[t]|
    ensures SameShape(B, A)
  {
    A[t := AddMultiple(A[t], A[o], m)]
  }

  /** Adding `-m` times the same row undoes a row operation. */
  lemma {:induction false} RowOpUndo(A: Grid, o: nat, t: nat, m: Fraction)
    requires o < |A| && t < |A| && o != t && |A[o]| == |A[t]|
    ensures RowOp(RowOp(A, o, t, m), o, t, -m) == A
  {
    var B := RowOp(RowOp(A, o, t, m), o, t, -m);
    assert B[t] == A[t] by {
      assert forall j :: 0 <= j < |A[t]| ==> B[t][j] == A[t][j];
    }
  }
}
