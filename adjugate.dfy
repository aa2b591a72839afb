/**
 * The adjugate inverse: minors' determinants by elimination, the
 * checkerboard sign, transposition, and scaling by one over the
 * determinant.
 *
 * The main result is that a square matrix times this inverse is the
 * identity whenever the determinant is nonzero.  It rests on expansion
 * along an arbitrary row (the determinant is defined by expansion down
 * column 0), which in turn comes from linearity in a row, the sign of a
 * row moved to the top, and the determinant of a matrix whose top row is
 * a unit row.
 */
module Adjugate {
  import opened Grids
  import opened Determinants
  import opened Elimination

  /** The sign `inverse()` gives entry `(r, c)` of the matrix of minors: negated when exactly one index is odd. */
  function Checkerboard(r: nat, c: nat, x: Fraction): Fraction {
    if (c % 2 != 0 && r % 2 == 0) || (c % 2 == 0 && r % 2 != 0) then x * -1.0 else x
  }

  /** The cofactor matrix as `inverse()` builds it, each minor's determinant taken by elimination. */
  function Cofactors(A: Grid): (C: Grid)
    requires IsSquare(A)
    ensures IsSquare(C) && |C| == |A|
  {
    seq(|A|, r requires 0 <= r < |A| =>
      seq(|A|, c requires 0 <= c < |A| =>
        Checkerboard(r, c, FastDet(Minor(A, |A|, r, c), |A| - 1))))
  }

  /** What `inverse()` returns for a matrix with a nonzero determinant. */
  function Inverse(A: Grid): (B: Grid)
    requires IsSquare(A) && FastDet(A, |A|) != 0.0
    ensures IsSquare(B) && |B| == |A|
  {
    Scaled(Transposed(Cofactors(A)), 1.0 / FastDet(A, |A|))
  }

  /** The cofactor of entry `(j, k)`: `(-1)^(j+k)` times the determinant of its minor. */
  function Cofactor(A: Grid, j: nat, k: nat): Fraction
    requires IsSquare(A) && j < |A| && k < |A|
  {
    Sign(j + k) * Det(Minor(A, |A|, j, k))
  }

  /** `w[0] * Cofactor(A, j, 0) + ... + w[K-1] * Cofactor(A, j, K-1)`. */
  function ExpandAlong(A: Grid, j: nat, w: seq<Fraction>, K: nat): Fraction
    requires IsSquare(A) && j < |A| && |w| == |A| && K <= |A|
  {
    if K == 0 then 0.0 else ExpandAlong(A, j, w, K - 1) + w[K - 1] * Cofactor(A, j, K - 1)
  }

  // ---------------------------------------------------------------------
  // Signs

  lemma {:induction false} SignAdd(a: nat, b: nat)
    ensures Sign(a + b) == Sign(a) * Sign(b)
  {
    if a % 2 == 0 {
      if b % 2 == 0 {
        assert (a + b) % 2 == 0;
      } else {
        assert (a + b) % 2 == 1;
      }
    } else {
      if b % 2 == 0 {
        assert (a + b) % 2 == 1;
      } else {
        assert (a + b) % 2 == 0;
      }
    }
  }

  /** The sign `inverse()` applies is `(-1)^(r+c)`. */
  lemma {:induction false} CheckerboardIsSign(r: nat, c: nat, x: Fraction)
    ensures Checkerboard(r, c, x) == Sign(r + c) * x
  {
    SignAdd(r, c);
  }

  /** Entry `(r, c)` of `Cofactors(A)` is the cofactor of `(r, c)`. */
  lemma {:induction false} CofactorsAt(A: Grid, r: nat, c: nat)
    requires IsSquare(A) && r < |A| && c < |A|
    ensures Cofactors(A)[r][c] == Cofactor(A, r, c)
  {
    var M := Minor(A, |A|, r, c);
    FastDetIsDet(M);
    CheckerboardIsSign(r, c, FastDet(M, |A| - 1));
  }

  // ---------------------------------------------------------------------
  // Moving a row to the top

  /** Row `i` moved to the top, the rows above it shifted down by one. */
  function RaiseRow(A: Grid, i: nat): (R: Grid)
    requires i < |A|
    ensures |R| == |A|
  {
    [A[i]] + A[..i] + A[i + 1..]
  }

  lemma {:induction false} DetRaiseRow(A: Grid, i: nat)
    requires IsSquare(A) && i < |A|
    ensures IsSquare(RaiseRow(A, i))
    ensures Det(A) == Sign(i) * Det(RaiseRow(A, i))
    decreases i
  {
    if i == 0 {
      assert RaiseRow(A, 0) == A;
    } else {
      var S := Swap(A, i - 1, i);
      DetSwapAdjacent(A, i - 1);
      assert RaiseRow(S, i - 1) == RaiseRow(A, i);
      DetRaiseRow(S, i - 1);
      SignNext(i - 1);
    }
  }

  lemma {:induction false} MinorOfRaised(A: Grid, i: nat, k: nat)
    requires IsSquare(A) && i < |A| && k < |A|
    ensures IsSquare(RaiseRow(A, i))
    ensures Minor(RaiseRow(A, i), |A|, 0, k) == Minor(A, |A|, i, k)
  {
    var n := |A|;
    var R := RaiseRow(A, i);
    forall x | 0 <= x < n - 1
      ensures R[Skip(x, 0)] == A[Skip(x, i)]
    {
    }
    GridsEqual(Minor(R, n, 0, k), Minor(A, n, i, k), n - 1, n - 1);
  }

  // ---------------------------------------------------------------------
  // A unit top row

  /** Removing row 0 and column `k` commutes with removing row `r` and column 0. */
  lemma {:induction false} MinorsCommute(M: Grid, r: nat, k: nat)
    requires IsSquare(M) && 1 <= r < |M| && 1 <= k < |M|
    ensures Minor(Minor(M, |M|, r, 0), |M| - 1, 0, k - 1) == Minor(Minor(M, |M|, 0, k), |M| - 1, r - 1, 0)
  {
    var n := |M|;
    var B, C := Minor(M, n, r, 0), Minor(M, n, 0, k);
    var L, R := Minor(B, n - 1, 0, k - 1), Minor(C, n - 1, r - 1, 0);
    forall x, y | 0 <= x < n - 2 && 0 <= y < n - 2
      ensures L[x][y] == R[x][y]
    {
      assert Skip(x + 1, r) == Skip(x, r - 1) + 1;
      assert Skip(y, k - 1) + 1 == Skip(y + 1, k);
      calc {
        L[x][y];
        B[x + 1][Skip(y, k - 1)];
        M[Skip(x + 1, r)][Skip(y, k - 1) + 1];
        C[Skip(x, r - 1)][y + 1];
        R[x][y];
      }
    }
    GridsEqual(L, R, n - 2, n - 2);
  }

  /** Partial sums whose terms past the first are scaled terms of a smaller matrix. */
  lemma {:induction false} DetSumShift(M: Grid, M': Grid, s: Fraction, k: nat)
    requires IsSquare(M) && IsSquare(M') && |M'| + 1 == |M| && k <= |M'|
    requires forall r :: 1 <= r <= k ==> DetTerm(M, r) == s * DetTerm(M', r - 1)
    ensures DetSum(M, k + 1) == DetTerm(M, 0) + s * DetSum(M', k)
  {
    if k > 0 {
      DetSumShift(M, M', s, k - 1);
    }
  }

  /** A top row that is the `k`-th unit row leaves `(-1)^k` times the minor of `(0, k)`. */
  lemma {:induction false} DetTopUnitRow(M: Grid, k: nat)
    requires IsSquare(M) && k < |M| && M[0] == Identity(|M|)[k]
    ensures Det(M) == Sign(k) * Det(Minor(M, |M|, 0, k))
    decreases |M|
  {
    var n := |M|;
    if k == 0 {
      DetTopFirstUnitRow(M);
    } else {
      var M' := Minor(M, n, 0, k);
      forall r | 1 <= r <= n - 1
        ensures DetTerm(M, r) == Sign(k) * DetTerm(M', r - 1)
      {
        DetTermUnitTop(M, k, r);
      }
      DetSumShift(M, M', Sign(k), n - 1);
    }
  }

  /** The case `k = 0`: only the top term of the expansion survives. */
  lemma {:induction false} DetTopFirstUnitRow(M: Grid)
    requires IsSquare(M) && 0 < |M| && M[0] == Identity(|M|)[0]
    ensures Det(M) == Det(Minor(M, |M|, 0, 0))
  {
    var n := |M|;
    forall r | 1 <= r < n
      ensures DetTerm(M, r) == 0.0
    {
      ZeroTopRowMinor(M, r);
    }
    DetSumSingle(M, 0, n);
  }

  lemma {:induction false} ZeroTopRowMinor(M: Grid, r: nat)
    requires IsSquare(M) && 1 <= r < |M| && M[0] == Identity(|M|)[0]
    ensures Det(Minor(M, |M|, r, 0)) == 0.0
  {
    var n := |M|;
    var B := Minor(M, n, r, 0);
    var z := seq(n - 1, _ => 0.0);
    forall j | 0 <= j < n - 1
      ensures B[0][j] == 0.0
    {
      assert Skip(0, r) == 0 && Skip(j, 0) == j + 1;
    }
    assert B[0] == z;
    assert B == B[0 := z];
    DetZeroRow(B, 0);
  }

  /** Removing row `r` and column 0 from a matrix topped by unit row `k` leaves unit row `k - 1` on top. */
  lemma {:induction false} MinorKeepsUnitTop(M: Grid, k: nat, r: nat)
    requires IsSquare(M) && 1 <= k < |M| && 1 <= r < |M| && M[0] == Identity(|M|)[k]
    ensures Minor(M, |M|, r, 0)[0] == Identity(|M| - 1)[k - 1]
  {
    var n := |M|;
    var B := Minor(M, n, r, 0);
    forall j | 0 <= j < n - 1
      ensures B[0][j] == M[0][j + 1]
    {
      assert Skip(0, r) == 0 && Skip(j, 0) == j + 1;
    }
  }

  lemma {:induction false} SignsExchange(r: nat, k: nat, a: Fraction, d: Fraction, x: Fraction, t: Fraction, t': Fraction)
    requires 1 <= r && 1 <= k
    requires t == Sign(r) * a * d && d == Sign(k - 1) * x && t' == Sign(r - 1) * a * x
    ensures t == Sign(k) * t'
  {
    SignNext(r - 1);
    SignNext(k - 1);
  }

  lemma {:induction false} DetTermOf(A: Grid, r: nat, a: Fraction, x: Fraction)
    requires IsSquare(A) && r < |A| && A[r][0] == a && Det(Minor(A, |A|, r, 0)) == x
    ensures DetTerm(A, r) == Sign(r) * a * x
  {
    DetTermUnfold(A, r);
  }


  lemma {:induction false} DetTermUnitTop(M: Grid, k: nat, r: nat)
    requires IsSquare(M) && 1 <= k < |M| && 1 <= r < |M| && M[0] == Identity(|M|)[k]
    ensures DetTerm(M, r) == Sign(k) * DetTerm(Minor(M, |M|, 0, k), r - 1)
    decreases |M|, 0
  {
    MinorKeepsUnitTop(M, k, r);
    DetTopUnitRow(Minor(M, |M|, r, 0), k - 1);
    TermOfMinors(M, k, r);
  }

  /** The step of `DetTermUnitTop` that only rearranges minors and signs. */
  lemma {:induction false} TermOfMinors(M: Grid, k: nat, r: nat)
    requires IsSquare(M) && 1 <= k < |M| && 1 <= r < |M|
    requires Det(Minor(M, |M|, r, 0)) == Sign(k - 1) * Det(Minor(Minor(M, |M|, r, 0), |M| - 1, 0, k - 1))
    ensures DetTerm(M, r) == Sign(k) * DetTerm(Minor(M, |M|, 0, k), r - 1)
  {
    var n := |M|;
    var M' := Minor(M, n, 0, k);
    MinorsCommute(M, r, k);
    var inner := Det(Minor(M', n - 1, r - 1, 0));
    var a := M[r][0];
    assert M'[r - 1][0] == a by {
      assert Skip(r - 1, 0) == r && Skip(0, k) == 0;
    }
    var d := Det(Minor(M, n, r, 0));
    assert d == Sign(k - 1) * inner;
    DetTermOf(M, r, a, d);
    DetTermOf(M', r - 1, a, inner);
    SignsExchange(r, k, a, d, inner, DetTerm(M, r), DetTerm(M', r - 1));
  }

  /** Replacing row `i` by the `k`-th unit row leaves the cofactor of `(i, k)`. */
  lemma {:induction false} DetUnitRow(A: Grid, i: nat, k: nat)
    requires IsSquare(A) && i < |A| && k < |A|
    ensures Det(A[i := Identity(|A|)[k]]) == Cofactor(A, i, k)
  {
    var n := |A|;
    var X := A[i := Identity(n)[k]];
    DetRaiseRow(X, i);
    DetTopUnitRow(RaiseRow(X, i), k);
    MinorOfRaised(X, i, k);
    MinorIgnoresRow(A, n, i, k, Identity(n)[k]);
    SignAdd(i, k);
  }

  // ---------------------------------------------------------------------
  // Expansion along any row

  /** The first `K` entries of `w`, padded with zeros. */
  function Prefix(w: seq<Fraction>, K: nat): (p: seq<Fraction>)
    ensures |p| == |w|
  {
    seq(|w|, x requires 0 <= x < |w| => if x < K then w[x] else 0.0)
  }

  lemma {:induction false} PrefixGrows(w: seq<Fraction>, K: nat)
    requires 0 < K <= |w|
    ensures Prefix(w, K) == AddMultiple(Prefix(w, K - 1), Identity(|w|)[K - 1], w[K - 1])
  {
    var e := Identity(|w|)[K - 1];
    var q := AddMultiple(Prefix(w, K - 1), e, w[K - 1]);
    forall x | 0 <= x < |w|
      ensures q[x] == Prefix(w, K)[x]
    {
      assert e[x] == if x == K - 1 then 1.0 else 0.0;
    }
  }

  lemma {:induction false} DetPrefixRow(A: Grid, j: nat, w: seq<Fraction>, K: nat)
    requires IsSquare(A) && j < |A| && |w| == |A| && K <= |A|
    ensures Det(A[j := Prefix(w, K)]) == ExpandAlong(A, j, w, K)
  {
    var n := |A|;
    if K == 0 {
      assert Prefix(w, 0) == seq(n, _ => 0.0);
      DetZeroRow(A, j);
    } else {
      var k := K - 1;
      var e, p, q := Identity(n)[k], Prefix(w, k), Prefix(w, k + 1);
      PrefixGrows(w, k + 1);
      DetLinearInRow(A, j, p, e, w[k]);
      assert q == AddMultiple(p, e, w[k]);
      DetPrefixRow(A, j, w, k);
      DetUnitRow(A, j, k);
      ExpandAlongUnfold(A, j, w, k + 1);
      LinearStep(Det(A[j := q]), Det(A[j := p]), Det(A[j := e]), w[k],
        ExpandAlong(A, j, w, k), ExpandAlong(A, j, w, k + 1), Cofactor(A, j, k));
    }
  }

  lemma {:induction false} ExpandAlongUnfold(A: Grid, j: nat, w: seq<Fraction>, K: nat)
    requires IsSquare(A) && j < |A| && |w| == |A| && 0 < K <= |A|
    ensures ExpandAlong(A, j, w, K) == ExpandAlong(A, j, w, K - 1) + w[K - 1] * Cofactor(A, j, K - 1)
  {
  }

  /** The arithmetic of one step of `DetPrefixRow`. */
  lemma {:induction false} LinearStep(d: Fraction, p: Fraction, u: Fraction, m: Fraction, s: Fraction, s': Fraction, c: Fraction)
    requires d == p + m * u && p == s && u == c && s' == s + m * c
    ensures d == s'
  {
  }

  /** Replacing row `j` by `w` gives the expansion of `w` against the cofactors of row `j`. */
  lemma {:induction false} DetRowExpansion(A: Grid, j: nat, w: seq<Fraction>)
    requires IsSquare(A) && j < |A| && |w| == |A|
    ensures Det(A[j := w]) == ExpandAlong(A, j, w, |A|)
  {
    DetPrefixRow(A, j, w, |A|);
    assert Prefix(w, |A|) == w;
  }

  /** Expansion along row `j`: row `j` against its own cofactors gives the determinant. */
  lemma {:induction false} OwnCofactors(A: Grid, j: nat)
    requires IsSquare(A) && j < |A|
    ensures ExpandAlong(A, j, A[j], |A|) == Det(A)
  {
    DetRowExpansion(A, j, A[j]);
    assert A[j := A[j]] == A;
  }

  /** Another row against the cofactors of row `j` gives zero. */
  lemma {:induction false} AlienCofactors(A: Grid, i: nat, j: nat)
    requires IsSquare(A) && i < |A| && j < |A| && i != j
    ensures ExpandAlong(A, j, A[i], |A|) == 0.0
  {
    DetRowExpansion(A, j, A[i]);
    if i < j {
      DetEqualRows(A[j := A[i]], i, j);
    } else {
      DetEqualRows(A[j := A[i]], j, i);
    }
  }

  // ---------------------------------------------------------------------
  // Transposition

  /**
   * Transposing leaves the determinant unchanged: expansion down column 0
   * of the transpose is expansion along row 0 of the original, term by
   * term, with the minors themselves transposed.
   */
  lemma {:induction false} DetTransposed(A: Grid)
    requires IsSquare(A)
    ensures Det(Transposed(A)) == Det(A)
    decreases |A|, 1, 0
  {
    var n := |A|;
    if n > 0 {
      DetSumTransposed(A, n);
      OwnCofactors(A, 0);
    }
  }

  /** The first `K` terms down column 0 of the transpose are the first `K` terms along row 0. */
  lemma {:induction false} DetSumTransposed(A: Grid, K: nat)
    requires IsSquare(A) && 0 < |A| && K <= |A|
    ensures DetSum(Transposed(A), K) == ExpandAlong(A, 0, A[0], K)
    decreases |A|, 0, K
  {
    if K > 0 {
      var n, r := |A|, K - 1;
      DetSumTransposed(A, r);
      var M := Minor(A, n, 0, r);
      MinorOfTransposed(A, 0, r);
      DetTransposed(M);
      TermOfTransposed(Sign(r), A[0][r], Det(M), DetTerm(Transposed(A), r), Cofactor(A, 0, r));
    }
  }

  lemma {:induction false} TermOfTransposed(sign: Fraction, a: Fraction, d: Fraction, t: Fraction, x: Fraction)
    requires t == sign * a * d && x == sign * d
    ensures t == a * x
  {
  }

  /** The cofactor of `(j, k)` in the transpose is the cofactor of `(k, j)` in the original. */
  lemma {:induction false} CofactorOfTransposed(A: Grid, j: nat, k: nat)
    requires IsSquare(A) && j < |A| && k < |A|
    ensures Cofactor(Transposed(A), j, k) == Cofactor(A, k, j)
  {
    MinorOfTransposed(A, k, j);
    DetTransposed(Minor(A, |A|, k, j));
    assert j + k == k + j;
  }

  // ---------------------------------------------------------------------
  // The inverse

  /** Entry `(k, j)` of the inverse is the cofactor of `(j, k)` over the determinant. */
  lemma {:induction false} InverseAt(A: Grid, k: nat, j: nat)
    requires IsSquare(A) && FastDet(A, |A|) != 0.0 && k < |A| && j < |A|
    ensures Inverse(A)[k][j] == Cofactor(A, j, k) * (1.0 / FastDet(A, |A|))
  {
    CofactorsAt(A, j, k);
  }

  /** A row against a column of scaled cofactors of row `j` is the scaled expansion along row `j`. */
  lemma {:induction false} DotCofactorColumn(A: Grid, i: nat, j: nat, col: seq<Fraction>, s: Fraction, K: nat)
    requires IsSquare(A) && i < |A| && j < |A| && |col| == |A| && K <= |A|
    requires forall k :: 0 <= k < |A| ==> col[k] == Cofactor(A, j, k) * s
    ensures Dot(A[i], col, K) == ExpandAlong(A, j, A[i], K) * s
  {
    if K > 0 {
      DotCofactorColumn(A, i, j, col, s, K - 1);
      var e := ExpandAlong(A, j, A[i], K - 1);
      var a, x := A[i][K - 1], Cofactor(A, j, K - 1);
      assert e * s + a * (x * s) == (e + a * x) * s;
    }
  }

  /** Every entry of the inverse is a cofactor over the determinant. */
  lemma {:induction false} InverseIsScaledAdjugate(A: Grid)
    requires IsSquare(A) && FastDet(A, |A|) != 0.0
    ensures IsScaledAdjugate(A, Inverse(A), 1.0 / FastDet(A, |A|))
  {
    forall k, j | 0 <= k < |A| && 0 <= j < |A|
      ensures Inverse(A)[k][j] == Cofactor(A, j, k) * (1.0 / FastDet(A, |A|))
    {
      InverseAt(A, k, j);
    }
  }

  /** `B` holds in entry `(k, j)` the cofactor of `(j, k)` of `A` times `s`. */
  ghost predicate IsScaledAdjugate(A: Grid, B: Grid, s: Fraction)
    requires IsSquare(A)
  {
    IsSquare(B) && |B| == |A| &&
    forall k, j :: 0 <= k < |A| && 0 <= j < |A| ==> B[k][j] == Cofactor(A, j, k) * s
  }

  /** Entry `(i, j)` of `A` times a scaled adjugate: row `i` expanded against the cofactors of row `j`, scaled. */
  lemma {:induction false} ProductAdjugateExpands(A: Grid, B: Grid, s: Fraction, i: nat, j: nat)
    requires IsSquare(A) && IsScaledAdjugate(A, B, s) && i < |A| && j < |A|
    ensures Product(A, B, |A|)[i][j] == ExpandAlong(A, j, A[i], |A|) * s
  {
    DotCofactorColumn(A, i, j, Column(B, j), s, |A|);
  }

  lemma {:induction false} ProductAdjugateAt(A: Grid, B: Grid, s: Fraction, i: nat, j: nat)
    requires IsSquare(A) && IsScaledAdjugate(A, B, s) && Det(A) != 0.0 && s == 1.0 / Det(A) && i < |A| && j < |A|
    ensures Product(A, B, |A|)[i][j] == if i == j then 1.0 else 0.0
  {
    var e := ExpandAlong(A, j, A[i], |A|);
    ProductAdjugateExpands(A, B, s, i, j);
    if i == j {
      OwnCofactors(A, j);
      QuotientOfItself(e, Det(A), s);
    } else {
      AlienCofactors(A, i, j);
    }
  }

  lemma {:induction false} QuotientOfItself(e: Fraction, d: Fraction, s: Fraction)
    requires d != 0.0 && e == d && s == 1.0 / d
    ensures e * s == 1.0
  {
  }

  /** A matrix times its adjugate over its nonzero determinant is the identity. */
  lemma {:induction false} AdjugateIsRightInverse(A: Grid, B: Grid, s: Fraction)
    requires IsSquare(A) && IsScaledAdjugate(A, B, s) && Det(A) != 0.0 && s == 1.0 / Det(A)
    ensures Product(A, B, |A|) == Identity(|A|)
  {
    var n := |A|;
    forall i, j | 0 <= i < n && 0 <= j < n
      ensures Product(A, B, n)[i][j] == Identity(n)[i][j]
    {
      ProductAdjugateAt(A, B, s, i, j);
    }
    GridsEqual(Product(A, B, n), Identity(n), n, n);
  }

  /** A matrix times its adjugate inverse is the identity. */
  lemma {:induction false} InverseIsRightInverse(A: Grid)
    requires IsSquare(A) && FastDet(A, |A|) != 0.0
    ensures Product(A, Inverse(A), |A|) == Identity(|A|)
  {
    InverseIsScaledAdjugate(A);
    FastDetIsDet(A);
    AdjugateIsRightInverse(A, Inverse(A), 1.0 / FastDet(A, |A|));
  }

  /** The transpose of the identity is the identity. */
  lemma {:induction false} IdentityTransposed(n: nat)
    ensures Transposed(Identity(n)) == Identity(n)
  {
    GridsEqual(Transposed(Identity(n)), Identity(n), n, n);
  }

  /** Transposing a scaled adjugate gives a scaled adjugate of the transpose. */
  lemma {:induction false} TransposedAdjugate(A: Grid, B: Grid, s: Fraction)
    requires IsSquare(A) && IsScaledAdjugate(A, B, s)
    ensures IsScaledAdjugate(Transposed(A), Transposed(B), s)
  {
    var n, T, C := |A|, Transposed(A), Transposed(B);
    forall k, j | 0 <= k < n && 0 <= j < n
      ensures C[k][j] == Cofactor(T, j, k) * s
    {
      CofactorOfTransposed(A, j, k);
    }
  }

  /**
   * A scaled adjugate over a nonzero determinant times the matrix is the
   * identity: transpose the right-inverse identity of the transpose,
   * whose determinant is the same.
   */
  lemma {:induction false} AdjugateIsLeftInverse(A: Grid, B: Grid, s: Fraction)
    requires IsSquare(A) && IsScaledAdjugate(A, B, s) && Det(A) != 0.0 && s == 1.0 / Det(A)
    ensures Product(B, A, |A|) == Identity(|A|)
  {
    var n := |A|;
    DetTransposed(A);
    TransposedAdjugate(A, B, s);
    AdjugateIsRightInverse(Transposed(A), Transposed(B), s);
    TransposedProduct(B, A);
    TransposedTwice(Product(B, A, n));
    IdentityTransposed(n);
  }

  /** The adjugate inverse times the matrix is the identity too. */
  lemma {:induction false} InverseIsLeftInverse(A: Grid)
    requires IsSquare(A) && FastDet(A, |A|) != 0.0
    ensures Product(Inverse(A), A, |A|) == Identity(|A|)
  {
    InverseIsScaledAdjugate(A);
    FastDetIsDet(A);
    AdjugateIsLeftInverse(A, Inverse(A), 1.0 / FastDet(A, |A|));
  }
}
