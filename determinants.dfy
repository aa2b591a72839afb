/**
 * Determinants by cofactor expansion down the first column.
 *
 * `Det` is the reference determinant (the expansion carried down to the
 * empty matrix, whose determinant is 1).  `CofactorDet` is what the
 * recursive `determinant()` of the matrix class computes: the same
 * expansion for sizes 3 and up, `ad - bc` for size 2, and 0 for sizes 0
 * and 1, where neither of its branches applies.
 *
 * The lemmas establish the facts that elimination rests on: the
 * determinant is linear in each row, vanishes when two rows are equal,
 * changes sign when two adjacent rows swap, is unchanged by adding a
 * multiple of one row to another, and is the diagonal product for an
 * upper-triangular matrix.
 */
module Determinants {
  import opened Grids

  /** `(-1)^i` */
  function Sign(i: nat): Fraction {
    if i % 2 == 0 then 1.0 else -1.0
  }

  lemma {:induction false} SignNext(i: nat)
    ensures Sign(i + 1) == -Sign(i)
  {
  }

  /** The reference determinant. */
  function Det(A: Grid): Fraction
    requires IsSquare(A)
    decreases |A|, 2, 0
  {
    if |A| == 0 then 1.0 else DetSum(A, |A|)
  }

  /** The first `k` terms of the expansion of `A` down column 0. */
  function DetSum(A: Grid, k: nat): Fraction
    requires IsSquare(A) && k <= |A|
    decreases |A|, 1, k
  {
    if k == 0 then 0.0 else DetSum(A, k - 1) + DetTerm(A, k - 1)
  }

  /** Term `r` of the expansion: `(-1)^r * A[r][0] * Det(minor(r, 0))`. */
  function DetTerm(A: Grid, r: nat): Fraction
    requires IsSquare(A) && r < |A|
    decreases |A|, 0, 0
  {
    Sign(r) * A[r][0] * Det(Minor(A, |A|, r, 0))
  }

  /**
   * The determinant as `determinant()` computes it: 0 unless the size is
   * at least 2, `ad - bc` for size 2, and the alternating expansion
   * down column 0 for sizes 3 and up.
   */
  function CofactorDet(A: Grid): Fraction
    requires IsSquare(A)
    decreases |A|, 1, 0
  {
    if |A| == 2 then A[0][0] * A[1][1] - A[0][1] * A[1][0]
    else if |A| >= 3 then CofactorSum(A, |A|)
    else 0.0
  }

  /** The accumulator of `determinant()` after rows `0 .. k-1` of the expansion. */
  function CofactorSum(A: Grid, k: nat): Fraction
    requires IsSquare(A) && k <= |A|
    decreases |A|, 0, k
  {
    if k == 0 then 0.0
    else
      var term := A[k - 1][0] * CofactorDet(Minor(A, |A|, k - 1, 0));
      if (k - 1) % 2 == 0 then CofactorSum(A, k - 1) + term
      else CofactorSum(A, k - 1) - term
  }

  /** One more row of the expansion in `determinant()`: added when its index is even, subtracted when odd. */
  lemma {:induction false} CofactorSumNext(A: Grid, k: nat, entry: Fraction, minorDet: Fraction)
    requires IsSquare(A) && k < |A|
    requires entry == A[k][0] && minorDet == CofactorDet(Minor(A, |A|, k, 0))
    ensures CofactorSum(A, k + 1) ==
      if k % 2 == 0 then CofactorSum(A, k) + entry * minorDet else CofactorSum(A, k) - entry * minorDet
  {
    CofactorSumUnfold(A, k);
  }

  lemma {:induction false} CofactorSumUnfold(A: Grid, k: nat)
    requires IsSquare(A) && k < |A|
    ensures CofactorSum(A, k + 1) ==
      if k % 2 == 0 then CofactorSum(A, k) + A[k][0] * CofactorDet(Minor(A, |A|, k, 0))
      else CofactorSum(A, k) - A[k][0] * CofactorDet(Minor(A, |A|, k, 0))
  {
  }

  // ---------------------------------------------------------------------
  // Sums of expansion terms

  /** Term-by-term linear combinations carry over to the partial sums. */
  lemma {:induction false} DetSumCombination(A0: Grid, A1: Grid, A2: Grid, a: Fraction, b: Fraction, k: nat)
    requires IsSquare(A0) && IsSquare(A1) && IsSquare(A2)
    requires |A0| == |A1| == |A2| && k <= |A0|
    requires forall r :: 0 <= r < k ==> DetTerm(A0, r) == a * DetTerm(A1, r) + b * DetTerm(A2, r)
    ensures DetSum(A0, k) == a * DetSum(A1, k) + b * DetSum(A2, k)
  {
    if k > 0 {
      DetSumCombination(A0, A1, A2, a, b, k - 1);
    }
  }

  /** A sum whose terms all vanish except possibly term `s` is that term. */
  lemma {:induction false} DetSumSingle(A: Grid, s: nat, k: nat)
    requires IsSquare(A) && k <= |A|
    requires forall r :: 0 <= r < k && r != s ==> DetTerm(A, r) == 0.0
    ensures DetSum(A, k) == if s < k then DetTerm(A, s) else 0.0
  {
    if k > 0 {
      DetSumSingle(A, s, k - 1);
    }
  }

  /** A sum whose only nonzero terms are two adjacent ones that cancel is zero. */
  lemma {:induction false} DetSumPair(A: Grid, s: nat, k: nat)
    requires IsSquare(A) && k <= |A| && s + 1 < |A|
    requires forall r :: 0 <= r < |A| && r != s && r != s + 1 ==> DetTerm(A, r) == 0.0
    requires DetTerm(A, s) + DetTerm(A, s + 1) == 0.0
    ensures DetSum(A, k) == if k == s + 1 then DetTerm(A, s) else 0.0
  {
    if k > 0 {
      DetSumPair(A, s, k - 1);
    }
  }

  // ---------------------------------------------------------------------
  // Linearity in one row

  /** The determinant is linear in row `t`. */
  lemma {:induction false} DetLinearInRow(A: Grid, t: nat, u: seq<Fraction>, v: seq<Fraction>, m: Fraction)
    requires IsSquare(A) && t < |A| && |u| == |A| && |v| == |A|
    ensures Det(A[t := AddMultiple(u, v, m)]) == Det(A[t := u]) + m * Det(A[t := v])
    decreases |A|, 2
  {
    var n := |A|;
    var A0, A1, A2 := A[t := AddMultiple(u, v, m)], A[t := u], A[t := v];
    assert IsSquare(A0) && IsSquare(A1) && IsSquare(A2);
    forall r | 0 <= r < n
      ensures DetTerm(A0, r) == 1.0 * DetTerm(A1, r) + m * DetTerm(A2, r)
    {
      DetTermLinearInRow(A, t, u, v, m, r);
    }
    DetSumCombination(A0, A1, A2, 1.0, m, n);
    assert Det(A0) == DetSum(A0, n);
    assert Det(A1) == DetSum(A1, n);
    assert Det(A2) == DetSum(A2, n);
  }

  /** Each term of the expansion is linear in row `t`. */
  lemma {:induction false} DetTermLinearInRow(A: Grid, t: nat, u: seq<Fraction>, v: seq<Fraction>, m: Fraction, r: nat)
    requires IsSquare(A) && t < |A| && |u| == |A| && |v| == |A| && r < |A|
    ensures DetTerm(A[t := AddMultiple(u, v, m)], r)
         == 1.0 * DetTerm(A[t := u], r) + m * DetTerm(A[t := v], r)
    decreases |A|, 1
  {
    if r == t {
      TermLinearOnRow(A, t, u, v, m);
    } else {
      TermLinearOffRow(A, t, u, v, m, r);
    }
  }

  /** The term of the row being varied: the minor does not involve that row. */
  lemma {:induction false} TermLinearOnRow(A: Grid, t: nat, u: seq<Fraction>, v: seq<Fraction>, m: Fraction)
    requires IsSquare(A) && t < |A| && |u| == |A| && |v| == |A|
    ensures DetTerm(A[t := AddMultiple(u, v, m)], t)
         == 1.0 * DetTerm(A[t := u], t) + m * DetTerm(A[t := v], t)
  {
    var n := |A|;
    var w := AddMultiple(u, v, m);
    MinorIgnoresRow(A, n, t, 0, w);
    MinorIgnoresRow(A, n, t, 0, u);
    MinorIgnoresRow(A, n, t, 0, v);
    var x := Det(Minor(A, n, t, 0));
    assert DetTerm(A[t := w], t) == Sign(t) * w[0] * x;
    assert DetTerm(A[t := u], t) == Sign(t) * u[0] * x;
    assert DetTerm(A[t := v], t) == Sign(t) * v[0] * x;
    Distribute(Sign(t), u[0], v[0], m, x);
  }

  /** The term of another row: its minor still holds the varied row, so recurse. */
  lemma {:induction false} TermLinearOffRow(A: Grid, t: nat, u: seq<Fraction>, v: seq<Fraction>, m: Fraction, r: nat)
    requires IsSquare(A) && t < |A| && |u| == |A| && |v| == |A| && r < |A| && r != t
    ensures DetTerm(A[t := AddMultiple(u, v, m)], r)
         == 1.0 * DetTerm(A[t := u], r) + m * DetTerm(A[t := v], r)
    decreases |A|, 0
  {
    var n := |A|;
    var w := AddMultiple(u, v, m);
    var B := Minor(A, n, r, 0);
    var t' := Unskip(t, r);
    MinorReplaceRow(A, n, t, w, r, 0);
    MinorReplaceRow(A, n, t, u, r, 0);
    MinorReplaceRow(A, n, t, v, r, 0);
    DropAtAddMultiple(u, v, m);
    DetLinearInRow(B, t', DropAt(u, 0), DropAt(v, 0), m);
    var a := A[r][0];
    var x1, x2 := Det(B[t' := DropAt(u, 0)]), Det(B[t' := DropAt(v, 0)]);
    assert DetTerm(A[t := w], r) == Sign(r) * a * (x1 + m * x2);
    assert DetTerm(A[t := u], r) == Sign(r) * a * x1;
    assert DetTerm(A[t := v], r) == Sign(r) * a * x2;
    Distribute2(Sign(r) * a, x1, x2, m);
  }

  lemma {:induction false} DropAtAddMultiple(u: seq<Fraction>, v: seq<Fraction>, m: Fraction)
    requires |u| == |v| > 0
    ensures DropAt(AddMultiple(u, v, m), 0) == AddMultiple(DropAt(u, 0), DropAt(v, 0), m)
  {
    forall j | 0 <= j < |u| - 1
      ensures DropAt(AddMultiple(u, v, m), 0)[j] == AddMultiple(DropAt(u, 0), DropAt(v, 0), m)[j]
    {
      assert Skip(j, 0) == j + 1;
    }
  }

  lemma {:induction false} Distribute2(c: Fraction, x1: Fraction, x2: Fraction, m: Fraction)
    ensures c * (x1 + m * x2) == 1.0 * (c * x1) + m * (c * x2)
  {
  }

  lemma {:induction false} Distribute(s: Fraction, p: Fraction, q: Fraction, m: Fraction, x: Fraction)
    ensures s * (p + q * m) * x == 1.0 * (s * p * x) + m * (s * q * x)
  {
  }

  /** A zero row makes the determinant zero. */
  lemma {:induction false} DetZeroRow(A: Grid, t: nat)
    requires IsSquare(A) && t < |A|
    ensures Det(A[t := seq(|A|, _ => 0.0)]) == 0.0
  {
    var z := seq(|A|, _ => 0.0);
    assert AddMultiple(z, z, 1.0) == z;
    DetLinearInRow(A, t, z, z, 1.0);
  }

  // ---------------------------------------------------------------------
  // Equal rows and swaps

  /** Two equal adjacent rows make the determinant zero. */
  lemma {:induction false} DetAdjacentEqualRows(A: Grid, i: nat)
    requires IsSquare(A) && i + 1 < |A| && A[i] == A[i + 1]
    ensures Det(A) == 0.0
    decreases |A|
  {
    var n := |A|;
    forall r | 0 <= r < n && r != i && r != i + 1
      ensures DetTerm(A, r) == 0.0
    {
      var B := Minor(A, n, r, 0);
      var i' := if r < i then i - 1 else i;
      assert B[i'] == B[i' + 1] by {
        assert Skip(i', r) == i && Skip(i' + 1, r) == i + 1;
      }
      DetAdjacentEqualRows(B, i');
    }
    assert Minor(A, n, i, 0) == Minor(A, n, i + 1, 0) by {
      forall k, j | 0 <= k < n - 1 && 0 <= j < n - 1
        ensures Minor(A, n, i, 0)[k][j] == Minor(A, n, i + 1, 0)[k][j]
      {
        if k == i {
          assert Skip(k, i) == i + 1 && Skip(k, i + 1) == i;
        } else {
          assert Skip(k, i) == Skip(k, i + 1);
        }
      }
      GridsEqual(Minor(A, n, i, 0), Minor(A, n, i + 1, 0), n - 1, n - 1);
    }
    SignNext(i);
    DetSumPair(A, i, n);
  }

  /** `A` with rows `i` and `j` exchanged. */
  function Swap(A: Grid, i: nat, j: nat): (S: Grid)
    requires i < |A| && j < |A|
    ensures |S| == |A|
  {
    A[i := A[j]][j := A[i]]
  }

  /** Exchanging two adjacent rows negates the determinant. */
  lemma {:induction false} DetSwapAdjacent(A: Grid, i: nat)
    requires IsSquare(A) && i + 1 < |A|
    ensures IsSquare(Swap(A, i, i + 1))
    ensures Det(Swap(A, i, i + 1)) == -Det(A)
  {
    var a, b := A[i], A[i + 1];
    var s := AddMultiple(a, b, 1.0);
    // both rows a + b: determinant 0, split in row i
    var X := A[i + 1 := s];
    DetLinearInRow(X, i, a, b, 1.0);
    assert X[i := s][i] == s && X[i := s][i + 1] == s;
    DetAdjacentEqualRows(X[i := s], i);
    // split X[i := a] = A[i + 1 := s] in row i + 1
    assert X[i := a] == A[i + 1 := s];
    DetLinearInRow(A, i + 1, a, b, 1.0);
    DetAdjacentEqualRows(A[i + 1 := a], i);
    assert A[i + 1 := b] == A;
    // split X[i := b] in row i + 1
    var Z := A[i := b];
    assert X[i := b] == Z[i + 1 := s];
    DetLinearInRow(Z, i + 1, a, b, 1.0);
    assert Z[i + 1 := a] == Swap(A, i, i + 1);
    DetAdjacentEqualRows(Z[i + 1 := b], i);
  }

  /** Two equal rows make the determinant zero. */
  lemma {:induction false} DetEqualRows(A: Grid, i: nat, j: nat)
    requires IsSquare(A) && i < j < |A| && A[i] == A[j]
    ensures Det(A) == 0.0
    decreases j - i
  {
    if j == i + 1 {
      DetAdjacentEqualRows(A, i);
    } else {
      var B := Swap(A, j - 1, j);
      DetSwapAdjacent(A, j - 1);
      DetEqualRows(B, i, j - 1);
    }
  }

  /** Adding a multiple of one row to another leaves the determinant unchanged. */
  lemma {:induction false} DetRowOp(A: Grid, o: nat, t: nat, m: Fraction)
    requires IsSquare(A) && o < |A| && t < |A| && o != t
    ensures IsSquare(RowOp(A, o, t, m))
    ensures Det(RowOp(A, o, t, m)) == Det(A)
  {
    DetLinearInRow(A, t, A[t], A[o], m);
    assert A[t := A[t]] == A;
    if o < t {
      DetEqualRows(A[t := A[o]], o, t);
    } else {
      DetEqualRows(A[t := A[o]], t, o);
    }
  }

  // ---------------------------------------------------------------------
  // Triangular matrices

  /** Every entry below the diagonal is zero. */
  predicate IsUpperTriangular(A: Grid)
    requires IsSquare(A)
  {
    forall i, j :: 0 <= j < i < |A| ==> A[i][j] == 0.0
  }

  /** `A[0][0] * ... * A[k-1][k-1]`, accumulated left to right from one. */
  function DiagProduct(A: Grid, k: nat): Fraction
    requires k <= |A| && forall i :: 0 <= i < k ==> k <= |A[i]|
  {
    if k == 0 then 1.0 else DiagProduct(A, k - 1) * A[k - 1][k - 1]
  }

  /** The diagonal product peels off its first factor. */
  lemma {:induction false} DiagProductPeel(A: Grid, k: nat)
    requires IsSquare(A) && k < |A|
    ensures DiagProduct(A, k + 1) == A[0][0] * DiagProduct(Minor(A, |A|, 0, 0), k)
  {
    if k > 0 {
      DiagProductPeel(A, k - 1);
    }
  }

  /** The determinant of an upper-triangular matrix is the product of its diagonal. */
  lemma {:induction false} DetUpperTriangular(A: Grid)
    requires IsSquare(A) && IsUpperTriangular(A)
    ensures Det(A) == DiagProduct(A, |A|)
    decreases |A|
  {
    var n := |A|;
    if n > 0 {
      var M := Minor(A, n, 0, 0);
      assert IsUpperTriangular(M);
      DetUpperTriangular(M);
      DetSumSingle(A, 0, n);
      DiagProductPeel(A, n - 1);
    }
  }

  /** The identity matrix has determinant 1. */
  lemma {:induction false} DetIdentity(n: nat)
    ensures Det(Identity(n)) == 1.0
  {
    var I := Identity(n);
    assert IsUpperTriangular(I);
    DetUpperTriangular(I);
    DiagProductOfIdentity(n, n);
  }

  lemma {:induction false} DiagProductOfIdentity(n: nat, k: nat)
    requires k <= n
    ensures DiagProduct(Identity(n), k) == 1.0
  {
    if k > 0 {
      DiagProductOfIdentity(n, k - 1);
    }
  }

  // ---------------------------------------------------------------------
  // `determinant()`'s recursion agrees with the reference from size 2 up

  lemma {:induction false} CofactorSumIsDetSum(A: Grid, k: nat)
    requires IsSquare(A) && |A| >= 3 && k <= |A|
    ensures CofactorSum(A, k) == DetSum(A, k)
    decreases |A|, 0, k
  {
    if k > 0 {
      var j := k - 1;
      var M := Minor(A, |A|, j, 0);
      CofactorSumIsDetSum(A, j);
      CofactorDetIsDet(M);
      CofactorSumNext(A, j, A[j][0], Det(M));
      DetSumUnfold(A, j);
      DetTermUnfold(A, j);
      SumsStep(j, CofactorSum(A, j), CofactorSum(A, j + 1), DetSum(A, j), DetSum(A, j + 1),
        DetTerm(A, j), A[j][0], Det(M));
    }
  }

  lemma {:induction false} DetSumUnfold(A: Grid, k: nat)
    requires IsSquare(A) && k < |A|
    ensures DetSum(A, k + 1) == DetSum(A, k) + DetTerm(A, k)
  {
  }

  lemma {:induction false} DetTermUnfold(A: Grid, r: nat)
    requires IsSquare(A) && r < |A|
    ensures DetTerm(A, r) == Sign(r) * A[r][0] * Det(Minor(A, |A|, r, 0))
  {
  }

  /** The arithmetic of one step of `CofactorSumIsDetSum`. */
  lemma {:induction false} SumsStep(k: nat, c: Fraction, c': Fraction, d: Fraction, d': Fraction, t: Fraction, a: Fraction, x: Fraction)
    requires c == d && d' == d + t && t == Sign(k) * a * x
    requires c' == if k % 2 == 0 then c + a * x else c - a * x
    ensures c' == d'
  {
  }


  /** For every square matrix of size at least 2, `determinant()` is the determinant. */
  lemma {:induction false} CofactorDetIsDet(A: Grid)
    requires IsSquare(A) && |A| >= 2
    ensures CofactorDet(A) == Det(A)
    decreases |A|, 1, 0
  {
    var n := |A|;
    if n == 2 {
      var M0, M1 := Minor(A, 2, 0, 0), Minor(A, 2, 1, 0);
      DetOfSingleton(M0);
      DetOfSingleton(M1);
      assert DetSum(A, 1) == DetTerm(A, 0);
      assert DetSum(A, 2) == DetTerm(A, 0) + DetTerm(A, 1);
      assert Sign(0) == 1.0 && Sign(1) == -1.0;
      assert M0[0][0] == A[1][1] && M1[0][0] == A[0][1];
    } else {
      CofactorSumIsDetSum(A, n);
    }
  }

  /** For a 1 by 1 matrix, `determinant()` yields 0 while the determinant is the entry. */
  lemma {:induction false} CofactorDetOfSingleton(x: Fraction)
    ensures CofactorDet([[x]]) == 0.0
    ensures Det([[x]]) == x
  {
    DetOfSingleton([[x]]);
  }

  lemma {:induction false} DetOfSingleton(A: Grid)
    requires IsSquare(A) && |A| == 1
    ensures Det(A) == A[0][0]
  {
    assert Det(Minor(A, 1, 0, 0)) == 1.0;
    assert DetSum(A, 1) == DetSum(A, 0) + DetTerm(A, 0);
    assert Det(A) == DetSum(A, 1) == DetTerm(A, 0);
    assert Sign(0) == 1.0;
  }
}
