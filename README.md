# JavaMatrix in Dafny

A model of `src/Matrix.java`, an exact-arithmetic matrix class whose entries
are rational `Fraction`s. A `Matrix` holds its `rows`, its `columns` and a
two-dimensional `data` array. Every operation builds a fresh matrix with
nested loops:

- the zero matrix and the row-major entries constructor;
- `makeIdentityMatrix`, `getColumn`, `transpose`, `minorMatrix` and `getEntry`;
- `add`, `subtract`, `scale` and `multiply`;
- `determinant`, which recurses by cofactor expansion down column 0;
- `fastDeterminant`, which triangularises with `rowOperation`,
  `findUsableRow`, `makeUsable`, `subtractDown` and `makeUpperTriangular`,
  then multiplies the diagonal;
- the adjugate `inverse`, `isEqualTo` and `isOrthogonal`.

The project has two layers.

- **Values** (modules `Grids`, `Determinants`, `Elimination`, `Adjugate`).
  - A matrix is a `Grid`, a sequence of rows of `Fraction`. `Fraction` is
    Dafny's exact `real`.
  - Each Java operation has a function that states what it computes, and the
    lemmas are proved about those functions.
  - `Det` is a reference determinant: expansion down column 0, with the empty
    matrix having determinant 1.
  - `CofactorDet` is what `determinant()` computes: 0 below size 2, `ad - bc`
    at size 2, and the alternating expansion from size 3 on.
  - `FastDet` is what `fastDeterminant()` computes.
- **The class** (module `Matrices`).
  - `Matrix` has the same three fields as the Java class. `data` is an
    `array2`.
  - Each Java method becomes a method with the same loops. Its `ensures`
    ties the result to the corresponding value function through
    `Contents()`, the entries read out as a `Grid`.

The main results:

- the elimination determinant equals the reference determinant for every
  square matrix (`FastDetIsDet`);
- it equals `determinant()` from size 2 on (`FastDetAgreesWithCofactorDet`);
- `makeUpperTriangular` leaves zeros below the diagonal
  (`UpperTriangularIsUpper`);
- a matrix multiplied by its `inverse()` is the identity whenever
  `fastDeterminant()` is nonzero, on either side (`InverseIsRightInverse`,
  `InverseIsLeftInverse`);
- transposing leaves the determinant unchanged (`DetTransposed`).

The model keeps these quirks of the code:

- `determinant()` of a 1 by 1 matrix is 0;
- `makeIdentityMatrix` of a non-square matrix is the zero matrix;
- `isEqualTo` answers true for matrices of different shapes.

## Model

| member | source | states |
|---|---|---|
| Matrices.Matrix.constructor | src/Matrix.java:16-27 | the new matrix has the given shape and every entry is zero |
| Matrices.Matrix.FromEntries | src/Matrix.java:30-46 | fails exactly when `rows * columns` differs from the number of entries; otherwise entry `(r, c)` is entry `r * columns + c` of the list |
| Grids.FlattenFromFlat | src/Matrix.java:39-45 | filling a matrix row by row from a list and reading it back row by row gives the list again |
| Grids.FromFlatFlatten | src/Matrix.java:39-45 | reading a matrix row by row and refilling one of its shape gives the matrix back |
| Grids.FlattenAt | src/Matrix.java:39-45 | entry `(i, j)` is at offset `i * n + j` of the row-major listing |
| Matrices.Matrix.Copy | src/Matrix.java:243-245 | a fresh matrix of the same shape and entries, sharing nothing with the receiver |
| Matrices.Matrix.MakeIdentityMatrix | src/Matrix.java:53-66 | ones on the diagonal when square, the zero matrix of the same shape otherwise |
| Matrices.Matrix.Add | src/Matrix.java:95-107 | fails exactly when the shapes differ; otherwise the entrywise sum |
| Matrices.Matrix.Subtract | src/Matrix.java:110-122 | fails exactly when the shapes differ; otherwise the entrywise difference |
| Grids.DifferenceUndoesSum | src/Matrix.java:95-122 | subtracting the addend after adding it gives the original matrix back |
| Grids.SumCommutes | src/Matrix.java:95-107 | addition does not depend on the order of its operands |
| Grids.ScaledDistributes | src/Matrix.java:149-159 | scaling a sum is the sum of the scaled matrices |
| Matrices.Matrix.Multiply | src/Matrix.java:125-146 | fails exactly when `columns` differs from the multiplicand's `rows`; otherwise a `rows` by `multiplicand.columns` matrix whose entry `(i, j)` is the dot product of row `i` and column `j` |
| Matrices.Matrix.RowTimesColumn | src/Matrix.java:134-141 | the inner accumulation loop yields the dot product of the row with the multiplicand's column |
| Grids.ProductIdentity | src/Matrix.java:125-146 | multiplying by the identity on the right gives the matrix back |
| Grids.DotCommutes | src/Matrix.java:138-140 | the accumulated sum of products does not depend on which factor comes first |
| Grids.TransposedProduct | src/Matrix.java:125-146 | the transpose of a product is the product of the transposes in reverse order |
| Matrices.Matrix.Scale | src/Matrix.java:149-159 | every entry multiplied by the scalar |
| Matrices.Matrix.GetColumn | src/Matrix.java:162-174 | one slot per row; slot `i` holds entry `(i, column)` when the column exists and is empty (Java `null`) otherwise |
| Matrices.Matrix.Transpose | src/Matrix.java:177-187 | for a square matrix, entry `(i, j)` of the result is entry `(j, i)` |
| Grids.TransposedTwice | src/Matrix.java:177-187 | transposing twice gives the matrix back |
| Grids.ColumnIsTransposedRow | src/Matrix.java:182 | row `c` of the transpose is column `c` of the original, as fetched by `getColumn` |
| Matrices.Matrix.MinorMatrix | src/Matrix.java:190-217 | fails exactly when the row or column is out of range; otherwise a `(rows-1)` by `(columns-1)` matrix whose entry `(i, j)` is the original entry with `i`, and `j`, shifted past the deleted row and column |
| Matrices.Matrix.KeptEntries | src/Matrix.java:195-206 | the first loop lists, row by row, exactly the entries outside the deleted row and column |
| Matrices.Matrix.FillKept | src/Matrix.java:195-206 | the buffer ends up holding, row by row, exactly the entries outside the deleted row and column |
| Matrices.Matrix.KeepRow | src/Matrix.java:200-205 | one kept row appends that row without the deleted column and advances the counter by `columns - 1` |
| Grids.MinorOfTransposed | src/Matrix.java:177-217 | the minor of the transpose is the transpose of the minor |
| Matrices.Matrix.Determinant | src/Matrix.java:220-239 | fails exactly when not square; otherwise zero below size 2, `ad - bc` at size 2, and the alternating sum of `data[row][0]` times the minor's determinant from size 3 on |
| Matrices.Matrix.ExpansionDown | src/Matrix.java:229-237 | the loop accumulates the alternating expansion down column 0 |
| Matrices.Matrix.MinorCofactorDet | src/Matrix.java:232-234 | the recursive call yields `determinant()` of the minor of `(row, 0)` |
| Determinants.CofactorSumNext | src/Matrix.java:231-235 | one turn of the loop adds the term of an even row and subtracts the term of an odd row |
| Determinants.CofactorDetIsDet | src/Matrix.java:220-239 | from size 2 on, `determinant()` is the determinant |
| Determinants.CofactorDetOfSingleton | src/Matrix.java:224-238 | for a 1 by 1 matrix `determinant()` gives 0, while the determinant is the entry |
| Determinants.CofactorSumIsDetSum | src/Matrix.java:229-237 | from size 3 on, every partial sum of the loop equals the partial sum of the reference expansion |
| Determinants.DetRowOp | src/Matrix.java:242-262 | adding a multiple of another row leaves the determinant unchanged |
| Determinants.DetLinearInRow | src/Matrix.java:220-239 | the determinant is linear in each row (a lemma behind `DetRowOp`) |
| Determinants.DetEqualRows | src/Matrix.java:220-239 | two equal rows make the determinant zero (a lemma behind `DetRowOp`) |
| Determinants.DetSwapAdjacent | src/Matrix.java:220-239 | exchanging two adjacent rows negates the determinant (a lemma behind `DetEqualRows`) |
| Determinants.DetIdentity | src/Matrix.java:53-66 | the identity matrix has determinant 1 |
| Determinants.DetUpperTriangular | src/Matrix.java:336-350 | an upper-triangular matrix has the product of its diagonal as determinant |
| Matrices.Matrix.RowOperation | src/Matrix.java:242-262 | row `operatingRowPos` becomes itself plus `multiplier` times row `operatorRowPos`; every other row is copied; the receiver is unchanged |
| Matrices.Matrix.CombinedRow | src/Matrix.java:247-257 | the copy, scale and add loops yield the operating row plus the multiple of the operator row |
| Matrices.Matrix.WriteRow | src/Matrix.java:259 | row `r` becomes the entries of `row`; every other entry keeps its value |
| Matrices.Matrix.RowCopy | src/Matrix.java:247-248 | a fresh array holding one row |
| Matrices.Matrix.ScaleEntries | src/Matrix.java:251-253 | every entry multiplied by the multiplier, in place |
| Matrices.Matrix.AddEntries | src/Matrix.java:255-257 | every entry of the other row added on, in place |
| Grids.RowOpUndo | src/Matrix.java:242-262 | adding `-m` times the same row undoes a row operation |
| Matrices.Matrix.GetEntry | src/Matrix.java:265-267 | the entry at that position |
| Matrices.Matrix.FindUsableRow | src/Matrix.java:271-281 | the first row below `rowPosition` with a nonzero entry in column `colPosition`, or -1 |
| Elimination.UsableRowFrom | src/Matrix.java:271-281 | the result is -1 exactly when no row from `k` on is usable; otherwise it is usable and no earlier row from `k` on is |
| Matrices.Matrix.MakeUsable | src/Matrix.java:285-294 | adds the usable row found below onto row `rowPosition` (multiplier 1), or returns a copy when there is none |
| Matrices.Matrix.SubtractDown | src/Matrix.java:298-316 | the whole elimination loop below the pivot, stopping at once when the pivot is zero |
| Matrices.Matrix.ClearBelow | src/Matrix.java:307-312 | one turn of the loop adds `-(data[rowBelow][c] / data[rowPosition][c])` times the pivot row to row `rowBelow` |
| Elimination.SubtractDownFromStep | src/Matrix.java:302-313 | with a nonzero pivot, a turn of the loop clears one row and moves on |
| Elimination.SubtractDownFromStop | src/Matrix.java:302-306 | at the last row or a zero pivot the loop leaves the matrix as it is |
| Elimination.SubtractDownFromClears | src/Matrix.java:298-316 | with a nonzero pivot, every entry below it in its column becomes zero and the rows above are kept |
| Elimination.SubtractDownFromKeepsDet | src/Matrix.java:298-316 | `subtractDown` leaves the determinant unchanged |
| Elimination.SubtractDownZeroPivot | src/Matrix.java:304-306 | a zero pivot returns the matrix unchanged |
| Elimination.PivotStepKeepsDet | src/Matrix.java:325-330 | repairing a zero pivot and clearing below it leaves the determinant unchanged |
| Elimination.PivotStepClears | src/Matrix.java:325-330 | one diagonal step clears one more column below the diagonal |
| Matrices.Matrix.MakeUpperTriangular | src/Matrix.java:319-334 | the result of running the diagonal steps in order |
| Matrices.Matrix.Pivot | src/Matrix.java:325-330 | one diagonal step: `makeUsable` when the pivot is zero, then `subtractDown`, giving the step function `PivotStep` |
| Elimination.TriangularPrefixKeepsDet | src/Matrix.java:319-334 | the triangularisation leaves the determinant unchanged |
| Elimination.UpperTriangularIsUpper | src/Matrix.java:319-334 | the result has only zeros below the diagonal |
| Matrices.Matrix.FastDeterminant | src/Matrix.java:336-350 | the product of the diagonal of the triangularised matrix |
| Elimination.FastDetIsDet | src/Matrix.java:336-350 | the elimination determinant is the determinant, for every square matrix |
| Elimination.FastDetAgreesWithCofactorDet | src/Matrix.java:336-350 | `fastDeterminant()` equals `determinant()` for every square matrix of size 2 or more |
| Matrices.Matrix.Inverse | src/Matrix.java:352-376 | fails exactly when `fastDeterminant()` is zero; otherwise the transposed checkerboard-signed matrix of minor determinants, scaled by one over the determinant |
| Matrices.Matrix.SignCheckerboard | src/Matrix.java:363-369 | every entry whose row and column differ in parity changes sign, and no other entry changes |
| Matrices.Matrix.MinorDeterminants | src/Matrix.java:355-362 | entry `(i, j)` is `fastDeterminant()` of the minor of `(i, j)` |
| Adjugate.CheckerboardIsSign | src/Matrix.java:364-370 | the sign applied to entry `(r, c)` is `(-1)^(r+c)` |
| Adjugate.CofactorsAt | src/Matrix.java:355-370 | each entry of the signed matrix of minors is the cofactor of that position |
| Adjugate.InverseAt | src/Matrix.java:352-376 | entry `(k, j)` of the inverse is the cofactor of `(j, k)` over the determinant |
| Adjugate.DetRowExpansion | src/Matrix.java:352-376 | replacing row `j` by `w` gives `w` expanded against the cofactors of row `j` |
| Adjugate.OwnCofactors | src/Matrix.java:352-376 | a row against its own cofactors gives the determinant |
| Adjugate.AlienCofactors | src/Matrix.java:352-376 | a row against the cofactors of another row gives zero |
| Adjugate.InverseIsScaledAdjugate | src/Matrix.java:352-376 | the inverse is the adjugate (transposed cofactors) scaled by one over the determinant |
| Adjugate.ProductAdjugateAt | src/Matrix.java:352-376 | entry `(i, j)` of a matrix times its adjugate over its nonzero determinant is 1 on the diagonal and 0 elsewhere |
| Adjugate.AdjugateIsRightInverse | src/Matrix.java:352-376 | a matrix times its adjugate over its nonzero determinant is the identity |
| Adjugate.InverseIsRightInverse | src/Matrix.java:352-376 | a matrix times its inverse is the identity whenever `fastDeterminant()` is nonzero |
| Adjugate.DetTransposed | src/Matrix.java:177-187 | transposing a square matrix leaves its determinant unchanged |
| Adjugate.DetSumTransposed | src/Matrix.java:177-187 | the partial expansion down column 0 of the transpose equals the partial expansion along row 0 of the original |
| Adjugate.CofactorOfTransposed | src/Matrix.java:177-217 | the cofactor of `(j, k)` in the transpose is the cofactor of `(k, j)` in the original |
| Adjugate.TransposedAdjugate | src/Matrix.java:372 | transposing a scaled adjugate gives a scaled adjugate of the transposed matrix |
| Adjugate.AdjugateIsLeftInverse | src/Matrix.java:352-376 | a scaled adjugate over a nonzero determinant, times the matrix, is the identity |
| Adjugate.InverseIsLeftInverse | src/Matrix.java:352-376 | the inverse times the matrix is the identity whenever `fastDeterminant()` is nonzero |
| Matrices.Matrix.IsEqualTo | src/Matrix.java:379-390 | true exactly when the shapes differ or every entry agrees |
| Matrices.Matrix.IsOrthogonal | src/Matrix.java:393-399 | true exactly when the matrix times its transpose is the identity |

## Left out

- `getRandomNumber`, `randomize` (src/Matrix.java:48-78): they draw from
  `java.util.Random`, so they are not modelled.
- `showSelf` (src/Matrix.java:80-92): console output only.
- `Fraction` is not part of this model. Entries are exact rationals (`real`):
  - gcd reduction, sign normalisation and `getString` have no counterpart;
  - the numerator-is-zero test is `x == 0.0`;
  - `new Fraction(a, b)` is `a / b`.
- Java's sharing of rows after the shallow `Arrays.copyOf` is not modelled.
  Every method builds a fresh `array2`, and its lack of a `modifies` clause
  says the receiver is unchanged. None of the modelled methods writes into
  a shared row, so none of their results differs. `randomize` does write
  into the rows of `data` (src/Matrix.java:75), and in Java the results of
  `rowOperation`, `makeUsable` and `subtractDown` share those rows
  (src/Matrix.java:245, 287, 300), so they would see that change; the model
  does not capture it.
- Java `int` overflow of `rows * columns` and of the index arithmetic is not
  modelled: sizes are unbounded naturals.
- Matrices.Matrix.Transpose: requires a square matrix. With
  `1 <= rows < columns` the Java code throws an index exception; with
  `rows > columns >= 1` it returns a matrix of the receiver's shape holding
  `null` entries. With `rows == 0` or `columns == 0` the loops write nothing
  and it returns a matrix of the receiver's shape without failing.
- Matrices.Matrix.IsOrthogonal: requires a square matrix, because otherwise
  the Java code throws: inside `transpose` (src/Matrix.java:182) when
  `1 <= rows < columns`, and inside `multiply` (src/Matrix.java:126-127)
  when `rows > columns` or `rows == 0`.
- Matrices.Matrix.Inverse: requires a square matrix. A non-square receiver
  with at least one row fails inside `minorMatrix` or `fastDeterminant`. A
  `0` by `c` receiver with `c > 0` does not fail: `fastDeterminant` gives 1,
  the matrix of minors has no entries, and the Java code returns a `c` by
  `0` matrix; the model does not capture that case.
- Matrices.Matrix.FastDeterminant: requires `rows <= columns`, because
  otherwise the diagonal loop indexes past the last column and throws.
- Matrices.Matrix.RowOperation: requires both row indices in range; the
  Java code throws otherwise.
- Matrices.Matrix.GetEntry: requires the position in range; the Java code
  throws otherwise.
- Negative indices to `minorMatrix`, `findUsableRow`, `makeUsable` and
  `subtractDown` are not modelled: their index parameters are naturals.
  `getColumn` does take any integer.
- Matrices.Matrix.SubtractDown: requires the pivot column to exist when
  there is a row below the pivot. That is the only case where the Java code
  reads it.
- Matrices.Matrix.Inverse: reports the zero determinant as
  `DivisionByZero`, the quotient `1 / det` failing at src/Matrix.java:374.
  It is reported after the rest of the work, as in the code.
- Matrices.Matrix.MinorMatrix: its second loop (src/Matrix.java:208-215) is
  the row-major fill of the entries constructor, so the model calls
  `FromEntries` rather than repeating that loop.
- Determinants.Det: the product rule `det(A * B) = det(A) * det(B)` is not
  proved. It needs the fact that an alternating function linear in each row
  is fixed by its value at the identity, which the model does not develop;
  it proves linearity, alternation, invariance under transposition and the
  identity's determinant, but not that uniqueness step.
