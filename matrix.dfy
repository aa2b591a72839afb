/**
 * The matrix class: a fixed shape and a grid of fractions, with methods
 * that build new matrices from old ones.
 *
 * Each method follows its counterpart in `src/Matrix.java` loop for loop
 * and is proved against the value-level functions of `Grids`,
 * `Determinants`, `Elimination` and `Adjugate`.  Failures the Java code
 * reports with an exception it raises on purpose come back as `Err`;
 * indices the Java code simply assumes to be in range are preconditions.
 */
module Matrices {
  import opened Grids
  import opened Determinants
  import opened Elimination
  import Adjugate

  /** Why an operation refused its arguments. */
  datatype Error = ShapeMismatch | IndexOutOfRange | DivisionByZero

  datatype Result<T> = Ok(value: T) | Err(error: Error)

  /** An array slot that may be empty, as a Java array slot may hold `null`. */
  datatype Option<T> = None | Some(value: T)

  class Matrix {
    const rows: nat
    const columns: nat
    const data: array2<Fraction>

    ghost predicate Valid() {
      data.Length0 == rows && data.Length1 == columns
    }

    /** The entries, row by row. */
    ghost function Contents(): (A: Grid)
      reads data
      requires Valid()
      ensures IsShape(A, rows, columns)
    {
      seq(rows, i requires 0 <= i < rows reads data =>
        seq(columns, j requires 0 <= j < columns reads data => data[i, j]))
    }

    /** `Matrix(rows, columns)`: the zero matrix of that shape. */
    constructor (rows: nat, columns: nat)
      ensures Valid() && fresh(data)
      ensures this.rows == rows && this.columns == columns
      ensures Contents() == Zero(rows, columns)
    {
      this.rows := rows;
      this.columns := columns;
      data := new Fraction[rows, columns];
      new;
      for row := 0 to rows
        invariant forall i, j :: 0 <= i < row && 0 <= j < columns ==> data[i, j] == 0.0
      {
        for col := 0 to columns
          invariant forall i, j :: 0 <= i < row && 0 <= j < columns ==> data[i, j] == 0.0
          invariant forall j :: 0 <= j < col ==> data[row, j] == 0.0
        {
          data[row, col] := 0.0;
        }
      }
      GridsEqual(Contents(), Zero(rows, columns), rows, columns);
    }

    /**
     * `Matrix(rows, columns, entries)`: fails unless exactly `rows * columns`
     * entries are given, and otherwise reads them row by row.
     */
    static method FromEntries(rows: nat, columns: nat, entries: seq<Fraction>) returns (r: Result<Matrix>)
      ensures r.Err? <==> rows * columns != |entries|
      ensures r.Err? ==> r.error == ShapeMismatch
      ensures r.Ok? ==> fresh(r.value) && fresh(r.value.data) && r.value.Valid()
      ensures r.Ok? ==> r.value.rows == rows && r.value.columns == columns
      ensures r.Ok? ==> r.value.Contents() == FromFlat(rows, columns, entries)
    {
      if rows * columns != |entries| {
        return Err(ShapeMismatch);
      }
      ghost var A := FromFlat(rows, columns, entries);
      var m := new Matrix(rows, columns);
      var inputEntry := 0;
      for row := 0 to rows
        invariant inputEntry == row * columns
        invariant forall i, j :: 0 <= i < row && 0 <= j < columns ==> m.data[i, j] == A[i][j]
      {
        for col := 0 to columns
          invariant inputEntry == row * columns + col
          invariant forall i, j :: 0 <= i < row && 0 <= j < columns ==> m.data[i, j] == A[i][j]
          invariant forall j :: 0 <= j < col ==> m.data[row, j] == A[row][j]
        {
          RowMajorBound(row, col, rows, columns);
          m.data[row, col] := entries[inputEntry];
          inputEntry := inputEntry + 1;
        }
        assert (row + 1) * columns == row * columns + columns;
      }
      GridsEqual(m.Contents(), A, rows, columns);
      return Ok(m);
    }

    /** A new matrix with the same shape and entries (`Arrays.copyOf` of the data). */
    method Copy() returns (c: Matrix)
      requires Valid()
      ensures fresh(c) && fresh(c.data) && c.Valid()
      ensures c.rows == rows && c.columns == columns && c.Contents() == Contents()
    {
      c := new Matrix(rows, columns);
      for row := 0 to rows
        invariant forall i, j :: 0 <= i < row && 0 <= j < columns ==> c.data[i, j] == data[i, j]
      {
        for col := 0 to columns
          invariant forall i, j :: 0 <= i < row && 0 <= j < columns ==> c.data[i, j] == data[i, j]
          invariant forall j :: 0 <= j < col ==> c.data[row, j] == data[row, j]
        {
          c.data[row, col] := data[row, col];
        }
      }
      GridsEqual(c.Contents(), Contents(), rows, columns);
    }

    /** `makeIdentityMatrix()`: the identity of the same size when square, a zero matrix of the same shape otherwise. */
    method MakeIdentityMatrix() returns (m: Matrix)
      requires Valid()
      ensures fresh(m) && fresh(m.data) && m.Valid()
      ensures m.rows == rows && m.columns == columns
      ensures m.Contents() == IdentityOfShape(rows, columns)
    {
      m := new Matrix(rows, columns);
      ghost var I := IdentityOfShape(rows, columns);
      assert forall i, j :: 0 <= i < rows && 0 <= j < columns ==> m.data[i, j] == m.Contents()[i][j];
      if rows == columns {
        for row := 0 to rows
          invariant forall i, j :: 0 <= i < rows && 0 <= j < columns ==>
            m.data[i, j] == if i < row then I[i][j] else 0.0
        {
          for col := 0 to columns
            invariant forall i, j :: 0 <= i < rows && 0 <= j < columns ==>
              m.data[i, j] == if i < row || (i == row && j < col) then I[i][j] else 0.0
          {
            if row == col {
              m.data[row, col] := 1.0;
            }
          }
        }
      }
      GridsEqual(m.Contents(), I, rows, columns);
    }

    /** `add(addend)`: the entrywise sum; fails unless the shapes agree. */
    method Add(addend: Matrix) returns (r: Result<Matrix>)
      requires Valid() && addend.Valid()
      ensures r.Err? <==> rows != addend.rows || columns != addend.columns
      ensures r.Err? ==> r.error == ShapeMismatch
      ensures r.Ok? ==> fresh(r.value) && fresh(r.value.data) && r.value.Valid()
      ensures r.Ok? ==> r.value.rows == rows && r.value.columns == columns
      ensures r.Ok? ==> r.value.Contents() == Sum(Contents(), addend.Contents())
    {
      if rows != addend.rows || columns != addend.columns {
        return Err(ShapeMismatch);
      }
      var sum := new Matrix(rows, columns);
      for row := 0 to sum.rows
        invariant forall i, j :: 0 <= i < row && 0 <= j < columns ==> sum.data[i, j] == data[i, j] + addend.data[i, j]
      {
        for col := 0 to sum.columns
          invariant forall i, j :: 0 <= i < row && 0 <= j < columns ==> sum.data[i, j] == data[i, j] + addend.data[i, j]
          invariant forall j :: 0 <= j < col ==> sum.data[row, j] == data[row, j] + addend.data[row, j]
        {
          sum.data[row, col] := data[row, col] + addend.data[row, col];
        }
      }
      GridsEqual(sum.Contents(), Sum(Contents(), addend.Contents()), rows, columns);
      return Ok(sum);
    }

    /** `subtract(addend)`: the entrywise difference; fails unless the shapes agree. */
    method Subtract(addend: Matrix) returns (r: Result<Matrix>)
      requires Valid() && addend.Valid()
      ensures r.Err? <==> rows != addend.rows || columns != addend.columns
      ensures r.Err? ==> r.error == ShapeMismatch
      ensures r.Ok? ==> fresh(r.value) && fresh(r.value.data) && r.value.Valid()
      ensures r.Ok? ==> r.value.rows == rows && r.value.columns == columns
      ensures r.Ok? ==> r.value.Contents() == Difference(Contents(), addend.Contents())
    {
      if rows != addend.rows || columns != addend.columns {
        return Err(ShapeMismatch);
      }
      var difference := new Matrix(rows, columns);
      for row := 0 to difference.rows
        invariant forall i, j :: 0 <= i < row && 0 <= j < columns ==> difference.data[i, j] == data[i, j] - addend.data[i, j]
      {
        for col := 0 to difference.columns
          invariant forall i, j :: 0 <= i < row && 0 <= j < columns ==> difference.data[i, j] == data[i, j] - addend.data[i, j]
          invariant forall j :: 0 <= j < col ==> difference.data[row, j] == data[row, j] - addend.data[row, j]
        {
          difference.data[row, col] := data[row, col] - addend.data[row, col];
        }
      }
      GridsEqual(difference.Contents(), Difference(Contents(), addend.Contents()), rows, columns);
      return Ok(difference);
    }

    /** `scale(scalar)`: every entry times the scalar. */
    method Scale(scalar: Fraction) returns (s: Matrix)
      requires Valid()
      ensures fresh(s) && fresh(s.data) && s.Valid()
      ensures s.rows == rows && s.columns == columns
      ensures s.Contents() == Scaled(Contents(), scalar)
    {
      s := new Matrix(rows, columns);
      for row := 0 to rows
        invariant forall i, j :: 0 <= i < row && 0 <= j < columns ==> s.data[i, j] == data[i, j] * scalar
      {
        for col := 0 to columns
          invariant forall i, j :: 0 <= i < row && 0 <= j < columns ==> s.data[i, j] == data[i, j] * scalar
          invariant forall j :: 0 <= j < col ==> s.data[row, j] == data[row, j] * scalar
        {
          s.data[row, col] := data[row, col] * scalar;
        }
      }
      GridsEqual(s.Contents(), Scaled(Contents(), scalar), rows, columns);
    }

    /**
     * `getColumn(column)`: one slot per row, holding that row's entry in
     * the column; every slot stays empty when the column does not exist.
     */
    method GetColumn(column: int) returns (c: seq<Option<Fraction>>)
      requires Valid()
      ensures |c| == rows
      ensures 0 <= column < columns ==> forall i :: 0 <= i < rows ==> c[i] == Some(Contents()[i][column])
      ensures !(0 <= column < columns) ==> forall i :: 0 <= i < rows ==> c[i] == None
    {
      var resultArray := new Option<Fraction>[rows](_ => None);
      for row := 0 to rows
        invariant forall i :: 0 <= i < row ==>
          resultArray[i] == if 0 <= column < columns then Some(data[i, column]) else None
        invariant forall i :: row <= i < rows ==> resultArray[i] == None
      {
        for col := 0 to columns
          invariant forall i :: 0 <= i < row ==>
            resultArray[i] == if 0 <= column < columns then Some(data[i, column]) else None
          invariant forall i :: row < i < rows ==> resultArray[i] == None
          invariant resultArray[row] == if 0 <= column < col then Some(data[row, column]) else None
        {
          if col == column {
            resultArray[row] := Some(data[row, col]);
          }
        }
      }
      c := resultArray[..];
    }

    /** `multiply(multiplicand)`: the matrix product; fails unless `columns` equals the multiplicand's `rows`. */
    method Multiply(multiplicand: Matrix) returns (r: Result<Matrix>)
      requires Valid() && multiplicand.Valid()
      ensures r.Err? <==> columns != multiplicand.rows
      ensures r.Err? ==> r.error == ShapeMismatch
      ensures r.Ok? ==> fresh(r.value) && fresh(r.value.data) && r.value.Valid()
      ensures r.Ok? ==> r.value.rows == rows && r.value.columns == multiplicand.columns
      ensures r.Ok? ==> r.value.Contents() == Product(Contents(), multiplicand.Contents(), multiplicand.columns)
    {
      if columns != multiplicand.rows {
        return Err(ShapeMismatch);
      }
      ghost var P := Product(Contents(), multiplicand.Contents(), multiplicand.columns);
      var product := new Matrix(rows, multiplicand.columns);
      for row := 0 to rows
        invariant forall i, j :: 0 <= i < row && 0 <= j < multiplicand.columns ==> product.data[i, j] == P[i][j]
      {
        for col := 0 to multiplicand.columns
          invariant forall i, j :: 0 <= i < row && 0 <= j < multiplicand.columns ==> product.data[i, j] == P[i][j]
          invariant forall j :: 0 <= j < col ==> product.data[row, j] == P[row][j]
        {
          var result := RowTimesColumn(multiplicand, row, col);
          product.data[row, col] := result;
        }
      }
      GridsEqual(product.Contents(), P, rows, multiplicand.columns);
      return Ok(product);
    }

    /** The inner loop of `multiply`: row `row` of this matrix against column `col` of the multiplicand. */
    method RowTimesColumn(multiplicand: Matrix, row: nat, col: nat) returns (result: Fraction)
      requires Valid() && multiplicand.Valid() && columns == multiplicand.rows
      requires row < rows && col < multiplicand.columns
      ensures result == Dot(Contents()[row], Column(multiplicand.Contents(), col), columns)
    {
      var colData := multiplicand.GetColumn(col);
      ghost var u, v := Contents()[row], Column(multiplicand.Contents(), col);
      result := 0.0;
      for entry := 0 to columns
        invariant result == Dot(u, v, entry)
      {
        result := result + data[row, entry] * colData[entry].value;
      }
    }

    /** `transpose()`, for a square matrix: entry `(r, c)` of the result is entry `(c, r)`. */
    method Transpose() returns (t: Matrix)
      requires Valid() && rows == columns
      ensures fresh(t) && fresh(t.data) && t.Valid()
      ensures t.rows == rows && t.columns == columns
      ensures t.Contents() == Transposed(Contents())
    {
      ghost var T := Transposed(Contents());
      t := new Matrix(rows, columns);
      for row := 0 to rows
        invariant forall i, j :: 0 <= i < row && 0 <= j < columns ==> t.data[i, j] == T[i][j]
      {
        for col := 0 to columns
          invariant forall i, j :: 0 <= i < row && 0 <= j < columns ==> t.data[i, j] == T[i][j]
          invariant forall j :: 0 <= j < col ==> t.data[row, j] == T[row][j]
        {
          var column := GetColumn(row);
          t.data[row, col] := column[col].value;
        }
      }
      GridsEqual(t.Contents(), T, rows, columns);
    }

    /** `getEntry(row, col)`. */
    method GetEntry(row: nat, col: nat) returns (x: Fraction)
      requires Valid() && row < rows && col < columns
      ensures x == Contents()[row][col]
    {
      x := data[row, col];
    }

    /**
     * `isEqualTo(other)`: entrywise equality, and true as well whenever the
     * shapes differ (the comparison is only made for equal shapes).
     */
    method IsEqualTo(other: Matrix) returns (b: bool)
      requires Valid() && other.Valid()
      ensures b <==> rows != other.rows || columns != other.columns || Contents() == other.Contents()
    {
      if rows == other.rows && columns == other.columns {
        for row := 0 to rows
          invariant forall i, j :: 0 <= i < row && 0 <= j < columns ==> data[i, j] == other.data[i, j]
        {
          for col := 0 to columns
            invariant forall i, j :: 0 <= i < row && 0 <= j < columns ==> data[i, j] == other.data[i, j]
            invariant forall j :: 0 <= j < col ==> data[row, j] == other.data[row, j]
          {
            if data[row, col] != other.data[row, col] {
              assert Contents()[row][col] != other.Contents()[row][col];
              return false;
            }
          }
        }
        GridsEqual(Contents(), other.Contents(), rows, columns);
      }
      return true;
    }

    /**
     * `minorMatrix(entryRow, entryCol)`: fails unless the entry exists;
     * otherwise the matrix without that row and column.  The kept entries
     * are first listed row by row, then poured into the smaller matrix.
     */
    method MinorMatrix(entryRow: nat, entryCol: nat) returns (r: Result<Matrix>)
      requires Valid()
      ensures r.Err? <==> entryRow >= rows || entryCol >= columns
      ensures r.Err? ==> r.error == IndexOutOfRange
      ensures r.Ok? ==> fresh(r.value) && fresh(r.value.data) && r.value.Valid()
      ensures r.Ok? ==> r.value.rows == rows - 1 && r.value.columns == columns - 1
      ensures r.Ok? ==> r.value.Contents() == Minor(Contents(), columns, entryRow, entryCol)
    {
      if entryRow >= rows || entryCol >= columns {
        return Err(IndexOutOfRange);
      }
      ghost var M := Minor(Contents(), columns, entryRow, entryCol);
      var values := KeptEntries(entryRow, entryCol);
      FlattenLength(M, rows - 1, columns - 1);
      // the second loop pours the list into the smaller matrix row by row,
      // exactly as the constructor taking a list of entries does
      var minor := FromEntries(rows - 1, columns - 1, values);
      FromFlatFlatten(M, rows - 1, columns - 1);
      return Ok(minor.value);
    }

    /** The first loop of `minorMatrix`: the entries outside row `entryRow` and column `entryCol`, row by row. */
    method KeptEntries(entryRow: nat, entryCol: nat) returns (values: seq<Fraction>)
      requires Valid() && entryRow < rows && entryCol < columns
      ensures values == Flatten(Minor(Contents(), columns, entryRow, entryCol))
    {
      var buffer := new Fraction[(rows - 1) * (columns - 1)];
      FillKept(entryRow, entryCol, buffer);
      values := buffer[..];
    }

    /** The loop of `KeptEntries`, writing into `buffer`. */
    method FillKept(entryRow: nat, entryCol: nat, buffer: array<Fraction>)
      requires Valid() && entryRow < rows && entryCol < columns
      requires buffer.Length == (rows - 1) * (columns - 1)
      modifies buffer
      ensures buffer[..] == Flatten(Minor(Contents(), columns, entryRow, entryCol))
    {
      ghost var A := Contents();
      ghost var M := Minor(A, columns, entryRow, entryCol);
      var counter: nat := 0;
      ghost var k := 0;
      for row := 0 to rows
        invariant k == if row <= entryRow then row else row - 1
        invariant counter <= buffer.Length
        invariant buffer[..counter] == Flatten(M[..k])
      {
        // the entry row contributes nothing: every entry of it is skipped
        if row != entryRow {
          KeptRowFits(A, columns, entryRow, entryCol, row, k);
          counter := KeepRow(row, entryCol, buffer, counter);
          k := k + 1;
        }
      }
      assert M[..k] == M;
      FlattenLength(M, rows - 1, columns - 1);
      assert buffer[..] == buffer[..counter];
    }

    /** The inner loop of `minorMatrix` for a kept row: its entries outside column `entryCol`, appended at `start`. */
    method KeepRow(row: nat, entryCol: nat, buffer: array<Fraction>, start: nat) returns (counter: nat)
      requires Valid() && row < rows && entryCol < columns && start + (columns - 1) <= buffer.Length
      modifies buffer
      ensures counter == start + (columns - 1)
      ensures buffer[..counter] == old(buffer[..start]) + DropAt(Contents()[row], entryCol)
    {
      ghost var w := DropAt(Contents()[row], entryCol);
      counter := start;
      ghost var c := 0;
      for col := 0 to columns
        invariant c == if col <= entryCol then col else col - 1
        invariant counter == start + c
        invariant buffer[..counter] == old(buffer[..start]) + w[..c]
      {
        if col != entryCol {
          assert w[c] == data[row, col] by {
            assert Skip(c, entryCol) == col;
          }
          assert w[..c + 1] == w[..c] + [w[c]];
          buffer[counter] := data[row, col];
          counter := counter + 1;
          c := c + 1;
        }
      }
      assert w[..c] == w;
    }

    /** Kept row `row` is row `k` of the minor: it extends the listing of the rows before it and fits in the buffer. */
    static lemma {:induction false} KeptRowFits(A: Grid, n: nat, entryRow: nat, entryCol: nat, row: nat, k: nat)
      requires IsShape(A, |A|, n) && entryRow < |A| && entryCol < n && row < |A| && row != entryRow
      requires k == if row <= entryRow then row else row - 1
      ensures var M := Minor(A, n, entryRow, entryCol);
        k < |M| && |Flatten(M[..k])| == k * (n - 1) && k * (n - 1) + (n - 1) <= |M| * (n - 1) &&
        Flatten(M[..k + 1]) == Flatten(M[..k]) + DropAt(A[row], entryCol)
    {
      var M := Minor(A, n, entryRow, entryCol);
      FlattenLength(M[..k], k, n - 1);
      RowsFit(k, |M|, n - 1);
      assert M[k] == DropAt(A[row], entryCol) by {
        assert Skip(k, entryRow) == row;
      }
      FlattenSnoc(M, k);
    }

    /** Room for one more row of `n` entries after `k` full rows, when there are `m > k` rows in all. */
    static lemma RowsFit(k: nat, m: nat, n: nat)
      requires k < m
      ensures k * n + n <= m * n
    {
      assert m * n == (k + 1) * n + (m - k - 1) * n;
    }

    /**
     * `determinant()`: fails unless square; otherwise zero for sizes 0 and
     * 1, `ad - bc` for size 2, and the alternating expansion down the first
     * column, one minor at a time, for larger sizes.
     */
    method Determinant() returns (r: Result<Fraction>)
      requires Valid()
      ensures r == if rows != columns then Err(ShapeMismatch) else Ok(CofactorDet(Contents()))
      decreases rows, 2
    {
      if rows != columns {
        return Err(ShapeMismatch);
      }
      if rows == 2 {
        ghost var A := Contents();
        assert A[0][0] == data[0, 0] && A[1][1] == data[1, 1] && A[0][1] == data[0, 1] && A[1][0] == data[1, 0];
        var result := data[0, 0] * data[1, 1] - data[0, 1] * data[1, 0];
        assert result == CofactorDet(A);
        return Ok(result);
      }
      if rows >= 3 {
        var result := ExpansionDown();
        return Ok(result);
      }
      return Ok(0.0);
    }

    /** The loop of `determinant()` for sizes 3 and up: the signed terms down column 0. */
    method ExpansionDown() returns (result: Fraction)
      requires Valid() && rows == columns && rows >= 3
      ensures result == CofactorSum(Contents(), rows)
      decreases rows, 1
    {
      ghost var A := Contents();
      assert IsSquare(A);
      result := 0.0;
      for row := 0 to rows
        invariant result == CofactorSum(A, row)
      {
        var entry := data[row, 0];
        var minorDet := MinorCofactorDet(row);
        CofactorSumNext(A, row, entry, minorDet);
        if row % 2 == 0 {
          result := result + entry * minorDet;
        } else {
          result := result - entry * minorDet;
        }
      }
    }

    /** `minorMatrix(row, 0).determinant()` inside the loop of `determinant()`. */
    method MinorCofactorDet(row: nat) returns (minorDet: Fraction)
      requires Valid() && rows == columns && row < rows
      ensures minorDet == CofactorDet(Minor(Contents(), rows, row, 0))
      decreases rows, 0
    {
      var minor := MinorMatrix(row, 0);
      var d := minor.value.Determinant();
      minorDet := d.value;
    }

    /**
     * `rowOperation(operatorRowPos, operatingRowPos, multiplier)`: a new
     * matrix whose row `operatingRowPos` is that row plus `multiplier` times
     * row `operatorRowPos`; every other row is copied.
     */
    method RowOperation(operatorRowPos: nat, operatingRowPos: nat, multiplier: Fraction) returns (res: Matrix)
      requires Valid() && operatorRowPos < rows && operatingRowPos < rows
      ensures fresh(res) && fresh(res.data) && res.Valid()
      ensures res.rows == rows && res.columns == columns
      ensures res.Contents() == RowOp(Contents(), operatorRowPos, operatingRowPos, multiplier)
    {
      res := Copy();
      var operatingRow := CombinedRow(operatorRowPos, operatingRowPos, multiplier);
      res.WriteRow(operatingRowPos, operatingRow);
    }

    /** The last loop of `rowOperation`: row `r` becomes the entries of `row`, every other entry stays. */
    method WriteRow(r: nat, row: array<Fraction>)
      requires Valid() && r < rows && row.Length == columns
      modifies data
      ensures Contents() == old(Contents())[r := row[..]]
    {
      ghost var A := Contents();
      for entry := 0 to columns
        invariant forall i, j :: 0 <= i < rows && 0 <= j < columns ==>
          data[i, j] == if i == r && j < entry then row[j] else A[i][j]
      {
        data[r, entry] := row[entry];
      }
      GridsEqual(Contents(), A[r := row[..]], rows, columns);
    }

    /**
     * The row arithmetic of `rowOperation`: copies of both rows, the
     * operator row scaled by the multiplier, then added onto the other.
     */
    method CombinedRow(operatorRowPos: nat, operatingRowPos: nat, multiplier: Fraction) returns (operatingRow: array<Fraction>)
      requires Valid() && operatorRowPos < rows && operatingRowPos < rows
      ensures fresh(operatingRow)
      ensures operatingRow[..] == AddMultiple(Contents()[operatingRowPos], Contents()[operatorRowPos], multiplier)
    {
      var operatorRow := RowCopy(operatorRowPos);
      operatingRow := RowCopy(operatingRowPos);
      ScaleEntries(operatorRow, multiplier);
      AddEntries(operatingRow, operatorRow);
      ghost var w := AddMultiple(Contents()[operatingRowPos], Contents()[operatorRowPos], multiplier);
      assert forall j :: 0 <= j < columns ==> operatingRow[j] == w[j];
      assert operatingRow[..] == w;
    }

    /** A fresh copy of one row. */
    method RowCopy(row: nat) returns (a: array<Fraction>)
      requires Valid() && row < rows
      ensures fresh(a) && a[..] == Contents()[row]
    {
      a := new Fraction[columns](_ => 0.0);
      for entry := 0 to columns
        modifies a
        invariant forall j :: 0 <= j < entry ==> a[j] == data[row, j]
      {
        a[entry] := data[row, entry];
      }
      assert forall j :: 0 <= j < columns ==> Contents()[row][j] == data[row, j];
    }

    /** Every entry of `a` multiplied by `m`, in place. */
    static method ScaleEntries(a: array<Fraction>, m: Fraction)
      modifies a
      ensures forall j :: 0 <= j < a.Length ==> a[j] == old(a[j]) * m
    {
      for entry := 0 to a.Length
        invariant forall j :: 0 <= j < entry ==> a[j] == old(a[j]) * m
        invariant forall j :: entry <= j < a.Length ==> a[j] == old(a[j])
      {
        a[entry] := a[entry] * m;
      }
    }

    /** Every entry of `b` added onto the entry of `a` at the same place, in place. */
    static method AddEntries(a: array<Fraction>, b: array<Fraction>)
      requires a != b && b.Length == a.Length
      modifies a
      ensures forall j :: 0 <= j < a.Length ==> a[j] == old(a[j]) + b[j]
    {
      for entry := 0 to a.Length
        invariant forall j :: 0 <= j < entry ==> a[j] == old(a[j]) + b[j]
        invariant forall j :: entry <= j < a.Length ==> a[j] == old(a[j])
      {
        a[entry] := a[entry] + b[entry];
      }
    }

    /**
     * `findUsableRow(rowPosition, colPosition)`: the first row below
     * `rowPosition` whose entry in column `colPosition` is nonzero, or -1.
     */
    method FindUsableRow(rowPosition: nat, colPosition: nat) returns (found: int)
      requires Valid()
      ensures found == UsableRow(Contents(), rowPosition, colPosition)
    {
      ghost var A := Contents();
      var row := rowPosition + 1;
      while row < rows
        invariant rowPosition + 1 <= row
        invariant forall i :: rowPosition + 1 <= i < row && i < rows ==> !Usable(A, i, colPosition)
      {
        for col := 0 to columns
          invariant forall j :: 0 <= j < col ==> !(colPosition == j && data[row, j] != 0.0)
        {
          if colPosition == col && data[row, col] != 0.0 {
            assert Usable(A, row, colPosition);
            return row;
          }
        }
        row := row + 1;
      }
      return -1;
    }

    /**
     * `makeUsable(rowPosition, colPosition)`: the usable row below
     * `rowPosition`, if there is one, added onto row `rowPosition`.
     */
    method MakeUsable(rowPosition: nat, colPosition: nat) returns (usable: Matrix)
      requires Valid()
      ensures fresh(usable) && fresh(usable.data) && usable.Valid()
      ensures usable.rows == rows && usable.columns == columns
      ensures usable.Contents() == Elimination.MakeUsable(Contents(), columns, rowPosition, colPosition)
    {
      usable := Copy();
      var usableRowPosition := FindUsableRow(rowPosition, colPosition);
      if usableRowPosition >= 0 {
        usable := RowOperation(usableRowPosition, rowPosition, 1.0);
      }
    }

    /**
     * `subtractDown(rowPosition, colPosition)`: while the pivot is nonzero,
     * clear column `colPosition` in every row below the pivot row with a
     * row operation; stop at once on a zero pivot.
     */
    method SubtractDown(rowPosition: nat, colPosition: nat) returns (working: Matrix)
      requires Valid() && (rowPosition + 1 < rows ==> colPosition < columns)
      ensures fresh(working) && fresh(working.data) && working.Valid()
      ensures working.rows == rows && working.columns == columns
      ensures working.Contents() == Elimination.SubtractDown(Contents(), columns, rowPosition, colPosition)
    {
      ghost var goal := Elimination.SubtractDown(Contents(), columns, rowPosition, colPosition);
      working := Copy();
      var rowBelow := rowPosition + 1;
      while rowBelow < working.rows
        invariant fresh(working) && fresh(working.data) && working.Valid()
        invariant working.rows == rows && working.columns == columns
        invariant rowPosition < rowBelow
        invariant SubtractDownFrom(working.Contents(), columns, rowPosition, colPosition, rowBelow) == goal
        decreases rows - rowBelow
      {
        ghost var W := working.Contents();
        assert working.data[rowPosition, colPosition] == W[rowPosition][colPosition];
        if working.data[rowPosition, colPosition] == 0.0 {
          SubtractDownFromStop(W, columns, rowPosition, colPosition, rowBelow);
          return;
        }
        working := working.ClearBelow(rowPosition, colPosition, rowBelow);
        SubtractDownFromStep(W, columns, rowPosition, colPosition, rowBelow);
        rowBelow := rowBelow + 1;
      }
      SubtractDownFromStop(working.Contents(), columns, rowPosition, colPosition, rowBelow);
    }

    /** One turn of the loop of `subtractDown`: clear the entry of row `rowBelow` under a nonzero pivot. */
    method ClearBelow(rowPosition: nat, colPosition: nat, rowBelow: nat) returns (next: Matrix)
      requires Valid() && rowPosition < rows && rowBelow < rows && colPosition < columns
      requires data[rowPosition, colPosition] != 0.0
      ensures fresh(next) && fresh(next.data) && next.Valid()
      ensures next.rows == rows && next.columns == columns
      ensures next.Contents() == ClearEntry(Contents(), columns, rowPosition, colPosition, rowBelow)
    {
      assert data[rowPosition, colPosition] == Contents()[rowPosition][colPosition];
      var mult := data[rowBelow, colPosition] / data[rowPosition, colPosition];
      mult := mult * -1.0;
      next := RowOperation(rowPosition, rowBelow, mult);
    }

    /**
     * `makeUpperTriangular()`: for each diagonal entry in turn, repair a
     * zero pivot with `makeUsable` and then `subtractDown` below it.
     */
    method MakeUpperTriangular() returns (working: Matrix)
      requires Valid()
      ensures fresh(working) && fresh(working.data) && working.Valid()
      ensures working.rows == rows && working.columns == columns
      ensures working.Contents() == UpperTriangular(Contents(), columns)
    {
      ghost var A := Contents();
      working := Copy();
      for row := 0 to rows
        invariant fresh(working) && fresh(working.data) && working.Valid()
        invariant working.rows == rows && working.columns == columns
        invariant working.Contents() == TriangularPrefix(A, columns, row)
      {
        for col := 0 to columns
          invariant fresh(working) && fresh(working.data) && working.Valid()
          invariant working.rows == rows && working.columns == columns
          invariant working.Contents() == TriangularPrefix(A, columns, if row < col then row + 1 else row)
        {
          if row == col {
            TriangularPrefixStep(A, columns, row);
            working := working.Pivot(row);
          }
        }
      }
    }

    /** The body of `makeUpperTriangular` at the diagonal entry `(p, p)`: `makeUsable` on a zero pivot, then `subtractDown`. */
    method Pivot(p: nat) returns (next: Matrix)
      requires Valid() && p < rows && p < columns
      ensures fresh(next) && fresh(next.data) && next.Valid()
      ensures next.rows == rows && next.columns == columns
      ensures next.Contents() == PivotStep(Contents(), columns, p)
    {
      var working := this;
      assert data[p, p] == Contents()[p][p];
      if data[p, p] == 0.0 {
        working := MakeUsable(p, p);
      }
      next := working.SubtractDown(p, p);
    }

    /** `fastDeterminant()`, for at most as many rows as columns: the diagonal product after `makeUpperTriangular`. */
    method FastDeterminant() returns (d: Fraction)
      requires Valid() && rows <= columns
      ensures d == FastDet(Contents(), columns)
    {
      var working := Copy();
      working := working.MakeUpperTriangular();
      ghost var U := working.Contents();
      var result := 1.0;
      for row := 0 to working.rows
        invariant result == DiagProduct(U, row)
      {
        for col := 0 to working.rows
          invariant result == DiagProduct(U, if row < col then row + 1 else row)
        {
          if row == col {
            result := result * working.data[row, col];
          }
        }
      }
      return result;
    }

    /**
     * `inverse()`, for a square matrix: the minors' determinants, signed
     * in a checkerboard, transposed and scaled by one over the determinant;
     * a zero determinant fails in that last division.
     */
    method Inverse() returns (r: Result<Matrix>)
      requires Valid() && rows == columns
      ensures r.Err? <==> FastDet(Contents(), columns) == 0.0
      ensures r.Err? ==> r.error == DivisionByZero
      ensures r.Ok? ==> fresh(r.value) && fresh(r.value.data) && r.value.Valid()
      ensures r.Ok? ==> r.value.rows == rows && r.value.columns == columns
      ensures r.Ok? ==> r.value.Contents() == Adjugate.Inverse(Contents())
    {
      ghost var A := Contents();
      var originalDeterminant := FastDeterminant();
      var matrixOfMinors := MinorDeterminants();
      matrixOfMinors.SignCheckerboard();
      GridsEqual(matrixOfMinors.Contents(), Adjugate.Cofactors(A), rows, columns);
      var transposed := matrixOfMinors.Transpose();
      if originalDeterminant == 0.0 {
        return Err(DivisionByZero);
      }
      var scaled := transposed.Scale(1.0 / originalDeterminant);
      return Ok(scaled);
    }

    /** The second loop of `inverse()`: an entry whose row and column differ in parity changes sign. */
    method SignCheckerboard()
      requires Valid()
      modifies data
      ensures forall i, j :: 0 <= i < rows && 0 <= j < columns ==>
        data[i, j] == Adjugate.Checkerboard(i, j, old(data[i, j]))
    {
      for row := 0 to rows
        invariant forall i, j :: 0 <= i < rows && 0 <= j < columns ==>
          data[i, j] == if i < row then Adjugate.Checkerboard(i, j, old(data[i, j])) else old(data[i, j])
      {
        for col := 0 to columns
          invariant forall i, j :: 0 <= i < rows && 0 <= j < columns ==>
            data[i, j] ==
              if i < row || (i == row && j < col) then Adjugate.Checkerboard(i, j, old(data[i, j])) else old(data[i, j])
        {
          if (col % 2 != 0 && row % 2 == 0) || (col % 2 == 0 && row % 2 != 0) {
            data[row, col] := data[row, col] * -1.0;
          }
        }
      }
    }

    /** The first loop of `inverse()`: entry `(r, c)` is the elimination determinant of the minor of `(r, c)`. */
    method MinorDeterminants() returns (m: Matrix)
      requires Valid() && rows == columns
      ensures fresh(m) && fresh(m.data) && m.Valid()
      ensures m.rows == rows && m.columns == columns
      ensures forall i, j :: 0 <= i < rows && 0 <= j < columns ==>
        m.data[i, j] == FastDet(Minor(Contents(), columns, i, j), columns - 1)
    {
      ghost var A := Contents();
      m := new Matrix(columns, rows);
      for row := 0 to m.rows
        invariant forall i, j :: 0 <= i < row && 0 <= j < columns ==> m.data[i, j] == FastDet(Minor(A, columns, i, j), columns - 1)
      {
        for col := 0 to m.columns
          invariant forall i, j :: 0 <= i < row && 0 <= j < columns ==> m.data[i, j] == FastDet(Minor(A, columns, i, j), columns - 1)
          invariant forall j :: 0 <= j < col ==> m.data[row, j] == FastDet(Minor(A, columns, row, j), columns - 1)
        {
          var minor := MinorMatrix(row, col);
          var d := minor.value.FastDeterminant();
          m.data[row, col] := d;
        }
      }
    }

    /** `isOrthogonal()`, for a square matrix: whether the matrix times its transpose is the identity. */
    method IsOrthogonal() returns (b: bool)
      requires Valid() && rows == columns
      ensures b <==> Product(Contents(), Transposed(Contents()), columns) == Identity(rows)
    {
      var transposed := Transpose();
      var p := Multiply(transposed);
      var product := p.value;
      var blank := new Matrix(rows, columns);
      var identity := blank.MakeIdentityMatrix();
      b := product.IsEqualTo(identity);
    }
  }
}
