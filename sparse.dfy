/** The sparse matrix object: its dimensions, its row pointers and its
    lazily allocated column and value vectors, updated in place by `set`
    through the two splicing primitives, and the operations built on
    `get` and `set`.

    Conventions are those of the header: rows 1..m, columns 1..n, row
    pointers starting at 1. Element type `int`, zero is `0`. */
module Sparse {
  import opened Errors
  import Crs
  import Dense
  import Text

  class SparseMatrix {
    var m: nat
    var n: nat
    var rows: seq<nat>
    /** The column and value vectors; `None` until the first entry is
        stored. Removing the last entry leaves them present and empty. */
    var cols: Option<seq<nat>>
    var vals: Option<seq<int>>

    /** The three vectors as a value; an absent vector reads as empty. */
    function Storage(): Crs.Storage
      reads this
    {
      Crs.Storage(rows, if cols.Some? then cols.value else [], if vals.Some? then vals.value else [])
    }

    /** The storage invariant, and the column and value vectors are either
        both present or both absent. */
    ghost predicate Valid()
      reads this
    {
      && Crs.Valid(Storage(), m, n)
      && cols.Some? == vals.Some?
    }

    /** The column and value vectors are allocated exactly when an entry
        is stored. A matrix that has never had an entry removed keeps
        this; removing the last entry leaves allocated empty vectors. */
    ghost predicate AllocatedIffStored()
      reads this
    {
      vals.Some? <==> |Storage().cols| > 0
    }

    /** The m x n matrix the object denotes, 0-based. */
    ghost function Cells(): (d: seq<seq<int>>)
      reads this
      requires Valid()
      ensures |d| == m && forall i :: 0 <= i < m ==> |d[i]| == n
    {
      Crs.DenseOf(Storage(), m, n)
    }

    function RowCount(): nat
      reads this
    {
      m
    }

    function ColumnCount(): nat
      reads this
    {
      n
    }

    // -------------------------------------------------------------------
    // Creation

    /** The body of `construct` after its guard: m + 1 row pointers equal
        to 1 and no column or value vector. */
    constructor (rowCount: nat, columnCount: nat)
      requires 1 <= rowCount && 1 <= columnCount
      ensures Valid() && m == rowCount && n == columnCount
      ensures Storage() == Crs.Empty(rowCount) && cols.None? && vals.None?
      ensures Cells() == seq(rowCount, _ => seq(columnCount, _ => 0))
    {
      m := rowCount;
      n := columnCount;
      vals := None;
      cols := None;
      rows := seq(rowCount + 1, _ => 1);
      new;
      Crs.EmptyValid(rowCount, columnCount);
      Crs.DenseOfCells(Storage(), m, n, seq(rowCount, _ => seq(columnCount, _ => 0)));
    }

    /** `construct`: zero rows or zero columns are refused before anything
        is built. */
    static method Create(rowCount: nat, columnCount: nat) returns (r: Result<SparseMatrix>)
      ensures r.Err? <==> rowCount < 1 || columnCount < 1
      ensures r.Err? ==> r.error == InvalidDimensions
      ensures r.Ok? ==> && fresh(r.value) && r.value.Valid()
                        && r.value.m == rowCount && r.value.n == columnCount
                        && r.value.Storage() == Crs.Empty(rowCount)
                        && r.value.cols.None? && r.value.vals.None?
                        && r.value.Cells() == seq(rowCount, _ => seq(columnCount, _ => 0))
    {
      if rowCount < 1 || columnCount < 1 {
        return Err(InvalidDimensions);
      }
      var matrix := new SparseMatrix(rowCount, columnCount);
      return Ok(matrix);
    }

    /** The square constructor. */
    static method CreateSquare(size: nat) returns (r: Result<SparseMatrix>)
      ensures r.Err? <==> size < 1
      ensures r.Err? ==> r.error == InvalidDimensions
      ensures r.Ok? ==> && fresh(r.value) && r.value.Valid()
                        && r.value.m == size && r.value.n == size
                        && r.value.Storage() == Crs.Empty(size)
                        && r.value.cols.None? && r.value.vals.None?
                        && r.value.Cells() == seq(size, _ => seq(size, _ => 0))
    {
      r := Create(size, size);
    }

    /** The copy constructor (`deepCopy`): an independent object with the
        same dimensions and vectors; a matrix that has no column and value
        vectors yields a copy without them. */
    constructor Copy(matrix: SparseMatrix)
      ensures m == matrix.m && n == matrix.n && rows == matrix.rows
      ensures matrix.vals.Some? ==> cols == matrix.cols && vals == matrix.vals
      ensures matrix.vals.None? ==> cols.None? && vals.None?
      ensures matrix.Valid() ==> Valid() && Storage() == matrix.Storage() && Equals(this, matrix)
    {
      m := matrix.m;
      n := matrix.n;
      rows := matrix.rows;
      if matrix.vals.Some? {
        cols := matrix.cols;
        vals := matrix.vals;
      } else {
        cols := None;
        vals := None;
      }
    }

    /** The copy constructor as the header writes it: `deepCopy` only
        assigns the column and value vectors when the source has them, so
        a copy of a matrix without them keeps whatever its uninitialised
        pointers hold, given here as `leftCols` and `leftVals`. Unless those
        happen to be absent, the copy is not `==` to its source. */
    constructor CopyAsWritten(matrix: SparseMatrix, leftCols: Option<seq<nat>>, leftVals: Option<seq<int>>)
      ensures m == matrix.m && n == matrix.n && rows == matrix.rows
      ensures matrix.vals.Some? ==> cols == matrix.cols && vals == matrix.vals
      ensures matrix.vals.None? ==> cols == leftCols && vals == leftVals
      ensures matrix.vals.None? && leftVals.Some? ==> !Equals(this, matrix)
    {
      m := matrix.m;
      n := matrix.n;
      rows := matrix.rows;
      cols := leftCols;
      vals := leftVals;
      if matrix.vals.Some? {
        cols := matrix.cols;
        vals := matrix.vals;
      }
    }

    /** Assignment (`operator =` over `deepCopy`), with the absent vectors
        of a matrix without entries copied as absent. */
    method Assign(matrix: SparseMatrix)
      requires matrix.Valid()
      modifies this
      ensures Valid() && Equals(this, matrix)
      ensures m == old(matrix.m) && n == old(matrix.n) && Storage() == old(matrix.Storage())
    {
      if matrix != this {
        m := matrix.m;
        n := matrix.n;
        rows := matrix.rows;
        if matrix.vals.Some? {
          cols := matrix.cols;
          vals := matrix.vals;
        } else {
          cols := None;
          vals := None;
        }
      }
    }

    /** Assignment as the header writes it: after the old vectors are
        released, `deepCopy` only reassigns the column and value vectors
        when the source has them, so the target keeps its old (released)
        ones otherwise. Reading those as what they held, a target with
        entries assigned a matrix without any no longer satisfies the
        storage invariant. */
    method AssignAsWritten(matrix: SparseMatrix)
      requires matrix.Valid()
      modifies this
      ensures m == old(matrix.m) && n == old(matrix.n) && rows == old(matrix.rows)
      ensures old(matrix.vals.Some?) ==> cols == old(matrix.cols) && vals == old(matrix.vals)
      ensures old(matrix.vals.None?) ==> cols == old(cols) && vals == old(vals)
      ensures matrix != this && old(matrix.vals.None?) && old(|Storage().cols|) > 0 ==> !Valid()
    {
      if matrix != this {
        m := matrix.m;
        n := matrix.n;
        rows := matrix.rows;
        if matrix.vals.Some? {
          cols := matrix.cols;
          vals := matrix.vals;
        }
      }
    }

    // -------------------------------------------------------------------
    // Values

    /** `validateCoordinates`: rows 1..m and columns 1..n. */
    function CheckCoordinates(row: nat, col: nat): (e: Option<MatrixError>)
      reads this
      ensures e.None? <==> 1 <= row <= m && 1 <= col <= n
      ensures e.Some? ==> e.value == InvalidCoordinates
    {
      if row < 1 || col < 1 || row > m || col > n then Some(InvalidCoordinates) else None
    }

    /** `get`: scans row `row`'s slice left to right, stopping at the
        column or at the first column past it. */
    method Get(row: nat, col: nat) returns (r: Result<int>)
      requires Valid()
      ensures r.Err? <==> !(1 <= row <= m && 1 <= col <= n)
      ensures r.Err? ==> r.error == InvalidCoordinates
      ensures r.Ok? ==> r.value == Crs.Cell(Storage(), row, col)
    {
      var e := CheckCoordinates(row, col);
      if e.Some? {
        return Err(e.value);
      }
      ghost var s := Storage();
      var pos: nat := rows[row - 1] - 1;
      while pos < rows[row] - 1
        invariant Crs.Lo(s, row) <= pos <= Crs.Hi(s, row)
        invariant forall k :: Crs.Lo(s, row) <= k < pos ==> s.cols[k] < col
      {
        var currCol := cols.value[pos];
        if currCol == col {
          Crs.ScanStop(s, row, col, pos);
          Crs.PositionMatch(s, m, n, row, col);
          return Ok(vals.value[pos]);
        } else if currCol > col {
          break;
        }
        pos := pos + 1;
      }
      Crs.ScanStop(s, row, col, pos);
      Crs.PositionMatch(s, m, n, row, col);
      return Ok(0);
    }

    /** `get` at coordinates already known to be in range, as the
        arithmetic and the output operator call it: the value of the cell
        in the dense form. */
    method At(row: nat, col: nat) returns (v: int)
      requires Valid() && 1 <= row <= m && 1 <= col <= n
      ensures v == Cells()[row - 1][col - 1]
    {
      var g := Get(row, col);
      Crs.DenseOfAt(Storage(), m, n, row, col);
      v := g.value;
    }

    /** `set`: finds the first position of row `row`'s slice whose column
        is at least `col`, then overwrites, removes, inserts or does
        nothing. Returns the object itself for chaining. */
    method Set(val: int, row: nat, col: nat) returns (r: Result<SparseMatrix>)
      requires Valid()
      modifies this
      ensures Valid() && m == old(m) && n == old(n)
      ensures r.Err? <==> !(1 <= row <= m && 1 <= col <= n)
      ensures r.Err? ==> r.error == InvalidCoordinates && Storage() == old(Storage())
      ensures r.Err? ==> cols == old(cols) && vals == old(vals)
      ensures r.Ok? ==> r.value == this
      ensures r.Ok? ==> Storage() == Crs.SetEntry(old(Storage()), row, col, val)
      ensures r.Ok? ==> forall q, c :: 1 <= q <= m ==>
        Crs.Cell(Storage(), q, c) == if q == row && c == col then val else Crs.Cell(old(Storage()), q, c)
      ensures r.Ok? ==> (cols.Some? <==> old(cols.Some?) || (Crs.Cell(old(Storage()), row, col) == 0 && val != 0))
    {
      var e := CheckCoordinates(row, col);
      if e.Some? {
        return Err(e.value);
      }
      ghost var s := Storage();
      var pos, currCol := Seek(row, col);
      Store(pos, currCol, val, row, col);
      Crs.SetEntryCorrect(s, m, n, row, col, val);
      return Ok(this);
    }

    /** The decision of `set` once the scan has stopped at `pos`, having
        read `currCol` last: insert a new pair, remove the stored one,
        overwrite its value, or leave the vectors alone. */
    method Store(pos: nat, currCol: nat, val: int, row: nat, col: nat)
      requires Valid() && 1 <= row <= m && 1 <= col <= n
      requires pos == Crs.Position(Storage(), row, col)
      requires currCol == col <==> pos < Crs.Hi(Storage(), row) && Storage().cols[pos] == col
      modifies this
      ensures m == old(m) && n == old(n)
      ensures Storage() == Crs.SetEntry(old(Storage()), row, col, val)
      ensures cols.Some? == vals.Some?
      ensures cols.Some? <==> old(cols.Some?) || (Crs.Cell(old(Storage()), row, col) == 0 && val != 0)
    {
      Crs.PositionMatch(Storage(), m, n, row, col);
      if currCol != col {
        if val != 0 {
          Insert(pos, row, col, val);
        }
      } else if val == 0 {
        Remove(pos, row);
      } else {
        vals := Some(vals.value[pos := val]);
      }
    }

    /** The scan of `set`: walks row `row`'s slice from its start while
        the column is below `col`, and reports where it stopped and the
        last column it read (0 when it read none). */
    method Seek(row: nat, col: nat) returns (pos: nat, currCol: nat)
      requires Crs.Shaped(Storage()) && 1 <= row <= m && |rows| == m + 1 && 1 <= col
      ensures pos == Crs.Position(Storage(), row, col)
      ensures currCol == col <==> pos < Crs.Hi(Storage(), row) && Storage().cols[pos] == col
    {
      ghost var s := Storage();
      pos := rows[row - 1] - 1;
      currCol := 0;
      while pos < rows[row] - 1
        invariant Crs.Lo(s, row) <= pos <= Crs.Hi(s, row)
        invariant forall k :: Crs.Lo(s, row) <= k < pos ==> s.cols[k] < col
        invariant currCol < col
      {
        currCol := cols.value[pos];
        if currCol >= col {
          break;
        }
        pos := pos + 1;
      }
      Crs.ScanStop(s, row, col, pos);
    }

    // -------------------------------------------------------------------
    // Operations

    /** `multiply` by a vector: for each row, the sum of value times the
        vector entry at its column over the row's stored pairs; all zeros
        while nothing has been stored. */
    method MultiplyVector(x: seq<int>) returns (r: Result<seq<int>>)
      requires Valid()
      ensures r.Err? <==> |x| != n
      ensures r.Err? ==> r.error == InvalidDimensions
      ensures r.Ok? ==> r.value == Dense.MatrixVectorProduct(Cells(), x)
    {
      if n != |x| {
        return Err(InvalidDimensions);
      }
      ghost var s := Storage();
      ghost var goal := Dense.MatrixVectorProduct(Cells(), x);
      var result := seq(m, _ => 0);
      if vals.Some? {
        assert |goal| == m;
        for i := 0 to m
          invariant |result| == m
          invariant forall k :: 0 <= k < i ==> result[k] == goal[k]
        {
          var sum := RowDot(i, x);
          result := result[i := sum];
        }
        assert result == goal;
      } else {
        Crs.ProductOfEmpty(s, m, n, x);
      }
      return Ok(result);
    }

    /** One pass of the outer loop of `multiply` by a vector: row i + 1's
        entry of the product. */
    method RowDot(i: nat, x: seq<int>) returns (sum: int)
      requires Valid() && vals.Some? && i < m && |x| == n
      ensures sum == Dense.Dot(Cells()[i], x)
    {
      Crs.ColumnsBounded(Storage(), m, n);
      Crs.RowProductDense(Storage(), m, n, i + 1, x);
      sum := RowSum(i, x);
    }

    /** The inner loop of `multiply` by a vector for row i + 1: walks the
        row's slice between its two pointers, summing value times the
        vector entry at the value's column. */
    method RowSum(i: nat, x: seq<int>) returns (sum: int)
      requires Crs.Shaped(Storage()) && i < m && |rows| == m + 1
      requires cols.Some? && vals.Some?
      requires forall k :: 0 <= k < |Storage().cols| ==> 1 <= Storage().cols[k] <= |x|
      ensures sum == Crs.RowProduct(Crs.RowCols(Storage(), i + 1), Crs.RowVals(Storage(), i + 1), x)
    {
      ghost var s := Storage();
      ghost var lo := rows[i] - 1;
      sum := 0;
      var j := rows[i];
      while j < rows[i + 1]
        invariant rows[i] <= j <= rows[i + 1]
        invariant sum == Crs.RowProduct(s.cols[lo..j - 1], s.vals[lo..j - 1], x)
      {
        Crs.RowProductSnoc(s.cols, s.vals, x, lo, j);
        sum := sum + vals.value[j - 1] * x[cols.value[j - 1] - 1];
        j := j + 1;
      }
    }

    /** `add`: a fresh m x n matrix, filled in row-major order by `set`
        with the sums of the two operands' `get` values. */
    method Add(other: SparseMatrix) returns (r: Result<SparseMatrix>)
      requires Valid() && other.Valid()
      ensures r.Err? <==> m != other.m || n != other.n
      ensures r.Err? ==> r.error == InvalidDimensions
      ensures r.Ok? ==> && fresh(r.value) && r.value.Valid()
                        && r.value.m == m && r.value.n == n
                        && r.value.Cells() == Dense.MatrixSum(Cells(), other.Cells())
                        && (r.value.cols.Some? <==> Dense.HasNonZero(Dense.MatrixSum(Cells(), other.Cells())))
    {
      if m != other.m || n != other.n {
        return Err(InvalidDimensions);
      }
      ghost var goal := Dense.MatrixSum(Cells(), other.Cells());
      var result := new SparseMatrix(m, n);
      Crs.FillStart(m, n, goal);
      for i := 1 to m + 1
        invariant result.Valid() && result.m == m && result.n == n && result.AllocatedIffStored()
        invariant Crs.FilledUpTo(result.Storage(), m, n, goal, i, 1)
      {
        AddRow(other, result, goal, i);
      }
      Crs.FillFinished(result.Storage(), m, n, goal);
      return Ok(result);
    }

    /** One pass of the inner loop of `add`: cell (i, j) of the
        result receives the sum of the operands' cells. */
    method AddCell(other: SparseMatrix, result: SparseMatrix, ghost goal: seq<seq<int>>, i: nat, j: nat)
      requires Valid() && other.Valid() && result.Valid() && result != this && result != other
      requires other.m == m && other.n == n && result.m == m && result.n == n && 1 <= i <= m && 1 <= j <= n
      requires goal == Dense.MatrixSum(Cells(), other.Cells())
      requires Crs.FilledUpTo(result.Storage(), m, n, goal, i, j) && result.AllocatedIffStored()
      modifies result
      ensures result.Valid() && result.m == m && result.n == n && result.AllocatedIffStored()
      ensures Crs.FilledUpTo(result.Storage(), m, n, goal, i, j + 1)
    {
      var u := At(i, j);
      var w := other.At(i, j);
      result.Fill(goal, i, j, u + w);
    }

    /** The inner loop of `add` for row i. */
    method AddRow(other: SparseMatrix, result: SparseMatrix, ghost goal: seq<seq<int>>, i: nat)
      requires Valid() && other.Valid() && result.Valid() && result != this && result != other
      requires other.m == m && other.n == n && result.m == m && result.n == n && 1 <= i <= m
      requires goal == Dense.MatrixSum(Cells(), other.Cells())
      requires Crs.FilledUpTo(result.Storage(), m, n, goal, i, 1) && result.AllocatedIffStored()
      modifies result
      ensures result.Valid() && result.m == m && result.n == n && result.AllocatedIffStored()
      ensures Crs.FilledUpTo(result.Storage(), m, n, goal, i + 1, 1)
    {
      for j := 1 to n + 1
        invariant result.Valid() && result.m == m && result.n == n && result.AllocatedIffStored()
        invariant Crs.FilledUpTo(result.Storage(), m, n, goal, i, j)
      {
        AddCell(other, result, goal, i, j);
      }
      Crs.FillRowEnd(result.Storage(), m, n, goal, i);
    }

    /** `subtract`: as `add`, with the differences. */
    method Subtract(other: SparseMatrix) returns (r: Result<SparseMatrix>)
      requires Valid() && other.Valid()
      ensures r.Err? <==> m != other.m || n != other.n
      ensures r.Err? ==> r.error == InvalidDimensions
      ensures r.Ok? ==> && fresh(r.value) && r.value.Valid()
                        && r.value.m == m && r.value.n == n
                        && r.value.Cells() == Dense.MatrixDifference(Cells(), other.Cells())
                        && (r.value.cols.Some? <==> Dense.HasNonZero(Dense.MatrixDifference(Cells(), other.Cells())))
    {
      if m != other.m || n != other.n {
        return Err(InvalidDimensions);
      }
      ghost var goal := Dense.MatrixDifference(Cells(), other.Cells());
      var result := new SparseMatrix(m, n);
      Crs.FillStart(m, n, goal);
      for i := 1 to m + 1
        invariant result.Valid() && result.m == m && result.n == n && result.AllocatedIffStored()
        invariant Crs.FilledUpTo(result.Storage(), m, n, goal, i, 1)
      {
        SubtractRow(other, result, goal, i);
      }
      Crs.FillFinished(result.Storage(), m, n, goal);
      return Ok(result);
    }

    /** One pass of the inner loop of `subtract`: cell (i, j) of the
        result receives the difference of the operands' cells. */
    method SubtractCell(other: SparseMatrix, result: SparseMatrix, ghost goal: seq<seq<int>>, i: nat, j: nat)
      requires Valid() && other.Valid() && result.Valid() && result != this && result != other
      requires other.m == m && other.n == n && result.m == m && result.n == n && 1 <= i <= m && 1 <= j <= n
      requires goal == Dense.MatrixDifference(Cells(), other.Cells())
      requires Crs.FilledUpTo(result.Storage(), m, n, goal, i, j) && result.AllocatedIffStored()
      modifies result
      ensures result.Valid() && result.m == m && result.n == n && result.AllocatedIffStored()
      ensures Crs.FilledUpTo(result.Storage(), m, n, goal, i, j + 1)
    {
      var u := At(i, j);
      var w := other.At(i, j);
      result.Fill(goal, i, j, u - w);
    }

    /** The inner loop of `subtract` for row i. */
    method SubtractRow(other: SparseMatrix, result: SparseMatrix, ghost goal: seq<seq<int>>, i: nat)
      requires Valid() && other.Valid() && result.Valid() && result != this && result != other
      requires other.m == m && other.n == n && result.m == m && result.n == n && 1 <= i <= m
      requires goal == Dense.MatrixDifference(Cells(), other.Cells())
      requires Crs.FilledUpTo(result.Storage(), m, n, goal, i, 1) && result.AllocatedIffStored()
      modifies result
      ensures result.Valid() && result.m == m && result.n == n && result.AllocatedIffStored()
      ensures Crs.FilledUpTo(result.Storage(), m, n, goal, i + 1, 1)
    {
      for j := 1 to n + 1
        invariant result.Valid() && result.m == m && result.n == n && result.AllocatedIffStored()
        invariant Crs.FilledUpTo(result.Storage(), m, n, goal, i, j)
      {
        SubtractCell(other, result, goal, i, j);
      }
      Crs.FillRowEnd(result.Storage(), m, n, goal, i);
    }

    /** `multiply` by a matrix: a fresh m x other.n matrix whose cell (i, j)
        is set to the sum over k of get(i, k) * other.get(k, j). */
    method Multiply(other: SparseMatrix) returns (r: Result<SparseMatrix>)
      requires Valid() && other.Valid()
      ensures r.Err? <==> n != other.m
      ensures r.Err? ==> r.error == InvalidDimensions
      ensures r.Ok? ==> && fresh(r.value) && r.value.Valid()
                        && r.value.m == m && r.value.n == other.n
                        && r.value.Cells() == Dense.MatrixProduct(Cells(), other.Cells())
                        && (r.value.cols.Some? <==> Dense.HasNonZero(Dense.MatrixProduct(Cells(), other.Cells())))
    {
      if n != other.m {
        return Err(InvalidDimensions);
      }
      ghost var goal := Dense.MatrixProduct(Cells(), other.Cells());
      var result := new SparseMatrix(m, other.n);
      Crs.FillStart(m, other.n, goal);
      for i := 1 to m + 1
        invariant result.Valid() && result.m == m && result.n == other.n && result.AllocatedIffStored()
        invariant Crs.FilledUpTo(result.Storage(), m, other.n, goal, i, 1)
      {
        MultiplyRow(other, result, goal, i);
      }
      Crs.FillFinished(result.Storage(), m, other.n, goal);
      return Ok(result);
    }

    /** The middle loop of `multiply` by a matrix for row i. */
    method MultiplyRow(other: SparseMatrix, result: SparseMatrix, ghost goal: seq<seq<int>>, i: nat)
      requires Valid() && other.Valid() && result.Valid() && result != this && result != other
      requires other.m == n && result.m == m && result.n == other.n && 1 <= i <= m
      requires goal == Dense.MatrixProduct(Cells(), other.Cells())
      requires Crs.FilledUpTo(result.Storage(), m, other.n, goal, i, 1) && result.AllocatedIffStored()
      modifies result
      ensures result.Valid() && result.m == m && result.n == other.n && result.AllocatedIffStored()
      ensures Crs.FilledUpTo(result.Storage(), m, other.n, goal, i + 1, 1)
    {
      for j := 1 to other.n + 1
        invariant result.Valid() && result.m == m && result.n == other.n && result.AllocatedIffStored()
        invariant Crs.FilledUpTo(result.Storage(), m, other.n, goal, i, j)
      {
        var acc := Entry(other, i, j);
        result.Fill(goal, i, j, acc);
      }
      Crs.FillRowEnd(result.Storage(), m, other.n, goal, i);
    }

    /** The innermost loop of `multiply` by a matrix: the sum over k of
        get(i, k) * other.get(k, j) (k counted from 0 here, so k + 1 is
        read in pass k). */
    method Entry(other: SparseMatrix, i: nat, j: nat) returns (acc: int)
      requires Valid() && other.Valid() && n == other.m
      requires 1 <= i <= m && 1 <= j <= other.n
      ensures acc == Dense.MatrixProduct(Cells(), other.Cells())[i - 1][j - 1]
    {
      ghost var row := Cells()[i - 1];
      ghost var column := Dense.Column(other.Cells(), j - 1, n);
      acc := 0;
      for k := 0 to n
        invariant acc == Dense.Dot(row, column[..k])
      {
        var u := At(i, k + 1);
        var w := other.At(k + 1, j);
        acc := Dense.DotStep(acc, u, w, row, column, k);
      }
      assert column[..n] == column;
    }

    /** One `set` of the row-major fill that `add`, `subtract` and
        `multiply` perform on their fresh result: cell (i, j) receives
        goal's value there. The cell is still 0, so the write never
        removes a pair, and the vectors stay allocated exactly when an
        entry is stored. */
    method Fill(ghost goal: seq<seq<int>>, i: nat, j: nat, v: int)
      requires Valid() && Dense.Covers(goal, m, n) && 1 <= i <= m && 1 <= j <= n
      requires v == goal[i - 1][j - 1] && Crs.FilledUpTo(Storage(), m, n, goal, i, j)
      requires AllocatedIffStored()
      modifies this
      ensures Valid() && m == old(m) && n == old(n) && AllocatedIffStored()
      ensures Crs.FilledUpTo(Storage(), m, n, goal, i, j + 1)
    {
      Crs.FillStep(Storage(), m, n, goal, i, j);
      Crs.SetEntryCount(Storage(), m, n, i, j, v);
      var _ := Set(v, i, j);
    }

    /** `operator <<`: row by row, the values separated by single spaces,
        a line break after every row but the last (rows counted from 0
        here, so row i + 1 is written in pass i). */
    method ToText() returns (text: string)
      requires Valid()
      ensures text == Text.Render(Cells())
    {
      ghost var lines := Text.Lines(Cells());
      text := "";
      assert |lines| == m;
      for i := 0 to m
        invariant text == Text.Partial(lines, i)
      {
        var line := RowText(i);
        text := Text.WriteLine(text, line, lines, i, m);
      }
      Text.PartialAll(lines);
    }

    /** The inner loop of `operator <<` for row i + 1: the row's values with
        a space before every one but the first (rows and columns counted
        from 0 here, so column j + 1 is written in pass j). */
    method RowText(i: nat) returns (line: string)
      requires Valid() && i < m
      ensures line == Text.Lines(Cells())[i]
    {
      ghost var row := Cells()[i];
      assert |row| == n;
      line := "";
      for j := 0 to n
        invariant line == Text.RenderRow(row[..j])
      {
        var v := At(i + 1, j + 1);
        line := Text.WriteValue(line, v, row, j);
      }
      assert row[..n] == row;
      assert Text.Lines(Cells())[i] == Text.RenderRow(row);
    }

    /** The insert primitive: splices (col, val) into the vectors at
        `index`, allocating them on the first entry, then moves every row
        pointer after row `row` up by one. */
    method Insert(index: nat, row: nat, col: nat, val: int)
      requires Crs.Shaped(Storage()) && |rows| == m + 1 && 1 <= row <= m
      requires cols.Some? == vals.Some? && index <= |Storage().cols|
      modifies this
      ensures m == old(m) && n == old(n) && cols.Some? && vals.Some?
      ensures Storage() == Crs.Insert(old(Storage()), index, row, col, val)
    {
      ghost var s := Storage();
      if vals.None? {
        vals := Some([val]);
        cols := Some([col]);
      } else {
        vals := Some(Crs.InsertAt(vals.value, index, val));
        cols := Some(Crs.InsertAt(cols.value, index, col));
      }
      var i := row;
      while i <= m
        modifies this`rows
        invariant row <= i <= m + 1 && |rows| == m + 1
        invariant forall k :: 0 <= k < |rows| ==> rows[k] == if row <= k < i then s.rows[k] + 1 else s.rows[k]
      {
        rows := rows[i := rows[i] + 1];
        i := i + 1;
      }
    }

    /** The remove primitive: cuts the pair at `index` out of the vectors
        (which stay allocated, possibly empty), then moves every row
        pointer after row `row` down by one. */
    method Remove(index: nat, row: nat)
      requires Crs.Shaped(Storage()) && |rows| == m + 1 && 1 <= row <= m
      requires cols.Some? == vals.Some? && index < |Storage().cols|
      modifies this
      ensures m == old(m) && n == old(n) && cols.Some? && vals.Some?
      ensures Storage() == Crs.Remove(old(Storage()), index, row)
    {
      ghost var s := Storage();
      vals := Some(Crs.RemoveAt(vals.value, index));
      cols := Some(Crs.RemoveAt(cols.value, index));
      var i := row;
      while i <= m
        modifies this`rows
        invariant row <= i <= m + 1 && |rows| == m + 1
        invariant forall k :: 0 <= k < |rows| ==> rows[k] == if row <= k < i then s.rows[k] - 1 else s.rows[k]
      {
        rows := rows[i := rows[i] - 1];
        i := i + 1;
      }
    }
  }

  /** `operator ==`: the row pointer vectors are equal, and the column
      vectors, and the value vectors, are both absent or both present and
      equal. The column counts are not compared. */
  function Equals(a: SparseMatrix, b: SparseMatrix): (e: bool)
    reads a, b
    ensures a == b ==> e
    ensures e <==> && a.Storage() == b.Storage()
                   && a.cols.Some? == b.cols.Some? && a.vals.Some? == b.vals.Some?
    ensures a.Valid() && b.Valid() && a.m == b.m && a.n == b.n ==>
      (e <==> a.Cells() == b.Cells() && a.vals.Some? == b.vals.Some?)
  {
    SameCellsSameStorage(a, b);
    a.vals == b.vals && a.cols == b.cols && a.rows == b.rows
  }

  /** `operator !=`. */
  function NotEquals(a: SparseMatrix, b: SparseMatrix): (ne: bool)
    reads a, b
    ensures ne ==> a != b
    ensures ne <==> || a.Storage() != b.Storage()
                    || a.cols.Some? != b.cols.Some? || a.vals.Some? != b.vals.Some?
    ensures a.Valid() && b.Valid() && a.m == b.m && a.n == b.n ==>
      (ne <==> a.Cells() != b.Cells() || a.vals.Some? != b.vals.Some?)
  {
    !Equals(a, b)
  }

  /** Two valid matrices of the same dimensions that denote the same
      matrix hold the same vectors. */
  lemma SameCellsSameStorage(a: SparseMatrix, b: SparseMatrix)
    ensures a.Valid() && b.Valid() && a.m == b.m && a.n == b.n && a.Cells() == b.Cells() ==>
      a.Storage() == b.Storage()
  {
    if a.Valid() && b.Valid() && a.m == b.m && a.n == b.n && a.Cells() == b.Cells() {
      Crs.Canonical(a.Storage(), b.Storage(), a.m, a.n);
    }
  }

  /** `subtract(add(a, b), b)`: the result denotes a again, and it is
      `==` to a exactly when a's vectors are allocated just when a has a
      non-zero cell. The fresh difference never holds allocated empty
      vectors, while a matrix whose entries were all cleared by `set`
      does. */
  method AddThenSubtract(a: SparseMatrix, b: SparseMatrix) returns (d: SparseMatrix)
    requires a.Valid() && b.Valid() && a.m == b.m && a.n == b.n
    ensures d.Valid() && d.m == a.m && d.n == a.n && d.Cells() == a.Cells()
    ensures Equals(d, a) <==> (a.vals.Some? <==> Dense.HasNonZero(a.Cells()))
  {
    var sum := a.Add(b);
    var difference := sum.value.Subtract(b);
    d := difference.value;
    Dense.DifferenceOfSum(a.Cells(), b.Cells());
  }

  /** The 3 x 4 matrix [1 0 4 5; 2 -1 0 0; 0 0 3 2] built by seven chained
      `set` calls in row-major order on a fresh matrix: the three vectors
      it ends with, and its text form. */
  method StandardScenario() returns (s: Crs.Storage, text: string)
    ensures s == Crs.Storage([1, 4, 6, 8], [1, 3, 4, 1, 2, 3, 4], [1, 4, 5, 2, -1, 3, 2])
    ensures text == "1 0 4 5\n2 -1 0 0\n0 0 3 2"
  {
    var matrix := new SparseMatrix(3, 4);
    Crs.StandardStart();
    Crs.StandardWrite1();
    SetKnown(matrix, Crs.Standard0, Crs.Standard1, 1, 1, 1);
    Crs.StandardWrite2();
    SetKnown(matrix, Crs.Standard1, Crs.Standard2, 4, 1, 3);
    Crs.StandardWrite3();
    SetKnown(matrix, Crs.Standard2, Crs.Standard3, 5, 1, 4);
    Crs.StandardWrite4();
    SetKnown(matrix, Crs.Standard3, Crs.Standard4, 2, 2, 1);
    Crs.StandardWrite5();
    SetKnown(matrix, Crs.Standard4, Crs.Standard5, -1, 2, 2);
    Crs.StandardWrite6();
    SetKnown(matrix, Crs.Standard5, Crs.Standard6, 3, 3, 3);
    Crs.StandardWrite7();
    SetKnown(matrix, Crs.Standard6, Crs.Standard, 2, 3, 4);
    Crs.StandardCells();
    Text.RenderStandard();
    s := matrix.Storage();
    text := matrix.ToText();
  }

  /** A fresh 3 x 3 matrix written out, then the same matrix after
      three `set` calls put 7, 5 and 3 on the anti-diagonal. */
  method OutputScenario() returns (before: string, after: string)
    ensures before == "0 0 0\n0 0 0\n0 0 0"
    ensures after == "0 0 7\n0 5 0\n3 0 0"
  {
    var matrix := new SparseMatrix(3, 3);
    assert seq(3, _ => 0) == [0, 0, 0];
    assert matrix.Cells() == [[0, 0, 0], [0, 0, 0], [0, 0, 0]];
    Text.RenderZeros();
    before := matrix.ToText();
    Crs.StandardStart();
    Crs.AntiDiagonalWrite1();
    SetKnown(matrix, Crs.Standard0, Crs.AntiDiagonal1, 7, 1, 3);
    Crs.AntiDiagonalWrite2();
    SetKnown(matrix, Crs.AntiDiagonal1, Crs.AntiDiagonal2, 5, 2, 2);
    Crs.AntiDiagonalWrite3();
    SetKnown(matrix, Crs.AntiDiagonal2, Crs.AntiDiagonal, 3, 3, 1);
    Crs.AntiDiagonalCells();
    Text.RenderAntiDiagonal();
    after := matrix.ToText();
  }

  /** The 3 x 4 matrix [10 0 0 2; 0 0 0 0; 3 1 0 4] built by five `set`
      calls on a fresh matrix; a copy of it with 5 written into the empty
      row; a copy of that with the 5 cleared again, which gives back the
      first matrix's vectors. */
  method EmptyRowScenario() returns (built: Crs.Storage, filled: Crs.Storage, cleared: Crs.Storage)
    ensures built == Crs.WithEmptyRow && Crs.Valid(built, 3, 4)
    ensures filled == Crs.WithFilledRow && Crs.Valid(filled, 3, 4)
    ensures cleared == built
  {
    var m2 := new SparseMatrix(3, 4);
    Crs.StandardStart();
    Crs.EmptyRowWrite1();
    SetKnown(m2, Crs.Standard0, Crs.EmptyRow1, 10, 1, 1);
    Crs.EmptyRowWrite2();
    SetKnown(m2, Crs.EmptyRow1, Crs.EmptyRow2, 2, 1, 4);
    Crs.EmptyRowWrite3();
    SetKnown(m2, Crs.EmptyRow2, Crs.EmptyRow3, 3, 3, 1);
    Crs.EmptyRowWrite4();
    SetKnown(m2, Crs.EmptyRow3, Crs.EmptyRow4, 1, 3, 2);
    Crs.EmptyRowWrite5();
    SetKnown(m2, Crs.EmptyRow4, Crs.WithEmptyRow, 4, 3, 4);
    built := m2.Storage();
    var m3 := new SparseMatrix.Copy(m2);
    Crs.FillEmptyRow();
    SetKnown(m3, Crs.WithEmptyRow, Crs.WithFilledRow, 5, 2, 2);
    filled := m3.Storage();
    var m4 := new SparseMatrix.Copy(m3);
    Crs.ClearFilledRow();
    SetKnown(m4, Crs.WithFilledRow, Crs.WithEmptyRow, 0, 2, 2);
    cleared := m4.Storage();
  }

  /** One `set` of a scenario, whose outcome on the arrays is known. */
  method SetKnown(matrix: SparseMatrix, ghost before: Crs.Storage, ghost after: Crs.Storage, val: int, row: nat, col: nat)
    requires matrix.Valid() && matrix.Storage() == before
    requires 1 <= row <= matrix.m && 1 <= col <= matrix.n
    requires Crs.Shaped(before) && row < |before.rows| && Crs.SetEntry(before, row, col, val) == after
    modifies matrix
    ensures matrix.Valid() && matrix.m == old(matrix.m) && matrix.n == old(matrix.n)
    ensures matrix.Storage() == after
  {
    var chained := matrix.Set(val, row, col);
  }
}
