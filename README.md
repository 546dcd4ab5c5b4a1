# Sparse matrix in compressed row storage

A model of the templated `SparseMatrix` class of the Sparse-Matrix library.
The class keeps an m x n matrix in compressed row storage (CRS): three
parallel vectors. `rows` holds m + 1 row pointers, `cols` holds column
numbers and `vals` holds values. The column and value vectors are allocated
lazily, on the first non-zero write. Everything is 1-based, as in the
header:

- `rows[0] == 1` and `rows[m] == nnz + 1`;
- row r occupies positions `rows[r-1]-1 .. rows[r]-1` of `cols` and `vals`;
- `cols` holds column numbers 1..n.

The element type is `int`, and zero is `0`.

The project has five modules:

- `Errors` holds the two exceptions of the library as a `MatrixError`
  value, plus a `Result` and an `Option` type.
- `Dense` holds the dense reference operations of the test helpers
  (`addMatrices`, `subtractMatrices`, `multiplyMatrixByVector`,
  `multiplyMatrices`). Each is a pure specification function and a
  loop method proved equal to it.
- `Crs` treats the three vectors as a value `Storage`. It holds:
  - the storage invariant `Crs.Valid`: pointers start at 1, end at
    nnz + 1 and never decrease; each row's columns are strictly increasing
    and within 1..n; no zero is stored; `cols` and `vals` have the same
    length;
  - the matrix a storage denotes (`Cell`, `DenseOf`);
  - the two splicing primitives `Insert` and `Remove`;
  - the outcome of `set` (`SetEntry`);
  - the lemmas about all of these.
- `Text` renders a matrix as the header's `operator <<` writes it: values
  separated by single spaces, a line break between rows and none after the
  last row.
- `Sparse` holds `class SparseMatrix`. Its fields are `m`, `n`, `rows`,
  `cols` and `vals`; the last two are `Option`s because the header tells
  an unallocated vector from an empty one. The state-changing operations
  and the arithmetic are methods; `validateCoordinates`, `==`, `!=` and the
  getters are functions. `set`, `insert` and `remove` update the fields in place.
  `add`, `subtract` and `multiply` fill a fresh result object through
  `set`, and each of them is proved to produce the dense reference result.

## Model

| member | source | states |
|---|---|---|
| Sparse.SparseMatrix.constructor | src/SparseMatrix/SparseMatrix.h:159-164 | After the guard, the new matrix has the requested dimensions, m + 1 row pointers all equal to 1 and no column or value vector. It satisfies the storage invariant and every cell is 0. |
| Sparse.SparseMatrix.Create | src/SparseMatrix/SparseMatrix.h:153-165 | Fails with InvalidDimensions exactly when a dimension is below 1. Otherwise it returns a fresh valid matrix of those dimensions with empty storage, no vectors and all cells 0. |
| Sparse.SparseMatrix.CreateSquare | src/SparseMatrix/SparseMatrix.h:99-102 | The square constructor: fails exactly when the size is below 1. Otherwise it gives a fresh valid size x size matrix with empty storage, no vectors and all cells 0, as `construct(size, size)` builds it. |
| Sparse.SparseMatrix.Copy | src/SparseMatrix/SparseMatrix.h:132-142 | The copy has the same dimensions and row pointers. It has the same column and value vectors when the original has them, and none when it has none. A valid original gives a valid copy that is equal to it under `==`. |
| Sparse.SparseMatrix.CopyAsWritten | src/SparseMatrix/SparseMatrix.h:112-116 | As written: the copy takes the source's dimensions and row pointers. It takes the source's vectors when the source has them, and otherwise keeps what its uninitialised pointers hold. When those are not absent, the copy is not `==` to its source. |
| Sparse.SparseMatrix.Assign | src/SparseMatrix/SparseMatrix.h:120-142 | Assignment with absent vectors copied as absent. The target ends valid, with the source's dimensions and storage, and `==` to the source. |
| Sparse.SparseMatrix.AssignAsWritten | src/SparseMatrix/SparseMatrix.h:120-142 | As written: the column and value vectors are replaced only when the source has them. A target with entries that is assigned a matrix without vectors keeps its old vectors and breaks the storage invariant. |
| Sparse.SparseMatrix.CheckCoordinates | src/SparseMatrix/SparseMatrix.h:383-388 | No error exactly when 1 <= row <= m and 1 <= col <= n; the error is InvalidCoordinates. |
| Sparse.SparseMatrix.Get | src/SparseMatrix/SparseMatrix.h:199-217 | Fails with InvalidCoordinates exactly when the coordinates are out of range. Otherwise it returns the value the storage holds for (row, col), or 0 when no pair for col is stored in that row. |
| Sparse.SparseMatrix.At | src/SparseMatrix/SparseMatrix.h:199-217 | `get` at in-range coordinates returns cell (row, col) of the dense matrix the object denotes. |
| Sparse.SparseMatrix.Set | src/SparseMatrix/SparseMatrix.h:221-249 | Out-of-range coordinates fail with InvalidCoordinates and change nothing. Otherwise `set` returns the object itself and keeps the storage invariant. Cell (row, col) becomes val and every other cell keeps its value. The new storage is `Crs.SetEntry` of the old one. The vectors are allocated afterwards exactly when they were before or a non-zero was written to an unstored cell. |
| Sparse.SparseMatrix.Seek | src/SparseMatrix/SparseMatrix.h:225-233 | The scan of `set` stops at the first position of the row's slice whose column is at least col, or at the end of the slice. The last column read equals col exactly when the pair there is for col. |
| Sparse.SparseMatrix.Store | src/SparseMatrix/SparseMatrix.h:235-246 | Given where the scan stopped, the insert/remove/overwrite/no-op decision produces `Crs.SetEntry` of the old storage. The vectors are allocated afterwards exactly when they were before or a new pair was inserted. |
| Sparse.SparseMatrix.Insert | src/SparseMatrix/SparseMatrix.h:392-406 | Splices (col, val) in at the index, allocating one-element vectors on the first entry, and adds 1 to every row pointer from index `row` on. The new storage is `Crs.Insert` of the old one. |
| Sparse.SparseMatrix.Remove | src/SparseMatrix/SparseMatrix.h:410-418 | Cuts the pair at the index out of both vectors, which stay allocated, and subtracts 1 from every row pointer from index `row` on. The new storage is `Crs.Remove` of the old one. |
| Sparse.SparseMatrix.MultiplyVector | src/SparseMatrix/SparseMatrix.h:255-275 | Fails with InvalidDimensions exactly when the vector length differs from n. Otherwise the result is the dense matrix-vector product of the matrix the object denotes, which is all zeros while nothing is stored. |
| Sparse.SparseMatrix.RowDot | src/SparseMatrix/SparseMatrix.h:264-270 | Row i's entry of the product is the dot product of the dense row with the vector. |
| Sparse.SparseMatrix.RowSum | src/SparseMatrix/SparseMatrix.h:265-268 | The inner loop sums val * x[col - 1] over exactly the row's stored pairs. |
| Sparse.SparseMatrix.Add | src/SparseMatrix/SparseMatrix.h:323-341 | Fails with InvalidDimensions exactly when the dimensions differ. Otherwise the result is a fresh, valid m x n matrix that denotes the cellwise sum (`addMatrices`) of the two operands. Its vectors are allocated exactly when some cell of the sum is non-zero. |
| Sparse.SparseMatrix.AddRow | src/SparseMatrix/SparseMatrix.h:334-338 | After row i, every cell of rows 1..i of the result holds its sum, and every later cell is still 0. The result's vectors stay allocated exactly when it stores an entry. |
| Sparse.SparseMatrix.AddCell | src/SparseMatrix/SparseMatrix.h:336 | One pass of the inner loop: the filled region grows by cell (i, j), which now holds its sum, and the result's vectors stay allocated exactly when it stores an entry. |
| Sparse.SparseMatrix.Subtract | src/SparseMatrix/SparseMatrix.h:352-370 | Fails with InvalidDimensions exactly when the dimensions differ. Otherwise the result is a fresh, valid m x n matrix that denotes the cellwise difference (`subtractMatrices`). Its vectors are allocated exactly when some cell of the difference is non-zero. |
| Sparse.SparseMatrix.SubtractRow | src/SparseMatrix/SparseMatrix.h:363-367 | After row i, every cell of rows 1..i of the result holds its difference, and every later cell is still 0. The result's vectors stay allocated exactly when it stores an entry. |
| Sparse.SparseMatrix.SubtractCell | src/SparseMatrix/SparseMatrix.h:365 | One pass of the inner loop: the filled region grows by cell (i, j), which now holds its difference, and the result's vectors stay allocated exactly when it stores an entry. |
| Sparse.SparseMatrix.Multiply | src/SparseMatrix/SparseMatrix.h:286-312 | Fails with InvalidDimensions exactly when n differs from the other matrix's row count. Otherwise the result is a fresh, valid m x other.n matrix that denotes the dense product (`multiplyMatrices`). Its vectors are allocated exactly when some cell of the product is non-zero. |
| Sparse.SparseMatrix.MultiplyRow | src/SparseMatrix/SparseMatrix.h:300-308 | After row i, every cell of rows 1..i of the result holds its product entry, and every later cell is still 0. The result's vectors stay allocated exactly when it stores an entry. |
| Sparse.SparseMatrix.Entry | src/SparseMatrix/SparseMatrix.h:301-305 | The accumulated sum over k of get(i, k) * other.get(k, j) is cell (i, j) of the dense product. |
| Sparse.SparseMatrix.Fill | src/SparseMatrix/SparseMatrix.h:307 | One `set` of the row-major fill: the result stays valid, and the cells written so far, now including (i, j), hold the target values while all later cells are 0. The cell written was still 0, so `remove` is never reached and the vectors stay allocated exactly when an entry is stored. |
| Sparse.SparseMatrix.ToText | src/SparseMatrix/SparseMatrix.h:442-459 | The text is the dense rendering of the matrix: m lines joined by single line breaks, with no break after the last. |
| Sparse.SparseMatrix.RowText | src/SparseMatrix/SparseMatrix.h:445-451 | Line i holds the n values of row i in decimal, separated by single spaces. |
| Sparse.Equals | src/SparseMatrix/SparseMatrix.h:423-430 | On two valid matrices of the same dimensions, `==` holds exactly when they denote the same matrix and both or neither have allocated their vectors. Every matrix is `==` to itself. |
| Sparse.NotEquals | src/SparseMatrix/SparseMatrix.h:433-437 | On two valid matrices of the same dimensions, `!=` holds exactly when they denote different matrices or only one has allocated its vectors. It never holds between an object and itself. |
| Sparse.SameCellsSameStorage | src/SparseMatrix/SparseMatrix.h:423-430 | Two valid matrices of the same dimensions that denote the same matrix hold the same row pointers, columns and values, so comparing the vectors compares the matrices. |
| Sparse.AddThenSubtract | src/SparseMatrix/SparseMatrix.h:323-370 | `subtract(add(a, b), b)` is valid and denotes a. It is `==` to a exactly when a's vectors are allocated just when a has a non-zero cell. |
| Sparse.StandardScenario | tests/cases/crs-format.cpp:17-45 | Seven chained `set`s on a fresh 3 x 4 matrix leave rows [1,4,6,8], cols [1,3,4,1,2,3,4] and vals [1,4,5,2,-1,3,2]. These are the test's arrays in the header's 1-based convention. The matrix renders as "1 0 4 5\n2 -1 0 0\n0 0 3 2". |
| Sparse.OutputScenario | tests/cases/output.cpp:17-30 | A fresh 3 x 3 matrix writes out as "0 0 0\n0 0 0\n0 0 0". After `set`s put 7, 5 and 3 on the anti-diagonal, it writes out as "0 0 7\n0 5 0\n3 0 0". |
| Sparse.EmptyRowScenario | tests/cases/crs-format.cpp:48-112 | Five `set`s on a fresh 3 x 4 matrix leave the test's arrays for [10 0 0 2; 0 0 0 0; 3 1 0 4], which satisfy the invariant. A copy with 5 written at (2, 2) has the test's filled-row arrays. A copy of that with 0 written there has the first matrix's arrays again. All arrays are in the 1-based convention. |
| Crs.EmptyValid | src/SparseMatrix/SparseMatrix.h:159-164 | The freshly constructed storage satisfies the invariant and denotes the zero matrix. |
| Crs.SetEntryCorrect | src/SparseMatrix/SparseMatrix.h:221-249 | `set` preserves the storage invariant. Afterwards cell (r, c) reads v and every other cell reads as before. |
| Crs.SetEntryCount | src/SparseMatrix/SparseMatrix.h:235-246 | A non-zero written to an unstored cell adds exactly one pair, and a zero written to a stored cell removes exactly one. Every other write keeps the count. Pointers before row r are unchanged; those from r on move by the change in count. |
| Crs.SetThenClear | tests/cases/crs-format.cpp:86-112 | Writing a non-zero into an unstored cell and then writing zero there restores the storage exactly. |
| Crs.ClearThenRestore | src/SparseMatrix/SparseMatrix.h:235-246 | Zeroing a stored cell and then writing its old value back restores the storage exactly. |
| Crs.InsertCorrect | src/SparseMatrix/SparseMatrix.h:392-406 | Inserting a non-zero at its sorted position in row r keeps the invariant, adds exactly that cell and changes no other cell. |
| Crs.RemoveCorrect | src/SparseMatrix/SparseMatrix.h:410-418 | Removing a stored pair keeps the invariant, zeroes exactly that cell and changes no other cell. |
| Crs.UpdateCorrect | src/SparseMatrix/SparseMatrix.h:244-245 | Overwriting a stored value with a non-zero keeps the invariant and changes only that cell. |
| Crs.PositionMatch | src/SparseMatrix/SparseMatrix.h:225-246 | Where the scan stops, every earlier column in the row is below c. A pair for c sits there exactly when the cell is non-zero, and then its value is the cell's. Otherwise every later column in the row exceeds c. |
| Crs.RemoveInsert | src/SparseMatrix/SparseMatrix.h:392-418 | Removing what was just inserted at the same index and row restores the storage. |
| Crs.InsertRemove | src/SparseMatrix/SparseMatrix.h:392-418 | Re-inserting the pair just removed, at the same index and row, restores the storage. |
| Crs.Canonical | src/SparseMatrix/SparseMatrix.h:424-431 | Two valid storages of the same dimensions that denote the same matrix are identical, so comparing the vectors is comparing the matrices. |
| Crs.FillEmptyRow | tests/cases/crs-format.cpp:77-96 | Writing 5 at (2, 2) of the 3 x 4 matrix with an empty second row gives the test's arrays, in the 1-based convention. |
| Crs.ClearFilledRow | tests/cases/crs-format.cpp:98-112 | Writing 0 there again gives back the storage with the empty row. |
| Crs.StandardCells | tests/cases/crs-format.cpp:17-27 | The standard arrays satisfy the invariant and denote [1 0 4 5; 2 -1 0 0; 0 0 3 2]. |
| Crs.RowProductIsDot | src/SparseMatrix/SparseMatrix.h:266-267 | For a row with strictly increasing columns, the sum over its stored pairs of val * x[col - 1] equals the dot product of the dense row with x. |
| Crs.RowProductDense | src/SparseMatrix/SparseMatrix.h:264-270 | For row r of a valid storage, the sum the inner loop computes is the dot product of the dense row r with x. |
| Crs.StoredIffNonZero | src/SparseMatrix/SparseMatrix.h:235-246 | A valid storage holds some pair exactly when the matrix it denotes has a non-zero cell. |
| Crs.FillFinished | src/SparseMatrix/SparseMatrix.h:334-340 | Once every cell of a fresh result has been written in row-major order, it denotes the target matrix and holds a pair exactly when the target has a non-zero cell. |
| Crs.AntiDiagonalCells | tests/cases/output.cpp:24-30 | The storage the three anti-diagonal writes produce denotes [0 0 7; 0 5 0; 3 0 0]. |
| Crs.ProductOfEmpty | src/SparseMatrix/SparseMatrix.h:260-262 | With nothing stored, the dense product with any vector of length n is all zeros. |
| Dense.AddMatrices | tests/inc/helpers.h:49-64 | The loops produce a.size() rows by a.front().size() columns with result[i][j] = a[i][j] + b[i][j]. |
| Dense.SubtractMatrices | tests/inc/helpers.h:67-82 | The loops produce the same shape with result[i][j] = a[i][j] - b[i][j]. |
| Dense.MultiplyMatrixByVector | tests/inc/helpers.h:85-100 | The loops produce m.size() entries with result[i] = sum over j < v.size() of m[i][j] * v[j]. |
| Dense.MultiplyMatrices | tests/inc/helpers.h:103-123 | The loops produce rowsA x colsB cells with result[i][j] = sum over k < colsA of a[i][k] * b[k][j]. |
| Dense.DifferenceOfSum | tests/inc/helpers.h:49-82 | Subtracting b from the sum of a and b gives back a, for a rectangular a. |
| Text.IntToStringRoundTrip | src/SparseMatrix/SparseMatrix.h:450 | The decimal form of a value (optional minus sign, then digits) reads back as that value. |
| Text.RenderLayout | src/SparseMatrix/SparseMatrix.h:442-459 | Splitting the rendering at line breaks gives one line per row. Splitting line i at spaces gives one word per value of row i, and each word reads back as that value. |
| Text.WriteValue | src/SparseMatrix/SparseMatrix.h:446-450 | Writing value j of a row, after a space unless it is the first, extends the rendering of the row's first j values to its first j + 1. |
| Text.WriteLine | src/SparseMatrix/SparseMatrix.h:453-455 | Writing line i, and then a break unless it is the last line, extends the output of the first i lines to the first i + 1. |
| Text.RenderZeros | tests/cases/output.cpp:20-22 | A 3 x 3 zero matrix renders as "0 0 0\n0 0 0\n0 0 0". |
| Text.RenderAntiDiagonal | tests/cases/output.cpp:24-30 | The matrix with 7, 5 and 3 on the anti-diagonal renders as "0 0 7\n0 5 0\n3 0 0". |

## Left out

- Memory management is not modelled: `new`/`delete`, `destruct` and the destructor. Vectors are sequence values; the object's identity stands in for its pointers.
- Stream output is not modelled: `std::ostream`, `std::endl` and `std::flush`. `operator <<` builds a string, and `Text.IntToString` stands in for the stream's formatting of an `int`.
- C++ overflow is not modelled. Elements are unbounded `int`s and `size_t` counters are `nat`s, so wrap-around is absent.
- Element types other than `int` are not modelled, including floating point.
- The operator aliases `*`, `+` and `-` are only forwarders and get no members of their own. Their behaviour is that of `MultiplyVector`, `Multiply`, `Add` and `Subtract`.
- `getRowCount` and `getColumnCount` are plain field reads, modelled as the functions `RowCount` and `ColumnCount`, with no contract worth stating.
- Exception messages are not kept; only the error kind is.
- The test harness is not modelled: `SparseMatrixMock`, the random generators, the vector `operator <<` and the test runner.
- `getColumn`, `getColumnTransposed` and `addSubmatrix` are called by tests but have no implementation in the header, so they are not modelled.
- The convention of the storage and output tests is not followed. `tests/cases/crs-format.cpp`, `tests/cases/output.cpp` and `tests/cases/values.cpp` use 0-based coordinates and pointers, which the header (1-based throughout, rejecting row 0) would refuse. The model follows the header and restates those scenarios with 1 added to every coordinate and pointer.
- `subtract(add(A, B), B) == A` holds only under a condition. The result always denotes A. `subtract` writes each cell of its fresh result once and never removes a pair, so the result has vectors exactly when A has a non-zero cell. An A whose entries were all cleared by `set` keeps allocated empty vectors, and `==` tells it apart from the vector-less result. `Sparse.AddThenSubtract` states exactly when the equality holds.
- Sparse.SparseMatrix.Copy: a matrix without column and value vectors is copied without them. The header's copy constructor leaves those pointers uninitialised in that case (see "## Findings"); `Copy` is the corrected version, and `CopyAsWritten` takes the indeterminate pointer values as parameters.
- The comparison `this->n != (int) x.size()` in `multiply` is modelled on unbounded integers, so the cast has no effect.

## Findings

| source | as written | input that shows it | evidently intended | confidence | as-written member | corrected member |
|---|---|---|---|---|---|---|
| src/SparseMatrix/SparseMatrix.h:132-142 | `deepCopy` assigns `cols` and `vals` only when the source has them. `operator =` has just deleted the target's vectors, so the target keeps dangling vectors, and with them its old entries, while its row pointers come from the source. | Assign a fresh 1 x 1 matrix to a 1 x 1 matrix holding 5 at (1, 1). The target gets rows [1, 1] but keeps cols [1] and vals [5]. | The target should end with no column or value vectors, like the source. | not executed | Sparse.SparseMatrix.AssignAsWritten | Sparse.SparseMatrix.Assign |
| src/SparseMatrix/SparseMatrix.h:112-116 | The copy constructor runs `deepCopy`, which assigns `cols` and `vals` only when the source has them. A copy of a matrix without them leaves both pointers uninitialised. | Copy a freshly constructed 2 x 2 matrix. The copy's `cols` and `vals` hold indeterminate values, so `==` and the destructor read and free them. | The copy should have no column or value vectors, like its source, and be `==` to it. | not executed | Sparse.SparseMatrix.CopyAsWritten | Sparse.SparseMatrix.Copy |
