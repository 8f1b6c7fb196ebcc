# CUDA_Matrix_Norms: the dense matrix buffer and timespec subtraction

This project models, in Dafny, the two self-contained pieces of the matrix-norm
benchmark whose code is available:

- **The dense `Matrix`** (`matrix.h`, `matrix.c`), in `matrix.dfy`, module
  `DenseMatrix`. A `Matrix` holds `numRows`, `numCols` and one flat buffer of
  `numRows * numCols` cells in row-major order: cell (i, j) lives at offset
  `i * numCols + j`. The class `DenseMatrix.Matrix` has these three fields, a
  `Valid()` invariant (buffer length, non-negative extents that are C `int`s, and, as a
  modelling restriction, `numRows * numCols <= INT_MAX`), and a
  ghost `Grid()` view of the buffer as a sequence of rows. `makeMatrix` is the
  constructor, `getElement` a function over the array, `setElement` a method
  that overwrites one array cell, and `printMatrix` a method with the source's
  nested `i`/`j` loops that returns what it prints and, as a ghost record,
  the offsets it reads.
  At value level, `Offset`, `Flatten` and `Unflatten` describe the row-major
  layout, with lemmas for in-bounds offsets, injectivity, the inverse by
  division and remainder, and round trips between a grid and its buffer.
  The element type is a type parameter: nothing in these files computes with
  the `float` values.
- **`diff`** (`time_utils.h`), in `time_utils.dfy`, module `TimeUtils`. It
  subtracts two `struct timespec` values and borrows one second when the
  nanosecond difference is negative. The model proves the exact
  total-nanosecond identity for all inputs. It also proves that normalised
  inputs (nanoseconds in [0, 10^9), as the POSIX `<time.h>` header fixes)
  give a normalised result equal to the reference `FromNanos` of the
  difference. `Diff` is a pure function of its two arguments, so it cannot
  read the file-level `startTime`/`endTime`.

Two facts about the C code shape the contracts:
- `getElement` and `setElement` do no bounds check (matrix.c:53-55,
  matrix.c:68-70). The model states `0 <= i < numRows` and
  `0 <= j < numCols` as preconditions; the two callers in matrix.c and main.c
  (matrix.c:84-86, main.c:81-83) stay inside these ranges. The sequential
  norms in norms.c and the CUDA norms (cuda_norms.h:26-29) also take a
  `Matrix`; neither is part of this model.
- `makeMatrix` never checks what `malloc` returns (matrix.c:33-34), so the
  constructor always succeeds.

## Model

| member | source | states |
|---|---|---|
| `DenseMatrix.Offset` | matrix.c:54 | the index expression `i*mat->numCols + j`: for 0 <= i and 0 <= j < numCols the offset lies in the slice [i * numCols, (i + 1) * numCols) of row i |
| `DenseMatrix.Matrix.Valid` | matrix.h:31-35 | the invariant the model keeps for the struct: the buffer that makeMatrix allocates (matrix.c:34) holds exactly numRows * numCols cells and the extents are non-negative C ints; as a modelling restriction it also bounds numRows * numCols by INT_MAX, which C does not demand; then every in-range cell's offset is inside the buffer and fits a C int |
| `DenseMatrix.Matrix.constructor` | matrix.c:32-38 | makeMatrix: the new matrix has the given extents and a fresh buffer of exactly numRows * numCols cells; cell contents are left unspecified |
| `DenseMatrix.Matrix.Grid` | matrix.h:31-35 | the buffer seen as numRows rows of numCols cells, and flattening that view gives back the buffer |
| `DenseMatrix.Matrix.GetElement` | matrix.c:53-55 | getElement returns cell (i, j) of the grid view for every in-range (i, j); it reads the matrix and changes nothing |
| `DenseMatrix.Matrix.SetElement` | matrix.c:68-70 | setElement overwrites the buffer at offset i * numCols + j only; the grid view is the old one with exactly cell (i, j) replaced; a later getElement(i, j) returns the value written; extents and buffer stay the same |
| `DenseMatrix.Matrix.PrintMatrix` | matrix.c:81-91 | the i-outer/j-inner loops read offsets 0, 1, ..., numRows * numCols - 1, each once and in increasing order; the printed values equal the buffer and the flattened grid |
| `DenseMatrix.OffsetInBounds` | matrix.c:54 | for 0 <= i < numRows and 0 <= j < numCols the offset i * numCols + j lies in [0, numRows * numCols), so indexing is in bounds and int arithmetic cannot overflow |
| `DenseMatrix.OffsetInjective` | matrix.c:69 | two in-range cells with the same offset are the same cell, so a write to one cell reaches no other |
| `DenseMatrix.OffsetRowCol` | matrix.c:54 | the offset of (i, j) divided by numCols is i and its remainder is j: the row-major map has an inverse |
| `DenseMatrix.OffsetCovers` | matrix.c:54 | every buffer index k is the offset of the in-range cell (k / numCols, k % numCols): every cell of the buffer belongs to some (i, j) |
| `DenseMatrix.Unflatten` | matrix.h:31-35 | the grid view of a buffer of rows * cols cells has rows rows of cols cells each |
| `DenseMatrix.FlattenLength` | matrix.h:31-35 | a grid of rows rows of cols cells flattens to exactly rows * cols cells |
| `DenseMatrix.FlattenAt` | matrix.c:54 | cell (i, j) of a grid is at offset i * cols + j of its flattened buffer |
| `DenseMatrix.UnflattenAt` | matrix.c:54 | cell (i, j) of the grid view of a buffer is the buffer cell at offset i * cols + j |
| `DenseMatrix.FlattenUnflatten` | matrix.c:84-89 | reading the grid view of a buffer row by row, left to right, gives back the buffer |
| `DenseMatrix.UnflattenFlatten` | matrix.h:31-35 | the grid view of a flattened grid is the grid itself |
| `DenseMatrix.SetCell` | matrix.c:68-70 | the grid after a one-cell write: same shape, the written cell holds the new value, every other cell is unchanged |
| `DenseMatrix.SetCellLastWins` | matrix.c:69 | two writes to the same cell leave the grid as the second write alone would |
| `DenseMatrix.UnflattenUpdate` | matrix.c:68-70 | overwriting the buffer at the offset of (i, j) is exactly the one-cell write of (i, j) on the grid view |
| `TimeUtils.Diff` | time_utils.h:36-46 | diff: end minus start in total nanoseconds, exactly, for all inputs; a second is borrowed exactly when end's nanoseconds are smaller; normalised inputs give a normalised result whose seconds are non-negative exactly when end is not earlier than start; diff(t, t) is (0, 0) |
| `TimeUtils.FromNanos` | time_utils.h:36-46 | the reference normalised timespec of a nanosecond count denotes that count |
| `TimeUtils.NormalizedUnique` | time_utils.h:38-44 | two normalised timespecs denoting the same instant are equal, so a normalised difference is unique |
| `TimeUtils.NanosRoundTrip` | time_utils.h:36-46 | a normalised timespec is recovered from its nanosecond count |
| `TimeUtils.DiffIsNormalizedDifference` | time_utils.h:36-46 | on normalised inputs diff equals the reference normalised form of the nanosecond difference |

## Left out

- The four sequential norms (`getMaxNorm`, `getFrobeniusNorm`, `getOneInducedNorm`, `getInfInducedNorm`): norms.h and norms.c are not part of this model; main.c:91-106 only calls them.
- The four CUDA norms: cuda_norms.h:26-29 declares them but gives no bodies, and they are floating-point GPU code.
- `freeMatrix` (matrix.c:101-104): memory release. Dafny's heap is garbage-collected.
- `malloc` failure: `makeMatrix` does not check for it, so allocation always succeeds in the model.
- `DenseMatrix.Matrix.constructor`: requires non-negative extents with `numRows * numCols <= INT_MAX`, a little stronger than C needs. The C code accepts any `int` extents, and `sizeof(float)*numRows*numCols` is computed in `size_t`. The bound keeps every offset `i * numCols + j` of `getElement`/`setElement` inside C `int` range, so the C integer overflow is not modelled.
- `DenseMatrix.Matrix.Valid`: it requires non-negative extents (the fields are `nat`) and bounds `numRows * numCols` by `INT_MAX`, neither of which the C struct (matrix.h:31-35) requires; this is the same bound the constructor requires (line above), so matrices whose cell count exceeds a C `int` are outside the model.
- `DenseMatrix.Matrix.GetElement`: C accepts an out-of-range (i, j) whose offset still falls inside the buffer, such as (0, 2) on a 2x2 matrix, and then reads another cell (here (1, 0)); the model excludes such indices by its preconditions.
- `DenseMatrix.Matrix.SetElement`: C accepts an out-of-range (i, j) whose offset still falls inside the buffer and then silently overwrites another cell; the model excludes such indices by its preconditions. An offset outside the buffer is undefined behaviour in C and is excluded too.
- `DenseMatrix.Matrix.PrintMatrix`: the `printf` formatting and the line breaks after each row are not modelled. The method returns only the values in the order they are printed and the offsets read.
- `DenseMatrix.Matrix.constructor`: C leaves the cells uninitialised; Dafny fills them with default values, and the constructor's contract says nothing about them.
- `TimeUtils.Diff`: `time_t` and `long` are modelled as unbounded integers, so overflow of the seconds subtraction near the limits of `time_t` is not modelled.
- `getElapsedTime` (time_utils.h:80-82): a `float` conversion of the `diff` result. Floating point is not modelled.
- `startClock`/`stopClock` (time_utils.h:55-68) and the process-wide `startTime`/`endTime` (time_utils.h:23): wall-clock reads through `clock_gettime`.
- Everything in main.c: option parsing with `getopt`, `srand48`/`drand48` seeding and random filling, timing calls and `printf` output. This is the benchmark's harness and I/O.
