# cholesky-solver: packed addressing and block movement, verified

cholesky-solver factors a symmetric n x n matrix as A = R^T D R and solves A x = b. R is upper
triangular and D is a diagonal of signs +1/-1. The work is done block by block, with blocks of
size b. The matrix is kept as its upper triangle, packed row after row into a flat buffer of
n(n+1)/2 entries. Dense b x b blocks are copied out of that buffer into a workspace of 3 b^2
entries, processed by dense kernels, and copied back.

This project models the integer side of that design in Dafny:

- `PackedIndex` covers the packed index map and the buffer size (`src/matrix_utils.h`). It
  proves that the map is a bijection from the upper triangle onto [0, n(n+1)/2), with
  contiguous rows and an explicit inverse.
- `BlockGeometry` covers dense row-major offsets, the clipped extent min(b, n - p), the lattice
  of block starts 0, b, 2b, ..., the backward solve's `residue`, and the three workspace slices
  ma, mb and mc.
- `BlockTransfer` covers the four block-copy routines of `src/array_op.c`. Each is a method on
  arrays with nested loops. The gather routines state exactly what the dense block holds. The
  scatter routines state exactly which packed entries they write, and that every other entry
  is unchanged. Lemmas give the round trips.
- `Arithmetic` and `Buffers` hold the shared helpers: two facts about integer division and
  multiplication, the frame predicate "nothing outside this range changed", and the memset
  that clears a range.
- `Kernels` covers the dense numeric kernels, modelled only by their write footprint: which
  buffer they change, which entries of it, and a success flag. `cholesky_for_block` also keeps
  its promise that every sign it writes is +1 or -1.
- `Factorization` and `TriangularSolvers` contain `cholesky` and the two triangular solves,
  with the same loop nests, extents, slices and calls as the C code. These methods verify. So
  every packed access they make has row <= col < n, every dense block fits its b^2 slice, and
  the two rhs ranges handed to a vector kernel never overlap. On success (return 0) the
  factorization also leaves every sign of D equal to +1 or -1. Only the first 3 b^2 workspace
  entries are touched.
- `TestData` covers the test-data generators of `src/array_io.c` and the symmetric lookup that
  `printf_matrix` performs. `Timer` covers `format_time` of `src/timer.c`.

Arrays of `real` stand for the `double` buffers. All indices are unbounded integers. The
callers' preconditions come from `src/main.c:18-28` (1 <= b <= n) and
`src/solver_engine.c:27-33` (buffer sizes). They are collected in `CholeskyMatrices.CholeskyMatrix.Valid`.

## Model

| member | source | states |
|---|---|---|
| PackedIndex.SymmetricMatrixSize | src/matrix_utils.h:10-13 | 0 for n <= 0; otherwise twice the size is n(n+1), and the size is the total length of the n rows of the upper triangle |
| PackedIndex.SymmetricIndex | src/matrix_utils.h:20-25 | for 0 <= row <= col < n, the closed form equals the length of the earlier rows plus (col - row), and it lies in [0, n(n+1)/2) |
| PackedIndex.RowsBeforeClosedForm | src/matrix_utils.h:21-24 | the sum of the first r row lengths, n + (n-1) + ... + (n-r+1), equals r*n - r(r-1)/2 (stated doubled) |
| PackedIndex.RowStartFormula | src/matrix_utils.h:24 | row*n - row*(row-1)/2 is exactly the total length of the earlier rows; the halving never rounds |
| PackedIndex.RowsBeforeGrows | src/matrix_utils.h:21-24 | row starts increase by at least one per row while r <= n |
| PackedIndex.RowLayout | src/matrix_utils.h:24 | offsets are contiguous within a row; the end of a row is followed by the next row's diagonal entry; (0,0) maps to 0 and (n-1,n-1) to n(n+1)/2 - 1 |
| PackedIndex.SymmetricIndexInjective | src/matrix_utils.h:20-25 | distinct positions of the upper triangle have distinct offsets |
| PackedIndex.PositionOf | src/matrix_utils.h:20-25 | every offset in [0, n(n+1)/2) is the offset of some position 0 <= r <= c < n (the map is onto) |
| PackedIndex.PositionOfIndex | src/matrix_utils.h:20-25 | PositionOf inverts the index map on the whole upper triangle |
| BlockGeometry.DenseOffset | src/array_op.c:20 | the dense offset (i - row) * m + (j - column) of an element of an n x m block lies in [0, n*m) |
| BlockGeometry.DenseOffsetOrder | src/array_op.c:19-23 | dense offsets follow the row-major (lexicographic) order of the copy loops, so they are pairwise distinct |
| BlockGeometry.DensePosition | src/array_op.c:20 | every offset in [0, n*m) is the dense offset of some (r, c) of the block (onto) |
| BlockGeometry.NeighbourBlockStarts | src/array_op.c:292 | stepping `+= block_size` (or `-= block_size` while >= b) from a block start gives a block start |
| BlockGeometry.BlockStartsApart | src/array_op.c:302 | two different block starts are at least b apart, so block k ends before block i begins when k < i |
| BlockGeometry.Extent | src/array_op.c:294-295 | the extent is b or n - p, is at most both, and is at least 1 for a start inside the matrix |
| BlockGeometry.BlockStartOf | src/array_op.c:353 | the block start containing row x is a lattice point within b of x |
| BlockGeometry.BlocksPartition | src/array_op.c:353-354 | every row x < n lies in exactly one clipped block: the one at BlockStartOf(x) |
| BlockGeometry.ExtentsCover | src/array_op.c:353-354 | the extents of the blocks a `for (p = start; p < n; p += b)` loop visits add up to exactly n - start |
| BlockGeometry.Residue | src/array_op.c:385-388 | residue is a block start with residue < n and residue + extent(residue) == n; it is the start of the block holding row n - 1, the last block the forward loop visits |
| BlockGeometry.LastBlock | src/array_op.c:385-388 | the block number (n-1)/b starts at n - (n % b), or at n - b when b divides n |
| BlockGeometry.BlockFitsSlice | src/array_op.c:288-290 | a block of two clipped extents holds between 1 and b^2 entries and fits its slice; ma, mb and mc are disjoint and lie inside 3 b^2 |
| Buffers.ZeroFill | src/array_op.c:17 | memset: the count entries from base are 0 and nothing else changes |
| BlockTransfer.CopyMatrixBlockToBlock | src/array_op.c:13-24 | afterwards b[base + r*m + c] == A(row+r, column+c) for all r < n, c < m; only the n*m dense entries change, and the packed buffer is read only |
| BlockTransfer.CopyBlockToMatrixBlock | src/array_op.c:27-36 | exactly the packed positions of the n x m block get their dense values; every other packed entry is unchanged |
| BlockTransfer.CopyDiagonalBlockToBlock | src/array_op.c:114-124 | the upper half (r <= c) of the dense m x m block holds the packed values and the strictly lower half is 0; only those m*m entries change |
| BlockTransfer.CopyBlockToDiagonalBlock | src/array_op.c:126-134 | exactly the packed positions t <= i <= j < t+m are written from the dense upper half; everything else is unchanged |
| BlockTransfer.RectRoundTrip | src/array_op.c:13-36 | gathering a rectangular block and scattering it back leaves the packed buffer identical |
| BlockTransfer.RectScatterThenGather | src/array_op.c:13-36 | scattering a dense block and gathering the same block again gives back the dense block |
| BlockTransfer.DiagRoundTrip | src/array_op.c:114-134 | gathering a diagonal block and scattering it back leaves the packed buffer identical |
| BlockTransfer.DiagScatterIgnoresLower | src/array_op.c:126-134 | two dense blocks with the same upper half scatter to the same packed buffer: the strictly lower entries never reach the matrix |
| BlockTransfer.DiagScatterThenGather | src/array_op.c:114-134 | after a diagonal scatter, the gather returns the dense block's upper half |
| Kernels.MainBlocksDiagonalMultiply | src/array_op.c:41-74 | only the m x l result C changes, and C overlaps neither input block nor the signs it reads |
| Kernels.MainBlocksMultiply | src/array_op.c:79-112 | only the m x l result C changes, and C overlaps neither input block |
| Kernels.CholeskyForBlock | src/array_op.c:171-217 | only the n x n block and its n signs change, and every sign is +1 or -1, whether the pivot test passes or not |
| Kernels.InverseUpperTriangleBlockAndDiagonal | src/array_op.c:137-168 | only the n x n output block changes, and it is disjoint from the factor it reads |
| Kernels.InverseUpperTriangleBlockAndDiagonalRhs | src/array_op.c:219-236 | only the n rhs entries of the block change |
| Kernels.InverseLowerTriangleBlockRhs | src/array_op.c:238-252 | only the n rhs entries of the block change |
| Kernels.MatrixBlockVectorMultiply | src/array_op.c:254-267 | only the n entries of c change, and they do not overlap the m entries of b that are read |
| Kernels.MatrixBlockTransposedVectorMultiply | src/array_op.c:269-278 | only the m entries of c change, and they do not overlap the n entries of b that are read |
| Factorization.UpdateBlock | src/array_op.c:293-319 | the step-1 update of block (i, j): every access is in the upper triangle and every block fits its slice; no packed entry outside block (i, j) changes, so the earlier block rows are only read; only the first 3 b^2 workspace entries change |
| Factorization.Cholesky | src/array_op.c:280-342 | returns 0 or -1; on 0 every one of the n signs of D is +1 or -1, the blocks factored one per block row covering [0, n); only the first 3 b^2 workspace entries change, and every access of the loop nest is addressable |
| TriangularSolvers.SolveLowerTriangleMatrixSystem | src/array_op.c:344-371 | returns 0 or -1; the factor and D are read only; only rhs and the first b^2 workspace entries change; all accesses are addressable and kernel ranges are disjoint |
| TriangularSolvers.SolveUpperTriangleMatrixDiagonalSystem | src/array_op.c:373-406 | the same, for the backward loop from residue down to 0, including its inner loop j from residue down to i + b |
| TestData.FillVectorAnswer | src/array_io.c:125-130 | entry i < n is 1 for even i and 0 for odd i; entries from n on are unchanged |
| TestData.TestEntry | src/array_io.c:21 | every entry n - max(i, j) of the test matrix is positive, so `fabs(n - j)` is n - j |
| TestData.StoredRowIsTestRow | src/array_io.c:15-24 | read back through the symmetric lookup, a buffer holding n - j on its upper triangle is the full test matrix n - max(i, j), row by row |
| TestData.AccumulateLeftOfDiagonal | src/array_io.c:16-18 | given rows 0 .. i-1 already filled, the reads of (j, i) for j < i each hit an entry written in an earlier row's pass, so rhs[i] becomes the sum of A(i, j) * x[j] over j < i; no other rhs entry changes |
| TestData.FillRowFromDiagonal | src/array_io.c:20-24 | row i's pass writes (i, j) = n - j for j >= i, keeps the earlier rows, leaves the later rows untouched, completes rhs[i] as row i of A times x, and changes no other rhs entry |
| TestData.FillMatrix | src/array_io.c:10-28 | returns 0; every packed (i, j), i <= j < n, holds n - j; each rhs[i] is row i of the test matrix times vector_answer, and also row i of the stored buffer read back through the symmetric lookup times vector_answer |
| TestData.PrintMatrix | src/array_io.c:103-114 | the printed n x n grid has entry (i, j) read at (min(i,j), max(i,j)), so row i is the stored matrix's row i; the grid is symmetric and equals the packed buffer on the upper triangle |
| Timer.FormatTime | src/timer.c:21-29 | for total_cents >= 0: 0 <= tic < 100, 0 <= sec < 60, 0 <= min < 60, hour == total_cents / 360000, and hour*360000 + min*6000 + sec*100 + tic == total_cents |
| Timer.FormatTimeOfCents | src/timer.c:22-28 | components in range are exactly what format_time returns for the count they stand for, so the split is unique |

## Left out

- Kernels.MainBlocksDiagonalMultiply: the values of C -= A^T D B are not modelled. IEEE double arithmetic and the 8-way unrolling are out of scope, so only the write footprint is stated.
- Kernels.MainBlocksMultiply: the values of C = A B are not modelled, for the same reason.
- Kernels.CholeskyForBlock: the factor values, `sqrt`, and the `EPS = 1e-16` pivot test are not modelled. The success flag is arbitrary. The signs are kept.
- Kernels.InverseUpperTriangleBlockAndDiagonal: the inverse's values and the singularity test are not modelled. The success flag is arbitrary.
- Kernels.InverseUpperTriangleBlockAndDiagonalRhs: the solution values and the singularity test are not modelled.
- Kernels.InverseLowerTriangleBlockRhs: the solution values and the singularity test are not modelled.
- Kernels.MatrixBlockVectorMultiply: the values of c -= A b are not modelled.
- Kernels.MatrixBlockTransposedVectorMultiply: the values of c -= A^T b are not modelled.
- Factorization.UpdateBlock: states which packed entries may change (only block (i, j)) but not their new values, A(i, j) - sum over k < i of A(k, i)^T D(k) A(k, j). Those values come from the floating-point kernel.
- Factorization.Cholesky: does not state A = R^T D R. Which pivots fail (the -1 returns) depends on floating point, so the model may return -1 at any block row.
- TriangularSolvers.SolveLowerTriangleMatrixSystem: does not state that rhs ends up solving R^T y = b. That needs the kernels' floating-point values.
- TriangularSolvers.SolveUpperTriangleMatrixDiagonalSystem: does not state that rhs ends up solving D R x = y, for the same reason.
- TestData.FillMatrix: rhs is accumulated in exact reals. The rounding of the `double` additions is not modelled. `fabs(n - j)` is n - j, because n - j > 0.
- `read_matrix`, `stupid_read_matrix`, `stupid_fill_matrix` and `stupid_printf_matrix` are not modelled. They are file reading and a dense floating-point variant.
- The text `printf_matrix` writes is not modelled. The model returns the grid of values it prints.
- `src/array_io.h` declares `fill_matrix`, `read_matrix` and `printf_matrix` with `CholeskyMatrix*` parameters, and `src/solver_engine.c` calls them that way. The model follows the definitions in `src/array_io.c`, which take n and the bare buffer.
- Timer.FormatTime: takes the centisecond count as a non-negative integer. The `(long)(total_seconds * 100)` cast of a double, and negative counts (where C's division truncates toward zero), are not modelled.
- The clock, the static `start_ts`/`prev_ts`/`timer_active` state and the output of `src/timer.c` (`print_time`, `sprint_time` and the legacy wrappers) are not modelled.
- `src/solver_engine.c` and `src/main.c` (allocation, cleanup, residual norms, argument parsing) are not modelled. They appear only as the preconditions in `CholeskyMatrix.Valid` and the workspace sizes.
- The `CholeskyMatrix` struct declaration is not part of this model. Its fields are taken from their uses in `src/array_op.c:282-285` and `src/solver_engine.c:18`.
- `int`/`size_t` overflow of the index arithmetic for huge n is not modelled. Indices are mathematical integers.
- `benchmarks/manager.py` is not modelled. It is process control and timing comparison.
