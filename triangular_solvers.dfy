/** The two blocked triangular solves of src/array_op.c that follow the factorization
    A = R^T D R: R^T y = b forward, then D R x = y backward, both in place on the right-hand
    side. As in the factorization driver, the loop nests and the block transfers are modelled
    exactly and the dense kernels are opaque; verifying them shows that every packed access has
    row <= col < n, every dense block fits the single workspace slice ma = workspace, and the
    two rhs ranges each vector kernel is handed never overlap. The factor itself is read only. */
module TriangularSolvers {
  import opened PackedIndex
  import opened BlockGeometry
  import opened Buffers
  import opened BlockTransfer
  import opened Kernels
  import opened CholeskyMatrices

  /** solve_lower_triangle_matrix_system: block row by block row, solve the diagonal block
      R_ii^T y_i = b_i, then subtract R_ij^T y_i from every later piece b_j. Returns 0, or -1
      when a diagonal block is singular; only rhs and the first b^2 workspace entries change. */
  method SolveLowerTriangleMatrixSystem(matrix: CholeskyMatrix, rhs: array<real>, workspace: array<real>)
    returns (rc: int)
    requires matrix.Valid()
    requires rhs.Length == matrix.size && workspace.Length >= matrix.blockSize * matrix.blockSize
    requires rhs != matrix.data && rhs != matrix.diagonal && rhs != workspace
    requires workspace != matrix.data && workspace != matrix.diagonal
    modifies rhs, workspace
    ensures rc == 0 || rc == -1
    ensures SameOutside(old(workspace[..]), workspace[..], 0, matrix.blockSize * matrix.blockSize)
  {
    var matrixSize, blockSize, data := matrix.size, matrix.blockSize, matrix.data;
    var ma := SliceBase(0, blockSize);
    var i := 0;
    while i < matrixSize
      invariant IsBlockStart(i, blockSize)
      invariant SameOutside(old(workspace[..]), workspace[..], 0, blockSize * blockSize)
    {
      var piiN := Extent(i, blockSize, matrixSize);
      BlockFitsSlice(i, i, 0, blockSize, matrixSize);
      CopyDiagonalBlockToBlock(data, i, matrixSize, piiN, workspace, ma);
      var ok := InverseLowerTriangleBlockRhs(piiN, workspace, ma, rhs, i);
      if !ok {
        return -1;
      }
      NeighbourBlockStarts(i, blockSize);
      var j := i + blockSize;
      while j < matrixSize
        invariant IsBlockStart(j, blockSize) && i + blockSize <= j
        invariant SameOutside(old(workspace[..]), workspace[..], 0, blockSize * blockSize)
        modifies rhs, workspace
      {
        var pijN := Extent(i, blockSize, matrixSize);
        var pijM := Extent(j, blockSize, matrixSize);
        BlockFitsSlice(i, j, 0, blockSize, matrixSize);
        CopyMatrixBlockToBlock(data, i, j, matrixSize, pijN, pijM, workspace, ma);
        MatrixBlockTransposedVectorMultiply(pijN, pijM, workspace, ma, rhs, i, j);
        NeighbourBlockStarts(j, blockSize);
        j := j + blockSize;
      }
      i := i + blockSize;
    }
    return 0;
  }

  /** solve_upper_triangle_matrix_diagonal_system: block rows from the last one (at `residue`)
      down to 0; each subtracts R_ij x_j for the already solved later pieces j > i, from the
      last one down, then solves D_i R_ii x_i = y_i. Returns 0, or -1 when a diagonal block is
      singular; only rhs and the first b^2 workspace entries change. */
  method SolveUpperTriangleMatrixDiagonalSystem(matrix: CholeskyMatrix, rhs: array<real>,
                                                workspace: array<real>)
    returns (rc: int)
    requires matrix.Valid()
    requires rhs.Length == matrix.size && workspace.Length >= matrix.blockSize * matrix.blockSize
    requires rhs != matrix.data && rhs != matrix.diagonal && rhs != workspace
    requires workspace != matrix.data && workspace != matrix.diagonal
    modifies rhs, workspace
    ensures rc == 0 || rc == -1
    ensures SameOutside(old(workspace[..]), workspace[..], 0, matrix.blockSize * matrix.blockSize)
  {
    var matrixSize, blockSize := matrix.size, matrix.blockSize;
    var data, diagonal := matrix.data, matrix.diagonal;
    var ma := SliceBase(0, blockSize);
    var residue := Residue(matrixSize, blockSize);
    var i := residue;
    NeighbourBlockStarts(residue, blockSize);
    while i >= 0
      invariant -blockSize <= i <= residue
      invariant IsBlockStart(i + blockSize, blockSize)
      invariant SameOutside(old(workspace[..]), workspace[..], 0, blockSize * blockSize)
      decreases i + blockSize
    {
      NeighbourBlockStarts(i + blockSize, blockSize);
      var j := residue;
      while j > i
        invariant i <= j <= residue && IsBlockStart(j, blockSize)
        invariant SameOutside(old(workspace[..]), workspace[..], 0, blockSize * blockSize)
        modifies rhs, workspace
      {
        var pijN := Extent(i, blockSize, matrixSize);
        var pijM := Extent(j, blockSize, matrixSize);
        BlockStartsApart(i, j, blockSize);
        BlockFitsSlice(i, j, 0, blockSize, matrixSize);
        CopyMatrixBlockToBlock(data, i, j, matrixSize, pijN, pijM, workspace, ma);
        MatrixBlockVectorMultiply(pijN, pijM, workspace, ma, rhs, j, i);
        NeighbourBlockStarts(j, blockSize);
        j := j - blockSize;
      }
      var piiN := Extent(i, blockSize, matrixSize);
      BlockFitsSlice(i, i, 0, blockSize, matrixSize);
      CopyDiagonalBlockToBlock(data, i, matrixSize, piiN, workspace, ma);
      var ok := InverseUpperTriangleBlockAndDiagonalRhs(piiN, workspace, ma, diagonal, i, rhs, i);
      if !ok {
        return -1;
      }
      i := i - blockSize;
    }
    return 0;
  }
}
