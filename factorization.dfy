/** The blocked R^T D R factorization driver `cholesky` of src/array_op.c. Its loop nest, the
    clipped block extents, the workspace slices and every block transfer are modelled exactly;
    the dense kernels are the opaque steps of module Kernels. Because SymmetricIndex and the
    transfer routines demand row <= col < n and a dense area inside the workspace, verifying
    this method shows that every packed access of the loop nest has row <= col < n and every
    dense block fits its b^2 slice. */
module Factorization {
  import opened PackedIndex
  import opened BlockGeometry
  import opened Buffers
  import opened BlockTransfer
  import opened Kernels
  import opened CholeskyMatrices

  /** The block (i, j) update of step 1: stage the target block into mc, subtract the
      contributions A(k, i)^T D(k) A(k, j) of every earlier block row k (staged in ma and mb),
      and write mc back, triangular when j == i, rectangular otherwise. The earlier block rows
      are only read: no packed entry outside block (i, j) changes. */
  method UpdateBlock(matrix: CholeskyMatrix, workspace: array<real>, i: int, j: int)
    requires matrix.Valid()
    requires workspace.Length >= 3 * (matrix.blockSize * matrix.blockSize)
    requires workspace != matrix.data && workspace != matrix.diagonal
    requires IsBlockStart(i, matrix.blockSize) && IsBlockStart(j, matrix.blockSize)
    requires i <= j < matrix.size
    modifies matrix.data, workspace
    ensures SameOutside(old(workspace[..]), workspace[..], 0, 3 * (matrix.blockSize * matrix.blockSize))
    ensures forall r, c ::
              (0 <= r <= c < matrix.size &&
               !InRect(r, c, i, j, Extent(i, matrix.blockSize, matrix.size), Extent(j, matrix.blockSize, matrix.size))) ==>
              matrix.data[SymmetricIndex(r, c, matrix.size)] == old(matrix.data[SymmetricIndex(r, c, matrix.size)])
  {
    var matrixSize, blockSize, data := matrix.size, matrix.blockSize, matrix.data;
    var ma, mb, mc := SliceBase(0, blockSize), SliceBase(1, blockSize), SliceBase(2, blockSize);
    var pijN := Extent(i, blockSize, matrixSize);
    var pijM := Extent(j, blockSize, matrixSize);
    BlockFitsSlice(i, j, 2, blockSize, matrixSize);
    if j != i {
      BlockStartsApart(i, j, blockSize);
      CopyMatrixBlockToBlock(data, i, j, matrixSize, pijN, pijM, workspace, mc);
    } else {
      CopyDiagonalBlockToBlock(data, i, matrixSize, pijN, workspace, mc);
    }
    var k := 0;
    while k < i
      invariant IsBlockStart(k, blockSize) && k <= i
      invariant SameOutside(old(workspace[..]), workspace[..], 0, 3 * (blockSize * blockSize))
      modifies workspace
    {
      var pkiN := Extent(k, blockSize, matrixSize);
      var pkiM := Extent(i, blockSize, matrixSize);
      var pkjN := Extent(k, blockSize, matrixSize);
      var pkjM := Extent(j, blockSize, matrixSize);
      BlockStartsApart(k, i, blockSize);
      BlockFitsSlice(k, i, 0, blockSize, matrixSize);
      BlockFitsSlice(k, j, 1, blockSize, matrixSize);
      BlockFitsSlice(i, j, 2, blockSize, matrixSize);
      CopyMatrixBlockToBlock(data, k, i, matrixSize, pkiN, pkiM, workspace, ma);
      CopyMatrixBlockToBlock(data, k, j, matrixSize, pkjN, pkjM, workspace, mb);
      MainBlocksDiagonalMultiply(pkiN, pkiM, pkjM, workspace, ma, mb, matrix.diagonal, k, mc);
      NeighbourBlockStarts(k, blockSize);
      k := k + blockSize;
    }
    if j != i {
      CopyBlockToMatrixBlock(data, i, j, matrixSize, pijN, pijM, workspace, mc);
    } else {
      CopyBlockToDiagonalBlock(data, i, matrixSize, pijN, workspace, mc);
    }
  }

  /** cholesky: factors the packed matrix in place into R and the signs D. It returns 0 or -1
      (a pivot too small); on success every entry of D is +1 or -1, because the diagonal
      blocks factored one per block row cover [0, n) exactly. Only the first 3 * b^2 entries
      of the workspace are ever touched. */
  method Cholesky(matrix: CholeskyMatrix, workspace: array<real>) returns (rc: int)
    requires matrix.Valid()
    requires workspace.Length >= 3 * (matrix.blockSize * matrix.blockSize)
    requires workspace != matrix.data && workspace != matrix.diagonal
    modifies matrix.data, matrix.diagonal, workspace
    ensures rc == 0 || rc == -1
    ensures rc == 0 ==> forall k :: 0 <= k < matrix.size ==> matrix.diagonal[k] == 1.0 || matrix.diagonal[k] == -1.0
    ensures SameOutside(old(workspace[..]), workspace[..], 0, 3 * (matrix.blockSize * matrix.blockSize))
  {
    var matrixSize, blockSize := matrix.size, matrix.blockSize;
    var data, diagonal := matrix.data, matrix.diagonal;
    var ma, mb, mc := SliceBase(0, blockSize), SliceBase(1, blockSize), SliceBase(2, blockSize);
    var i := 0;
    while i < matrixSize
      invariant IsBlockStart(i, blockSize)
      invariant forall k :: 0 <= k < i && k < matrixSize ==> diagonal[k] == 1.0 || diagonal[k] == -1.0
      invariant SameOutside(old(workspace[..]), workspace[..], 0, 3 * (blockSize * blockSize))
    {
      // Step 1: update the blocks (i, j), j >= i, with all earlier block rows.
      var j := i;
      while j < matrixSize
        invariant IsBlockStart(j, blockSize) && i <= j
        invariant SameOutside(old(workspace[..]), workspace[..], 0, 3 * (blockSize * blockSize))
        modifies data, workspace
      {
        UpdateBlock(matrix, workspace, i, j);
        NeighbourBlockStarts(j, blockSize);
        j := j + blockSize;
      }

      // Step 2: factor the diagonal block and keep inverse(R_ii) D_i in ma.
      var pijN := Extent(i, blockSize, matrixSize);
      BlockFitsSlice(i, i, 0, blockSize, matrixSize);
      BlockFitsSlice(i, i, 1, blockSize, matrixSize);
      CopyDiagonalBlockToBlock(data, i, matrixSize, pijN, workspace, mb);
      var ok := CholeskyForBlock(pijN, workspace, mb, diagonal, i);
      if !ok {
        return -1;
      }
      CopyBlockToDiagonalBlock(data, i, matrixSize, pijN, workspace, mb);
      ok := InverseUpperTriangleBlockAndDiagonal(pijN, workspace, mb, diagonal, i, ma);
      if !ok {
        return -1;
      }

      // Step 3: scale every block (i, j), j > i, by the pivot inverse.
      NeighbourBlockStarts(i, blockSize);
      j := i + blockSize;
      while j < matrixSize
        invariant IsBlockStart(j, blockSize) && i + blockSize <= j
        invariant SameOutside(old(workspace[..]), workspace[..], 0, 3 * (blockSize * blockSize))
        modifies data, workspace
      {
        var curPijN := Extent(i, blockSize, matrixSize);
        var curPijM := Extent(j, blockSize, matrixSize);
        BlockFitsSlice(i, i, 0, blockSize, matrixSize);
        BlockFitsSlice(i, j, 1, blockSize, matrixSize);
        BlockFitsSlice(i, j, 2, blockSize, matrixSize);
        CopyMatrixBlockToBlock(data, i, j, matrixSize, curPijN, curPijM, workspace, mb);
        MainBlocksMultiply(curPijN, curPijN, curPijM, workspace, ma, mb, mc);
        CopyBlockToMatrixBlock(data, i, j, matrixSize, curPijN, curPijM, workspace, mc);
        NeighbourBlockStarts(j, blockSize);
        j := j + blockSize;
      }
      i := i + blockSize;
    }
    return 0;
  }
}
