/** The CholeskyMatrix record the solver passes around: the dimension, the block size, the
    packed upper triangle and the diagonal of signs D. */
module CholeskyMatrices {
  import opened PackedIndex

  datatype CholeskyMatrix = CholeskyMatrix(size: int, blockSize: int, data: array<real>, diagonal: array<real>)
  {
    /** What the callers establish before factoring or solving: 1 <= block_size <= matrix_size
        (checked when the command line is parsed), a packed buffer of n(n+1)/2 entries and a
        diagonal of n entries, allocated separately. */
    predicate Valid()
    {
      && 1 <= blockSize <= size
      && data.Length == SymmetricMatrixSize(size)
      && diagonal.Length == size
      && data != diagonal
    }
  }
}
