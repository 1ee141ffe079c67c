/** The four block-transfer routines of src/array_op.c. They move a block between the packed
    upper-triangular matrix and a dense row-major scratch area that starts at `base` inside a
    workspace array (the C code passes a pointer into the workspace). */
module BlockTransfer {
  import opened PackedIndex
  import opened BlockGeometry
  import opened Buffers

  /** Packed position (i, j) lies in the n x m block whose top-left position is (row, column). */
  predicate InRect(i: int, j: int, row: int, column: int, n: int, m: int)
  {
    row <= i < row + n && column <= j < column + m
  }

  /** The n x m block at (row, column) lies inside the matrix and wholly in its upper triangle,
      as every off-diagonal block the drivers move does. */
  predicate RectAddressable(row: int, column: int, matrixSize: int, n: int, m: int)
  {
    && 0 <= row && 0 <= column && 0 <= n && 0 <= m
    && row + n <= matrixSize && column + m <= matrixSize
    && (n == 0 || m == 0 || row + n <= column + 1)
  }

  /** The dense area [base, base + n * m) of b holds the n x m block of the packed matrix a at
      (row, column), row-major: b[base + r * m + c] == A(row + r, column + c). */
  ghost predicate RectGathered(a: seq<real>, matrixSize: int, row: int, column: int, n: int, m: int,
                               b: seq<real>, base: int)
    requires |a| == SymmetricMatrixSize(matrixSize) && RectAddressable(row, column, matrixSize, n, m)
    requires 0 <= base && base + n * m <= |b|
  {
    forall r, c :: 0 <= r < n && 0 <= c < m ==>
      b[base + DenseOffset(r, c, n, m)] == a[SymmetricIndex(row + r, column + c, matrixSize)]
  }

  /** a2 is a1 with exactly the packed positions of the n x m block at (row, column)
      overwritten from the dense area of b at base; every other entry is unchanged. */
  ghost predicate RectScattered(a1: seq<real>, matrixSize: int, row: int, column: int, n: int, m: int,
                                b: seq<real>, base: int, a2: seq<real>)
    requires |a1| == SymmetricMatrixSize(matrixSize) && RectAddressable(row, column, matrixSize, n, m)
    requires 0 <= base && base + n * m <= |b|
  {
    && |a2| == |a1|
    && (forall i, j :: InRect(i, j, row, column, n, m) ==>
          a2[SymmetricIndex(i, j, matrixSize)] == b[base + DenseOffset(i - row, j - column, n, m)])
    && (forall i, j :: 0 <= i <= j < matrixSize && !InRect(i, j, row, column, n, m) ==>
          a2[SymmetricIndex(i, j, matrixSize)] == a1[SymmetricIndex(i, j, matrixSize)])
  }

  /** The m x m diagonal block at (t, t) lies inside the matrix. */
  predicate DiagAddressable(t: int, matrixSize: int, m: int)
  {
    0 <= t && 0 <= m && t + m <= matrixSize
  }

  /** The dense m x m area of b at base holds the upper half (r <= c) of the diagonal block at
      (t, t), and zeros strictly below its diagonal. */
  ghost predicate DiagGathered(a: seq<real>, matrixSize: int, t: int, m: int, b: seq<real>, base: int)
    requires |a| == SymmetricMatrixSize(matrixSize) && DiagAddressable(t, matrixSize, m)
    requires 0 <= base && base + m * m <= |b|
  {
    && (forall r, c :: 0 <= r <= c < m ==>
          b[base + DenseOffset(r, c, m, m)] == a[SymmetricIndex(t + r, t + c, matrixSize)])
    && (forall r, c :: 0 <= c < r < m ==> b[base + DenseOffset(r, c, m, m)] == 0.0)
  }

  /** a2 is a1 with exactly the packed positions of the diagonal block at (t, t) overwritten
      from the upper half of the dense area of b at base; every other entry is unchanged. */
  ghost predicate DiagScattered(a1: seq<real>, matrixSize: int, t: int, m: int,
                                b: seq<real>, base: int, a2: seq<real>)
    requires |a1| == SymmetricMatrixSize(matrixSize) && DiagAddressable(t, matrixSize, m)
    requires 0 <= base && base + m * m <= |b|
  {
    && |a2| == |a1|
    && (forall i, j :: t <= i <= j < t + m ==>
          a2[SymmetricIndex(i, j, matrixSize)] == b[base + DenseOffset(i - t, j - t, m, m)])
    && (forall i, j :: 0 <= i <= j < matrixSize && !(t <= i && j < t + m) ==>
          a2[SymmetricIndex(i, j, matrixSize)] == a1[SymmetricIndex(i, j, matrixSize)])
  }

  /** cpy_matrix_block_to_block: zero the n x m dense area, then copy the block in row by row.
      Only that dense area of b changes. */
  method CopyMatrixBlockToBlock(a: array<real>, row: int, column: int, matrixSize: int, n: int, m: int,
                                b: array<real>, base: int)
    requires a != b
    requires a.Length == SymmetricMatrixSize(matrixSize) && RectAddressable(row, column, matrixSize, n, m)
    requires 0 <= base && base + n * m <= b.Length
    modifies b
    ensures RectGathered(a[..], matrixSize, row, column, n, m, b[..], base)
    ensures SameOutside(old(b[..]), b[..], base, base + n * m)
  {
    ZeroFill(b, base, n * m);
    var i := row;
    while i < row + n
      invariant row <= i <= row + n
      invariant forall r, c :: 0 <= r < i - row && 0 <= c < m ==>
                  b[base + DenseOffset(r, c, n, m)] == a[SymmetricIndex(row + r, column + c, matrixSize)]
      invariant SameOutside(old(b[..]), b[..], base, base + n * m)
    {
      var j := column;
      while j < column + m
        invariant column <= j <= column + m
        invariant forall r, c :: (0 <= r < i - row && 0 <= c < m) || (r == i - row && 0 <= c < j - column) ==>
                    b[base + DenseOffset(r, c, n, m)] == a[SymmetricIndex(row + r, column + c, matrixSize)]
        invariant SameOutside(old(b[..]), b[..], base, base + n * m)
      {
        forall r, c | (0 <= r < i - row && 0 <= c < m) || (r == i - row && 0 <= c < j - column)
          ensures DenseOffset(r, c, n, m) < DenseOffset(i - row, j - column, n, m)
        {
          DenseOffsetOrder(r, c, i - row, j - column, n, m);
        }
        b[base + DenseOffset(i - row, j - column, n, m)] := a[SymmetricIndex(i, j, matrixSize)];
        j := j + 1;
      }
      i := i + 1;
    }
  }

  /** cpy_block_to_matrix_block: write the n x m dense area back into the block's packed
      positions. */
  method CopyBlockToMatrixBlock(a: array<real>, row: int, column: int, matrixSize: int, n: int, m: int,
                                b: array<real>, base: int)
    requires a != b
    requires a.Length == SymmetricMatrixSize(matrixSize) && RectAddressable(row, column, matrixSize, n, m)
    requires 0 <= base && base + n * m <= b.Length
    modifies a
    ensures RectScattered(old(a[..]), matrixSize, row, column, n, m, b[..], base, a[..])
  {
    var i := row;
    while i < row + n
      invariant row <= i <= row + n
      invariant forall i', j' :: InRect(i', j', row, column, i - row, m) ==>
                  a[SymmetricIndex(i', j', matrixSize)] == b[base + DenseOffset(i' - row, j' - column, n, m)]
      invariant forall i', j' :: 0 <= i' <= j' < matrixSize && !InRect(i', j', row, column, i - row, m) ==>
                  a[SymmetricIndex(i', j', matrixSize)] == old(a[SymmetricIndex(i', j', matrixSize)])
    {
      var j := column;
      while j < column + m
        invariant column <= j <= column + m
        invariant forall i', j' :: InRect(i', j', row, column, i - row, m) || (i' == i && column <= j' < j) ==>
                    a[SymmetricIndex(i', j', matrixSize)] == b[base + DenseOffset(i' - row, j' - column, n, m)]
        invariant forall i', j' :: 0 <= i' <= j' < matrixSize && !InRect(i', j', row, column, i - row, m)
                                   && !(i' == i && column <= j' < j) ==>
                    a[SymmetricIndex(i', j', matrixSize)] == old(a[SymmetricIndex(i', j', matrixSize)])
      {
        forall i', j' | 0 <= i' <= j' < matrixSize && (i', j') != (i, j)
          ensures SymmetricIndex(i', j', matrixSize) != SymmetricIndex(i, j, matrixSize)
        {
          if SymmetricIndex(i', j', matrixSize) == SymmetricIndex(i, j, matrixSize) {
            SymmetricIndexInjective(i', j', i, j, matrixSize);
          }
        }
        a[SymmetricIndex(i, j, matrixSize)] := b[base + DenseOffset(i - row, j - column, n, m)];
        j := j + 1;
      }
      i := i + 1;
    }
  }

  /** cpy_diagonal_block_to_block: zero the m x m dense area, then copy in the upper half
      (j >= i) of the diagonal block at (t, t); the strictly-lower half stays zero. */
  method CopyDiagonalBlockToBlock(a: array<real>, t: int, matrixSize: int, m: int, b: array<real>, base: int)
    requires a != b
    requires a.Length == SymmetricMatrixSize(matrixSize) && DiagAddressable(t, matrixSize, m)
    requires 0 <= base && base + m * m <= b.Length
    modifies b
    ensures DiagGathered(a[..], matrixSize, t, m, b[..], base)
    ensures SameOutside(old(b[..]), b[..], base, base + m * m)
  {
    ZeroFill(b, base, m * m);
    var i := t;
    while i < t + m
      invariant t <= i <= t + m
      invariant forall r, c :: 0 <= r < i - t && r <= c < m ==>
                  b[base + DenseOffset(r, c, m, m)] == a[SymmetricIndex(t + r, t + c, matrixSize)]
      invariant forall r, c :: 0 <= c < r < m ==> b[base + DenseOffset(r, c, m, m)] == 0.0
      invariant SameOutside(old(b[..]), b[..], base, base + m * m)
    {
      var j := i;
      while j < t + m
        invariant i <= j <= t + m
        invariant forall r, c :: (0 <= r < i - t && r <= c < m) || (r == i - t && r <= c < j - t) ==>
                    b[base + DenseOffset(r, c, m, m)] == a[SymmetricIndex(t + r, t + c, matrixSize)]
        invariant forall r, c :: 0 <= c < r < m ==> b[base + DenseOffset(r, c, m, m)] == 0.0
        invariant SameOutside(old(b[..]), b[..], base, base + m * m)
      {
        forall r, c | (0 <= r < i - t && r <= c < m) || (r == i - t && r <= c < j - t)
          ensures DenseOffset(r, c, m, m) < DenseOffset(i - t, j - t, m, m)
        {
          DenseOffsetOrder(r, c, i - t, j - t, m, m);
        }
        forall r, c | 0 <= c < r < m
          ensures DenseOffset(r, c, m, m) != DenseOffset(i - t, j - t, m, m)
        {
          if r <= i - t {
            DenseOffsetOrder(r, c, i - t, j - t, m, m);
          } else {
            DenseOffsetOrder(i - t, j - t, r, c, m, m);
          }
        }
        b[base + DenseOffset(i - t, j - t, m, m)] := a[SymmetricIndex(i, j, matrixSize)];
        j := j + 1;
      }
      i := i + 1;
    }
  }

  /** cpy_block_to_diagonal_block: write the upper half (j >= i) of the m x m dense area back
      into the diagonal block at (t, t); the dense strictly-lower half is never read. */
  method CopyBlockToDiagonalBlock(a: array<real>, t: int, matrixSize: int, m: int, b: array<real>, base: int)
    requires a != b
    requires a.Length == SymmetricMatrixSize(matrixSize) && DiagAddressable(t, matrixSize, m)
    requires 0 <= base && base + m * m <= b.Length
    modifies a
    ensures DiagScattered(old(a[..]), matrixSize, t, m, b[..], base, a[..])
  {
    var i := t;
    while i < t + m
      invariant t <= i <= t + m
      invariant forall i', j' :: t <= i' < i && i' <= j' < t + m ==>
                  a[SymmetricIndex(i', j', matrixSize)] == b[base + DenseOffset(i' - t, j' - t, m, m)]
      invariant forall i', j' :: 0 <= i' <= j' < matrixSize && !(t <= i' < i && j' < t + m) ==>
                  a[SymmetricIndex(i', j', matrixSize)] == old(a[SymmetricIndex(i', j', matrixSize)])
    {
      var j := i;
      while j < t + m
        invariant i <= j <= t + m
        invariant forall i', j' :: (t <= i' < i && i' <= j' < t + m) || (i' == i && i <= j' < j) ==>
                    a[SymmetricIndex(i', j', matrixSize)] == b[base + DenseOffset(i' - t, j' - t, m, m)]
        invariant forall i', j' :: 0 <= i' <= j' < matrixSize && !(t <= i' < i && j' < t + m)
                                   && !(i' == i && i <= j' < j) ==>
                    a[SymmetricIndex(i', j', matrixSize)] == old(a[SymmetricIndex(i', j', matrixSize)])
      {
        forall i', j' | 0 <= i' <= j' < matrixSize && (i', j') != (i, j)
          ensures SymmetricIndex(i', j', matrixSize) != SymmetricIndex(i, j, matrixSize)
        {
          if SymmetricIndex(i', j', matrixSize) == SymmetricIndex(i, j, matrixSize) {
            SymmetricIndexInjective(i', j', i, j, matrixSize);
          }
        }
        a[SymmetricIndex(i, j, matrixSize)] := b[base + DenseOffset(i - t, j - t, m, m)];
        j := j + 1;
      }
      i := i + 1;
    }
  }

  /** Gathering a rectangular block and scattering the untouched dense copy back leaves the
      packed matrix exactly as it was. */
  lemma RectRoundTrip(a: seq<real>, matrixSize: int, row: int, column: int, n: int, m: int,
                      b: seq<real>, base: int, a2: seq<real>)
    requires |a| == SymmetricMatrixSize(matrixSize) && RectAddressable(row, column, matrixSize, n, m)
    requires 0 <= base && base + n * m <= |b|
    requires RectGathered(a, matrixSize, row, column, n, m, b, base)
    requires RectScattered(a, matrixSize, row, column, n, m, b, base, a2)
    ensures a2 == a
  {
    forall k | 0 <= k < |a|
      ensures a2[k] == a[k]
    {
      var pos := PositionOf(k, matrixSize);
      if InRect(pos.0, pos.1, row, column, n, m) {
        var r, c := pos.0 - row, pos.1 - column;
        assert b[base + DenseOffset(r, c, n, m)] == a[SymmetricIndex(row + r, column + c, matrixSize)];
      }
    }
  }

  /** Scattering a dense block into the packed matrix and gathering the same block again
      yields the dense block that was scattered. */
  lemma RectScatterThenGather(a1: seq<real>, matrixSize: int, row: int, column: int, n: int, m: int,
                              b: seq<real>, base: int, a2: seq<real>, b2: seq<real>, base2: int)
    requires |a1| == SymmetricMatrixSize(matrixSize) && RectAddressable(row, column, matrixSize, n, m)
    requires 0 <= base && base + n * m <= |b| && 0 <= base2 && base2 + n * m <= |b2|
    requires RectScattered(a1, matrixSize, row, column, n, m, b, base, a2)
    requires RectGathered(a2, matrixSize, row, column, n, m, b2, base2)
    ensures b2[base2..base2 + n * m] == b[base..base + n * m]
  {
    var gathered, scattered := b2[base2..base2 + n * m], b[base..base + n * m];
    forall k | 0 <= k < n * m
      ensures gathered[k] == scattered[k]
    {
      var pos := DensePosition(k, n, m);
      var i, j := row + pos.0, column + pos.1;
      assert InRect(i, j, row, column, n, m);
      calc {
        gathered[k];
        b2[base2 + DenseOffset(pos.0, pos.1, n, m)];
        a2[SymmetricIndex(i, j, matrixSize)];
        b[base + DenseOffset(i - row, j - column, n, m)];
        scattered[k];
      }
    }
  }

  /** Gathering the diagonal block and scattering the untouched dense copy back leaves the
      packed matrix exactly as it was. */
  lemma DiagRoundTrip(a: seq<real>, matrixSize: int, t: int, m: int, b: seq<real>, base: int, a2: seq<real>)
    requires |a| == SymmetricMatrixSize(matrixSize) && DiagAddressable(t, matrixSize, m)
    requires 0 <= base && base + m * m <= |b|
    requires DiagGathered(a, matrixSize, t, m, b, base)
    requires DiagScattered(a, matrixSize, t, m, b, base, a2)
    ensures a2 == a
  {
    forall k | 0 <= k < |a|
      ensures a2[k] == a[k]
    {
      var pos := PositionOf(k, matrixSize);
      if t <= pos.0 && pos.1 < t + m {
        var r, c := pos.0 - t, pos.1 - t;
        assert b[base + DenseOffset(r, c, m, m)] == a[SymmetricIndex(t + r, t + c, matrixSize)];
      }
    }
  }

  /** The diagonal scatter never lets the dense strictly-lower half reach the packed matrix:
      two dense blocks that agree on their upper halves scatter to the same packed matrix. */
  lemma DiagScatterIgnoresLower(a: seq<real>, matrixSize: int, t: int, m: int,
                                b1: seq<real>, base1: int, a1: seq<real>,
                                b2: seq<real>, base2: int, a2: seq<real>)
    requires |a| == SymmetricMatrixSize(matrixSize) && DiagAddressable(t, matrixSize, m)
    requires 0 <= base1 && base1 + m * m <= |b1| && 0 <= base2 && base2 + m * m <= |b2|
    requires forall r, c :: 0 <= r <= c < m ==>
               b1[base1 + DenseOffset(r, c, m, m)] == b2[base2 + DenseOffset(r, c, m, m)]
    requires DiagScattered(a, matrixSize, t, m, b1, base1, a1)
    requires DiagScattered(a, matrixSize, t, m, b2, base2, a2)
    ensures a1 == a2
  {
    forall k | 0 <= k < |a|
      ensures a1[k] == a2[k]
    {
      var pos := PositionOf(k, matrixSize);
      if t <= pos.0 && pos.1 < t + m {
        var r, c := pos.0 - t, pos.1 - t;
        assert b1[base1 + DenseOffset(r, c, m, m)] == b2[base2 + DenseOffset(r, c, m, m)];
      }
    }
  }

  /** Scattering a dense diagonal block and gathering it again gives back its upper half
      (the gather itself zeroes the strictly-lower half). */
  lemma DiagScatterThenGather(a1: seq<real>, matrixSize: int, t: int, m: int, b: seq<real>, base: int,
                              a2: seq<real>, b2: seq<real>, base2: int)
    requires |a1| == SymmetricMatrixSize(matrixSize) && DiagAddressable(t, matrixSize, m)
    requires 0 <= base && base + m * m <= |b| && 0 <= base2 && base2 + m * m <= |b2|
    requires DiagScattered(a1, matrixSize, t, m, b, base, a2)
    requires DiagGathered(a2, matrixSize, t, m, b2, base2)
    ensures forall r, c :: 0 <= r <= c < m ==>
              b2[base2 + DenseOffset(r, c, m, m)] == b[base + DenseOffset(r, c, m, m)]
  {
    forall r, c | 0 <= r <= c < m
      ensures b2[base2 + DenseOffset(r, c, m, m)] == b[base + DenseOffset(r, c, m, m)]
    {
      assert a2[SymmetricIndex(t + r, t + c, matrixSize)]
          == b[base + DenseOffset(t + r - t, t + c - t, m, m)];
    }
  }
}
