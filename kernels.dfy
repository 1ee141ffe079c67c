/** The dense numeric kernels of src/array_op.c, modelled only by their memory behaviour: which
    buffer they write, how many leading entries of it, which inputs they read, and, for those
    that can detect a tiny pivot, a success flag. The floating-point values they compute are
    left opaque: the model writes arbitrary reals where they write results. */
module Kernels {
  import opened Buffers

  /** Two index ranges [lo1, lo1 + len1) and [lo2, lo2 + len2) do not overlap. */
  predicate Disjoint(lo1: int, len1: int, lo2: int, len2: int)
  {
    lo1 + len1 <= lo2 || lo2 + len2 <= lo1
  }

  /** A range [lo, lo + len) that lies inside a buffer of the given length. */
  predicate Within(lo: int, len: int, length: int)
  {
    0 <= lo && 0 <= len && lo + len <= length
  }

  /** Stands for a floating-point result written to buf[base .. base + count): the values are
      arbitrary, nothing else of buf changes. */
  method Overwrite(buf: array<real>, base: int, count: int)
    requires Within(base, count, buf.Length)
    modifies buf
    ensures SameOutside(old(buf[..]), buf[..], base, base + count)
  {
    var k := base;
    while k < base + count
      invariant base <= k <= base + count
      invariant SameOutside(old(buf[..]), buf[..], base, base + count)
    {
      buf[k] := *;
      k := k + 1;
    }
  }

  /** main_blocks_diagonal_multiply: C -= A^T diag(d) B with A n x m at aBase, B n x l at
      bBase, d the n entries of `diagonal` at dBase; only the m x l block C at cBase changes,
      and C may not overlap A or B. */
  method MainBlocksDiagonalMultiply(n: int, m: int, l: int, ws: array<real>, aBase: int, bBase: int,
                                    diagonal: array<real>, dBase: int, cBase: int)
    requires ws != diagonal
    requires Within(aBase, n * m, ws.Length) && Within(bBase, n * l, ws.Length)
    requires Within(cBase, m * l, ws.Length) && Within(dBase, n, diagonal.Length)
    requires Disjoint(cBase, m * l, aBase, n * m) && Disjoint(cBase, m * l, bBase, n * l)
    modifies ws
    ensures SameOutside(old(ws[..]), ws[..], cBase, cBase + m * l)
  {
    Overwrite(ws, cBase, m * l);
  }

  /** main_blocks_multiply: C = A B with A n x m at aBase, B n x l at bBase; only the m x l
      block C at cBase changes (it is zeroed, then accumulated), and C may not overlap A or B. */
  method MainBlocksMultiply(n: int, m: int, l: int, ws: array<real>, aBase: int, bBase: int, cBase: int)
    requires Within(aBase, n * m, ws.Length) && Within(bBase, n * l, ws.Length)
    requires Within(cBase, m * l, ws.Length)
    requires Disjoint(cBase, m * l, aBase, n * m) && Disjoint(cBase, m * l, bBase, n * l)
    modifies ws
    ensures SameOutside(old(ws[..]), ws[..], cBase, cBase + m * l)
  {
    ZeroFill(ws, cBase, m * l);
    Overwrite(ws, cBase, m * l);
  }

  /** cholesky_for_block: factors the n x n block at aBase in place and writes the n signs of
      D to `diagonal` at dBase. Every sign is +1 or -1 whether or not a pivot was too small:
      all are first set to +1 and a sign is flipped to -1 when its pivot is negative. */
  method CholeskyForBlock(n: int, ws: array<real>, aBase: int, diagonal: array<real>, dBase: int)
    returns (ok: bool)
    requires ws != diagonal
    requires Within(aBase, n * n, ws.Length) && Within(dBase, n, diagonal.Length)
    modifies ws, diagonal
    ensures SameOutside(old(ws[..]), ws[..], aBase, aBase + n * n)
    ensures SameOutside(old(diagonal[..]), diagonal[..], dBase, dBase + n)
    ensures forall k :: dBase <= k < dBase + n ==> diagonal[k] == 1.0 || diagonal[k] == -1.0
  {
    var k := 0;
    while k < n
      invariant 0 <= k <= n
      invariant forall k' :: dBase <= k' < dBase + k ==> diagonal[k'] == 1.0
      invariant SameOutside(old(diagonal[..]), diagonal[..], dBase, dBase + n)
      modifies diagonal
    {
      diagonal[dBase + k] := 1.0;
      k := k + 1;
    }
    Overwrite(ws, aBase, n * n);
    k := 0;
    while k < n
      invariant 0 <= k <= n
      invariant forall k' :: dBase <= k' < dBase + n ==> diagonal[k'] == 1.0 || diagonal[k'] == -1.0
      invariant SameOutside(old(diagonal[..]), diagonal[..], dBase, dBase + n)
      modifies diagonal
    {
      var negativePivot: bool := *;
      if negativePivot {
        diagonal[dBase + k] := -1.0;
      }
      k := k + 1;
    }
    ok := *;
  }

  /** inverse_upper_triangle_block_and_diagonal: writes inverse(R) diag(d) for the n x n
      factor R at aBase into the n x n block at bBase, which may not overlap R. */
  method InverseUpperTriangleBlockAndDiagonal(n: int, ws: array<real>, aBase: int,
                                              diagonal: array<real>, dBase: int, bBase: int)
    returns (ok: bool)
    requires ws != diagonal
    requires Within(aBase, n * n, ws.Length) && Within(bBase, n * n, ws.Length)
    requires Within(dBase, n, diagonal.Length) && Disjoint(aBase, n * n, bBase, n * n)
    modifies ws
    ensures SameOutside(old(ws[..]), ws[..], bBase, bBase + n * n)
  {
    Overwrite(ws, bBase, n * n);
    ok := *;
  }

  /** inverse_upper_triangle_block_and_diagonal_rhs: solves D R x = y in place on the n
      entries of rhs at rBase, for the n x n factor R at aBase. */
  method InverseUpperTriangleBlockAndDiagonalRhs(n: int, ws: array<real>, aBase: int,
                                                 diagonal: array<real>, dBase: int,
                                                 rhs: array<real>, rBase: int)
    returns (ok: bool)
    requires ws != rhs && diagonal != rhs
    requires Within(aBase, n * n, ws.Length) && Within(dBase, n, diagonal.Length)
    requires Within(rBase, n, rhs.Length)
    modifies rhs
    ensures SameOutside(old(rhs[..]), rhs[..], rBase, rBase + n)
  {
    Overwrite(rhs, rBase, n);
    ok := *;
  }

  /** inverse_lower_triangle_block_rhs: solves R^T y = b in place on the n entries of rhs at
      rBase, for the n x n factor R at aBase. */
  method InverseLowerTriangleBlockRhs(n: int, ws: array<real>, aBase: int, rhs: array<real>, rBase: int)
    returns (ok: bool)
    requires ws != rhs
    requires Within(aBase, n * n, ws.Length) && Within(rBase, n, rhs.Length)
    modifies rhs
    ensures SameOutside(old(rhs[..]), rhs[..], rBase, rBase + n)
  {
    Overwrite(rhs, rBase, n);
    ok := *;
  }

  /** matrix_block_vector_multiply: c -= A b for the n x m block A at aBase, b the m entries of
      rhs at bBase and c the n entries of rhs at cBase, which may not overlap b. */
  method MatrixBlockVectorMultiply(n: int, m: int, ws: array<real>, aBase: int,
                                   rhs: array<real>, bBase: int, cBase: int)
    requires ws != rhs
    requires Within(aBase, n * m, ws.Length)
    requires Within(bBase, m, rhs.Length) && Within(cBase, n, rhs.Length) && Disjoint(bBase, m, cBase, n)
    modifies rhs
    ensures SameOutside(old(rhs[..]), rhs[..], cBase, cBase + n)
  {
    Overwrite(rhs, cBase, n);
  }

  /** matrix_block_transposed_vector_multiply: c -= A^T b for the n x m block A at aBase, b the
      n entries of rhs at bBase and c the m entries of rhs at cBase, which may not overlap b. */
  method MatrixBlockTransposedVectorMultiply(n: int, m: int, ws: array<real>, aBase: int,
                                             rhs: array<real>, bBase: int, cBase: int)
    requires ws != rhs
    requires Within(aBase, n * m, ws.Length)
    requires Within(bBase, n, rhs.Length) && Within(cBase, m, rhs.Length) && Disjoint(bBase, n, cBase, m)
    modifies rhs
    ensures SameOutside(old(rhs[..]), rhs[..], cBase, cBase + m)
  {
    Overwrite(rhs, cBase, m);
  }
}
