/** Integer geometry shared by the block-transfer routines and the blocked drivers of
    src/array_op.c: dense row-major offsets, clipped block extents, the lattice of block
    starts 0, b, 2b, ..., the backward solve's `residue`, and the three workspace slices. */
module BlockGeometry {
  import opened Arithmetic

  /** Offset of element (r, c) of a dense row-major n x m block, `r * m + c`; it always lies
      in the block's first n * m entries. */
  function DenseOffset(r: int, c: int, n: int, m: int): (k: int)
    requires 0 <= r < n && 0 <= c < m
    ensures 0 <= k < n * m
  {
    MulStep(r, n, m);
    assert r * m >= 0;
    r * m + c
  }

  /** Row-major offsets follow the lexicographic order of (row, column). */
  lemma DenseOffsetOrder(r1: int, c1: int, r2: int, c2: int, n: int, m: int)
    requires 0 <= r1 < n && 0 <= r2 < n && 0 <= c1 < m && 0 <= c2 < m
    requires r1 < r2 || (r1 == r2 && c1 < c2)
    ensures DenseOffset(r1, c1, n, m) < DenseOffset(r2, c2, n, m)
  {
    if r1 < r2 {
      MulStep(r1, r2, m);
    }
  }

  /** Every offset below n * m is the offset of exactly one (row, column) of an n x m block. */
  function DensePosition(k: int, n: int, m: int): (pos: (int, int))
    requires 0 <= k < n * m && 1 <= m
    ensures 0 <= pos.0 < n && 0 <= pos.1 < m
    ensures DenseOffset(pos.0, pos.1, n, m) == k
  {
    var r := k / m;
    MulStep(n - 1, r, m);
    (r, k % m)
  }

  /** A block starts at a non-negative multiple of the block size. */
  predicate IsBlockStart(p: int, blockSize: int)
    requires 1 <= blockSize
  {
    0 <= p && p % blockSize == 0
  }

  /** Stepping by one block, up or down, moves from a block start to the next one. */
  lemma NeighbourBlockStarts(p: int, blockSize: int)
    requires 1 <= blockSize && IsBlockStart(p, blockSize)
    ensures IsBlockStart(p + blockSize, blockSize)
    ensures p >= blockSize ==> IsBlockStart(p - blockSize, blockSize)
  {
    var t := p / blockSize;
    assert p == t * blockSize;
    assert p + blockSize == (t + 1) * blockSize;
    assert p - blockSize == (t - 1) * blockSize;
    DivModUnique(p + blockSize, blockSize, t + 1, 0);
    if p >= blockSize {
      MulStep(t - 1, 0, blockSize);
      DivModUnique(p - blockSize, blockSize, t - 1, 0);
    }
  }

  /** Two different block starts are at least a whole block apart. */
  lemma BlockStartsApart(p: int, q: int, blockSize: int)
    requires 1 <= blockSize && IsBlockStart(p, blockSize) && IsBlockStart(q, blockSize) && p < q
    ensures p + blockSize <= q
  {
    var s, t := p / blockSize, q / blockSize;
    assert p == s * blockSize && q == t * blockSize;
    MulStep(t - 1, s, blockSize);
    assert (t - 1) * blockSize + blockSize == q;
    MulStep(s, t, blockSize);
  }

  /** Number of rows of the block that starts at p: (p + b < n ? b : n - p), that is
      min(b, n - p). */
  function Extent(p: int, blockSize: int, matrixSize: int): (e: int)
    ensures e <= blockSize && e <= matrixSize - p
    ensures e == blockSize || e == matrixSize - p
    ensures 0 <= p < matrixSize && 1 <= blockSize ==> 1 <= e
  {
    if p + blockSize < matrixSize then blockSize else matrixSize - p
  }

  /** Start of the block that contains row x. */
  function BlockStartOf(x: int, blockSize: int): (p: int)
    requires 0 <= x && 1 <= blockSize
    ensures IsBlockStart(p, blockSize)
    ensures p <= x < p + blockSize
  {
    DivModUnique(x, blockSize, x / blockSize, x % blockSize);
    DivModUnique((x / blockSize) * blockSize, blockSize, x / blockSize, 0);
    (x / blockSize) * blockSize
  }

  /** The clipped blocks at the starts 0, b, 2b, ... below n partition [0, n): row x lies in
      the block that starts at BlockStartOf(x), and in no other. */
  lemma BlocksPartition(x: int, blockSize: int, matrixSize: int)
    requires 1 <= blockSize && 0 <= x < matrixSize
    ensures BlockStartOf(x, blockSize) <= x
              < BlockStartOf(x, blockSize) + Extent(BlockStartOf(x, blockSize), blockSize, matrixSize)
    ensures forall q :: IsBlockStart(q, blockSize) && q <= x < q + Extent(q, blockSize, matrixSize) ==>
                          q == BlockStartOf(x, blockSize)
  {
    forall q | IsBlockStart(q, blockSize) && q <= x < q + Extent(q, blockSize, matrixSize)
      ensures q == BlockStartOf(x, blockSize)
    {
      DivModUnique(q, blockSize, q / blockSize, 0);
      DivModUnique(x, blockSize, q / blockSize, x - q);
    }
  }

  /** Total number of rows covered by the blocks a loop `for (p = start; p < n; p += b)` visits. */
  function CoveredFrom(start: int, blockSize: int, matrixSize: int): int
    requires 1 <= blockSize
    decreases matrixSize - start
  {
    if start >= matrixSize then 0
    else Extent(start, blockSize, matrixSize) + CoveredFrom(start + blockSize, blockSize, matrixSize)
  }

  /** The extents of the visited blocks add up to exactly the rows left: nothing is skipped or
      processed twice, in particular not the short last block. */
  lemma {:induction false} ExtentsCover(start: int, blockSize: int, matrixSize: int)
    requires 1 <= blockSize && 0 <= start <= matrixSize
    ensures CoveredFrom(start, blockSize, matrixSize) == matrixSize - start
    decreases matrixSize - start
  {
    if start < matrixSize && start + blockSize < matrixSize {
      ExtentsCover(start + blockSize, blockSize, matrixSize);
    }
  }

  /** The backward solve's `residue`: matrixSize rounded down to a multiple of the block size,
      backed off by one block when matrixSize is itself a multiple. It is the start of the last
      block, the one that holds row matrixSize - 1, and that block ends exactly at matrixSize. */
  function Residue(matrixSize: int, blockSize: int): (residue: int)
    requires 1 <= blockSize && 1 <= matrixSize
    ensures IsBlockStart(residue, blockSize) && residue < matrixSize
    ensures residue + Extent(residue, blockSize, matrixSize) == matrixSize
    ensures residue == BlockStartOf(matrixSize - 1, blockSize)
  {
    LastBlock(matrixSize, blockSize);
    var residue := matrixSize - matrixSize % blockSize;
    if residue == matrixSize then residue - blockSize else residue
  }

  /** The block holding row n - 1 is block number q = (n - 1) / b: n % b rows past its start,
      or a whole block when b divides n. */
  lemma LastBlock(matrixSize: int, blockSize: int)
    requires 1 <= blockSize && 1 <= matrixSize
    ensures var q := (matrixSize - 1) / blockSize;
            && 0 <= q && IsBlockStart(q * blockSize, blockSize)
            && q * blockSize == matrixSize - (if matrixSize % blockSize == 0 then blockSize else matrixSize % blockSize)
  {
    var t, s := matrixSize / blockSize, matrixSize % blockSize;
    assert matrixSize == t * blockSize + s;
    var q := if s == 0 then t - 1 else t;
    assert q * blockSize == matrixSize - (if s == 0 then blockSize else s) by {
      assert (t - 1) * blockSize == t * blockSize - blockSize;
    }
    MulStep(-1, q, blockSize);
    DivModUnique(matrixSize - 1, blockSize, q, matrixSize - 1 - q * blockSize);
    DivModUnique(q * blockSize, blockSize, q, 0);
  }

  /** Start of slice `slice` (ma = 0, mb = 1, mc = 2) of the 3 * b^2 workspace. */
  function SliceBase(slice: int, blockSize: int): int
  {
    slice * (blockSize * blockSize)
  }

  /** A dense block of two clipped extents fits one b^2 slice, so the three slices ma, mb, mc
      of a 3 * b^2 workspace never overlap and all lie inside the workspace. */
  lemma BlockFitsSlice(p: int, q: int, slice: int, blockSize: int, matrixSize: int)
    requires 1 <= blockSize && 0 <= p < matrixSize && 0 <= q < matrixSize && 0 <= slice < 3
    ensures 0 <= SliceBase(slice, blockSize)
    ensures 0 < Extent(p, blockSize, matrixSize) * Extent(q, blockSize, matrixSize) <= blockSize * blockSize
    ensures SliceBase(slice, blockSize) + Extent(p, blockSize, matrixSize) * Extent(q, blockSize, matrixSize)
              <= SliceBase(slice + 1, blockSize) <= 3 * (blockSize * blockSize)
  {
    var e, f := Extent(p, blockSize, matrixSize), Extent(q, blockSize, matrixSize);
    var area := blockSize * blockSize;
    MulStep(0, e, f);
    MulStep(f, blockSize + 1, e);
    MulStep(e, blockSize + 1, blockSize);
    assert SliceBase(slice + 1, blockSize) == SliceBase(slice, blockSize) + area;
    MulStep(slice + 1, 3 + 1, area);
    MulStep(-1, slice, area);
  }
}
