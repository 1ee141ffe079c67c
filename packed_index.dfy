/** Packed upper-triangular addressing of an n x n symmetric matrix (src/matrix_utils.h).
    Row r of the upper triangle holds the n - r entries (r, r) .. (r, n - 1); the rows are
    stored one after the other in a flat buffer of n(n+1)/2 entries. */
module PackedIndex {

  /** Total length of rows 0 .. r-1 of the upper triangle: n + (n - 1) + ... + (n - r + 1). */
  function RowsBefore(r: nat, n: int): int
  {
    if r == 0 then 0 else RowsBefore(r - 1, n) + (n - (r - 1))
  }

  /** The closed form of the row-length sum that the index formula relies on. */
  lemma {:induction false} RowsBeforeClosedForm(r: nat, n: int)
    ensures 2 * RowsBefore(r, n) == 2 * r * n - r * (r - 1)
  {
    if r > 0 {
      RowsBeforeClosedForm(r - 1, n);
      assert (r - 1) * (r - 2) == r * (r - 1) - 2 * (r - 1);
      assert 2 * (r - 1) * n == 2 * r * n - 2 * n;
    }
  }

  /** The start of row r in the form get_symmetric_index computes it: r(r-1) is even, so the
      halving is exact. */
  lemma RowStartFormula(r: nat, n: int)
    ensures r * n - r * (r - 1) / 2 == RowsBefore(r, n)
  {
    RowsBeforeClosedForm(r, n);
    var q := r * n - RowsBefore(r, n);
    assert r * (r - 1) == 2 * q;
  }

  /** Every row of the triangle above row n has at least one entry, so the row starts grow strictly. */
  lemma {:induction false} RowsBeforeGrows(r1: nat, r2: nat, n: int)
    requires r1 <= r2 <= n
    ensures RowsBefore(r1, n) + (r2 - r1) <= RowsBefore(r2, n)
    decreases r2
  {
    if r1 < r2 {
      RowsBeforeGrows(r1, r2 - 1, n);
    }
  }

  /** get_symmetric_matrix_size: number of entries of the packed buffer. */
  function SymmetricMatrixSize(n: int): (size: int)
    ensures n <= 0 ==> size == 0
    ensures n > 0 ==> size == RowsBefore(n, n) && 2 * size == n * (n + 1)
  {
    if n <= 0 then 0
    else
      RowsBeforeClosedForm(n, n);
      n * (n + 1) / 2
  }

  /** get_symmetric_index: offset of entry (row, col), row <= col, in the packed buffer.
      It is the total length of the earlier rows plus the offset of col within row `row`,
      and it always addresses an entry of the buffer. */
  function SymmetricIndex(row: int, col: int, n: int): (k: int)
    requires 0 <= row <= col < n
    ensures k == RowsBefore(row, n) + (col - row)
    ensures 0 <= k < SymmetricMatrixSize(n)
  {
    RowStartFormula(row, n);
    RowsBeforeGrows(0, row, n);
    RowsBeforeGrows(row + 1, n, n);
    row * n - row * (row - 1) / 2 + (col - row)
  }

  /** Offsets are contiguous within a row, a row's last entry is followed by the next row's
      diagonal entry, and the buffer starts at (0, 0) and ends at (n - 1, n - 1). */
  lemma RowLayout(r: int, c: int, n: int)
    requires 0 <= r <= c < n
    ensures c + 1 < n ==> SymmetricIndex(r, c + 1, n) == SymmetricIndex(r, c, n) + 1
    ensures r + 1 < n ==> SymmetricIndex(r + 1, r + 1, n) == SymmetricIndex(r, n - 1, n) + 1
    ensures SymmetricIndex(0, 0, n) == 0
    ensures SymmetricIndex(n - 1, n - 1, n) == SymmetricMatrixSize(n) - 1
  {
  }

  /** Distinct positions of the upper triangle have distinct offsets. */
  lemma {:induction false} SymmetricIndexInjective(r1: int, c1: int, r2: int, c2: int, n: int)
    requires 0 <= r1 <= c1 < n && 0 <= r2 <= c2 < n
    requires SymmetricIndex(r1, c1, n) == SymmetricIndex(r2, c2, n)
    ensures r1 == r2 && c1 == c2
  {
    if r1 < r2 {
      RowsBeforeGrows(r1 + 1, r2, n);
    } else if r2 < r1 {
      RowsBeforeGrows(r2 + 1, r1, n);
    }
  }

  /** Walks rows r, r + 1, ... to find the position whose offset is the k-th one after row r's start. */
  function Locate(k: int, r: nat, n: int): (pos: (int, int))
    requires r <= n
    requires 0 <= k < RowsBefore(n, n) - RowsBefore(r, n)
    ensures r <= pos.0 <= pos.1 < n
    ensures RowsBefore(pos.0, n) + (pos.1 - pos.0) == RowsBefore(r, n) + k
    decreases n - r
  {
    if k < n - r then (r, r + k)
    else Locate(k - (n - r), r + 1, n)
  }

  /** The inverse of the index map: every offset of the buffer is the offset of some (row, col). */
  function PositionOf(k: int, n: int): (pos: (int, int))
    requires 0 <= k < SymmetricMatrixSize(n)
    ensures 0 <= pos.0 <= pos.1 < n
    ensures SymmetricIndex(pos.0, pos.1, n) == k
  {
    Locate(k, 0, n)
  }

  /** PositionOf undoes SymmetricIndex, so together with PositionOf's contract the map
      (row, col) |-> offset is a bijection from the upper triangle onto [0, n(n+1)/2). */
  lemma PositionOfIndex(r: int, c: int, n: int)
    requires 0 <= r <= c < n
    ensures PositionOf(SymmetricIndex(r, c, n), n) == (r, c)
  {
    var pos := PositionOf(SymmetricIndex(r, c, n), n);
    SymmetricIndexInjective(pos.0, pos.1, r, c, n);
  }
}
