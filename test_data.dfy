/** The test-data side of src/array_io.c: the known answer vector, the packed test matrix with
    its right-hand side, and the symmetric lookup the matrix printer performs. Values are
    exact reals; the rounding of the `rhs[i] +=` accumulation is not modelled. */
module TestData {
  import opened PackedIndex
  import opened Buffers

  /** Entry i of the known answer: 1 at even positions, 0 at odd ones. */
  function AnswerEntry(i: int): real
  {
    if i % 2 == 0 then 1.0 else 0.0
  }

  /** fill_vector_answer: zero the n entries, then set every even-indexed one to 1. */
  method FillVectorAnswer(n: int, vectorAnswer: array<real>)
    requires 0 <= n <= vectorAnswer.Length
    modifies vectorAnswer
    ensures forall i :: 0 <= i < n ==> vectorAnswer[i] == AnswerEntry(i)
    ensures SameOutside(old(vectorAnswer[..]), vectorAnswer[..], 0, n)
  {
    ZeroFill(vectorAnswer, 0, n);
    var i := 0;
    while i < n
      invariant 0 <= i && i % 2 == 0
      invariant forall k :: 0 <= k < n ==> vectorAnswer[k] == (if k < i then AnswerEntry(k) else 0.0)
      invariant SameOutside(old(vectorAnswer[..]), vectorAnswer[..], 0, n)
    {
      vectorAnswer[i] := 1.0;
      i := i + 2;
    }
  }

  /** Entry (i, j) of the full symmetric test matrix: n - max(i, j). */
  function TestEntry(i: int, j: int, n: int): (e: real)
    requires 0 <= i < n && 0 <= j < n
    ensures e > 0.0
  {
    if i <= j then (n - j) as real else (n - i) as real
  }

  /** Row i of the full test matrix. */
  function TestRow(n: int, i: int): seq<real>
    requires 0 <= i < n
  {
    seq(n, j requires 0 <= j < n => TestEntry(i, j, n))
  }

  /** The product of the first `upto` entries of a row with those of x. */
  function Dot(row: seq<real>, x: seq<real>, upto: int): real
    requires 0 <= upto <= |row| && upto <= |x|
  {
    if upto == 0 then 0.0 else Dot(row, x, upto - 1) + row[upto - 1] * x[upto - 1]
  }

  /** One more term of a row product: adding row[j] * x[j] extends the sum over the first j
      columns to the first j + 1. */
  lemma DotStep(row: seq<real>, x: seq<real>, j: int, sum: real, entry: real, xj: real)
    requires 0 <= j < |row| && j < |x|
    requires sum == Dot(row, x, j) && entry == row[j] && xj == x[j]
    ensures sum + entry * xj == Dot(row, x, j + 1)
  {
  }

  /** The symmetric lookup of printf_matrix: entry (i, j) of the full matrix is read from packed
      position (min(i, j), max(i, j)), which always exists. */
  function Lookup(a: seq<real>, n: int, i: int, j: int): real
    requires |a| == SymmetricMatrixSize(n) && 0 <= i < n && 0 <= j < n
  {
    if j >= i then a[SymmetricIndex(i, j, n)] else a[SymmetricIndex(j, i, n)]
  }

  /** Row i of the full matrix that the packed buffer a stands for. */
  function StoredRow(a: seq<real>, n: int, i: int): seq<real>
    requires |a| == SymmetricMatrixSize(n) && 0 <= i < n
  {
    seq(n, j requires 0 <= j < n => Lookup(a, n, i, j))
  }

  /** A packed buffer that holds the test matrix in its upper triangle. */
  ghost predicate HoldsTestMatrix(a: seq<real>, n: int)
    requires |a| == SymmetricMatrixSize(n)
  {
    forall i, j :: 0 <= i <= j < n ==> a[SymmetricIndex(i, j, n)] == (n - j) as real
  }

  /** Read back through the symmetric lookup, a buffer holding n - j on its upper triangle is
      the full test matrix n - max(i, j), row by row. */
  lemma StoredRowIsTestRow(a: seq<real>, n: int, i: int)
    requires |a| == SymmetricMatrixSize(n) && HoldsTestMatrix(a, n) && 0 <= i < n
    ensures StoredRow(a, n, i) == TestRow(n, i)
  {
    forall j | 0 <= j < n
      ensures StoredRow(a, n, i)[j] == TestRow(n, i)[j]
    {
      if i <= j {
        assert StoredRow(a, n, i)[j] == a[SymmetricIndex(i, j, n)];
      } else {
        assert StoredRow(a, n, i)[j] == a[SymmetricIndex(j, i, n)];
      }
    }
  }

  /** The first half of fill_matrix's pass for row i: add A(i, j) * vectorAnswer[j] to rhs[i]
      for j < i, reading A(i, j) at packed (j, i), which row j's pass has already written. */
  method AccumulateLeftOfDiagonal(n: int, matrix: array<real>, vectorAnswer: array<real>, rhs: array<real>, i: int)
    requires matrix.Length == SymmetricMatrixSize(n) && vectorAnswer.Length == n && rhs.Length == n
    requires matrix != rhs && vectorAnswer != rhs
    requires 0 <= i < n && rhs[i] == 0.0
    requires forall r, c :: 0 <= r < i && r <= c < n ==> matrix[SymmetricIndex(r, c, n)] == (n - c) as real
    modifies rhs
    ensures rhs[i] == Dot(TestRow(n, i), vectorAnswer[..], i)
    ensures SameOutside(old(rhs[..]), rhs[..], i, i + 1)
  {
    var x := vectorAnswer[..];
    var j := 0;
    while j < i
      invariant 0 <= j <= i
      invariant rhs[i] == Dot(TestRow(n, i), x, j)
      invariant SameOutside(old(rhs[..]), rhs[..], i, i + 1)
    {
      var entry, xj := matrix[SymmetricIndex(j, i, n)], vectorAnswer[j];
      DotStep(TestRow(n, i), x, j, rhs[i], entry, xj);
      rhs[i] := rhs[i] + entry * xj;
      j := j + 1;
    }
  }

  /** The second half of fill_matrix's pass for row i: write (i, j) = n - j for j = i .. n - 1
      and add each written entry times vectorAnswer[j] to rhs[i]. Rows after i are not touched. */
  method FillRowFromDiagonal(n: int, matrix: array<real>, vectorAnswer: array<real>, rhs: array<real>, i: int)
    requires matrix.Length == SymmetricMatrixSize(n) && vectorAnswer.Length == n && rhs.Length == n
    requires matrix != rhs && vectorAnswer != rhs && matrix != vectorAnswer
    requires 0 <= i < n
    requires rhs[i] == Dot(TestRow(n, i), vectorAnswer[..], i)
    requires forall r, c :: 0 <= r < i && r <= c < n ==> matrix[SymmetricIndex(r, c, n)] == (n - c) as real
    modifies matrix, rhs
    ensures rhs[i] == Dot(TestRow(n, i), vectorAnswer[..], n)
    ensures SameOutside(old(rhs[..]), rhs[..], i, i + 1)
    ensures forall r, c :: 0 <= r <= i && r <= c < n ==> matrix[SymmetricIndex(r, c, n)] == (n - c) as real
    ensures forall r, c :: i < r <= c < n ==> matrix[SymmetricIndex(r, c, n)] == old(matrix[SymmetricIndex(r, c, n)])
  {
    var x := vectorAnswer[..];
    var j := i;
    while j < n
      invariant i <= j <= n
      invariant rhs[i] == Dot(TestRow(n, i), x, j)
      invariant SameOutside(old(rhs[..]), rhs[..], i, i + 1)
      invariant forall r, c :: 0 <= r <= c < n && (r < i || (r == i && c < j)) ==>
                  matrix[SymmetricIndex(r, c, n)] == (n - c) as real
      invariant forall r, c :: i < r <= c < n ==> matrix[SymmetricIndex(r, c, n)] == old(matrix[SymmetricIndex(r, c, n)])
    {
      var k := SymmetricIndex(i, j, n);
      forall r, c | 0 <= r <= c < n && (r < i || (r == i && c < j) || i < r)
        ensures SymmetricIndex(r, c, n) != k
      {
        if SymmetricIndex(r, c, n) == k {
          SymmetricIndexInjective(r, c, i, j, n);
        }
      }
      matrix[k] := (n - j) as real;
      var entry, xj := matrix[k], vectorAnswer[j];
      DotStep(TestRow(n, i), x, j, rhs[i], entry, xj);
      rhs[i] := rhs[i] + entry * xj;
      j := j + 1;
    }
  }

  /** fill_matrix: zero rhs, then fill row i of the packed upper triangle with n - j and
      accumulate rhs[i] as row i of the full symmetric matrix times vectorAnswer. Entries left
      of the diagonal, (j, i) with j < i, are read back from the rows written before. It always
      returns 0; afterwards the whole buffer holds the test matrix and rhs = A * vectorAnswer. */
  method FillMatrix(n: int, matrix: array<real>, vectorAnswer: array<real>, rhs: array<real>)
    returns (rc: int)
    requires matrix.Length == SymmetricMatrixSize(n) && vectorAnswer.Length == n && rhs.Length == n
    requires matrix != rhs && vectorAnswer != rhs && matrix != vectorAnswer
    modifies matrix, rhs
    ensures rc == 0
    ensures HoldsTestMatrix(matrix[..], n)
    ensures forall i :: 0 <= i < n ==> rhs[i] == Dot(TestRow(n, i), vectorAnswer[..], n)
    ensures forall i :: 0 <= i < n ==> rhs[i] == Dot(StoredRow(matrix[..], n, i), vectorAnswer[..], n)
  {
    var x := vectorAnswer[..];
    ZeroFill(rhs, 0, n);
    var i := 0;
    while i < n
      invariant 0 <= i <= n
      invariant forall r, c :: 0 <= r < i && r <= c < n ==> matrix[SymmetricIndex(r, c, n)] == (n - c) as real
      invariant forall r :: 0 <= r < n ==> rhs[r] == (if r < i then Dot(TestRow(n, r), x, n) else 0.0)
    {
      AccumulateLeftOfDiagonal(n, matrix, vectorAnswer, rhs, i);
      FillRowFromDiagonal(n, matrix, vectorAnswer, rhs, i);
      i := i + 1;
    }
    forall r | 0 <= r < n
      ensures rhs[r] == Dot(StoredRow(matrix[..], n, r), x, n)
    {
      StoredRowIsTestRow(matrix[..], n, r);
    }
    return 0;
  }

  /** The grid printf_matrix prints: row by row, entry (i, j) looked up at (min(i, j), max(i, j)).
      It is the full symmetric matrix the packed buffer stands for. */
  method PrintMatrix(n: int, matrix: array<real>) returns (grid: seq<seq<real>>)
    requires matrix.Length == SymmetricMatrixSize(n)
    ensures |grid| == (if n < 0 then 0 else n)
    ensures forall i :: 0 <= i < |grid| ==> |grid[i]| == n
    ensures forall i, j :: 0 <= i < n && 0 <= j < n ==> grid[i][j] == Lookup(matrix[..], n, i, j)
    ensures forall i :: 0 <= i < n ==> grid[i] == StoredRow(matrix[..], n, i)
    ensures forall i, j :: 0 <= i < n && 0 <= j < n ==> grid[i][j] == grid[j][i]
    ensures forall i, j :: 0 <= i <= j < n ==> grid[i][j] == matrix[SymmetricIndex(i, j, n)]
  {
    grid := [];
    var i := 0;
    while i < n
      invariant 0 <= i <= (if n < 0 then 0 else n) && |grid| == i
      invariant forall r :: 0 <= r < i ==> |grid[r]| == n
      invariant forall r, c :: 0 <= r < i && 0 <= c < n ==> grid[r][c] == Lookup(matrix[..], n, r, c)
    {
      var line: seq<real> := [];
      var j := 0;
      while j < n
        invariant 0 <= j <= n && |line| == j
        invariant forall c :: 0 <= c < j ==> line[c] == Lookup(matrix[..], n, i, c)
      {
        if j >= i {
          line := line + [matrix[SymmetricIndex(i, j, n)]];
        } else {
          line := line + [matrix[SymmetricIndex(j, i, n)]];
        }
        j := j + 1;
      }
      grid := grid + [line];
      i := i + 1;
    }
  }
}
