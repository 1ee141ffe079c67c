/** Two facts of integer multiplication and division that the block geometry and the time
    split rest on; the solver cannot find them unaided once products of variables appear. */
module Arithmetic {

  /** Moving up one or more rows of m columns moves the offset by at least m. */
  lemma MulStep(a: int, b: int, m: int)
    requires 0 <= m
    ensures a < b ==> a * m + m <= b * m
  {
    if a < b {
      var d := b - a - 1;
      assert d * m >= 0;
      assert b * m == (a + 1 + d) * m == a * m + m + d * m;
    }
  }

  /** Integer division is determined by a quotient and an in-range remainder. */
  lemma DivModUnique(x: int, b: int, t: int, s: int)
    requires 1 <= b && 0 <= s < b && x == t * b + s
    ensures x / b == t && x % b == s
  {
    var t', s' := x / b, x % b;
    assert x == t' * b + s';
    if t' < t {
      MulStep(t', t, b);
    } else if t < t' {
      MulStep(t, t', b);
    }
  }
}
