/** Whole-buffer facts shared by every routine that writes part of a `double` array: the frame
    predicate "nothing outside this range changed" and the memset that clears a range. */
module Buffers {

  /** s1 and s2 have the same length and agree everywhere outside [lo, hi). */
  ghost predicate SameOutside(s1: seq<real>, s2: seq<real>, lo: int, hi: int)
  {
    |s1| == |s2| && forall k :: 0 <= k < |s1| && !(lo <= k < hi) ==> s1[k] == s2[k]
  }

  /** memset(b + base, 0, count * sizeof(double)). */
  method ZeroFill(b: array<real>, base: int, count: int)
    requires 0 <= base && 0 <= count && base + count <= b.Length
    modifies b
    ensures forall k :: base <= k < base + count ==> b[k] == 0.0
    ensures SameOutside(old(b[..]), b[..], base, base + count)
  {
    var k := base;
    while k < base + count
      invariant base <= k <= base + count
      invariant forall k' :: base <= k' < k ==> b[k'] == 0.0
      invariant SameOutside(old(b[..]), b[..], base, base + count)
    {
      b[k] := 0.0;
      k := k + 1;
    }
  }
}
