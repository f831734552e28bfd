/** The fixed-width integers of the program, as ranges of `int`. */
module Integers {
  const UINT32_LIMIT: int := 0x1_0000_0000
  const INT64_LIMIT: int := 0x8000_0000_0000_0000
  const UINT64_LIMIT: int := 0x1_0000_0000_0000_0000

  type uint32 = x: int | 0 <= x < UINT32_LIMIT
  type uint64 = x: int | 0 <= x < UINT64_LIMIT
  type int64 = x: int | -INT64_LIMIT <= x < INT64_LIMIT
  type byte = x: int | 0 <= x < 256

  lemma MulMonotone(x: int, y: int, d: nat)
    ensures x <= y ==> x * d <= y * d
  {
    assert x <= y ==> 0 <= (y - x) * d;
  }

  lemma DivMonotone(a: nat, b: nat, d: nat)
    requires a <= b && 0 < d
    ensures a / d <= b / d
  {
    assert (a / d) * d <= a && b < (b / d + 1) * d;
    MulMonotone(b / d + 1, a / d, d);
  }

  /** Floor division, told by the interval around the dividend. */
  lemma QuotientIff(x: nat, d: nat, q: nat)
    requires 0 < d
    ensures x / d == q <==> q * d <= x < (q + 1) * d
  {
    if q * d <= x < (q + 1) * d {
      QuotientUnique(x, q, x - q * d, d);
    }
  }

  lemma QuotientOfQuotient(x: nat, a: nat, b: nat)
    requires 0 < a && 0 < b
    ensures 0 < a * b && x / a / b == x / (a * b)
  {
    var q := x / a;
    var s := q / b;
    var rest := (q - s * b) * a + (x - q * a);
    MulMonotone(1, a, b);
    assert q * a == s * (a * b) + (q - s * b) * a;
    MulMonotone(0, q - s * b, a);
    MulMonotone(q - s * b, b - 1, a);
    assert (b - 1) * a == a * b - a;
    QuotientUnique(x, s, rest, a * b);
  }

  lemma QuotientUnique(x: int, q: int, r: nat, d: nat)
    requires x == q * d + r && r < d
    ensures x / d == q && x % d == r
  {
    assert x == x / d * d + x % d;
    MulMonotone(x / d + 1, q, d);
    MulMonotone(q + 1, x / d, d);
  }
}
