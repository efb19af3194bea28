/** The integer types of the code, as ranges. */
module Integers {
  const MAX_INT: int := 0x7FFF_FFFF_FFFF_FFFF
  const MAX_UINT32: int := 0xFFFF_FFFF
  const MAX_UINT64: int := 0xFFFF_FFFF_FFFF_FFFF

  type uint8 = x: int | 0 <= x < 0x100
  type uint32 = x: int | 0 <= x <= MAX_UINT32
  type uint64 = x: int | 0 <= x <= MAX_UINT64

  // ---- quotients

  lemma QuotientBound(m: int, d: int, x: int)
    requires m >= 0 && d > 0
    ensures x > m / d <==> x * d > m
  {
    var q := m / d;
    assert m == q * d + m % d;
    if x > q {
      assert x * d >= (q + 1) * d;
    } else {
      assert x * d <= q * d;
    }
  }

  lemma ProductOrder(a: nat, b: nat)
    requires b > 0
    ensures a <= a * b
  {
  }

  lemma QuotientSmall(x: nat, d: nat)
    requires d > 0
    ensures 0 <= x / d <= x
  {
    ProductOrder(x + 1, d);
    QuotientBound(x, d, x + 1);
  }
}
