/** The bits of a byte. */
module ByteBits {
  /** Bit s of a byte, the lowest first. */
  function ByteBit(b: bv8, s: nat): bool
    requires s < 8
  {
    (b >> s) & 1 == 1
  }

  function Digit(b: bv8, s: nat): nat
    requires s < 8
  {
    if ByteBit(b, s) then 1 else 0
  }

  /** The bits are the binary digits of the value. */
  lemma ByteValue(b: bv8)
    ensures b as int == Digit(b, 0) + 2 * Digit(b, 1) + 4 * Digit(b, 2) + 8 * Digit(b, 3)
      + 16 * Digit(b, 4) + 32 * Digit(b, 5) + 64 * Digit(b, 6) + 128 * Digit(b, 7)
  {
  }

  lemma SameByte(a: bv8, b: bv8)
    requires ByteBit(a, 0) == ByteBit(b, 0) && ByteBit(a, 1) == ByteBit(b, 1)
    requires ByteBit(a, 2) == ByteBit(b, 2) && ByteBit(a, 3) == ByteBit(b, 3)
    requires ByteBit(a, 4) == ByteBit(b, 4) && ByteBit(a, 5) == ByteBit(b, 5)
    requires ByteBit(a, 6) == ByteBit(b, 6) && ByteBit(a, 7) == ByteBit(b, 7)
    ensures a == b
  {
  }

  lemma XorBits(a: bv8, b: bv8)
    ensures ByteBit(a ^ b, 0) == (ByteBit(a, 0) != ByteBit(b, 0)) &&
      ByteBit(a ^ b, 1) == (ByteBit(a, 1) != ByteBit(b, 1))
    ensures ByteBit(a ^ b, 2) == (ByteBit(a, 2) != ByteBit(b, 2)) &&
      ByteBit(a ^ b, 3) == (ByteBit(a, 3) != ByteBit(b, 3))
    ensures ByteBit(a ^ b, 4) == (ByteBit(a, 4) != ByteBit(b, 4)) &&
      ByteBit(a ^ b, 5) == (ByteBit(a, 5) != ByteBit(b, 5))
    ensures ByteBit(a ^ b, 6) == (ByteBit(a, 6) != ByteBit(b, 6)) &&
      ByteBit(a ^ b, 7) == (ByteBit(a, 7) != ByteBit(b, 7))
  {
  }

  lemma XorBit(a: bv8, b: bv8, s: nat)
    requires s < 8
    ensures ByteBit(a ^ b, s) == (ByteBit(a, s) != ByteBit(b, s))
  {
    XorBits(a, b);
    assert s in {0, 1, 2, 3, 4, 5, 6, 7};
  }

  lemma ZeroBit(s: nat)
    requires s < 8
    ensures !ByteBit(0, s)
  {
    assert s in {0, 1, 2, 3, 4, 5, 6, 7};
  }
}
