/** The keys of the causal trie: 32-byte digests, read bit by bit. */
module CausalKey {
  import opened ByteBits
  import opened MerkleHash
  import opened Causal

  const CAUSAL_DEPTH: nat := 256

  type Key = k: Bytes | |k| == 32 witness seq(32, i => 0)

  /** Bit d of a key, the highest bit of the first byte first. */
  function CausalBit(key: Key, d: nat): bool
    requires d < CAUSAL_DEPTH
  {
    ByteBit(key[d / 8], 7 - d % 8)
  }

  function Digests(): KeyBits<Key> {
    KeyBits(CAUSAL_DEPTH, (key: Key, d: nat) => if d < CAUSAL_DEPTH then CausalBit(key, d) else false)
  }

  /** The bits of a key are the binary digits of its bytes, the highest digit of
      each byte first. */
  lemma KeyDigits(key: Key, i: nat)
    requires i < 32
    ensures key[i] as int == (if CausalBit(key, 8 * i) then 128 else 0) + (if CausalBit(key, 8 * i + 1) then 64 else 0)
      + (if CausalBit(key, 8 * i + 2) then 32 else 0) + (if CausalBit(key, 8 * i + 3) then 16 else 0)
      + (if CausalBit(key, 8 * i + 4) then 8 else 0) + (if CausalBit(key, 8 * i + 5) then 4 else 0)
      + (if CausalBit(key, 8 * i + 6) then 2 else 0) + (if CausalBit(key, 8 * i + 7) then 1 else 0)
  {
    ByteValue(key[i]);
    BitOfByte(key, i, 0); BitOfByte(key, i, 1); BitOfByte(key, i, 2); BitOfByte(key, i, 3);
    BitOfByte(key, i, 4); BitOfByte(key, i, 5); BitOfByte(key, i, 6); BitOfByte(key, i, 7);
  }

  lemma BitOfByte(key: Key, i: nat, s: nat)
    requires i < 32 && s < 8
    ensures CausalBit(key, 8 * i + 7 - s) == ByteBit(key[i], s)
  {
    assert (8 * i + 7 - s) / 8 == i;
  }

  lemma AgreeAt(a: Key, b: Key, i: nat, s: nat)
    requires Agree(Digests(), a, b, CAUSAL_DEPTH) && i < 32 && s < 8
    ensures ByteBit(a[i], s) == ByteBit(b[i], s)
  {
    assert SameBit(Digests(), a, b, 8 * i + 7 - s);
    BitOfByte(a, i, s);
    BitOfByte(b, i, s);
  }

  /** The 256 bits identify a digest, so everything proved of the trie holds for digests. */
  lemma DigestsIdentify()
    ensures Identifies(Digests())
  {
    forall a: Key, b: Key
      ensures IdentifiedAt(Digests(), a, b)
    {
      if Agree(Digests(), a, b, CAUSAL_DEPTH) {
        forall i | 0 <= i < 32
          ensures a[i] == b[i]
        {
          AgreeAt(a, b, i, 0); AgreeAt(a, b, i, 1); AgreeAt(a, b, i, 2); AgreeAt(a, b, i, 3);
          AgreeAt(a, b, i, 4); AgreeAt(a, b, i, 5); AgreeAt(a, b, i, 6); AgreeAt(a, b, i, 7);
          SameByte(a[i], b[i]);
        }
        assert a == b;
      }
    }
  }
}
