/** Sketch coordinates as little-endian bytes. */
module Encoding {
  import opened ByteBits
  import Word64

  type Word = Word64.Word

  function LittleEndian(w: Word): (b: seq<bv8>)
    ensures |b| == 8
  {
    [(w & 0xFF) as bv8, ((w >> 8) & 0xFF) as bv8, ((w >> 16) & 0xFF) as bv8, ((w >> 24) & 0xFF) as bv8,
     ((w >> 32) & 0xFF) as bv8, ((w >> 40) & 0xFF) as bv8, ((w >> 48) & 0xFF) as bv8, ((w >> 56) & 0xFF) as bv8]
  }

  function Packed(b0: bv8, b1: bv8, b2: bv8, b3: bv8, b4: bv8, b5: bv8, b6: bv8, b7: bv8): Word {
    (b0 as Word) | ((b1 as Word) << 8) | ((b2 as Word) << 16) | ((b3 as Word) << 24) |
    ((b4 as Word) << 32) | ((b5 as Word) << 40) | ((b6 as Word) << 48) | ((b7 as Word) << 56)
  }

  function WordOf(b: seq<bv8>): Word
    requires |b| >= 8
  {
    Packed(b[0], b[1], b[2], b[3], b[4], b[5], b[6], b[7])
  }

  lemma WordRoundTrip(w: Word)
    ensures WordOf(LittleEndian(w)) == w
  {
  }

  lemma PackedBytes(b0: bv8, b1: bv8, b2: bv8, b3: bv8, b4: bv8, b5: bv8, b6: bv8, b7: bv8)
    ensures LittleEndian(Packed(b0, b1, b2, b3, b4, b5, b6, b7)) == [b0, b1, b2, b3, b4, b5, b6, b7]
  {
  }

  /** Eight bytes are the bytes of the word they encode. */
  lemma ByteRoundTrip(b: seq<bv8>)
    requires |b| == 8
    ensures LittleEndian(WordOf(b)) == b
  {
    PackedBytes(b[0], b[1], b[2], b[3], b[4], b[5], b[6], b[7]);
  }

  // ---- the order of the bytes

  function LowByte(w: Word): bv8 { (w & 0xFF) as bv8 }

  function DropByte(w: Word): Word { w >> 8 }

  lemma BytesShift(w: Word)
    ensures LittleEndian(w)[0] == LowByte(w)
    ensures LittleEndian(w)[1..] == LittleEndian(DropByte(w))[..7]
  {
  }

  lemma DropByteShifts(w: Word)
    ensures DropByte(w) ==
      Word64.Shr(Word64.Shr(Word64.Shr(Word64.Shr(Word64.Shr(Word64.Shr(Word64.Shr(Word64.Shr(w))))))))
  {
  }

  lemma LowByteShift(w: Word)
    ensures ByteBit(LowByte(w), 0) == Word64.Odd(w) && ByteBit(LowByte(w), 1) == ByteBit(LowByte(Word64.Shr(w)), 0)
    ensures ByteBit(LowByte(w), 2) == ByteBit(LowByte(Word64.Shr(w)), 1)
    ensures ByteBit(LowByte(w), 3) == ByteBit(LowByte(Word64.Shr(w)), 2)
    ensures ByteBit(LowByte(w), 4) == ByteBit(LowByte(Word64.Shr(w)), 3)
    ensures ByteBit(LowByte(w), 5) == ByteBit(LowByte(Word64.Shr(w)), 4)
    ensures ByteBit(LowByte(w), 6) == ByteBit(LowByte(Word64.Shr(w)), 5)
    ensures ByteBit(LowByte(w), 7) == ByteBit(LowByte(Word64.Shr(w)), 6)
  {
  }

  lemma {:induction false} LowByteBit(w: Word, s: nat)
    requires s < 8
    ensures ByteBit(LowByte(w), s) == Word64.BitAt(w, s)
    decreases s
  {
    LowByteShift(w);
    if s > 0 {
      LowByteBit(Word64.Shr(w), s - 1);
      assert s in {1, 2, 3, 4, 5, 6, 7};
    }
  }

  lemma BitStep(w: Word, i: nat)
    ensures Word64.BitAt(w, i + 1) == Word64.BitAt(Word64.Shr(w), i)
  {
  }

  lemma BitByte(w: Word, i: nat)
    ensures Word64.BitAt(w, i + 8) == Word64.BitAt(DropByte(w), i)
  {
    var w1 := Word64.Shr(w);
    var w2 := Word64.Shr(w1);
    var w3 := Word64.Shr(w2);
    var w4 := Word64.Shr(w3);
    var w5 := Word64.Shr(w4);
    var w6 := Word64.Shr(w5);
    var w7 := Word64.Shr(w6);
    BitStep(w, i + 7);
    BitStep(w1, i + 6);
    BitStep(w2, i + 5);
    BitStep(w3, i + 4);
    BitStep(w4, i + 3);
    BitStep(w5, i + 2);
    BitStep(w6, i + 1);
    BitStep(w7, i);
    DropByteShifts(w);
  }

  /** The bytes of a word hold its bits in order: bit s of byte k is bit 8k + s
      of the word, the lowest first. */
  lemma {:induction false} BytesHoldBits(w: Word, k: nat, s: nat)
    requires k < 8 && s < 8
    ensures ByteBit(LittleEndian(w)[k], s) == Word64.BitAt(w, 8 * k + s)
    decreases k
  {
    BytesShift(w);
    if k == 0 {
      LowByteBit(w, s);
    } else {
      BytesHoldBits(DropByte(w), k - 1, s);
      BitByte(w, 8 * (k - 1) + s);
      assert LittleEndian(w)[1..][k - 1] == LittleEndian(DropByte(w))[..7][k - 1];
    }
  }

  // ---- lists of words

  /** The words in a byte string, eight bytes each. */
  function WordsOf(bytes: seq<bv8>, n: nat): (r: seq<Word>)
    requires |bytes| == 8 * n
    ensures |r| == n
  {
    seq(n, i requires 0 <= i < n => WordOf(bytes[8 * i..8 * i + 8]))
  }

  function BytesOf(words: seq<Word>): (r: seq<bv8>)
    ensures |r| == 8 * |words|
  {
    if words == [] then [] else BytesOf(words[..|words| - 1]) + LittleEndian(words[|words| - 1])
  }

  lemma {:induction false} BytesAt(words: seq<Word>, i: nat)
    requires i < |words|
    ensures BytesOf(words)[8 * i..8 * i + 8] == LittleEndian(words[i])
    decreases |words|
  {
    var n := |words| - 1;
    if i < n {
      BytesAt(words[..n], i);
      assert BytesOf(words)[8 * i..8 * i + 8] == BytesOf(words[..n])[8 * i..8 * i + 8];
    }
  }

  lemma WordOfBytes(b: seq<bv8>, w: Word)
    requires b == LittleEndian(w)
    ensures WordOf(b) == w
  {
    WordRoundTrip(w);
  }

  lemma WordAt(words: seq<Word>, i: nat)
    requires i < |words|
    ensures WordsOf(BytesOf(words), |words|)[i] == words[i]
  {
    BytesAt(words, i);
    WordOfBytes(BytesOf(words)[8 * i..8 * i + 8], words[i]);
  }

  /** Decoding an encoded sketch gives back its coordinates. */
  lemma BytesRoundTrip(words: seq<Word>)
    ensures WordsOf(BytesOf(words), |words|) == words
  {
    var decoded := WordsOf(BytesOf(words), |words|);
    forall i | 0 <= i < |words|
      ensures decoded[i] == words[i]
    {
      WordAt(words, i);
    }
  }
}
