/** Fixed-size sets of bits packed into 64-bit words. */
module Bitsets {
  import opened Word64

  function Or(a: Word, b: Word): Word { a | b }

  function And(a: Word, b: Word): Word { a & b }

  function Not(a: Word): Word { !a }

  function AndNot(a: Word, b: Word): Word { And(a, Not(b)) }

  lemma OrStep(a: Word, b: Word)
    ensures Shr(Or(a, b)) == Or(Shr(a), Shr(b)) && Odd(Or(a, b)) == (Odd(a) || Odd(b))
  {
  }

  lemma AndStep(a: Word, b: Word)
    ensures Shr(And(a, b)) == And(Shr(a), Shr(b)) && Odd(And(a, b)) == (Odd(a) && Odd(b))
  {
  }

  /** A word operation that works bit by bit. */
  ghost predicate IsBitwise(f: (Word, Word) -> Word, op: (bool, bool) -> bool) {
    forall a, b :: BitwiseAt(f, op, a, b)
  }

  ghost predicate BitwiseAt(f: (Word, Word) -> Word, op: (bool, bool) -> bool, a: Word, b: Word) {
    Shr(f(a, b)) == f(Shr(a), Shr(b)) && Odd(f(a, b)) == op(Odd(a), Odd(b))
  }

  lemma {:induction false} BitOfBitwise(f: (Word, Word) -> Word, op: (bool, bool) -> bool, a: Word, b: Word, i: nat)
    requires IsBitwise(f, op)
    ensures BitAt(f(a, b), i) == op(BitAt(a, i), BitAt(b, i))
    decreases i
  {
    assert BitwiseAt(f, op, a, b);
    if i > 0 {
      BitOfBitwise(f, op, Shr(a), Shr(b), i - 1);
    }
  }

  lemma BitOr(a: Word, b: Word, i: nat)
    ensures BitAt(Or(a, b), i) == (BitAt(a, i) || BitAt(b, i))
  {
    var f, op := (x, y) => Or(x, y), (p, q) => p || q;
    forall x, y
      ensures BitwiseAt(f, op, x, y)
    {
      OrStep(x, y);
    }
    BitOfBitwise(f, op, a, b, i);
  }

  lemma BitAnd(a: Word, b: Word, i: nat)
    ensures BitAt(And(a, b), i) == (BitAt(a, i) && BitAt(b, i))
  {
    var f, op := (x, y) => And(x, y), (p, q) => p && q;
    forall x, y
      ensures BitwiseAt(f, op, x, y)
    {
      AndStep(x, y);
    }
    BitOfBitwise(f, op, a, b, i);
  }

  lemma {:induction false} BitZero(i: nat)
    ensures !BitAt(0, i)
    decreases i
  {
    assert Shr(0) == 0 && !Odd(0);
    if i > 0 {
      BitZero(i - 1);
    }
  }

  /** Masking with a unit tests one bit. */
  lemma TestBit(w: Word, k: nat)
    requires k < 64
    ensures And(w, Unit(k)) != 0 <==> BitAt(w, k)
  {
    var m := And(w, Unit(k));
    forall i: nat
      ensures BitAt(m, i) == (BitAt(w, k) && i == k)
    {
      BitAnd(w, Unit(k), i);
      BitUnit(k, i);
    }
    BitZero(k);
    if !BitAt(w, k) {
      forall i: nat | i < 64
        ensures BitAt(m, i) == BitAt(0, i)
      {
        BitZero(i);
      }
      WordLength(m);
      WordLength(0);
      SameBits(m, 0, 64);
    }
  }

  const ONES: Word := 0xFFFF_FFFF_FFFF_FFFF

  lemma AllOnes(k: nat)
    requires k < 64
    ensures BitAt(ONES, k)
  {
    UnitLength(k);
    OnesMask(Unit(k));
    TestBit(ONES, k);
  }

  lemma OnesMask(w: Word)
    ensures And(ONES, w) == w
  {
  }

  lemma NotIsXor(w: Word)
    ensures Not(w) == Xor(w, ONES)
  {
  }

  lemma BitAndNot(a: Word, b: Word, i: nat)
    requires i < 64
    ensures BitAt(AndNot(a, b), i) == (BitAt(a, i) && !BitAt(b, i))
  {
    NotIsXor(b);
    BitXor(b, ONES, i);
    AllOnes(i);
    BitAnd(a, Not(b), i);
  }

  class Bitset {
    const words: array<Word>
    ghost var bits: seq<bool>

    ghost predicate Valid()
      reads this, words
    {
      && |bits| == 64 * words.Length
      && forall i :: 0 <= i < |bits| ==> bits[i] == BitAt(words[i / 64], i % 64)
    }

    constructor (n: nat)
      ensures Valid() && fresh(words) && n <= |bits| == 64 * ((n + 63) / 64)
      ensures forall i :: 0 <= i < |bits| ==> !bits[i]
    {
      words := new Word[(n + 63) / 64](i => 0);
      bits := seq(64 * ((n + 63) / 64), i => false);
      new;
      forall i | 0 <= i < |bits|
        ensures bits[i] == BitAt(words[i / 64], i % 64)
      {
        BitZero(i % 64);
      }
    }

    method Get(i: nat) returns (r: bool)
      requires Valid() && i < |bits|
      ensures r == bits[i]
    {
      TestBit(words[i / 64], i % 64);
      r := And(words[i / 64], Unit(i % 64)) != 0;
    }

    method Set(i: nat)
      requires Valid() && i < |bits|
      modifies this, words
      ensures Valid() && bits == old(bits)[i := true]
    {
      ghost var w := words[i / 64];
      words[i / 64] := Or(words[i / 64], Unit(i % 64));
      bits := bits[i := true];
      forall j | 0 <= j < |bits|
        ensures bits[j] == BitAt(words[j / 64], j % 64)
      {
        BitOr(w, Unit(i % 64), j % 64);
        BitUnit(i % 64, j % 64);
      }
    }

    method Clear(i: nat)
      requires Valid() && i < |bits|
      modifies this, words
      ensures Valid() && bits == old(bits)[i := false]
    {
      ghost var w := words[i / 64];
      words[i / 64] := AndNot(words[i / 64], Unit(i % 64));
      bits := bits[i := false];
      forall j | 0 <= j < |bits|
        ensures bits[j] == BitAt(words[j / 64], j % 64)
      {
        BitAndNot(w, Unit(i % 64), j % 64);
        BitUnit(i % 64, j % 64);
      }
    }

    /** Writes the same word everywhere. */
    method Fill(value: bool)
      requires Valid()
      modifies this, words
      ensures Valid() && |bits| == |old(bits)| && forall i :: 0 <= i < |bits| ==> bits[i] == value
    {
      var word := if value then ONES else 0;
      for i := 0 to words.Length
        invariant bits == old(bits) && forall k :: 0 <= k < i ==> words[k] == word
      {
        words[i] := word;
      }
      bits := seq(|bits|, i => value);
      forall j | 0 <= j < |bits|
        ensures bits[j] == BitAt(words[j / 64], j % 64)
      {
        BitZero(j % 64);
        AllOnes(j % 64);
      }
    }
  }
}
