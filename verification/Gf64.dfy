/** The 64-bit words as the field GF(2)[x] / (x^64 + x^4 + x^3 + x + 1). */
module Gf64 {
  import opened FieldTheory
  import Word64
  import ShiftProduct

  type Word = Word64.Word

  /** The field of the decoder. */
  function Gf(): Field<Word> {
    Field(0, 1, (a, b) => Word64.Xor(a, b), (a, b) => Word64.Mul(a, b), Word64.Width(),
          (a, i) => Word64.BitAt(a, i), k => Word64.Unit(k))
  }

  lemma GfRing()
    ensures IsRing(Gf())
  {
    forall a, b, c
      ensures LawsAt(Gf(), a, b, c)
    {
      Word64.XorComm(a, b);
      Word64.XorAssoc(a, b, c);
      Word64.XorSelf(a);
      Word64.MulCommutes(a, b);
      Word64.MulAssociates(a, b, c);
      Word64.MulOneRight(a);
      Word64.MulDistributes(a, b, c);
    }
  }

  // ---- the words as a ring, with squaring given by a function

  ghost predicate DigitsAt(K: Field<Word>, sq: Word -> Word, a: Word) {
    && K.add(Word64.Low(a), K.mul(2, Word64.Shr(a))) == a
    && sq(a) == K.add(K.mul(2, K.mul(2, sq(Word64.Shr(a)))), Word64.Low(a))
  }

  ghost predicate IsWordRing(K: Field<Word>, sq: Word -> Word) {
    IsRing(K) && K.zero == 0 && K.one == 1 && forall a :: DigitsAt(K, sq, a)
  }

  lemma {:induction false} SquareIsMul(K: Field<Word>, sq: Word -> Word, a: Word)
    requires IsWordRing(K, sq) && sq(0) == 0
    ensures Sq(K, a) == sq(a)
    decreases a
  {
    MulZero(K, 0);
    if a != 0 {
      var h, b := Word64.Shr(a), Word64.Low(a);
      SquareIsMul(K, sq, h);
      assert DigitsAt(K, sq, a);
      Frobenius(K, b, K.mul(2, h));
      Frobenius(K, 2, h);
      MulOne(K, 1);
      MulAssoc(K, 2, 2, sq(h));
      AddComm(K, b, K.mul(2, K.mul(2, sq(h))));
    }
  }

  /** Every word is its own 2^n-th power once x is. */
  lemma {:induction false} PowersFixed(K: Field<Word>, sq: Word -> Word, a: Word, n: nat)
    requires IsWordRing(K, sq) && Frob(K, 2, n) == 2
    ensures Frob(K, a, n) == a
    decreases a
  {
    if a == 0 {
      FrobBit(K, 0, n);
    } else {
      var h, b := Word64.Shr(a), Word64.Low(a);
      PowersFixed(K, sq, h, n);
      assert DigitsAt(K, sq, a);
      FrobBit(K, b, n);
      FrobHom(K, b, K.mul(2, h), n);
      FrobHom(K, 2, h, n);
    }
  }

  lemma {:induction false} FrobBit(K: Field<Word>, b: Word, n: nat)
    requires IsRing(K) && (b == K.zero || b == K.one)
    ensures Frob(K, b, n) == b
  {
    if n > 0 {
      FrobBit(K, b, n - 1);
      MulZero(K, b);
      MulOne(K, b);
    }
  }

  /** The closed form of squaring, as a function value. */
  function Squaring(): Word -> Word {
    a => Word64.Square(a)
  }

  lemma GfDigits(a: Word)
    ensures DigitsAt(Gf(), Squaring(), a)
  {
    var Q, h := Word64.WordSquarer(), Word64.Shr(a);
    Word64.WordSquarerLaws();
    ShiftProduct.SquareStep(Q, a);
    Word64.SquareOfIsSquare(a);
    Word64.SquareOfIsSquare(h);
    Word64.Halve(a);
    Word64.TimesXIsMul(h);
    Word64.TimesXIsMul(Word64.Square(h));
    Word64.TimesXIsMul(Word64.TimesX(Word64.Square(h)));
  }

  lemma GfWordRing()
    ensures IsWordRing(Gf(), Squaring())
  {
    GfRing();
    forall a { GfDigits(a); }
  }

  lemma SquaringIsSquare(a: Word)
    ensures Squaring()(a) == Word64.Square(a)
  {
  }

  lemma SquareOfZero()
    ensures Word64.Square(0) == 0
  {
  }

  lemma GfSquaring(a: Word)
    ensures Sq(Gf(), a) == Squaring()(a)
  {
    GfWordRing();
    SquaringIsSquare(0);
    SquareOfZero();
    SquareIsMul(Gf(), Squaring(), a);
  }

  lemma GfSquare(a: Word)
    ensures Sq(Gf(), a) == Word64.Square(a)
  {
    GfSquaring(a);
    SquaringIsSquare(a);
  }

  // ---- x is its own 2^64-th power

  /** x^(2^i), for i up to 64. */
  function SquaredX(i: nat): Word {
    match i
    case 0 => 0x2 case 1 => 0x4 case 2 => 0x10 case 3 => 0x100
    case 4 => 0x10000 case 5 => 0x100000000 case 6 => 0x1b case 7 => 0x145
    case 8 => 0x11011 case 9 => 0x101000101 case 10 => 0x100000001001a case 11 => 0x1a00000144
    case 12 => 0x10dbc case 13 => 0x100514550 case 14 => 0x11011011111b case 15 => 0x10001011a1a015e
    case 16 => 0x15f0144001a114f case 17 => 0x1aad43011ba1e5 case 18 => 0x11cefef6be466 case 19 => 0x5455145e48670f13
    case 20 => 0xbaf1bebe1ae4ad02 case 21 => 0xb0ef530df44bb042 case 22 => 0xe2170b43ee771735 case 23 => 0x48380fd207a3b527
    case 24 => 0xb6d535c542116f62 case 25 => 0xa6df6baa62f965f5 case 26 => 0xb9df3947cea0ffe7 case 27 => 0xe1882807248fe588
    case 28 => 0x180d86953ed141c6 case 29 => 0x1894566cd1db8abf case 30 => 0x4cc78bf4ea999e25 case 31 => 0xe333308087e402ba
    case 32 => 0x5c62236777028505 case 33 => 0xb964dc682c67ddcd case 34 => 0xb58ac9a23d208acb case 35 => 0xb3fcc2ab3699fc73
    case 36 => 0xb2644136253abfe8 case 37 => 0xb37cd8f5f54e22c6 case 38 => 0xe267d02369c356e5 case 39 => 0x82c8dc57a143827
    case 40 => 0x13846a66c22c75be case 41 => 0x4b75c5e1cfbc9888 case 42 => 0xe6e383fc30ec5c40 case 43 => 0x18db4821d1201031
    case 44 => 0x4cc669b6b7c0691a case 45 => 0xf26221ddce9cb783 case 46 => 0x57399d3c29092c2f case 47 => 0xae86719cd83b743e
    case 48 => 0xfa5ac498d20dd97e case 49 => 0x50a9adfa20f7c8d5 case 50 => 0xaf06ffc8fb2c50a6 case 51 => 0xfe42058b1100328e
    case 52 => 0x11cb06c04a986a2 case 53 => 0xb5837f7159f74 case 54 => 0x551507a7ec9563d7 case 55 => 0xfefb5bba15c4fcc9
    case 56 => 0x10a51a6f8e1e1ac case 57 => 0x555b52acff1ce98c case 58 => 0xfffface6ff2beb3b case 59 => 0x55550444ff3218d8
    case 60 => 0xffffafaf00f1e0eb case 61 => 0x5500ff01ff03 case 62 => 0x55550000fffe0005 case 63 => 0xffffffff0000000a
    case _ => 0x2
  }

  lemma SquaredXLow(i: nat)
    requires 0 <= i < 32
    ensures Word64.Square(SquaredX(i)) == SquaredX(i + 1)
  {
    match i
    case 0 => case 1 => case 2 => case 3 => case 4 => case 5 => case 6 => case 7 =>
    case 8 => case 9 => case 10 => case 11 => case 12 => case 13 => case 14 => case 15 =>
    case 16 => case 17 => case 18 => case 19 => case 20 => case 21 => case 22 => case 23 =>
    case 24 => case 25 => case 26 => case 27 => case 28 => case 29 => case 30 => case 31 =>
  }

  lemma SquaredXHigh(i: nat)
    requires 32 <= i < 64
    ensures Word64.Square(SquaredX(i)) == SquaredX(i + 1)
  {
    match i
    case 32 => case 33 => case 34 => case 35 => case 36 => case 37 => case 38 => case 39 =>
    case 40 => case 41 => case 42 => case 43 => case 44 => case 45 => case 46 => case 47 =>
    case 48 => case 49 => case 50 => case 51 => case 52 => case 53 => case 54 => case 55 =>
    case 56 => case 57 => case 58 => case 59 => case 60 => case 61 => case 62 => case 63 =>
  }

  function SquaredXTable(): nat -> Word {
    (i: nat) => SquaredX(i)
  }

  lemma SquaredXRow(i: nat)
    requires i < Word64.Width()
    ensures SquareRow(Gf(), SquaredXTable(), i)
  {
    Word64.WidthIs64();
    if i < 32 { SquaredXLow(i); } else { SquaredXHigh(i); }
    GfSquare(SquaredX(i));
  }

  lemma SquaredXEnds()
    ensures SquaredX(0) == 2 && SquaredX(Word64.Width()) == 2 && Word64.Width() >= 2
    ensures TraceSum(0) == 0x2000_0000_0000_0000 && TraceSum(Word64.Width() - 1) == 1
  {
    Word64.WidthIs64();
  }

  lemma XIsFixed()
    ensures FixedAt(Gf(), 2)
  {
    SquaredXEnds();
    forall i: nat | i < Word64.Width() { SquaredXRow(i); }
    FixedFromTable(Gf(), SquaredXTable());
  }

  // ---- x^61 has trace one

  /** The sum of the squarings up to the i-th of x^61. */
  function TraceSum(i: nat): Word {
    match i
    case 0 => 0x2000000000000000 case 1 => 0x4c00000000000000 case 2 => 0x977000000000001b case 3 => 0xfac6c7000000011f
    case 4 => 0x21ab71db71c60114 case 5 => 0x591cfaa2c71d6ca7 case 6 => 0xddce1d2615fae862 case 7 => 0x4d7d2258482b7999
    case 8 => 0x872ac42e792cec9a case 9 => 0xf4866efb25e02a02 case 10 => 0x22a795dddf5f01f2 case 11 => 0x1d3fbc94daad396f
    case 12 => 0x6d2f3450b537cee5 case 13 => 0xbe7a6e1226e5ff0a case 14 => 0x940995bc8e491b72 case 15 => 0xbae4169cdbe8a52e
    case 16 => 0xc0ee49f05ecbd87e case 17 => 0x41534b58e79c1215 case 18 => 0xc40fea26b7b2acca case 19 => 0x14a542045efc3dd9
    case 20 => 0x2be2f8fab53d50f1 case 21 => 0xfa1193a10c754ad case 22 => 0x2601fc0e0ccb35fd case 23 => 0x4d8c50590561524d
    case 24 => 0x977cd370ba05bd91 case 25 => 0xbf82c0662e27865b case 26 => 0x9455c47e3015ccc3 case 27 => 0xffb1abbd21e19043
    case 28 => 0x2400e31cebb1a02f case 29 => 0x19f5450658771825 case 30 => 0x2c9c13bfb0eb05cd case 31 => 0xe7688351b60e056
    case 32 => 0x2658d2da92c067bf case 33 => 0xcd9fdc77f7e28f9 case 34 => 0x32227888042c2486 case 35 => 0x577c683dc5d686d4
    case 36 => 0xdad791659ad42160 case 37 => 0xcef3bd1df1bc9ea case 38 => 0x76221a4221f13f5f case 39 => 0xe2dd396d18f8a122
    case 40 => 0x3d2b392b35dbdf2e case 41 => 0x557a3bf2208e6ee3 case 42 => 0x8eaa81f865e45372 case 43 => 0xf30bfebad119149e
    case 44 => 0x767607f1010af0b9 case 45 => 0xe6dcc69854c04241 case 46 => 0x2ccb3c7761decd80 case 47 => 0x5f7627e3202086c7
    case 48 => 0x8806c2dc2dd44c79 case 49 => 0xe29150cb603b796b case 50 => 0x286ade5fbe4662b3 case 51 => 0xf95cabf7819e902
    case 52 => 0x3241dbed22ebb003 case 53 => 0x5369e45928b01b6e case 54 => 0x8f369fdc1cf4b994 case 55 => 0xe65723ca99412d3a
    case 56 => 0x7c9cbac6682173a9 case 57 => 0xf436d877a4ae3586 case 58 => 0x62a0328f68d08692 case 59 => 0xe82afd00377e8618
    case 60 => 0x3fd57fff407f0101 case 61 => 0x40007fffc0010006 case 62 => 0xc0000000c0000008
    case _ => 0x1
  }

  lemma TraceSum0(i: nat)
    requires 0 <= i < 16
    ensures Word64.Square(TraceSum(i)) == TraceSum(i + 1) ^ 0x2000_0000_0000_0000
  {
    match i
    case 0 => case 1 => case 2 => case 3 => case 4 => case 5 => case 6 => case 7 =>
    case 8 => case 9 => case 10 => case 11 => case 12 => case 13 => case 14 => case 15 =>
  }

  lemma TraceSum16(i: nat)
    requires 16 <= i < 32
    ensures Word64.Square(TraceSum(i)) == TraceSum(i + 1) ^ 0x2000_0000_0000_0000
  {
    match i
    case 16 => case 17 => case 18 => case 19 => case 20 => case 21 => case 22 => case 23 =>
    case 24 => case 25 => case 26 => case 27 => case 28 => case 29 => case 30 => case 31 =>
  }

  lemma TraceSum32(i: nat)
    requires 32 <= i < 48
    ensures Word64.Square(TraceSum(i)) == TraceSum(i + 1) ^ 0x2000_0000_0000_0000
  {
    match i
    case 32 => case 33 => case 34 => case 35 => case 36 => case 37 => case 38 => case 39 =>
    case 40 => case 41 => case 42 => case 43 => case 44 => case 45 => case 46 => case 47 =>
  }

  lemma TraceSum48(i: nat)
    requires 48 <= i < 63
    ensures Word64.Square(TraceSum(i)) == TraceSum(i + 1) ^ 0x2000_0000_0000_0000
  {
    match i
    case 48 => case 49 => case 50 => case 51 => case 52 => case 53 => case 54 => case 55 =>
    case 56 => case 57 => case 58 => case 59 => case 60 => case 61 => case 62 =>
  }

  function TraceSumTable(): nat -> Word {
    (i: nat) => TraceSum(i)
  }

  lemma TraceSumStep(i: nat)
    requires i < 63
    ensures Word64.Square(TraceSum(i)) == TraceSum(i + 1) ^ 0x2000_0000_0000_0000
  {
    if i < 16 { TraceSum0(i); }
    else if i < 32 { TraceSum16(i); }
    else if i < 48 { TraceSum32(i); }
    else { TraceSum48(i); }
  }

  lemma TraceSumSquare(i: nat)
    requires i < 63
    ensures Sq(Gf(), TraceSum(i)) == TraceSum(i + 1) ^ 0x2000_0000_0000_0000
  {
    TraceSumStep(i);
    GfSquare(TraceSum(i));
  }

  lemma TraceSumRow(i: nat)
    requires i < Word64.Width() - 1
    ensures TraceRow(Gf(), 0x2000_0000_0000_0000, TraceSumTable(), i)
  {
    Word64.WidthIs64();
    TraceSumSquare(i);
    XorTwice(TraceSum(i + 1), 0x2000_0000_0000_0000);
  }

  lemma GfTrace()
    ensures HasTraceOne(Gf(), 0x2000_0000_0000_0000)
  {
    SquaredXEnds();
    forall i: nat | i < Word64.Width() - 1 { TraceSumRow(i); }
    TraceOneFromTable(Gf(), 0x2000_0000_0000_0000, TraceSumTable());
  }

  lemma XorTwice(a: Word, b: Word)
    ensures Word64.Xor(a ^ b, b) == a
  {
  }

  // ---- the field

  lemma WordRingIsField(K: Field<Word>, sq: Word -> Word)
    requires IsWordRing(K, sq) && K.bits >= 2 && FixedAt(K, 2)
    requires forall e :: NoIdempotentAt(K, e)
    ensures IsBinaryField(K)
  {
    forall a
      ensures FixedAt(K, a)
    {
      PowersFixed(K, sq, a, K.bits);
    }
    assert IsRing(K);
    assert K.one != K.zero;
    assert forall a :: FixedAt(K, a);
    assert forall e :: NoIdempotentAt(K, e);
    FieldFromIdempotents<Word>(K);
  }

  lemma GfIdempotents(e: Word)
    ensures NoIdempotentAt(Gf(), e)
  {
    GfSquare(e);
    if Word64.Square(e) == e {
      Word64.Idempotents(e);
    }
  }

  lemma GfNoIdempotents()
    ensures forall e :: NoIdempotentAt(Gf(), e)
  {
    forall e { GfIdempotents(e); }
  }

  lemma GfIsBinaryField()
    ensures IsBinaryField(Gf())
  {
    GfWordRing();
    XIsFixed();
    SquaredXEnds();
    GfNoIdempotents();
    WordRingIsField(Gf(), Squaring());
  }

  lemma GfBits(a: Word, b: Word, i: nat)
    ensures BitsAt(Gf(), a, b, i)
  {
    Word64.BitXor(a, b, i);
    Word64.WidthIs64();
    if i < Word64.Width() {
      forall k: nat
        ensures Word64.BitAt(Word64.Unit(i), k) == (k == i)
      {
        Word64.BitUnit(i, k);
      }
    }
  }

  lemma GfSameBits(a: Word, b: Word)
    requires SameBits(Gf(), a, b)
    ensures a == b
  {
    var K := Gf();
    Word64.WidthIs64();
    Word64.WordLength(a);
    Word64.WordLength(b);
    forall i: nat | i < Word64.Width()
      ensures Word64.BitAt(a, i) == Word64.BitAt(b, i)
    {
      assert K.bit(a, i) == K.bit(b, i);
    }
    Word64.SameBits(a, b, Word64.Width());
  }

  /** The 64-bit words under exclusive or and the bitwise product are a field
      of 2^64 elements, with no assumption left open. */
  lemma GfIsWordField()
    ensures IsWordField(Gf())
  {
    var K := Gf();
    GfIsBinaryField();
    forall a, b, i { GfBits(a, b, i); }
    forall a, b | SameBits(K, a, b)
      ensures a == b
    {
      GfSameBits(a, b);
    }
    GfTrace();
  }
}
