/** Carry-less multiplication of 64-bit words modulo x^64 + x^4 + x^3 + x + 1. */
module Word64 {
  import opened ShiftProduct

  type Word = bv64

  /** The reduction polynomial without its x^64 term. */
  const REDUCTION: Word := 0x1b

  function Xor(a: Word, b: Word): Word { a ^ b }

  predicate Odd(r: Word) { r & 1 == 1 }

  predicate Top(l: Word) { l >> 63 == 1 }

  function Shl(l: Word): Word { l << 1 }

  function Shr(l: Word): Word { l >> 1 }

  /** What the bit shifted out at the top reduces to. */
  function Carry(l: Word): Word { if Top(l) then REDUCTION else 0 }

  /** Multiplication by x. */
  function TimesX(l: Word): Word {
    Xor(Shl(l), Carry(l))
  }

  /** The binary digits, lowest first, up to the highest one set. */
  function Bits(r: Word): seq<bool>
    decreases r
  {
    if r == 0 then [] else [Odd(r)] + Bits(Shr(r))
  }

  /** Words under exclusive or, shifted by multiplication by x. */
  function Words(): Shift<Word> {
    Shift(0, (a, b) => Xor(a, b), l => TimesX(l))
  }

  function Mul(l: Word, r: Word): Word {
    Product(Words(), l, Bits(r))
  }

  // ---- ring laws

  lemma XorComm(a: Word, b: Word)
    ensures Xor(a, b) == Xor(b, a)
  {
  }

  lemma XorAssoc(a: Word, b: Word, c: Word)
    ensures Xor(Xor(a, b), c) == Xor(a, Xor(b, c))
  {
    assert (a ^ b) ^ c == a ^ (b ^ c);
  }

  lemma XorSelf(a: Word)
    ensures Xor(a, a) == 0 && Xor(a, 0) == a && Xor(0, a) == a
  {
  }

  lemma XorSwap(a: Word, b: Word, c: Word, d: Word)
    ensures Xor(Xor(a, b), Xor(c, d)) == Xor(Xor(a, c), Xor(b, d))
  {
    XorAssoc(a, b, Xor(c, d));
    XorAssoc(b, c, d);
    XorComm(b, c);
    XorAssoc(c, b, d);
    XorAssoc(a, c, Xor(b, d));
  }

  lemma ShlXor(l: Word, m: Word)
    ensures Shl(Xor(l, m)) == Xor(Shl(l), Shl(m))
  {
    assert Shl(l ^ m) == Shl(l) ^ Shl(m);
  }

  lemma ShrXor(l: Word, m: Word)
    ensures Shr(Xor(l, m)) == Xor(Shr(l), Shr(m))
  {
    assert Shr(l ^ m) == Shr(l) ^ Shr(m);
  }

  lemma LowXor(l: Word, m: Word)
    ensures Top(Xor(l, m)) <==> Top(l) != Top(m)
    ensures Odd(Xor(l, m)) <==> Odd(l) != Odd(m)
  {
    assert Top(l ^ m) <==> Top(l) != Top(m);
    assert Odd(l ^ m) <==> Odd(l) != Odd(m);
  }

  lemma CarryXor(l: Word, m: Word)
    ensures Carry(Xor(l, m)) == Xor(Carry(l), Carry(m))
  {
    LowXor(l, m);
    XorSelf(REDUCTION);
    XorSelf(0);
    if Top(l) {} else {}
  }

  lemma TimesXAdditive(l: Word, m: Word)
    ensures TimesX(Xor(l, m)) == Xor(TimesX(l), TimesX(m))
  {
    ShlXor(l, m);
    CarryXor(l, m);
    XorSwap(Shl(l), Shl(m), Carry(l), Carry(m));
  }

  lemma WordsShift()
    ensures IsShift(Words())
  {
    var S := Words();
    forall a, b, c
      ensures ShiftProduct.LawsAt(S, a, b, c)
    {
      XorComm(a, b);
      XorAssoc(a, b, c);
      XorSelf(a);
      TimesXAdditive(a, b);
    }
  }

  lemma LowBit(a: Word)
    ensures (if Odd(a) then 1 else 0) == a & 1 && !Top(Shr(a)) && Xor(a & 1, Shl(Shr(a))) == a
  {
  }

  lemma Halve(a: Word)
    ensures Xor((if Odd(a) then 1 else 0), TimesX(Shr(a))) == a
  {
    LowBit(a);
    XorSelf(Shl(Shr(a)));
  }

  lemma {:induction false} MulOne(a: Word)
    ensures Mul(1, a) == a
    decreases a
  {
    if a != 0 {
      assert Bits(a)[1..] == Bits(Shr(a));
      MulOne(Shr(a));
      WordsShift();
      ProductStep(Words(), 1, Bits(Shr(a)));
      Halve(a);
    }
  }

  lemma MulExchange(l: Word, a: Word, b: Word)
    ensures Mul(Mul(l, a), b) == Mul(Mul(l, b), a)
  {
    WordsShift();
    ProductExchange(Words(), l, Bits(a), Bits(b));
  }

  lemma MulAdditive(l: Word, m: Word, r: Word)
    ensures Mul(Xor(l, m), r) == Xor(Mul(l, r), Mul(m, r))
  {
    WordsShift();
    ProductAdditive(Words(), l, m, Bits(r));
  }

  lemma MulTimesX(l: Word, r: Word)
    ensures Mul(TimesX(l), r) == TimesX(Mul(l, r))
  {
    WordsShift();
    ProductStep(Words(), l, Bits(r));
  }

  lemma MulZero(r: Word)
    ensures Mul(0, r) == 0 && Mul(r, 0) == 0
  {
    WordsShift();
    ProductZero(Words(), Bits(r));
  }

  lemma MulCommutes(a: Word, b: Word)
    ensures Mul(a, b) == Mul(b, a)
  {
    MulOne(a);
    MulOne(b);
    MulExchange(1, a, b);
  }

  lemma MulAssociates(a: Word, b: Word, c: Word)
    ensures Mul(Mul(a, b), c) == Mul(a, Mul(b, c))
  {
    MulCommutes(a, b);
    MulExchange(b, a, c);
    MulCommutes(Mul(b, c), a);
  }

  lemma MulDistributes(a: Word, b: Word, c: Word)
    ensures Mul(a, Xor(b, c)) == Xor(Mul(a, b), Mul(a, c))
  {
    MulCommutes(a, Xor(b, c));
    MulAdditive(b, c, a);
    MulCommutes(a, b);
    MulCommutes(a, c);
  }

  lemma MulStep(l: Word, r: Word)
    ensures Mul(l, r) == Xor(if Odd(r) then l else 0, Mul(TimesX(l), Shr(r)))
  {
    if r == 0 {
      assert Shr(0) == 0 && !Odd(0);
      MulZero(l);
      MulZero(TimesX(l));
      XorSelf(0);
    } else {
      assert Bits(r)[1..] == Bits(Shr(r));
    }
  }

  lemma MulOneRight(a: Word)
    ensures Mul(a, 1) == a
  {
    MulOne(a);
    MulCommutes(a, 1);
  }

  lemma TimesXIsMul(h: Word)
    ensures TimesX(h) == Mul(2, h)
  {
    MulOne(h);
    MulTimesX(1, h);
    assert TimesX(1) == 2;
  }

  // ---- squaring in closed form

  /** The low 32 bits moved to the even positions. */
  function Spread(a: Word): Word {
    var a0 := a & 0xFFFF_FFFF;
    var a1 := (a0 | (a0 << 16)) & 0x0000_FFFF_0000_FFFF;
    var a2 := (a1 | (a1 << 8)) & 0x00FF_00FF_00FF_00FF;
    var a3 := (a2 | (a2 << 4)) & 0x0F0F_0F0F_0F0F_0F0F;
    var a4 := (a3 | (a3 << 2)) & 0x3333_3333_3333_3333;
    (a4 | (a4 << 1)) & 0x5555_5555_5555_5555
  }

  /** h * x^64, which is h * (1 + x + x^3 + x^4) after reduction. */
  function Fold(h: Word): Word {
    var x1 := TimesX(h);
    var x3 := TimesX(TimesX(x1));
    Xor(h, Xor(x1, Xor(x3, TimesX(x3))))
  }

  function Square(a: Word): Word {
    Xor(Spread(a), Fold(Spread(High(a))))
  }

  /** The only idempotents are 0 and 1: the ring is not a product of smaller ones. */
  lemma Idempotents(e: Word)
    requires Square(e) == e
    ensures e == 0 || e == 1
  {
  }

  lemma ReductionDigits()
    ensures Bits(REDUCTION) == [true, true, false, true, true]
  {
    assert Bits(27) == [true] + Bits(13);
    assert Bits(13) == [true] + Bits(6);
    assert Bits(6) == [false] + Bits(3);
    assert Bits(3) == [true] + Bits(1);
    assert Bits(1) == [true] + Bits(0);
  }

  lemma FoldIsMul(h: Word)
    ensures Fold(h) == Mul(h, REDUCTION)
  {
    WordsShift();
    ReductionDigits();
    ProductFold(Words(), h);
  }

  function LowWord(b: bool): Word { if b then 1 else 0 }

  function Bit32(a: Word): bool { High(a) & 1 == 1 }

  function High(a: Word): Word { a >> 32 }

  function Shl2(a: Word): Word { a << 2 }

  lemma SpreadStep(a: Word)
    ensures Spread(a) == Xor(Shl2(Spread(Shr(a))), LowWord(Odd(a)))
  {
    assert LowWord(Odd(a)) == a & 1;
  }

  lemma SpreadHighStep(a: Word)
    ensures Spread(High(a)) == Xor(Shl2(Spread(High(Shr(a)))), LowWord(Bit32(a)))
  {
    assert LowWord(Bit32(a)) == High(a) & 1;
  }

  lemma DoubleShiftLow(a: Word)
    ensures TimesX(TimesX(Spread(Shr(a)))) == Xor(Shl2(Spread(Shr(a))), Fold(LowWord(Bit32(a))))
  {
  }

  lemma DoubleShiftHigh(a: Word)
    ensures TimesX(TimesX(Spread(High(Shr(a))))) == Shl2(Spread(High(Shr(a))))
  {
  }

  lemma FoldLinear(a: Word, b: Word)
    ensures Fold(Xor(a, b)) == Xor(Fold(a), Fold(b))
    ensures Fold(TimesX(TimesX(a))) == TimesX(TimesX(Fold(a)))
  {
    FoldIsMul(a);
    FoldIsMul(b);
    FoldIsMul(Xor(a, b));
    MulAdditive(a, b, REDUCTION);
    FoldIsMul(TimesX(TimesX(a)));
    MulTimesX(TimesX(a), REDUCTION);
    MulTimesX(a, REDUCTION);
  }

  function Low(a: Word): Word { LowWord(Odd(a)) }

  function WordSquarer(): Squarer<Word> {
    Squarer(Words(), a => Spread(a), a => Fold(a), a => High(a), a => Shr(a), a => Shl2(a), a => Low(a),
            a => LowWord(Bit32(a)))
  }

  lemma WordSpreadLaws(a: Word)
    ensures SpreadLawsAt(WordSquarer(), a)
  {
    SpreadStep(a);
    SpreadHighStep(a);
    DoubleShiftLow(a);
    DoubleShiftHigh(a);
  }

  lemma WordFoldLaws(a: Word, b: Word)
    ensures FoldLawsAt(WordSquarer(), a, b)
  {
    FoldLinear(a, b);
  }

  lemma WordSquarerLaws()
    ensures IsSquarer(WordSquarer())
  {
    WordsShift();
    forall a { WordSpreadLaws(a); }
    forall a, b { WordFoldLaws(a, b); }
  }

  lemma SquareOfIsSquare(a: Word)
    ensures SquareOf(WordSquarer(), a) == Square(a)
  {
  }

  // ---- halving

  function Halves(): Shift<Word> {
    Shift(0, (a, b) => Xor(a, b), l => Shr(l))
  }

  lemma HalvesShift()
    ensures IsShift(Halves())
  {
    forall a, b, c
      ensures ShiftProduct.LawsAt(Halves(), a, b, c)
    {
      XorComm(a, b);
      XorAssoc(a, b, c);
      XorSelf(a);
      ShrXor(a, b);
    }
  }

  predicate Within(u: Word, v: Word) { u & v == u }

  lemma ShrWithin(u: Word, v: Word)
    requires Within(u, v)
    ensures Within(Shr(u), Shr(v)) && (u != 0 ==> v != 0)
  {
  }

  lemma {:induction false} BitsMonotone(u: Word, v: Word)
    requires Within(u, v)
    ensures |Bits(u)| <= |Bits(v)|
    decreases |Bits(u)|
  {
    if u != 0 {
      ShrWithin(u, v);
      ShrLength(u);
      ShrLength(v);
      BitsMonotone(Shr(u), Shr(v));
    }
  }

  lemma ShrLength(m: Word)
    requires m != 0
    ensures |Bits(m)| == 1 + |Bits(Shr(m))|
  {
  }

  lemma TwoBits(m: Word)
    requires m >> 2 != 0
    ensures |Bits(m)| == 2 + |Bits(m >> 2)|
  {
    assert Shr(Shr(m)) == m >> 2 && Shr(m) != 0;
    ShrLength(m);
    ShrLength(Shr(m));
  }

  lemma FourBits(m: Word)
    requires m >> 4 != 0
    ensures |Bits(m)| == 4 + |Bits(m >> 4)|
  {
    assert (m >> 2) >> 2 == m >> 4;
    TwoBits(m);
    TwoBits(m >> 2);
  }

  lemma EightBits(m: Word)
    requires m >> 8 != 0
    ensures |Bits(m)| == 8 + |Bits(m >> 8)|
  {
    assert (m >> 4) >> 4 == m >> 8;
    FourBits(m);
    FourBits(m >> 4);
  }

  lemma ByteLength(m: Word)
    requires m == 0x80 || m == 0xFF
    ensures |Bits(m)| == 8
  {
    FourBits(m);
    TwoBits(m >> 4);
    var m6 := (m >> 4) >> 2;
    ShrLength(m6);
    ShrLength(Shr(m6));
    assert Shr(Shr(m6)) == 0;
  }

  /** A word has at most 64 digits, and exactly 64 when its top bit is set. */
  lemma WordLength(v: Word)
    ensures |Bits(v)| <= 64 && (Top(v) ==> |Bits(v)| == 64)
  {
    OnesLength();
    TopLength();
    MaskFacts(v);
    BitsMonotone(v, 0xFFFF_FFFF_FFFF_FFFF);
    if Top(v) {
      BitsMonotone(0x8000_0000_0000_0000, v);
    }
  }

  lemma MaskFacts(v: Word)
    ensures Within(v, 0xFFFF_FFFF_FFFF_FFFF)
    ensures Top(v) ==> Within(0x8000_0000_0000_0000, v)
  {
  }

  lemma OnesLength()
    ensures |Bits(0xFFFF_FFFF_FFFF_FFFF)| == 64
  {
    EightBits(0xFFFF_FFFF_FFFF_FFFF);
    EightBits(0x00FF_FFFF_FFFF_FFFF);
    EightBits(0x0000_FFFF_FFFF_FFFF);
    EightBits(0x0000_00FF_FFFF_FFFF);
    EightBits(0x0000_0000_FFFF_FFFF);
    EightBits(0x0000_0000_00FF_FFFF);
    EightBits(0x0000_0000_0000_FFFF);
    ByteLength(0xFF);
  }

  lemma TopLength()
    ensures |Bits(0x8000_0000_0000_0000)| == 64
  {
    EightBits(0x8000_0000_0000_0000);
    EightBits(0x0080_0000_0000_0000);
    EightBits(0x0000_8000_0000_0000);
    EightBits(0x0000_0080_0000_0000);
    EightBits(0x0000_0000_8000_0000);
    EightBits(0x0000_0000_0080_0000);
    EightBits(0x0000_0000_0000_8000);
    ByteLength(0x80);
  }

  /** The width of a word, counted as the digits of its highest unit. */
  function Width(): nat { |Bits(0x8000_0000_0000_0000)| }

  lemma WidthIs64()
    ensures Width() == 64
  {
    TopLength();
  }

  lemma {:induction false} HalvesClear(v: Word, n: nat)
    requires |Bits(v)| <= n
    ensures Steps(Halves(), v, n) == 0
    decreases n
  {
    if n > 0 {
      assert Shr(0) == 0;
      HalvesClear(Shr(v), n - 1);
    }
  }

  /** Bit i of a word. */
  predicate BitAt(v: Word, i: nat) {
    Odd(Steps(Halves(), v, i))
  }

  lemma BitXor(a: Word, b: Word, i: nat)
    ensures BitAt(Xor(a, b), i) == (BitAt(a, i) != BitAt(b, i))
  {
    HalvesShift();
    StepsAdditive(Halves(), a, b, i);
    LowXor(Steps(Halves(), a, i), Steps(Halves(), b, i));
  }

  lemma {:induction false} SameBits(a: Word, b: Word, n: nat)
    requires |Bits(a)| <= n && |Bits(b)| <= n && forall i: nat :: i < n ==> BitAt(a, i) == BitAt(b, i)
    ensures a == b
    decreases n
  {
    if n > 0 {
      forall i: nat | i < n - 1
        ensures BitAt(Shr(a), i) == BitAt(Shr(b), i)
      {
        assert BitAt(a, i + 1) == BitAt(b, i + 1);
      }
      assert Shr(0) == 0;
      SameBits(Shr(a), Shr(b), n - 1);
      assert BitAt(a, 0) == BitAt(b, 0);
      Halve(a);
      Halve(b);
    }
  }

  /** The word with only bit k set, 1 << k. */
  function Unit(k: nat): Word {
    if k == 0 then 1 else Shl(Unit(k - 1))
  }

  lemma ShlThenShr(u: Word)
    requires !Top(u)
    ensures Shr(Shl(u)) == u && !Odd(Shl(u)) && (u != 0 ==> Shl(u) != 0)
  {
  }

  lemma {:induction false} UnitLength(k: nat)
    requires k < 64
    ensures |Bits(Unit(k))| == k + 1 && Unit(k) != 0
  {
    if k == 0 {
      ShrLength(1);
      assert Shr(1) == 0;
    } else {
      UnitLength(k - 1);
      WordLength(Unit(k - 1));
      ShlThenShr(Unit(k - 1));
      ShrLength(Unit(k));
    }
  }

  lemma {:induction false} BitUnit(k: nat, i: nat)
    requires k < 64
    ensures BitAt(Unit(k), i) == (i == k)
  {
    if k == 0 {
      assert Odd(1) && Shr(1) == 0;
      if i > 0 {
        HalvesClear(0, i - 1);
        assert !Odd(0);
      }
    } else {
      UnitLength(k - 1);
      WordLength(Unit(k - 1));
      ShlThenShr(Unit(k - 1));
      if i > 0 {
        BitUnit(k - 1, i - 1);
      }
    }
  }

  // ---- the multiplication loop

  lemma MaskLow(left: Word, right: Word)
    ensures left & (0 - (right & 1)) == if Odd(right) then left else 0
  {
  }

  lemma MaskHigh(left: Word)
    ensures REDUCTION & (0 - (left >> 63)) == Carry(left)
  {
  }

  method MulBitwise(left0: Word, right0: Word) returns (product: Word)
    ensures product == Mul(left0, right0)
  {
    var left, right := left0, right0;
    product := 0;
    XorSelf(Mul(left, right));
    for i := 0 to 64
      invariant Xor(product, Mul(left, right)) == Mul(left0, right0)
      invariant right == Steps(Halves(), right0, i)
    {
      MaskLow(left, right);
      MaskHigh(left);
      MulStep(left, right);
      XorAssoc(product, if Odd(right) then left else 0, Mul(TimesX(left), Shr(right)));
      StepsLast(Halves(), right0, i);
      product := Xor(product, left & (0 - (right & 1)));
      right := Shr(right);
      var carry := left >> 63;
      left := Shl(left);
      left := Xor(left, REDUCTION & (0 - carry));
    }
    WordLength(right0);
    HalvesClear(right0, 64);
    MulZero(left);
    XorSelf(product);
  }
}
