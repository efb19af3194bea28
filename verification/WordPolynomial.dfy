/** The product of words is the product of polynomials over the two-element
    field, reduced modulo x^64 + x^4 + x^3 + x + 1. */
module WordPolynomial {
  import opened FieldTheory
  import opened Polynomials
  import Bitsets
  import ShiftProduct
  import W = Word64

  type Word = W.Word

  /** The two-element field. */
  function Gf2(): Field<bool> {
    Field(false, true, (a, b) => a != b, (a, b) => a && b, 1, (a, i) => a, k => true)
  }

  lemma Gf2IsField()
    ensures IsField(Gf2())
  {
    forall a, b, c
      ensures LawsAt(Gf2(), a, b, c)
    {
    }
    forall a: bool | a != false
      ensures Invertible(Gf2(), a)
    {
      assert Gf2().mul(a, true) == true;
    }
  }

  const DEGREE: nat := 64

  /** The bits of a word as coefficients. */
  ghost function Poly(w: Word): (p: seq<bool>)
    ensures |p| == DEGREE
  {
    seq(DEGREE, i requires 0 <= i < DEGREE => W.BitAt(w, i))
  }

  /** x^64 + x^4 + x^3 + x + 1. */
  function Modulus(): (m: seq<bool>)
    ensures |m| == DEGREE + 1
  {
    seq(DEGREE + 1, i => i == 0 || i == 1 || i == 3 || i == 4 || i == DEGREE)
  }

  // ---- one shift

  const MASK: Word := 0x7FFF_FFFF_FFFF_FFFF

  lemma ShlMask(l: Word)
    ensures W.Shr(W.Shl(l)) == Bitsets.And(l, MASK) && !W.Odd(W.Shl(l)) && W.Shr(Bitsets.ONES) == MASK
  {
  }

  lemma BitShl(l: Word, i: nat)
    requires i < 64
    ensures W.BitAt(W.Shl(l), i) == (i > 0 && W.BitAt(l, i - 1))
  {
    ShlMask(l);
    if i > 0 {
      Bitsets.BitAnd(l, MASK, i - 1);
      Bitsets.AllOnes(i);
    }
  }

  lemma BitStep(v: Word, w: Word, i: nat)
    requires W.Shr(v) == w
    ensures W.BitAt(v, i) == if i == 0 then W.Odd(v) else W.BitAt(w, i - 1)
  {
  }

  lemma BitReduction(i: nat)
    ensures W.BitAt(W.REDUCTION, i) == (i == 0 || i == 1 || i == 3 || i == 4)
  {
    assert W.Shr(0x1b) == 0xd && W.Shr(0xd) == 0x6 && W.Shr(0x6) == 0x3 && W.Shr(0x3) == 0x1 && W.Shr(0x1) == 0;
    assert W.Odd(0x1b) && W.Odd(0xd) && !W.Odd(0x6) && W.Odd(0x3) && W.Odd(0x1);
    BitStep(0x1b, 0xd, i);
    if i >= 1 { BitStep(0xd, 0x6, i - 1); }
    if i >= 2 { BitStep(0x6, 0x3, i - 2); }
    if i >= 3 { BitStep(0x3, 0x1, i - 3); }
    if i >= 4 { BitStep(0x1, 0, i - 4); }
    if i >= 5 { Bitsets.BitZero(i - 5); }
  }

  lemma Gf2Ops(a: bool, b: bool)
    ensures Gf2().add(a, b) == (a != b) && Gf2().mul(a, b) == (a && b)
  {
  }

  /** Multiplying by x shifts the coefficients and takes away the modulus when
      the top one was set. */
  lemma ShiftReduces(l: Word)
    ensures PShift(Gf2(), Poly(l)) == PAdd(Gf2(), Poly(W.TimesX(l)), PScale(Gf2(), W.Top(l), Modulus()))
  {
    var K := Gf2();
    var left, right := PShift(K, Poly(l)), PAdd(K, Poly(W.TimesX(l)), PScale(K, W.Top(l), Modulus()));
    forall i | 0 <= i < DEGREE + 1
      ensures left[i] == right[i]
    {
      ShiftReducesAt(l, i);
    }
  }

  lemma ShiftReducesAt(l: Word, i: nat)
    requires i <= DEGREE
    ensures PShift(Gf2(), Poly(l))[i] == PAdd(Gf2(), Poly(W.TimesX(l)), PScale(Gf2(), W.Top(l), Modulus()))[i]
  {
    var K, t := Gf2(), W.Top(l);
    Gf2IsField();
    CoefAdd(K, Poly(W.TimesX(l)), PScale(K, t, Modulus()), i);
    CoefScale(K, t, Modulus(), i);
    Gf2Ops(Coef(K, Poly(W.TimesX(l)), i), Coef(K, PScale(K, t, Modulus()), i));
    Gf2Ops(t, Coef(K, Modulus(), i));
    if i < DEGREE {
      TimesXBit(l, i);
    } else {
      TopIsBit(l);
    }
  }

  /** Bit i of x * l. */
  lemma TimesXBit(l: Word, i: nat)
    requires i < DEGREE
    ensures W.BitAt(W.TimesX(l), i) == ((i > 0 && W.BitAt(l, i - 1)) != (W.Top(l) && Modulus()[i]))
  {
    W.BitXor(W.Shl(l), W.Carry(l), i);
    BitShl(l, i);
    BitReduction(i);
    Bitsets.BitZero(i);
  }

  lemma TopIsBit(l: Word)
    ensures W.Top(l) == W.BitAt(l, 63)
  {
    TopMask(l);
    Bitsets.TestBit(l, 63);
    UnitTop();
  }

  lemma TopMask(l: Word)
    ensures W.Top(l) == (Bitsets.And(l, 0x8000_0000_0000_0000) != 0)
  {
  }

  lemma EightShifts(w: Word)
    ensures W.Shl(W.Shl(W.Shl(W.Shl(W.Shl(W.Shl(W.Shl(W.Shl(w)))))))) == w << 8
  {
  }

  lemma UnitByte(k: nat, w: Word)
    requires W.Unit(k) == w
    ensures W.Unit(k + 8) == w << 8
  {
    assert W.Unit(k + 2) == W.Shl(W.Shl(w));
    assert W.Unit(k + 4) == W.Shl(W.Shl(W.Unit(k + 2)));
    assert W.Unit(k + 6) == W.Shl(W.Shl(W.Unit(k + 4)));
    assert W.Unit(k + 8) == W.Shl(W.Shl(W.Unit(k + 6)));
    EightShifts(w);
  }

  lemma UnitTop()
    ensures W.Unit(63) == 0x8000_0000_0000_0000
  {
    assert W.Unit(3) == 0x8 && W.Unit(7) == W.Shl(W.Shl(W.Shl(W.Shl(0x8)))) == 0x80;
    UnitByte(7, 0x80);
    UnitByte(15, 0x8000);
    UnitByte(23, 0x80_0000);
    UnitByte(31, 0x8000_0000);
    UnitByte(39, 0x80_0000_0000);
    UnitByte(47, 0x8000_0000_0000);
    UnitByte(55, 0x80_0000_0000_0000);
  }

  // ---- the product

  /** p is the word w plus a multiple of the modulus. */
  ghost predicate ReducesTo(p: seq<bool>, w: Word) {
    exists Q :: ReducesWith(p, w, Q)
  }

  ghost predicate ReducesWith(p: seq<bool>, w: Word, Q: seq<bool>) {
    PEq(Gf2(), p, PAdd(Gf2(), Poly(w), PMul(Gf2(), Q, Modulus())))
  }

  lemma PolyXorAt(a: Word, b: Word, i: nat)
    requires i < DEGREE
    ensures Poly(W.Xor(a, b))[i] == Gf2().add(Coef(Gf2(), Poly(a), i), Coef(Gf2(), Poly(b), i))
  {
    W.BitXor(a, b, i);
    Gf2Ops(W.BitAt(a, i), W.BitAt(b, i));
  }

  lemma PolyXor(a: Word, b: Word)
    ensures Poly(W.Xor(a, b)) == PAdd(Gf2(), Poly(a), Poly(b))
  {
    var p, q := Poly(a), Poly(b);
    forall i | 0 <= i < DEGREE
      ensures Poly(W.Xor(a, b))[i] == PAdd(Gf2(), p, q)[i]
    {
      PolyXorAt(a, b, i);
    }
  }

  lemma PolySel(l: Word, d: bool)
    ensures Poly(ShiftProduct.Sel(W.Words(), l, d)) == PScale(Gf2(), d, Poly(l))
  {
    forall i | 0 <= i < DEGREE
      ensures Poly(ShiftProduct.Sel(W.Words(), l, d))[i] == PScale(Gf2(), d, Poly(l))[i]
    {
      Bitsets.BitZero(i);
    }
  }

  /** The product by a digit list, one digit at a time. */
  lemma ProductStep(l: Word, d: bool, ds: seq<bool>)
    ensures PMul(Gf2(), Poly(l), [d] + ds) == PAdd(Gf2(), PScale(Gf2(), d, Poly(l)),
      PAdd(Gf2(), PMul(Gf2(), Poly(W.TimesX(l)), ds), PMul(Gf2(), PScale(Gf2(), W.Top(l), ds), Modulus())))
  {
    var K := Gf2();
    Gf2IsField();
    PMulConsRight(K, Poly(l), d, ds);
    PMulShiftLeft(K, Poly(l), ds);
    ShiftReduces(l);
    PMulAddLeft(K, Poly(W.TimesX(l)), PScale(K, W.Top(l), Modulus()), ds);
    PMulScaleLeft(K, W.Top(l), Modulus(), ds);
    PMulComm(K, Modulus(), ds);
    PMulScaleLeft(K, W.Top(l), ds, Modulus());
  }

  /** Adding a multiple of the modulus to what reduces still reduces. */
  lemma ReducesSum(s: seq<bool>, p: seq<bool>, a: Word, b: Word, Q: seq<bool>, R: seq<bool>)
    requires s == Poly(a) && ReducesWith(p, b, Q)
    ensures ReducesWith(PAdd(Gf2(), s, PAdd(Gf2(), p, PMul(Gf2(), R, Modulus()))), W.Xor(a, b), PAdd(Gf2(), Q, R))
  {
    var K, M := Gf2(), Modulus();
    Gf2IsField();
    PolyXor(a, b);
    PMulAddLeft(K, Q, R, M);
    forall i: nat
      ensures Coef(K, PAdd(K, s, PAdd(K, p, PMul(K, R, M))), i) ==
        Coef(K, PAdd(K, PAdd(K, s, Poly(b)), PAdd(K, PMul(K, Q, M), PMul(K, R, M))), i)
    {
      assert Coef(K, p, i) == Coef(K, PAdd(K, Poly(b), PMul(K, Q, M)), i);
      SumAt(s, p, Poly(b), PMul(K, Q, M), PMul(K, R, M), i);
    }
  }

  lemma SumAt(s: seq<bool>, p: seq<bool>, b: seq<bool>, q: seq<bool>, r: seq<bool>, i: nat)
    requires Coef(Gf2(), p, i) == Coef(Gf2(), PAdd(Gf2(), b, q), i)
    ensures Coef(Gf2(), PAdd(Gf2(), s, PAdd(Gf2(), p, r)), i) ==
      Coef(Gf2(), PAdd(Gf2(), PAdd(Gf2(), s, b), PAdd(Gf2(), q, r)), i)
  {
    var K := Gf2();
    Gf2IsField();
    CoefAdd(K, s, PAdd(K, p, r), i);
    CoefAdd(K, p, r, i);
    CoefAdd(K, b, q, i);
    CoefAdd(K, PAdd(K, s, b), PAdd(K, q, r), i);
    CoefAdd(K, s, b, i);
    CoefAdd(K, q, r, i);
  }

  lemma {:induction false} ProductReduces(l: Word, digits: seq<bool>)
    ensures ReducesTo(PMul(Gf2(), Poly(l), digits), ShiftProduct.Product(W.Words(), l, digits))
    decreases |digits|
  {
    var K := Gf2();
    if digits == [] {
      forall i: nat
        ensures Coef(K, PAdd(K, Poly(0), PMul(K, [], Modulus())), i) == false
      {
        Gf2IsField();
        CoefAdd(K, Poly(0), [], i);
        Bitsets.BitZero(i);
      }
      PMulEmpty(K, Poly(l));
      assert ReducesWith(PMul(K, Poly(l), digits), 0, []);
    } else {
      var d, ds := digits[0], digits[1..];
      assert digits == [d] + ds;
      ProductReduces(W.TimesX(l), ds);
      var rest := ShiftProduct.Product(W.Words(), W.TimesX(l), ds);
      var Q :| ReducesWith(PMul(K, Poly(W.TimesX(l)), ds), rest, Q);
      ProductStep(l, d, ds);
      PolySel(l, d);
      ReducesSum(PScale(K, d, Poly(l)), PMul(K, Poly(W.TimesX(l)), ds), ShiftProduct.Sel(W.Words(), l, d), rest, Q,
        PScale(K, W.Top(l), ds));
    }
  }

  lemma {:induction false} CoefBits(r: Word, i: nat)
    ensures Coef(Gf2(), W.Bits(r), i) == W.BitAt(r, i)
    decreases i
  {
    if r == 0 {
      Bitsets.BitZero(i);
    } else {
      BitStep(r, W.Shr(r), i);
      if i > 0 {
        CoefBits(W.Shr(r), i - 1);
        assert Coef(Gf2(), W.Bits(r), i) == Coef(Gf2(), W.Bits(W.Shr(r)), i - 1);
      }
    }
  }

  /** The product of two words is the remainder of the product of their
      polynomials modulo x^64 + x^4 + x^3 + x + 1. */
  lemma MulIsReducedProduct(l: Word, r: Word)
    ensures ReducesTo(PMul(Gf2(), Poly(l), Poly(r)), W.Mul(l, r))
  {
    var K := Gf2();
    Gf2IsField();
    ProductReduces(l, W.Bits(r));
    var Q :| ReducesWith(PMul(K, Poly(l), W.Bits(r)), W.Mul(l, r), Q);
    forall i: nat
      ensures Coef(K, W.Bits(r), i) == Coef(K, Poly(r), i)
    {
      CoefBits(r, i);
      if i >= DEGREE {
        W.WordLength(r);
      }
    }
    forall i: nat
      ensures Coef(K, PMul(K, Poly(l), Poly(r)), i) == Coef(K, PMul(K, Poly(l), W.Bits(r)), i)
    {
      PMulComm(K, Poly(l), Poly(r));
      PMulComm(K, Poly(l), W.Bits(r));
      PMulEq(K, W.Bits(r), Poly(r), Poly(l), i);
    }
    assert ReducesWith(PMul(K, Poly(l), Poly(r)), W.Mul(l, r), Q);
  }
}
