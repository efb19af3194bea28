/** Multiplication by repeated shifting, over any exclusive-or group with an
    additive shift: the algebra behind the bitwise product. */
module ShiftProduct {

  datatype Shift<!W> = Shift(zero: W, xor: (W, W) -> W, step: W -> W)

  ghost predicate LawsAt<W(!new)>(S: Shift<W>, a: W, b: W, c: W) {
    && S.xor(a, b) == S.xor(b, a)
    && S.xor(S.xor(a, b), c) == S.xor(a, S.xor(b, c))
    && S.xor(a, S.zero) == a
    && S.xor(a, a) == S.zero
    && S.step(S.xor(a, b)) == S.xor(S.step(a), S.step(b))
  }

  ghost predicate IsShift<W(!new)>(S: Shift<W>) {
    forall a, b, c :: LawsAt(S, a, b, c)
  }

  function Sel<W>(S: Shift<W>, l: W, b: bool): W { if b then l else S.zero }

  /** The sum of the shifts of l selected by the digits, lowest first. */
  function Product<W>(S: Shift<W>, l: W, digits: seq<bool>): W
    decreases |digits|
  {
    if digits == [] then S.zero else S.xor(Sel(S, l, digits[0]), Product(S, S.step(l), digits[1..]))
  }

  lemma Zero<W(!new)>(S: Shift<W>, a: W)
    requires IsShift(S)
    ensures S.xor(a, S.zero) == a && S.xor(S.zero, a) == a && S.xor(a, a) == S.zero && S.step(S.zero) == S.zero
  {
    assert LawsAt(S, a, S.zero, a);
    assert LawsAt(S, S.zero, S.zero, S.zero);
    assert LawsAt(S, S.step(S.zero), S.step(S.zero), S.zero);
  }

  lemma Swap<W(!new)>(S: Shift<W>, a: W, b: W, c: W, d: W)
    requires IsShift(S)
    ensures S.xor(S.xor(a, b), S.xor(c, d)) == S.xor(S.xor(a, c), S.xor(b, d))
  {
    assert LawsAt(S, a, b, S.xor(c, d));
    assert LawsAt(S, b, c, d);
    assert LawsAt(S, c, b, d);
    assert LawsAt(S, a, c, S.xor(b, d));
  }

  lemma StepAdditive<W(!new)>(S: Shift<W>, a: W, b: W)
    requires IsShift(S)
    ensures S.step(S.xor(a, b)) == S.xor(S.step(a), S.step(b))
  {
    assert LawsAt(S, a, b, a);
  }

  /** The product by the digits of 1 + x + x^3 + x^4. */
  lemma ProductFold<W(!new)>(S: Shift<W>, l: W)
    requires IsShift(S)
    ensures var x1 := S.step(l);
      var x3 := S.step(S.step(x1));
      Product(S, l, [true, true, false, true, true]) == S.xor(l, S.xor(x1, S.xor(x3, S.step(x3))))
  {
    var x1 := S.step(l);
    var x2 := S.step(x1);
    var x3 := S.step(x2);
    var x4 := S.step(x3);
    Zero(S, x4);
    assert Product(S, S.step(x4), []) == S.zero;
    assert [true][1..] == [] && Product(S, x4, [true]) == x4;
    assert [true, true][1..] == [true] && Product(S, x3, [true, true]) == S.xor(x3, x4);
    Zero(S, S.xor(x3, x4));
    assert [false, true, true][1..] == [true, true];
    assert Product(S, x2, [false, true, true]) == S.xor(x3, x4);
    assert [true, false, true, true][1..] == [false, true, true];
    assert Product(S, x1, [true, false, true, true]) == S.xor(x1, S.xor(x3, x4));
    assert [true, true, false, true, true][1..] == [true, false, true, true];
  }

  /** n applications of the shift. */
  function Steps<W>(S: Shift<W>, v: W, n: nat): W
    decreases n
  {
    if n == 0 then v else Steps(S, S.step(v), n - 1)
  }

  lemma {:induction false} StepsAdd<W(!new)>(S: Shift<W>, v: W, m: nat, n: nat)
    ensures Steps(S, v, m + n) == Steps(S, Steps(S, v, m), n)
    decreases m
  {
    if m > 0 {
      StepsAdd(S, S.step(v), m - 1, n);
    }
  }

  lemma StepsLast<W(!new)>(S: Shift<W>, v: W, n: nat)
    ensures Steps(S, v, n + 1) == S.step(Steps(S, v, n))
  {
    StepsAdd(S, v, n, 1);
    assert Steps(S, Steps(S, v, n), 1) == Steps(S, S.step(Steps(S, v, n)), 0);
  }

  lemma {:induction false} StepsAdditive<W(!new)>(S: Shift<W>, a: W, b: W, n: nat)
    requires IsShift(S)
    ensures Steps(S, S.xor(a, b), n) == S.xor(Steps(S, a, n), Steps(S, b, n))
    decreases n
  {
    if n > 0 {
      StepAdditive(S, a, b);
      StepsAdditive(S, S.step(a), S.step(b), n - 1);
    }
  }

  /** Two shifts of a sum, with a term b added in between. */
  lemma ShiftTwice<W(!new)>(S: Shift<W>, s: W, p: W, b: W, c: W, t: W)
    requires IsShift(S) && S.step(S.step(s)) == S.xor(p, c)
    ensures S.xor(S.xor(p, b), S.xor(S.step(S.step(t)), c)) == S.xor(S.step(S.step(S.xor(s, t))), b)
  {
    var q := S.step(S.step(t));
    StepAdditive(S, s, t);
    StepAdditive(S, S.step(s), S.step(t));
    assert LawsAt(S, q, c, q);
    Swap(S, p, b, c, q);
    assert LawsAt(S, b, q, b);
    assert LawsAt(S, S.xor(p, c), q, b);
  }

  lemma {:induction false} ProductZero<W(!new)>(S: Shift<W>, r: seq<bool>)
    requires IsShift(S)
    ensures Product(S, S.zero, r) == S.zero
    decreases |r|
  {
    if r != [] {
      Zero(S, S.zero);
      ProductZero(S, r[1..]);
    }
  }

  lemma {:induction false} ProductAdditive<W(!new)>(S: Shift<W>, l: W, m: W, r: seq<bool>)
    requires IsShift(S)
    ensures Product(S, S.xor(l, m), r) == S.xor(Product(S, l, r), Product(S, m, r))
    decreases |r|
  {
    Zero(S, S.zero);
    if r != [] {
      StepAdditive(S, l, m);
      ProductAdditive(S, S.step(l), S.step(m), r[1..]);
      Swap(S, Sel(S, l, r[0]), Sel(S, m, r[0]), Product(S, S.step(l), r[1..]), Product(S, S.step(m), r[1..]));
    }
  }

  lemma {:induction false} ProductStep<W(!new)>(S: Shift<W>, l: W, r: seq<bool>)
    requires IsShift(S)
    ensures Product(S, S.step(l), r) == S.step(Product(S, l, r))
    decreases |r|
  {
    Zero(S, S.zero);
    if r != [] {
      ProductStep(S, S.step(l), r[1..]);
      StepAdditive(S, Sel(S, l, r[0]), Product(S, S.step(l), r[1..]));
    }
  }

  /** Two products in either order: the operators commute. */
  lemma {:induction false} ProductExchange<W(!new)>(S: Shift<W>, l: W, a: seq<bool>, b: seq<bool>)
    requires IsShift(S)
    ensures Product(S, Product(S, l, a), b) == Product(S, Product(S, l, b), a)
    decreases |a|
  {
    ProductZero(S, b);
    if a != [] {
      ProductExchange(S, S.step(l), a[1..], b);
      ProductStep(S, l, b);
      ProductAdditive(S, Sel(S, l, a[0]), Product(S, S.step(l), a[1..]), b);
    }
  }

  /** A closed form for squares: the digits of the low half spread to the even
      positions, and those of the high half spread and folded back. */
  datatype Squarer<!W> = Squarer(S: Shift<W>, spread: W -> W, fold: W -> W, high: W -> W, half: W -> W,
                                 shl2: W -> W, low: W -> W, mid: W -> W)

  ghost predicate SpreadLawsAt<W(!new)>(Q: Squarer<W>, a: W) {
    var s, t := Q.spread(Q.half(a)), Q.spread(Q.high(Q.half(a)));
    && Q.spread(a) == Q.S.xor(Q.shl2(s), Q.low(a))
    && Q.spread(Q.high(a)) == Q.S.xor(Q.shl2(t), Q.mid(a))
    && Q.S.step(Q.S.step(s)) == Q.S.xor(Q.shl2(s), Q.fold(Q.mid(a)))
    && Q.S.step(Q.S.step(t)) == Q.shl2(t)
  }

  ghost predicate FoldLawsAt<W(!new)>(Q: Squarer<W>, a: W, b: W) {
    && Q.fold(Q.S.xor(a, b)) == Q.S.xor(Q.fold(a), Q.fold(b))
    && Q.fold(Q.S.step(Q.S.step(a))) == Q.S.step(Q.S.step(Q.fold(a)))
  }

  ghost predicate IsSquarer<W(!new)>(Q: Squarer<W>) {
    IsShift(Q.S) && (forall a :: SpreadLawsAt(Q, a)) && (forall a, b :: FoldLawsAt(Q, a, b))
  }

  function SquareOf<W>(Q: Squarer<W>, a: W): W {
    Q.S.xor(Q.spread(a), Q.fold(Q.spread(Q.high(a))))
  }

  /** Squaring digit by digit: (x h + b)^2 = x^2 h^2 + b. */
  lemma SquareStep<W(!new)>(Q: Squarer<W>, a: W)
    requires IsSquarer(Q)
    ensures SquareOf(Q, a) == Q.S.xor(Q.S.step(Q.S.step(SquareOf(Q, Q.half(a)))), Q.low(a))
  {
    var s, t := Q.spread(Q.half(a)), Q.spread(Q.high(Q.half(a)));
    assert SpreadLawsAt(Q, a);
    assert FoldLawsAt(Q, Q.shl2(t), Q.mid(a));
    assert FoldLawsAt(Q, t, t);
    ShiftTwice(Q.S, s, Q.shl2(s), Q.low(a), Q.fold(Q.mid(a)), Q.fold(t));
  }
}
