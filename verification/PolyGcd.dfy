/** Squaring, exact division and Euclid's algorithm on polynomials. */
module PolyGcd {
  import opened FieldTheory
  import opened Polynomials
  import opened PolyOps

  // ---- squaring

  /** In characteristic two the square of a polynomial has the squared
      coefficients at the even positions and nothing else. */
  function Squared<F>(K: Field<F>, p: seq<F>): (r: seq<F>)
    ensures |r| == if p == [] then 0 else 2 * |p| - 1
  {
    if p == [] then []
    else if |p| == 1 then [Sq(K, p[0])]
    else [Sq(K, p[0]), K.zero] + Squared(K, p[1..])
  }

  lemma {:induction false} SquaredAt<F(!new)>(K: Field<F>, p: seq<F>, k: nat)
    requires k < |Squared(K, p)|
    ensures Squared(K, p)[k] == if k % 2 == 0 then Sq(K, p[k / 2]) else K.zero
  {
    if k >= 2 {
      SquaredAt(K, p[1..], k - 2);
    }
  }

  lemma {:induction false} SquaredIsProduct<F(!new)>(K: Field<F>, p: seq<F>)
    requires IsField(K)
    ensures Squared(K, p) == PMul(K, p, p)
  {
    if |p| > 1 {
      var c, q := p[0], p[1..];
      assert p == [c] + q;
      SquaredIsProduct(K, q);
      // p * p = c p + x (c q + x q q), and the two middle terms c q cancel
      var u, v := PScale(K, c, q), PShift(K, PMul(K, q, q));
      PMulConsRight(K, q, c, q);
      assert PScale(K, c, p) == [Sq(K, c)] + u;
      ConsAdd(K, Sq(K, c), u, PAdd(K, u, v));
      PAddAssoc(K, u, u, v);
      forall i | 0 <= i < |v|
        ensures PAdd(K, PAdd(K, u, u), v)[i] == v[i]
      {
        CoefAdd(K, PAdd(K, u, u), v, i);
        CoefAdd(K, u, u, i);
        AddZero(K, Coef(K, u, i));
        AddZero(K, v[i]);
      }
      assert PAdd(K, PAdd(K, u, u), v) == v;
    } else if |p| == 1 {
      assert PMul(K, p[1..], p) == [];
      PAddEmpty(K, PScale(K, p[0], p));
    }
  }

  /** Squared coefficients spread over the even positions. */
  ghost predicate SpreadAt<F>(K: Field<F>, p: seq<F>, r: seq<F>, i: nat, k: nat)
    requires k < |r| == 2 * |p| - 1
  {
    r[k] == if k % 2 == 0 && k / 2 < i then Sq(K, p[k / 2]) else K.zero
  }

  lemma SpreadIsSquared<F(!new)>(K: Field<F>, p: seq<F>, r: seq<F>)
    requires p != [] && |r| == 2 * |p| - 1 && forall k: nat :: k < |r| ==> SpreadAt(K, p, r, |p|, k)
    ensures r == Squared(K, p)
  {
    forall k: nat | k < |r|
      ensures r[k] == Squared(K, p)[k]
    {
      SquaredAt(K, p, k);
      assert SpreadAt(K, p, r, |p|, k);
    }
  }

  lemma OddCoefficients<F(!new)>(K: Field<F>, p: seq<F>)
    ensures forall k :: 0 <= k < |Squared(K, p)| && k % 2 == 1 ==> Squared(K, p)[k] == K.zero
  {
    forall k | 0 <= k < |Squared(K, p)| && k % 2 == 1
      ensures Squared(K, p)[k] == K.zero
    {
      SquaredAt(K, p, k);
    }
  }

  method PolySquare<F(==,!new)>(K: Field<F>, p: seq<F>) returns (r: seq<F>)
    requires IsField(K)
    ensures r == PMul(K, p, p)
    ensures forall k :: 0 <= k < |r| && k % 2 == 1 ==> r[k] == K.zero
  {
    SquaredIsProduct(K, p);
    OddCoefficients(K, p);
    if p == [] {
      return [];
    }
    r := seq(|p| * 2 - 1, _ => K.zero);
    for i := 0 to |p|
      invariant |r| == |p| * 2 - 1
      invariant forall k: nat :: k < |r| ==> SpreadAt(K, p, r, i, k)
    {
      ghost var before, next: nat := r, i + 1;
      r := r[i * 2 := K.mul(p[i], p[i])];
      forall k: nat | k < |r|
        ensures SpreadAt(K, p, r, next, k)
      {
        assert SpreadAt(K, p, before, i, k);
      }
    }
    SpreadIsSquared(K, p, r);
  }

  // ---- divisibility

  lemma DividesSelf<F(!new)>(K: Field<F>, f: seq<F>)
    requires IsField(K)
    ensures Divides(K, f, f) && Divides(K, f, [])
  {
    PMulOne(K, f);
    assert PEq(K, f, PMul(K, f, [K.one]));
    PMulEmpty(K, f);
    assert PEq(K, [], PMul(K, f, []));
  }

  lemma DividesMultiple<F(!new)>(K: Field<F>, f: seq<F>, p: seq<F>, c: F)
    requires IsField(K) && Divides(K, f, p)
    ensures Divides(K, f, PScale(K, c, p))
  {
    var q :| PEq(K, p, PMul(K, f, q));
    var q' := PScale(K, c, q);
    forall i: nat
      ensures Coef(K, PScale(K, c, p), i) == Coef(K, PMul(K, f, q'), i)
    {
      PMulScaleRight(K, c, f, q);
      CoefScale(K, c, PMul(K, f, q), i);
      CoefScale(K, c, p, i);
    }
    assert PEq(K, PScale(K, c, p), PMul(K, f, q'));
  }

  lemma DividesScaled<F(!new)>(K: Field<F>, f: seq<F>, p: seq<F>, c: F)
    requires IsField(K) && c != K.zero
    ensures Divides(K, f, PScale(K, c, p)) <==> Divides(K, f, p)
  {
    if Divides(K, f, p) {
      DividesMultiple(K, f, p, c);
    }
    if Divides(K, f, PScale(K, c, p)) {
      DividesMultiple(K, f, PScale(K, c, p), Inv(K, c));
      var r :| PEq(K, PScale(K, Inv(K, c), PScale(K, c, p)), PMul(K, f, r));
      forall i: nat
        ensures Coef(K, p, i) == Coef(K, PMul(K, f, r), i)
      {
        CoefScale(K, Inv(K, c), PScale(K, c, p), i);
        CoefScale(K, c, p, i);
        MulAssoc(K, Inv(K, c), c, Coef(K, p, i));
        MulInv(K, c);
        MulOne(K, Coef(K, p, i));
        assert Coef(K, PScale(K, Inv(K, c), PScale(K, c, p)), i) == Coef(K, PMul(K, f, r), i);
      }
      assert PEq(K, p, PMul(K, f, r));
    }
  }

  /** Value and remainder can change places: adding is subtracting. */
  lemma RemainderIsDividend<F(!new)>(K: Field<F>, value: seq<F>, Q: seq<F>, modulus: seq<F>, rem: seq<F>)
    requires IsField(K) && DividesWith(K, value, Q, modulus, rem)
    ensures DividesWith(K, rem, Q, modulus, value)
  {
    var m := PMul(K, Q, modulus);
    forall i: nat
      ensures Coef(K, rem, i) == Coef(K, PAdd(K, m, value), i)
    {
      assert Coef(K, value, i) == Coef(K, PAdd(K, m, rem), i);
      CoefAdd(K, m, rem, i);
      CoefAdd(K, m, value, i);
      AddCancel(K, Coef(K, rem, i), Coef(K, m, i));
    }
  }

  /** A common divisor of modulus and remainder divides the dividend. */
  lemma DividesDividend<F(!new)>(K: Field<F>, f: seq<F>, value: seq<F>, Q: seq<F>, modulus: seq<F>, rem: seq<F>)
    requires IsField(K) && DividesWith(K, value, Q, modulus, rem) && Divides(K, f, modulus) && Divides(K, f, rem)
    ensures Divides(K, f, value)
  {
    var u :| PEq(K, modulus, PMul(K, f, u));
    var v :| PEq(K, rem, PMul(K, f, v));
    var w := PAdd(K, PMul(K, Q, u), v);
    forall i: nat
      ensures Coef(K, value, i) == Coef(K, PMul(K, f, w), i)
    {
      CoefAdd(K, PMul(K, Q, modulus), rem, i);
      PMulComm(K, Q, modulus);
      PMulEq(K, modulus, PMul(K, f, u), Q, i);
      PMulAssoc(K, f, u, Q);
      PMulComm(K, u, Q);
      PMulAddRight(K, f, PMul(K, Q, u), v);
      CoefAdd(K, PMul(K, f, PMul(K, Q, u)), PMul(K, f, v), i);
    }
    assert PEq(K, value, PMul(K, f, w));
  }

  lemma RootOfDivision<F(!new)>(K: Field<F>, value: seq<F>, Q: seq<F>, modulus: seq<F>, rem: seq<F>, a: F)
    requires IsField(K) && DividesWith(K, value, Q, modulus, rem) && Root(K, modulus, a)
    ensures Eval(K, value, a) == Eval(K, rem, a)
  {
    EvalEq(K, value, PAdd(K, PMul(K, Q, modulus), rem), a);
    EvalAdd(K, PMul(K, Q, modulus), rem, a);
    EvalMul(K, Q, modulus, a);
    MulZero(K, Eval(K, Q, a));
    AddZero(K, Eval(K, rem, a));
  }

  /** f (g + q) = rem when p = f g = f q + rem. */
  lemma QuotientGap<F(!new)>(K: Field<F>, p: seq<F>, f: seq<F>, g: seq<F>, q: seq<F>, rem: seq<F>, i: nat)
    requires IsField(K) && PEq(K, p, PMul(K, f, g)) && DividesWith(K, p, q, f, rem)
    ensures Coef(K, PMul(K, f, PAdd(K, g, q)), i) == Coef(K, rem, i)
  {
    PMulAddRight(K, f, g, q);
    CoefAdd(K, PMul(K, f, g), PMul(K, f, q), i);
    PMulComm(K, q, f);
    CoefAdd(K, PMul(K, q, f), rem, i);
    var x, y := Coef(K, PMul(K, f, q), i), Coef(K, rem, i);
    assert Coef(K, PMul(K, f, g), i) == Coef(K, p, i) == K.add(x, y);
    AddComm(K, x, y);
    AddCancel(K, y, x);
  }

  /** Dividing a multiple of a monic f by f leaves no remainder. */
  lemma ExactDivision<F(!new)>(K: Field<F>, p: seq<F>, f: seq<F>, q: seq<F>, rem: seq<F>)
    requires IsField(K) && Monic(K, f) && Divides(K, f, p) && |rem| < |f| && DividesWith(K, p, q, f, rem)
    ensures PEq(K, p, PMul(K, f, q))
  {
    var g :| PEq(K, p, PMul(K, f, g));
    var e := PAdd(K, g, q);
    forall i: nat
      ensures Coef(K, PMul(K, f, e), i) == Coef(K, rem, i)
    {
      QuotientGap(K, p, f, g, q, rem, i);
    }
    MultipleIsZero(K, f, e, rem, |e|);
    EqualSummands(K, g, q);
    PMulComm(K, f, g);
    PMulComm(K, f, q);
    forall i: nat
      ensures Coef(K, p, i) == Coef(K, PMul(K, f, q), i)
    {
      PMulEq(K, g, q, f, i);
      assert Coef(K, p, i) == Coef(K, PMul(K, f, g), i);
    }
  }

  lemma EqualSummands<F(!new)>(K: Field<F>, g: seq<F>, q: seq<F>)
    requires IsField(K) && PEq(K, PAdd(K, g, q), [])
    ensures PEq(K, g, q)
  {
    forall i: nat
      ensures Coef(K, g, i) == Coef(K, q, i)
    {
      assert Coef(K, PAdd(K, g, q), i) == Coef(K, [], i);
      CoefAdd(K, g, q, i);
      AddCancel(K, Coef(K, g, i), Coef(K, q, i));
    }
  }

  /** A multiple of f shorter than f is zero. */
  lemma {:induction false} MultipleIsZero<F(!new)>(K: Field<F>, f: seq<F>, e: seq<F>, rem: seq<F>, k: nat)
    requires IsField(K) && Monic(K, f) && |rem| < |f|
    requires forall i: nat :: Coef(K, PMul(K, f, e), i) == Coef(K, rem, i)
    requires forall i: nat :: i >= k ==> Coef(K, e, i) == K.zero
    ensures PEq(K, e, [])
  {
    if k > 0 {
      TopCoef(K, f, e, k - 1);
      MulOne(K, Coef(K, e, k - 1));
      MultipleIsZero(K, f, e, rem, k - 1);
    }
  }

  /** Polynomials of equal length with equal coefficients are the same sequence. */
  lemma PEqSameLength<F(!new)>(K: Field<F>, p: seq<F>, q: seq<F>)
    requires PEq(K, p, q) && |p| == |q|
    ensures p == q
  {
    forall i | 0 <= i < |p|
      ensures p[i] == q[i]
    {
      assert Coef(K, p, i) == Coef(K, q, i);
    }
  }

  /** A monic divisor splits a monic polynomial exactly. */
  lemma MonicSplit<F(!new)>(K: Field<F>, p: seq<F>, f: seq<F>, q: seq<F>, rem: seq<F>)
    requires IsField(K) && Monic(K, p) && Monic(K, f) && Divides(K, f, p) && |f| <= |p|
    requires |rem| < |f| && DividesWith(K, p, q, f, rem) && Trimmed(K, q) && |q| <= |p| - |f| + 1
    ensures p == PMul(K, f, q) && Monic(K, q) && |q| == |p| - |f| + 1
  {
    ExactDivision(K, p, f, q, rem);
    var m := PMul(K, f, q);
    assert Coef(K, p, |p| - 1) == Coef(K, m, |p| - 1);
    assert |m| >= |p|;
    PEqSameLength(K, p, m);
    MonicQuotient(K, f, q);
  }

  // ---- Euclid's algorithm

  /** The two pairs have the same common divisors and the same common roots. */
  ghost predicate Reduces<F(!new)>(K: Field<F>, l: seq<F>, r: seq<F>, l0: seq<F>, r0: seq<F>) {
    && (forall f :: Divides(K, f, l) && Divides(K, f, r) <==> Divides(K, f, l0) && Divides(K, f, r0))
    && (forall a :: Root(K, l, a) && Root(K, r, a) <==> Root(K, l0, a) && Root(K, r0, a))
  }

  lemma RootScaled<F(!new)>(K: Field<F>, p: seq<F>, c: F, a: F)
    requires IsField(K) && c != K.zero
    ensures Root(K, PScale(K, c, p), a) <==> Root(K, p, a)
  {
    EvalScale(K, c, p, a);
    NoZeroDivisors(K, c, Eval(K, p, a));
  }

  /** One round of the loop: r is made monic and l is reduced by it. */
  lemma EuclidStep<F(!new)>(K: Field<F>, l: seq<F>, r: seq<F>, c: F, Q: seq<F>, rem: seq<F>)
    requires IsField(K) && c != K.zero && DividesWith(K, l, Q, PScale(K, c, r), rem)
    ensures Reduces(K, PScale(K, c, r), rem, l, r)
  {
    var m := PScale(K, c, r);
    RemainderIsDividend(K, l, Q, m, rem);
    forall f
      ensures Divides(K, f, m) && Divides(K, f, rem) <==> Divides(K, f, l) && Divides(K, f, r)
    {
      DividesScaled(K, f, r, c);
      if Divides(K, f, m) && Divides(K, f, rem) {
        DividesDividend(K, f, l, Q, m, rem);
      }
      if Divides(K, f, l) && Divides(K, f, m) {
        DividesDividend(K, f, rem, Q, m, l);
      }
    }
    forall a
      ensures Root(K, m, a) && Root(K, rem, a) <==> Root(K, l, a) && Root(K, r, a)
    {
      RootScaled(K, r, c, a);
      if Root(K, m, a) {
        RootOfDivision(K, l, Q, m, rem, a);
      }
    }
  }

  lemma EuclidEnd<F(!new)>(K: Field<F>, l: seq<F>, c: F, l0: seq<F>, r0: seq<F>)
    requires IsField(K) && c != K.zero && Reduces(K, l, [], l0, r0)
    ensures IsGcd(K, PScale(K, c, l), l0, r0)
  {
    var g := PScale(K, c, l);
    DividesSelf(K, g);
    DividesScaled(K, g, l, c);
    forall f | Divides(K, f, l0) && Divides(K, f, r0)
      ensures Divides(K, f, g)
    {
      DividesMultiple(K, f, l, c);
    }
    forall a
      ensures Root(K, g, a) <==> Root(K, l0, a) && Root(K, r0, a)
    {
      RootScaled(K, l, c, a);
      assert Root(K, [], a);
    }
  }

  /** A common divisor that every common divisor divides, and whose roots are
      exactly the common roots. */
  ghost predicate IsGcd<F(!new)>(K: Field<F>, g: seq<F>, l: seq<F>, r: seq<F>) {
    && Divides(K, g, l) && Divides(K, g, r)
    && (forall f :: Divides(K, f, l) && Divides(K, f, r) ==> Divides(K, f, g))
    && forall a :: Root(K, g, a) <==> Root(K, l, a) && Root(K, r, a)
  }

  lemma ReducesTrans<F(!new)>(K: Field<F>, l: seq<F>, r: seq<F>, l1: seq<F>, r1: seq<F>, l0: seq<F>, r0: seq<F>)
    requires Reduces(K, l, r, l1, r1) && Reduces(K, l1, r1, l0, r0)
    ensures Reduces(K, l, r, l0, r0)
  {
  }

  lemma InvNonzero<F(!new)>(K: Field<F>, a: F)
    requires IsField(K) && a != K.zero
    ensures Inv(K, a) != K.zero
  {
    MulInv(K, a);
    MulZero(K, a);
  }

  method PolyGCD<F(==,!new)>(K: Field<F>, left0: seq<F>, right0: seq<F>) returns (ok: bool, g: seq<F>)
    requires IsBinaryField(K)
    ensures ok ==> Monic(K, g) && IsGcd(K, g, left0, right0)
    ensures Trimmed(K, left0) && Trimmed(K, right0) && (left0 != [] || right0 != []) ==> ok
  {
    var left, right := left0, right0;
    if |left| < |right| {
      left, right := right, left;
    }
    while |right| != 0
      invariant Reduces(K, left, right, left0, right0)
      invariant Trimmed(K, left0) && Trimmed(K, right0) && (left0 != [] || right0 != []) ==>
        Trimmed(K, left) && Trimmed(K, right) && left != []
      decreases |right|
    {
      var okMonic, monic := MakeMonic(K, right);
      if !okMonic {
        return false, [];
      }
      ghost var c := Inv(K, right[|right| - 1]);
      InvNonzero(K, right[|right| - 1]);
      var okMod, rem := PolyMod(K, monic, left);
      if !okMod {
        return false, [];
      }
      ghost var Q :| DividesWith(K, left, Q, monic, rem);
      EuclidStep(K, left, right, c, Q, rem);
      ReducesTrans(K, monic, rem, left, right, left0, right0);
      MulOne(K, K.one);
      left, right := monic, rem;
    }
    ok, g := MakeMonic(K, left);
    if ok {
      InvNonzero(K, left[|left| - 1]);
      EuclidEnd(K, left, Inv(K, left[|left| - 1]), left0, right0);
    }
  }
}
