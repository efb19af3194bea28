/** Polynomials over a field as coefficient sequences, lowest degree first.
    The product of two nonempty sequences has length |p| + |q| - 1, leading
    zeros included, so the ring laws below are equalities of sequences. */
module Polynomials {
  import opened FieldTheory

  function Max(m: int, n: int): int { if m >= n then m else n }

  function Coef<F>(K: Field<F>, p: seq<F>, i: int): F {
    if 0 <= i < |p| then p[i] else K.zero
  }

  function PAdd<F>(K: Field<F>, p: seq<F>, q: seq<F>): (r: seq<F>) {
    seq(Max(|p|, |q|), i => K.add(Coef(K, p, i), Coef(K, q, i)))
  }

  function PScale<F>(K: Field<F>, c: F, p: seq<F>): seq<F> {
    seq(|p|, i requires 0 <= i < |p| => K.mul(c, p[i]))
  }

  /** Multiplication by x. */
  function PShift<F>(K: Field<F>, p: seq<F>): seq<F> {
    if p == [] then [] else [K.zero] + p
  }

  function PMul<F>(K: Field<F>, p: seq<F>, q: seq<F>): (r: seq<F>)
    ensures |r| == if p == [] || q == [] then 0 else |p| + |q| - 1
  {
    if p == [] then [] else PAdd(K, PScale(K, p[0], q), PShift(K, PMul(K, p[1..], q)))
  }

  function Eval<F>(K: Field<F>, p: seq<F>, x: F): F {
    if p == [] then K.zero else K.add(p[0], K.mul(x, Eval(K, p[1..], x)))
  }

  ghost predicate Monic<F>(K: Field<F>, p: seq<F>) {
    p != [] && p[|p| - 1] == K.one
  }

  /** No leading zero; the zero polynomial is the empty sequence. */
  ghost predicate Trimmed<F>(K: Field<F>, p: seq<F>) {
    p == [] || p[|p| - 1] != K.zero
  }

  /** Equal coefficients, whatever the lengths. */
  ghost predicate PEq<F>(K: Field<F>, p: seq<F>, q: seq<F>) {
    forall i: nat :: Coef(K, p, i) == Coef(K, q, i)
  }

  // ---- addition, scaling, shifting

  lemma CoefAdd<F(!new)>(K: Field<F>, p: seq<F>, q: seq<F>, i: int)
    requires IsField(K)
    ensures Coef(K, PAdd(K, p, q), i) == K.add(Coef(K, p, i), Coef(K, q, i))
  {
    AddZero(K, K.zero);
  }

  lemma PAddTail<F(!new)>(K: Field<F>, p: seq<F>, q: seq<F>)
    requires IsField(K) && p != [] && q != []
    ensures PAdd(K, p, q)[1..] == PAdd(K, p[1..], q[1..])
  {
    forall i | 0 <= i < Max(|p|, |q|) - 1
      ensures PAdd(K, p, q)[1..][i] == PAdd(K, p[1..], q[1..])[i]
    {
      CoefAdd(K, p, q, i + 1);
      CoefAdd(K, p[1..], q[1..], i);
    }
  }

  lemma PAddComm<F(!new)>(K: Field<F>, p: seq<F>, q: seq<F>)
    requires IsField(K)
    ensures PAdd(K, p, q) == PAdd(K, q, p)
  {
    forall i | 0 <= i < Max(|p|, |q|)
      ensures PAdd(K, p, q)[i] == PAdd(K, q, p)[i]
    {
      AddComm(K, Coef(K, p, i), Coef(K, q, i));
    }
  }

  lemma PAddAssoc<F(!new)>(K: Field<F>, p: seq<F>, q: seq<F>, r: seq<F>)
    requires IsField(K)
    ensures PAdd(K, PAdd(K, p, q), r) == PAdd(K, p, PAdd(K, q, r))
  {
    forall i | 0 <= i < Max(Max(|p|, |q|), |r|)
      ensures PAdd(K, PAdd(K, p, q), r)[i] == PAdd(K, p, PAdd(K, q, r))[i]
    {
      CoefAdd(K, p, q, i);
      CoefAdd(K, q, r, i);
      AddAssoc(K, Coef(K, p, i), Coef(K, q, i), Coef(K, r, i));
    }
  }

  lemma PAddEmpty<F(!new)>(K: Field<F>, p: seq<F>)
    requires IsField(K)
    ensures PAdd(K, p, []) == p && PAdd(K, [], p) == p
  {
    forall i | 0 <= i < |p|
      ensures PAdd(K, p, [])[i] == p[i] && PAdd(K, [], p)[i] == p[i]
    {
      CoefAdd(K, p, [], i);
      CoefAdd(K, [], p, i);
      AddZero(K, p[i]);
    }
  }

  lemma PAddSwap<F(!new)>(K: Field<F>, p: seq<F>, q: seq<F>, r: seq<F>, s: seq<F>)
    requires IsField(K)
    ensures PAdd(K, PAdd(K, p, q), PAdd(K, r, s)) == PAdd(K, PAdd(K, p, r), PAdd(K, q, s))
  {
    PAddAssoc(K, p, q, PAdd(K, r, s));
    PAddAssoc(K, q, r, s);
    PAddComm(K, q, r);
    PAddAssoc(K, r, q, s);
    PAddAssoc(K, p, r, PAdd(K, q, s));
  }

  lemma PScaleAdd<F(!new)>(K: Field<F>, c: F, p: seq<F>, q: seq<F>)
    requires IsField(K)
    ensures PScale(K, c, PAdd(K, p, q)) == PAdd(K, PScale(K, c, p), PScale(K, c, q))
  {
    forall i | 0 <= i < Max(|p|, |q|)
      ensures PScale(K, c, PAdd(K, p, q))[i] == PAdd(K, PScale(K, c, p), PScale(K, c, q))[i]
    {
      CoefAdd(K, p, q, i);
      CoefAdd(K, PScale(K, c, p), PScale(K, c, q), i);
      Distrib(K, c, Coef(K, p, i), Coef(K, q, i));
      MulZero(K, c);
    }
  }

  lemma PScaleSum<F(!new)>(K: Field<F>, c: F, d: F, p: seq<F>)
    requires IsField(K)
    ensures PScale(K, K.add(c, d), p) == PAdd(K, PScale(K, c, p), PScale(K, d, p))
  {
    forall i | 0 <= i < |p|
      ensures PScale(K, K.add(c, d), p)[i] == PAdd(K, PScale(K, c, p), PScale(K, d, p))[i]
    {
      CoefAdd(K, PScale(K, c, p), PScale(K, d, p), i);
      Distrib(K, p[i], c, d);
    }
  }

  lemma PScaleScale<F(!new)>(K: Field<F>, c: F, d: F, p: seq<F>)
    requires IsField(K)
    ensures PScale(K, c, PScale(K, d, p)) == PScale(K, K.mul(c, d), p) == PScale(K, d, PScale(K, c, p))
  {
    forall i | 0 <= i < |p|
      ensures PScale(K, c, PScale(K, d, p))[i] == PScale(K, K.mul(c, d), p)[i] == PScale(K, d, PScale(K, c, p))[i]
    {
      MulAssoc(K, c, d, p[i]);
      MulComm(K, c, d);
      MulAssoc(K, d, c, p[i]);
    }
  }

  lemma PShiftAdd<F(!new)>(K: Field<F>, p: seq<F>, q: seq<F>)
    requires IsField(K)
    ensures PShift(K, PAdd(K, p, q)) == PAdd(K, PShift(K, p), PShift(K, q))
  {
    PAddEmpty(K, p);
    PAddEmpty(K, q);
    PAddEmpty(K, PShift(K, p));
    PAddEmpty(K, PShift(K, q));
    if p != [] && q != [] {
      AddZero(K, K.zero);
      var l, r := PShift(K, PAdd(K, p, q)), PAdd(K, PShift(K, p), PShift(K, q));
      forall i | 0 <= i < |l|
        ensures l[i] == r[i]
      {
        CoefAdd(K, p, q, i - 1);
        CoefAdd(K, PShift(K, p), PShift(K, q), i);
      }
    }
  }

  lemma PShiftScale<F(!new)>(K: Field<F>, c: F, p: seq<F>)
    requires IsField(K)
    ensures PShift(K, PScale(K, c, p)) == PScale(K, c, PShift(K, p))
  {
    MulZero(K, c);
  }

  lemma PAddZeros<F(!new)>(K: Field<F>, q: seq<F>, p: seq<F>)
    requires IsField(K) && |q| <= |p|
    ensures PAdd(K, PScale(K, K.zero, q), p) == p
  {
    forall i | 0 <= i < |p|
      ensures PAdd(K, PScale(K, K.zero, q), p)[i] == p[i]
    {
      CoefAdd(K, PScale(K, K.zero, q), p, i);
      MulZero(K, Coef(K, q, i));
      AddZero(K, p[i]);
    }
  }

  // ---- the ring laws

  lemma PMulEmpty<F(!new)>(K: Field<F>, p: seq<F>)
    ensures PMul(K, p, []) == []
  {
  }

  lemma {:induction false} PMulAddRight<F(!new)>(K: Field<F>, p: seq<F>, q: seq<F>, r: seq<F>)
    requires IsField(K)
    ensures PMul(K, p, PAdd(K, q, r)) == PAdd(K, PMul(K, p, q), PMul(K, p, r))
  {
    if p != [] {
      var p' := p[1..];
      PMulAddRight(K, p', q, r);
      PShiftAdd(K, PMul(K, p', q), PMul(K, p', r));
      PScaleAdd(K, p[0], q, r);
      PAddSwap(K, PScale(K, p[0], q), PScale(K, p[0], r), PShift(K, PMul(K, p', q)), PShift(K, PMul(K, p', r)));
    }
  }

  lemma {:induction false} PMulAddLeft<F(!new)>(K: Field<F>, p: seq<F>, q: seq<F>, r: seq<F>)
    requires IsField(K)
    ensures PMul(K, PAdd(K, p, q), r) == PAdd(K, PMul(K, p, r), PMul(K, q, r))
    decreases |p| + |q|
  {
    if p == [] || q == [] {
      PAddEmpty(K, p);
      PAddEmpty(K, q);
      PAddEmpty(K, PMul(K, p, r));
      PAddEmpty(K, PMul(K, q, r));
    } else {
      var p', q' := p[1..], q[1..];
      PAddTail(K, p, q);
      CoefAdd(K, p, q, 0);
      PMulAddLeft(K, p', q', r);
      PShiftAdd(K, PMul(K, p', r), PMul(K, q', r));
      PScaleSum(K, p[0], q[0], r);
      PAddSwap(K, PScale(K, p[0], r), PScale(K, q[0], r), PShift(K, PMul(K, p', r)), PShift(K, PMul(K, q', r)));
    }
  }

  lemma {:induction false} PMulScaleLeft<F(!new)>(K: Field<F>, c: F, p: seq<F>, q: seq<F>)
    requires IsField(K)
    ensures PMul(K, PScale(K, c, p), q) == PScale(K, c, PMul(K, p, q))
  {
    if p != [] {
      var t := PShift(K, PMul(K, p[1..], q));
      assert PScale(K, c, p)[1..] == PScale(K, c, p[1..]);
      PMulScaleLeft(K, c, p[1..], q);
      PShiftScale(K, c, PMul(K, p[1..], q));
      PScaleScale(K, c, p[0], q);
      PScaleAdd(K, c, PScale(K, p[0], q), t);
    }
  }

  lemma {:induction false} PMulShiftLeft<F(!new)>(K: Field<F>, p: seq<F>, q: seq<F>)
    requires IsField(K)
    ensures PMul(K, PShift(K, p), q) == PShift(K, PMul(K, p, q))
  {
    if p != [] {
      assert PShift(K, p)[1..] == p;
      PAddZeros(K, q, PShift(K, PMul(K, p, q)));
    }
  }

  lemma {:induction false} PMulConsRight<F(!new)>(K: Field<F>, p: seq<F>, b: F, q: seq<F>)
    requires IsField(K)
    ensures PMul(K, p, [b] + q) == PAdd(K, PScale(K, b, p), PShift(K, PMul(K, p, q)))
  {
    if p == [] {
      assert PAdd(K, PScale(K, b, p), PShift(K, PMul(K, p, q))) == [];
    } else {
      var p', bq := p[1..], [b] + q;
      PMulConsRight(K, p', b, q);
      var u, v, w := PScale(K, b, p'), PShift(K, PMul(K, p', q)), PScale(K, p[0], q);
      // both sides are [p0 b] + (b p' + p0 q + x p' q)
      PShiftAdd(K, u, v);
      assert PScale(K, p[0], bq) == [K.mul(p[0], b)] + w;
      assert PScale(K, b, p) == [K.mul(b, p[0])] + u;
      MulComm(K, b, p[0]);
      ConsAdd(K, K.mul(p[0], b), w, PAdd(K, u, v));
      ConsAdd(K, K.mul(p[0], b), u, PAdd(K, w, v));
      PAddAssoc(K, w, u, v);
      PAddComm(K, w, u);
      PAddAssoc(K, u, w, v);
    }
  }

  lemma ConsAdd<F(!new)>(K: Field<F>, c: F, p: seq<F>, q: seq<F>)
    requires IsField(K)
    ensures PAdd(K, [c] + p, PShift(K, q)) == [c] + PAdd(K, p, q)
  {
    AddZero(K, c);
    var l, r := PAdd(K, [c] + p, PShift(K, q)), [c] + PAdd(K, p, q);
    if q == [] {
      PAddEmpty(K, p);
      PAddEmpty(K, [c] + p);
    } else {
      forall i | 0 <= i < |l|
        ensures l[i] == r[i]
      {
        CoefAdd(K, [c] + p, PShift(K, q), i);
        CoefAdd(K, p, q, i - 1);
      }
    }
  }

  lemma {:induction false} PMulComm<F(!new)>(K: Field<F>, p: seq<F>, q: seq<F>)
    requires IsField(K)
    ensures PMul(K, p, q) == PMul(K, q, p)
  {
    if p == [] {
      PMulEmpty(K, q);
    } else {
      PMulComm(K, p[1..], q);
      assert p == [p[0]] + p[1..];
      PMulConsRight(K, q, p[0], p[1..]);
    }
  }

  lemma {:induction false} PMulAssoc<F(!new)>(K: Field<F>, p: seq<F>, q: seq<F>, r: seq<F>)
    requires IsField(K)
    ensures PMul(K, PMul(K, p, q), r) == PMul(K, p, PMul(K, q, r))
  {
    if p != [] {
      var t := PMul(K, p[1..], q);
      PMulAssoc(K, p[1..], q, r);
      PMulAddLeft(K, PScale(K, p[0], q), PShift(K, t), r);
      PMulScaleLeft(K, p[0], q, r);
      PMulShiftLeft(K, t, r);
    }
  }

  lemma PMulScaleRight<F(!new)>(K: Field<F>, c: F, p: seq<F>, q: seq<F>)
    requires IsField(K)
    ensures PMul(K, p, PScale(K, c, q)) == PScale(K, c, PMul(K, p, q))
  {
    PMulComm(K, p, PScale(K, c, q));
    PMulComm(K, p, q);
    PMulScaleLeft(K, c, q, p);
  }

  lemma PMulOne<F(!new)>(K: Field<F>, p: seq<F>)
    requires IsField(K)
    ensures PMul(K, [K.one], p) == p && PMul(K, p, [K.one]) == p
  {
    forall i | 0 <= i < |p|
      ensures PScale(K, K.one, p)[i] == p[i]
    {
      MulOne(K, p[i]);
    }
    assert PScale(K, K.one, p) == p;
    PAddEmpty(K, p);
    PMulComm(K, [K.one], p);
  }

  /** Multiplication by x^k. */
  function PShiftBy<F>(K: Field<F>, p: seq<F>, k: nat): (r: seq<F>)
    ensures |r| == if p == [] then 0 else |p| + k
  {
    if k == 0 then p else PShift(K, PShiftBy(K, p, k - 1))
  }

  lemma {:induction false} CoefShiftBy<F(!new)>(K: Field<F>, p: seq<F>, k: nat, i: int)
    ensures Coef(K, PShiftBy(K, p, k), i) == Coef(K, p, i - k)
  {
    if k > 0 {
      CoefShiftBy(K, p, k - 1, i - 1);
    }
  }

  lemma {:induction false} PMulShiftByLeft<F(!new)>(K: Field<F>, p: seq<F>, k: nat, q: seq<F>)
    requires IsField(K)
    ensures PMul(K, PShiftBy(K, p, k), q) == PShiftBy(K, PMul(K, p, q), k)
  {
    if k > 0 {
      PMulShiftByLeft(K, p, k - 1, q);
      PMulShiftLeft(K, PShiftBy(K, p, k - 1), q);
    }
  }

  lemma CoefScale<F(!new)>(K: Field<F>, c: F, p: seq<F>, i: int)
    requires IsField(K)
    ensures Coef(K, PScale(K, c, p), i) == K.mul(c, Coef(K, p, i))
  {
    MulZero(K, c);
  }

  lemma CoefMulCons<F(!new)>(K: Field<F>, p: seq<F>, q: seq<F>, i: int)
    requires IsField(K) && p != []
    ensures Coef(K, PMul(K, p, q), i) == K.add(K.mul(p[0], Coef(K, q, i)), Coef(K, PMul(K, p[1..], q), i - 1))
  {
    CoefAdd(K, PScale(K, p[0], q), PShift(K, PMul(K, p[1..], q)), i);
    CoefScale(K, p[0], q, i);
  }

  /** The leading coefficient of a product is the product of the leading ones. */
  lemma {:induction false} TopCoef<F(!new)>(K: Field<F>, p: seq<F>, q: seq<F>, k: nat)
    requires IsField(K) && p != [] && forall i: nat :: i > k ==> Coef(K, q, i) == K.zero
    ensures Coef(K, PMul(K, p, q), |p| - 1 + k) == K.mul(p[|p| - 1], Coef(K, q, k))
  {
    CoefMulCons(K, p, q, |p| - 1 + k);
    if |p| == 1 {
      AddZero(K, K.mul(p[0], Coef(K, q, k)));
    } else {
      assert Coef(K, q, |p| - 1 + k) == K.zero;
      MulZero(K, p[0]);
      TopCoef(K, p[1..], q, k);
      AddZero(K, Coef(K, PMul(K, p[1..], q), |p| - 2 + k));
    }
  }

  lemma MonicMul<F(!new)>(K: Field<F>, p: seq<F>, q: seq<F>)
    requires IsField(K) && Monic(K, p) && Monic(K, q)
    ensures Monic(K, PMul(K, p, q))
  {
    TopCoef(K, p, q, |q| - 1);
    MulOne(K, K.one);
  }

  /** Products depend on the factors' coefficients only. */
  lemma {:induction false} PMulEq<F(!new)>(K: Field<F>, p: seq<F>, q: seq<F>, r: seq<F>, k: int)
    requires IsField(K) && PEq(K, p, q)
    ensures Coef(K, PMul(K, p, r), k) == Coef(K, PMul(K, q, r), k)
    decreases |p| + |q|
  {
    if p == [] && q == [] {
    } else {
      var p', q' := if p == [] then p else p[1..], if q == [] then q else q[1..];
      forall i: nat
        ensures Coef(K, p', i) == Coef(K, q', i)
      {
        assert Coef(K, p', i) == Coef(K, p, i + 1) && Coef(K, q', i) == Coef(K, q, i + 1);
      }
      PMulEq(K, p', q', r, k - 1);
      assert Coef(K, p, 0) == Coef(K, q, 0);
      MulZero(K, Coef(K, r, k));
      AddZero(K, K.zero);
      if p != [] { CoefMulCons(K, p, r, k); }
      if q != [] { CoefMulCons(K, q, r, k); }
    }
  }

  /** r = p + c * x^shift * q, coefficient by coefficient. */
  ghost predicate PlusMultiple<F>(K: Field<F>, r: seq<F>, p: seq<F>, c: F, q: seq<F>, shift: int) {
    forall i: nat :: PlusMultipleAt(K, r, p, c, q, shift, i)
  }

  ghost predicate PlusMultipleAt<F>(K: Field<F>, r: seq<F>, p: seq<F>, c: F, q: seq<F>, shift: int, i: nat) {
    Coef(K, r, i) == K.add(Coef(K, p, i), K.mul(c, Coef(K, q, i - shift)))
  }

  /** The in-place update p[i + shift] += c * q[i]; `unpadded` is p without the
      zeros that were appended to make room. */
  method AddMultiple<F(==,!new)>(K: Field<F>, p: seq<F>, c: F, q: seq<F>, shift: nat, ghost unpadded: seq<F>)
    returns (r: seq<F>)
    requires IsField(K) && |q| + shift <= |p| && PEq(K, p, unpadded)
    ensures |r| == |p| && PlusMultiple(K, r, unpadded, c, q, shift)
  {
    r := p;
    for i := 0 to |q|
      invariant |r| == |p|
      invariant forall k :: 0 <= k < |r| ==>
        r[k] == if shift <= k < shift + i then K.add(p[k], K.mul(c, q[k - shift])) else p[k]
    {
      r := r[i + shift := K.add(r[i + shift], K.mul(c, q[i]))];
    }
    forall i: nat
      ensures PlusMultipleAt(K, r, unpadded, c, q, shift, i)
    {
      assert Coef(K, p, i) == Coef(K, unpadded, i);
      MulZero(K, c);
      AddZero(K, Coef(K, p, i));
    }
  }

  lemma MonicQuotient<F(!new)>(K: Field<F>, p: seq<F>, q: seq<F>)
    requires IsField(K) && Monic(K, p) && Monic(K, PMul(K, p, q))
    ensures Monic(K, q)
  {
    TopCoef(K, p, q, |q| - 1);
    MulOne(K, q[|q| - 1]);
  }

  /** p with zeros appended up to length n. */
  function Pad<F>(K: Field<F>, p: seq<F>, n: nat): (r: seq<F>)
    requires |p| <= n
    ensures |r| == n && PEq(K, r, p)
  {
    p + seq(n - |p|, _ => K.zero)
  }

  // ---- evaluation is a ring homomorphism

  lemma {:induction false} EvalAdd<F(!new)>(K: Field<F>, p: seq<F>, q: seq<F>, x: F)
    requires IsField(K)
    ensures Eval(K, PAdd(K, p, q), x) == K.add(Eval(K, p, x), Eval(K, q, x))
    decreases |p| + |q|
  {
    if p == [] || q == [] {
      PAddEmpty(K, p);
      PAddEmpty(K, q);
      AddZero(K, Eval(K, p, x));
      AddZero(K, Eval(K, q, x));
    } else {
      var p', q' := p[1..], q[1..];
      PAddTail(K, p, q);
      CoefAdd(K, p, q, 0);
      EvalAdd(K, p', q', x);
      Distrib(K, x, Eval(K, p', x), Eval(K, q', x));
      AddSwap(K, p[0], q[0], K.mul(x, Eval(K, p', x)), K.mul(x, Eval(K, q', x)));
    }
  }

  lemma {:induction false} EvalScale<F(!new)>(K: Field<F>, c: F, p: seq<F>, x: F)
    requires IsField(K)
    ensures Eval(K, PScale(K, c, p), x) == K.mul(c, Eval(K, p, x))
  {
    MulZero(K, c);
    if p != [] {
      var e := Eval(K, p[1..], x);
      assert PScale(K, c, p)[1..] == PScale(K, c, p[1..]);
      EvalScale(K, c, p[1..], x);
      Distrib(K, c, p[0], K.mul(x, e));
      MulAssoc(K, x, c, e);
      MulComm(K, x, c);
      MulAssoc(K, c, x, e);
    }
  }

  lemma EvalShift<F(!new)>(K: Field<F>, p: seq<F>, x: F)
    requires IsField(K)
    ensures Eval(K, PShift(K, p), x) == K.mul(x, Eval(K, p, x))
  {
    MulZero(K, x);
    if p != [] {
      assert PShift(K, p)[1..] == p;
      AddZero(K, K.mul(x, Eval(K, p, x)));
    }
  }

  lemma {:induction false} EvalMul<F(!new)>(K: Field<F>, p: seq<F>, q: seq<F>, x: F)
    requires IsField(K)
    ensures Eval(K, PMul(K, p, q), x) == K.mul(Eval(K, p, x), Eval(K, q, x))
  {
    var eq := Eval(K, q, x);
    MulZero(K, eq);
    if p != [] {
      var e := Eval(K, p[1..], x);
      EvalMul(K, p[1..], q, x);
      EvalAdd(K, PScale(K, p[0], q), PShift(K, PMul(K, p[1..], q)), x);
      EvalScale(K, p[0], q, x);
      EvalShift(K, PMul(K, p[1..], q), x);
      MulAssoc(K, x, e, eq);
      Distrib(K, eq, p[0], K.mul(x, e));
    }
  }

  lemma {:induction false} EvalSnoc<F(!new)>(K: Field<F>, p: seq<F>, c: F, x: F)
    requires IsField(K)
    ensures Eval(K, p + [c], x) == K.add(Eval(K, p, x), K.mul(c, Pow(K, x, |p|)))
  {
    if p == [] {
      MulZero(K, x);
      AddZero(K, c);
      MulOne(K, c);
    } else {
      var p' := p[1..];
      var w := Pow(K, x, |p'|);
      assert (p + [c])[1..] == p' + [c];
      EvalSnoc(K, p', c, x);
      Distrib(K, x, Eval(K, p', x), K.mul(c, w));
      AddAssoc(K, p[0], K.mul(x, Eval(K, p', x)), K.mul(x, K.mul(c, w)));
      MulAssoc(K, x, c, w);
      MulComm(K, x, c);
      MulAssoc(K, c, x, w);
    }
  }

  lemma {:induction false} EvalEq<F(!new)>(K: Field<F>, p: seq<F>, q: seq<F>, x: F)
    requires IsField(K) && PEq(K, p, q)
    ensures Eval(K, p, x) == Eval(K, q, x)
    decreases |p| + |q|
  {
    if p == [] && q == [] {
    } else {
      var p', q' := if p == [] then p else p[1..], if q == [] then q else q[1..];
      forall i: nat
        ensures Coef(K, p', i) == Coef(K, q', i)
      {
        assert Coef(K, p', i) == Coef(K, p, i + 1) && Coef(K, q', i) == Coef(K, q, i + 1);
      }
      EvalEq(K, p', q', x);
      assert Coef(K, p, 0) == Coef(K, q, 0);
      MulZero(K, x);
      AddZero(K, K.zero);
    }
  }
}
