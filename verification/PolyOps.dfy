/** The polynomial arithmetic of the decoder: trimming, monic normalization,
    squaring, remainder, exact quotient and greatest common divisor. */
module PolyOps {
  import opened FieldTheory
  import opened Polynomials

  ghost predicate Divides<F(!new)>(K: Field<F>, f: seq<F>, p: seq<F>) {
    exists q :: PEq(K, p, PMul(K, f, q))
  }

  /** value = Q * modulus + rem, coefficient by coefficient. */
  ghost predicate DividesWith<F>(K: Field<F>, value: seq<F>, Q: seq<F>, modulus: seq<F>, rem: seq<F>) {
    PEq(K, value, PAdd(K, PMul(K, Q, modulus), rem))
  }

  ghost predicate Root<F>(K: Field<F>, p: seq<F>, a: F) {
    Eval(K, p, a) == K.zero
  }

  method Trim<F(==,!new)>(K: Field<F>, p: seq<F>) returns (r: seq<F>)
    ensures PEq(K, r, p) && Trimmed(K, r) && |r| <= |p| && (Trimmed(K, p) ==> r == p)
  {
    r := p;
    while |r| > 0 && r[|r| - 1] == K.zero
      invariant |r| <= |p| && r == p[..|r|]
      invariant forall i :: |r| <= i < |p| ==> p[i] == K.zero
      invariant Trimmed(K, p) ==> r == p
    {
      r := r[..|r| - 1];
    }
  }

  /** Scales to leading coefficient one; fails exactly without a leading coefficient to invert. */
  method MakeMonic<F(==,!new)>(K: Field<F>, p: seq<F>) returns (ok: bool, r: seq<F>)
    requires IsBinaryField(K)
    ensures ok <==> p != [] && p[|p| - 1] != K.zero
    ensures ok ==> Monic(K, r) && |r| == |p| && r == PScale(K, Inv(K, p[|p| - 1]), p)
  {
    if p == [] {
      return false, p;
    }
    var leading := p[|p| - 1];
    MulOne(K, leading);
    if leading == K.one {
      InverseUnique(K, K.one, K.one);
      assert forall i :: 0 <= i < |p| ==> PScale(K, K.one, p)[i] == p[i] by {
        forall i | 0 <= i < |p| ensures K.mul(K.one, p[i]) == p[i] { MulOne(K, p[i]); }
      }
      return true, p;
    }
    var invertible, inverse := FieldInv(K, leading);
    if !invertible {
      return false, p;
    }
    r := p;
    for i := 0 to |r|
      invariant |r| == |p|
      invariant forall k :: 0 <= k < |p| ==> r[k] == if k < i then K.mul(inverse, p[k]) else p[k]
    {
      MulComm(K, r[i], inverse);
      r := r[i := K.mul(r[i], inverse)];
    }
    MulInv(K, leading);
    ok := true;
  }

  // ---- division

  /** The loop invariant of long division: Q holds the quotient coefficients from position j on. */
  ghost predicate Partial<F>(K: Field<F>, value: seq<F>, Q: seq<F>, modulus: seq<F>, cur: seq<F>, j: int) {
    forall k: nat :: PartialAt(K, value, Q, modulus, cur, j, k)
  }

  ghost predicate PartialAt<F>(K: Field<F>, value: seq<F>, Q: seq<F>, modulus: seq<F>, cur: seq<F>, j: int, k: nat) {
    Coef(K, value, k) == K.add(Coef(K, PMul(K, Q, modulus), k - j), Coef(K, cur, k))
  }

  /** The leading term popped and its multiple of the modulus subtracted. */
  ghost predicate Popped<F>(K: Field<F>, cur: seq<F>, term: F, modulus: seq<F>, r: seq<F>, offset: int) {
    forall k: nat :: PoppedAt(K, cur, term, modulus, r, offset, k)
  }

  ghost predicate PoppedAt<F>(K: Field<F>, cur: seq<F>, term: F, modulus: seq<F>, r: seq<F>, offset: int, k: nat) {
    Coef(K, cur, k) == K.add(Coef(K, PScale(K, term, modulus), k - offset), Coef(K, r, k))
  }

  lemma PartialStep<F(!new)>(K: Field<F>, value: seq<F>, Q: seq<F>, modulus: seq<F>, cur: seq<F>, j: int, term: F,
      r: seq<F>)
    requires IsField(K) && Partial(K, value, Q, modulus, cur, j)
    requires Popped(K, cur, term, modulus, r, j - 1)
    ensures Partial(K, value, [term] + Q, modulus, r, j - 1)
  {
    var Q', j' := [term] + Q, j - 1;
    assert Q'[1..] == Q;
    forall k: nat
      ensures PartialAt(K, value, Q', modulus, r, j', k)
    {
      assert PartialAt(K, value, Q, modulus, cur, j, k) && PoppedAt(K, cur, term, modulus, r, j - 1, k);
      var q, s, c := Coef(K, PMul(K, Q, modulus), k - j), Coef(K, PScale(K, term, modulus), k - (j - 1)), Coef(K, r, k);
      CoefMulCons(K, [term] + Q, modulus, k - (j - 1));
      CoefScale(K, term, modulus, k - (j - 1));
      assert Coef(K, value, k) == K.add(q, K.add(s, c));
      AddAssoc(K, q, s, c);
      AddComm(K, q, s);
    }
  }

  /** One step of long division. */
  method DivisionStep<F(==,!new)>(K: Field<F>, value: seq<F>, modulus: seq<F>, ghost whole: seq<F>, ghost Q: seq<F>)
    returns (term: F, r: seq<F>)
    requires IsField(K) && Monic(K, modulus) && |value| >= |modulus|
    requires Partial(K, whole, Q, modulus, value, |value| - |modulus| + 1)
    ensures |r| == |value| - 1
    ensures Partial(K, whole, [term] + Q, modulus, r, |r| - |modulus| + 1)
  {
    term := value[|value| - 1];
    var popped := value[..|value| - 1];
    var offset := |popped| - (|modulus| - 1);
    r := popped;
    var low := modulus[..|modulus| - 1];
    if term != K.zero {
      r := AddMultiple(K, popped, term, low, offset, popped);
    }
    PopCorrect(K, value, modulus, r);
    PartialStep(K, whole, Q, modulus, value, offset + 1, term, r);
  }

  lemma PopCorrect<F(!new)>(K: Field<F>, value: seq<F>, modulus: seq<F>, r: seq<F>)
    requires IsField(K) && Monic(K, modulus) && |value| >= |modulus| && |r| == |value| - 1
    requires var n, m := |value| - 1, |modulus| - 1;
      || (value[n] == K.zero && r == value[..n])
      || PlusMultiple(K, r, value[..n], value[n], modulus[..m], n - m)
    ensures Popped(K, value, value[|value| - 1], modulus, r, |value| - |modulus|)
  {
    var n, offset := |value| - 1, |value| - |modulus|;
    var term, popped, low := value[n], value[..n], modulus[..|modulus| - 1];
    forall k: nat
      ensures PoppedAt(K, value, term, modulus, r, offset, k)
    {
      assert r == popped || PlusMultipleAt(K, r, popped, term, low, offset, k);
      var t := K.mul(term, Coef(K, low, k - offset));
      MulZero(K, Coef(K, low, k - offset));
      AddZero(K, Coef(K, popped, k));
      assert Coef(K, r, k) == K.add(Coef(K, popped, k), t);
      CoefScale(K, term, modulus, k - offset);
      MulOne(K, term);
      AddZero(K, term);
      AddComm(K, t, Coef(K, popped, k));
      AddComm(K, t, Coef(K, r, k));
      AddCancel(K, Coef(K, popped, k), t);
      MulZero(K, term);
      AddZero(K, K.zero);
    }
  }

  lemma PartialStart<F(!new)>(K: Field<F>, value: seq<F>, modulus: seq<F>, j: int)
    requires IsField(K)
    ensures Partial(K, value, [], modulus, value, j)
  {
    forall k: nat
      ensures PartialAt(K, value, [], modulus, value, j, k)
    {
      AddZero(K, Coef(K, value, k));
    }
  }

  lemma PartialEnd<F(!new)>(K: Field<F>, value: seq<F>, Q: seq<F>, modulus: seq<F>, cur: seq<F>, rem: seq<F>, j: int)
    requires IsField(K) && Partial(K, value, Q, modulus, cur, j) && (j == 0 || Q == []) && PEq(K, cur, rem)
    ensures DividesWith(K, value, Q, modulus, rem)
  {
    forall k: nat
      ensures Coef(K, value, k) == Coef(K, PAdd(K, PMul(K, Q, modulus), rem), k)
    {
      assert PartialAt(K, value, Q, modulus, cur, j, k);
      CoefAdd(K, PMul(K, Q, modulus), rem, k);
    }
  }

  lemma QuotientEnd<F(!new)>(K: Field<F>, value: seq<F>, Q: seq<F>, Q': seq<F>, modulus: seq<F>, rem: seq<F>)
    requires IsField(K) && Partial(K, value, Q, modulus, rem, 0) && PEq(K, Q', Q)
    ensures DividesWith(K, value, Q', modulus, rem)
  {
    forall k: nat
      ensures Coef(K, value, k) == Coef(K, PAdd(K, PMul(K, Q', modulus), rem), k)
    {
      assert PartialAt(K, value, Q, modulus, rem, 0, k);
      CoefAdd(K, PMul(K, Q', modulus), rem, k);
      PMulEq(K, Q', Q, modulus, k);
    }
  }

  /** The remainder by a monic modulus; anything else is refused. */
  method PolyMod<F(==,!new)>(K: Field<F>, modulus: seq<F>, value: seq<F>) returns (ok: bool, rem: seq<F>)
    requires IsField(K)
    ensures ok <==> Monic(K, modulus)
    ensures ok ==> |rem| < |modulus| && Trimmed(K, rem) && exists Q :: DividesWith(K, value, Q, modulus, rem)
  {
    if |modulus| == 0 || modulus[|modulus| - 1] != K.one {
      return false, value;
    }
    rem := value;
    ghost var Q: seq<F> := [];
    PartialStart(K, value, modulus, |rem| - |modulus| + 1);
    while |rem| >= |modulus|
      invariant Partial(K, value, Q, modulus, rem, |rem| - |modulus| + 1)
      invariant |rem| >= |modulus| - 1 || Q == []
      decreases |rem|
    {
      var term, r := DivisionStep(K, rem, modulus, value, Q);
      Q := [term] + Q;
      rem := r;
    }
    ghost var cur := rem;
    rem := Trim(K, rem);
    PartialEnd(K, value, Q, modulus, cur, rem, |cur| - |modulus| + 1);
    ok := true;
  }

  /** The quotient by a monic divisor that is no longer than the dividend. */
  method PolyDiv<F(==,!new)>(K: Field<F>, dividend: seq<F>, divisor: seq<F>) returns (ok: bool, quotient: seq<F>)
    requires IsField(K)
    ensures ok <==> Monic(K, divisor) && |dividend| >= |divisor|
    ensures ok ==> Trimmed(K, quotient) && |quotient| <= |dividend| - |divisor| + 1
    ensures ok ==> exists rem :: |rem| < |divisor| && DividesWith(K, dividend, quotient, divisor, rem)
  {
    if |divisor| == 0 || divisor[|divisor| - 1] != K.one || |dividend| < |divisor| {
      return false, [];
    }
    quotient := seq(|dividend| - |divisor| + 1, _ => K.zero);
    var rest := dividend;
    ghost var Q: seq<F> := [];
    PartialStart(K, dividend, divisor, |quotient|);
    while |rest| >= |divisor|
      invariant |quotient| == |dividend| - |divisor| + 1 && |divisor| - 1 <= |rest| <= |dividend|
      invariant quotient[|rest| - |divisor| + 1..] == Q
      invariant Partial(K, dividend, Q, divisor, rest, |rest| - |divisor| + 1)
      decreases |rest|
    {
      var position := |rest| - |divisor|;
      var term, r := DivisionStep(K, rest, divisor, dividend, Q);
      quotient := quotient[position := term];
      Q := [term] + Q;
      rest := r;
    }
    assert quotient == Q;
    quotient := Trim(K, quotient);
    QuotientEnd(K, dividend, Q, quotient, divisor, rest);
    ok := true;
  }
}
