/** An abstract field of characteristic two, given by its operations.
    Everything above the word level (polynomials, Berlekamp-Massey, root
    finding) is proved for any such field; `Gf64` shows that the 64-bit
    multiplication of the repository is one. */
module FieldTheory {

  /** `bits` is the degree over the prime field: there are 2^bits elements, and
      each is a word of that many bits. `bit` reads one of them and `unit`
      is the word with just one bit set. */
  datatype Field<!F> = Field(zero: F, one: F, add: (F, F) -> F, mul: (F, F) -> F,
                             bits: nat, bit: (F, nat) -> bool, unit: nat -> F)

  /** The ring laws, with a + a = 0, at one triple of elements. */
  ghost predicate LawsAt<F(!new)>(K: Field<F>, a: F, b: F, c: F) {
    && K.add(a, b) == K.add(b, a)
    && K.add(K.add(a, b), c) == K.add(a, K.add(b, c))
    && K.add(a, K.zero) == a
    && K.add(a, a) == K.zero
    && K.mul(a, b) == K.mul(b, a)
    && K.mul(K.mul(a, b), c) == K.mul(a, K.mul(b, c))
    && K.mul(a, K.one) == a
    && K.mul(a, K.add(b, c)) == K.add(K.mul(a, b), K.mul(a, c))
  }

  ghost predicate IsRing<F(!new)>(K: Field<F>) {
    forall a, b, c :: LawsAt(K, a, b, c)
  }

  ghost predicate Invertible<F(!new)>(K: Field<F>, a: F) {
    exists d :: K.mul(a, d) == K.one
  }

  ghost predicate IsField<F(!new)>(K: Field<F>) {
    IsRing(K) && K.one != K.zero && forall a :: a != K.zero ==> Invertible(K, a)
  }

  /** The inverse of a nonzero element. */
  ghost function Inv<F(!new)>(K: Field<F>, a: F): (d: F)
    requires IsField(K)
    ensures a != K.zero ==> K.mul(a, d) == K.one
  {
    if a == K.zero then a else assert Invertible(K, a); var d :| K.mul(a, d) == K.one; d
  }

  lemma AddComm<F(!new)>(K: Field<F>, a: F, b: F)
    requires IsRing(K)
    ensures K.add(a, b) == K.add(b, a)
  {
    assert LawsAt(K, a, b, a);
  }

  lemma AddAssoc<F(!new)>(K: Field<F>, a: F, b: F, c: F)
    requires IsRing(K)
    ensures K.add(K.add(a, b), c) == K.add(a, K.add(b, c))
  {
    assert LawsAt(K, a, b, c);
  }

  lemma AddZero<F(!new)>(K: Field<F>, a: F)
    requires IsRing(K)
    ensures K.add(a, K.zero) == a && K.add(K.zero, a) == a && K.add(a, a) == K.zero
  {
    assert LawsAt(K, a, K.zero, a);
  }

  lemma MulComm<F(!new)>(K: Field<F>, a: F, b: F)
    requires IsRing(K)
    ensures K.mul(a, b) == K.mul(b, a)
  {
    assert LawsAt(K, a, b, a);
  }

  lemma MulAssoc<F(!new)>(K: Field<F>, a: F, b: F, c: F)
    requires IsRing(K)
    ensures K.mul(K.mul(a, b), c) == K.mul(a, K.mul(b, c))
  {
    assert LawsAt(K, a, b, c);
  }

  lemma MulOne<F(!new)>(K: Field<F>, a: F)
    requires IsRing(K)
    ensures K.mul(a, K.one) == a && K.mul(K.one, a) == a
  {
    assert LawsAt(K, a, K.one, a);
  }

  lemma Distrib<F(!new)>(K: Field<F>, a: F, b: F, c: F)
    requires IsRing(K)
    ensures K.mul(a, K.add(b, c)) == K.add(K.mul(a, b), K.mul(a, c))
    ensures K.mul(K.add(b, c), a) == K.add(K.mul(b, a), K.mul(c, a))
  {
    assert LawsAt(K, a, b, c);
    MulComm(K, a, b);
    MulComm(K, a, c);
    MulComm(K, a, K.add(b, c));
  }

  lemma MulInv<F(!new)>(K: Field<F>, a: F)
    requires IsField(K) && a != K.zero
    ensures K.mul(a, Inv(K, a)) == K.one && K.mul(Inv(K, a), a) == K.one
  {
    MulComm(K, a, Inv(K, a));
  }

  lemma MulZero<F(!new)>(K: Field<F>, a: F)
    requires IsRing(K)
    ensures K.mul(a, K.zero) == K.zero && K.mul(K.zero, a) == K.zero
  {
    AddZero(K, K.zero);
    Distrib(K, a, K.zero, K.zero);
    AddZero(K, K.mul(a, K.zero));
    MulComm(K, a, K.zero);
  }

  /** In characteristic two a summand can be moved across an equation. */
  lemma AddCancel<F(!new)>(K: Field<F>, a: F, b: F)
    requires IsRing(K)
    ensures K.add(K.add(a, b), b) == a
    ensures K.add(b, K.add(b, a)) == a
    ensures K.add(a, b) == K.zero <==> a == b
  {
    AddAssoc(K, a, b, b);
    AddAssoc(K, b, b, a);
    AddZero(K, a);
    AddZero(K, b);
  }

  lemma AddSwap<F(!new)>(K: Field<F>, a: F, b: F, c: F, d: F)
    requires IsRing(K)
    ensures K.add(K.add(a, b), K.add(c, d)) == K.add(K.add(a, c), K.add(b, d))
  {
    AddAssoc(K, a, b, K.add(c, d));
    AddAssoc(K, b, c, d);
    AddComm(K, b, c);
    AddAssoc(K, c, b, d);
    AddAssoc(K, a, c, K.add(b, d));
  }

  lemma NoZeroDivisors<F(!new)>(K: Field<F>, a: F, b: F)
    requires IsField(K)
    ensures K.mul(a, b) == K.zero <==> a == K.zero || b == K.zero
  {
    MulZero(K, a);
    MulZero(K, b);
    if a != K.zero && K.mul(a, b) == K.zero {
      MulInv(K, a);
      MulAssoc(K, Inv(K, a), a, b);
      MulOne(K, b);
      MulZero(K, Inv(K, a));
    }
  }

  function Sq<F>(K: Field<F>, a: F): F {
    K.mul(a, a)
  }

  /** Squaring is additive and multiplicative in characteristic two. */
  lemma Frobenius<F(!new)>(K: Field<F>, a: F, b: F)
    requires IsRing(K)
    ensures Sq(K, K.add(a, b)) == K.add(Sq(K, a), Sq(K, b))
    ensures Sq(K, K.mul(a, b)) == K.mul(Sq(K, a), Sq(K, b))
  {
    var s := K.add(a, b);
    Distrib(K, s, a, b);
    Distrib(K, a, a, b);
    Distrib(K, b, a, b);
    MulComm(K, a, b);
    var m := K.mul(a, b);
    AddComm(K, m, Sq(K, b));
    AddSwap(K, Sq(K, a), m, Sq(K, b), m);
    AddZero(K, m);
    AddZero(K, K.add(Sq(K, a), Sq(K, b)));
    MulAssoc(K, a, b, m);
    MulAssoc(K, b, a, b);
    MulAssoc(K, a, a, Sq(K, b));
    MulComm(K, b, a);
    MulAssoc(K, b, b, a);
    MulAssoc(K, a, b, b);
  }

  function Pow<F>(K: Field<F>, a: F, n: nat): F {
    if n == 0 then K.one else K.mul(a, Pow(K, a, n - 1))
  }

  lemma PowAdd<F(!new)>(K: Field<F>, a: F, m: nat, n: nat)
    requires IsRing(K)
    ensures Pow(K, a, m + n) == K.mul(Pow(K, a, m), Pow(K, a, n))
  {
    if m == 0 {
      MulOne(K, Pow(K, a, n));
    } else {
      PowAdd(K, a, m - 1, n);
      MulAssoc(K, a, Pow(K, a, m - 1), Pow(K, a, n));
    }
  }

  lemma PowDouble<F(!new)>(K: Field<F>, a: F, n: nat)
    requires IsRing(K)
    ensures Pow(K, a, 2 * n) == Sq(K, Pow(K, a, n)) == Pow(K, Sq(K, a), n)
  {
    PowAdd(K, a, n, n);
    if n == 0 {
      MulOne(K, K.one);
    } else {
      PowDouble(K, a, n - 1);
      PowAdd(K, a, n - 1, n - 1);
      Frobenius(K, a, Pow(K, a, n - 1));
    }
  }

  lemma PowNonzero<F(!new)>(K: Field<F>, a: F, n: nat)
    requires IsField(K) && a != K.zero
    ensures Pow(K, a, n) != K.zero
  {
    if n > 0 {
      PowNonzero(K, a, n - 1);
      NoZeroDivisors(K, a, Pow(K, a, n - 1));
    }
  }

  lemma InverseUnique<F(!new)>(K: Field<F>, a: F, b: F)
    requires IsField(K) && K.mul(a, b) == K.one
    ensures a != K.zero && b == Inv(K, a)
  {
    MulZero(K, b);
    MulAssoc(K, Inv(K, a), a, b);
    MulInv(K, a);
    MulOne(K, b);
    MulOne(K, Inv(K, a));
  }

  // ---- repeated squaring

  /** a^(2^n). */
  function Frob<F>(K: Field<F>, a: F, n: nat): F {
    if n == 0 then a else Sq(K, Frob(K, a, n - 1))
  }

  lemma {:induction false} FrobHom<F(!new)>(K: Field<F>, a: F, b: F, n: nat)
    requires IsRing(K)
    ensures Frob(K, K.add(a, b), n) == K.add(Frob(K, a, n), Frob(K, b, n))
    ensures Frob(K, K.mul(a, b), n) == K.mul(Frob(K, a, n), Frob(K, b, n))
  {
    if n > 0 {
      FrobHom(K, a, b, n - 1);
      Frobenius(K, Frob(K, a, n - 1), Frob(K, b, n - 1));
    }
  }

  ghost predicate FixedAt<F(!new)>(K: Field<F>, a: F) {
    Frob(K, a, K.bits) == a
  }

  /** A field in which every element is its own 2^bits-th power. */
  ghost predicate IsBinaryField<F(!new)>(K: Field<F>) {
    IsField(K) && K.bits >= 2 && forall a :: FixedAt(K, a)
  }

  /** Row i of a table of repeated squares. */
  ghost predicate SquareRow<F(!new)>(K: Field<F>, t: nat -> F, i: nat) {
    t(i + 1) == Sq(K, t(i))
  }

  lemma {:induction false} SquareTable<F(!new)>(K: Field<F>, t: nat -> F, n: nat)
    requires forall i: nat :: i < n ==> SquareRow(K, t, i)
    ensures Frob(K, t(0), n) == t(n)
  {
    if n > 0 {
      SquareTable(K, t, n - 1);
      assert SquareRow(K, t, n - 1);
    }
  }

  lemma FixedFromTable<F(!new)>(K: Field<F>, t: nat -> F)
    requires t(K.bits) == t(0) && forall i: nat :: i < K.bits ==> SquareRow(K, t, i)
    ensures FixedAt(K, t(0))
  {
    SquareTable(K, t, K.bits);
  }

  function Exp2(n: nat): (r: nat)
    ensures r >= 1
  {
    if n == 0 then 1 else 2 * Exp2(n - 1)
  }

  lemma {:induction false} Exp2Order(a: nat, b: nat)
    ensures Exp2(a) <= Exp2(b) <==> a <= b
    decreases a + b
  {
    if a > 0 && b > 0 {
      Exp2Order(a - 1, b - 1);
    }
  }

  lemma {:induction false} Exp2Add(a: nat, b: nat)
    ensures Exp2(a + b) == Exp2(a) * Exp2(b)
    decreases a
  {
    if a > 0 {
      Exp2Add(a - 1, b);
      assert 2 * (Exp2(a - 1) * Exp2(b)) == (2 * Exp2(a - 1)) * Exp2(b);
    }
  }

  lemma {:induction false} PowExp2<F(!new)>(K: Field<F>, a: F, n: nat)
    requires IsRing(K)
    ensures Pow(K, a, Exp2(n)) == Frob(K, a, n) && Exp2(n) >= 1
  {
    if n == 0 {
      assert Pow(K, a, 1) == K.mul(a, Pow(K, a, 0));
      MulOne(K, a);
    } else {
      PowExp2(K, a, n - 1);
      PowDouble(K, a, Exp2(n - 1));
    }
  }

  ghost predicate NoIdempotentAt<F(!new)>(K: Field<F>, e: F) {
    K.mul(e, e) == e ==> e == K.zero || e == K.one
  }

  /** A ring without idempotents other than 0 and 1, in which every element is
      its own 2^bits-th power, is a field. */
  lemma FieldFromIdempotents<F(!new)>(K: Field<F>)
    requires IsRing(K) && K.one != K.zero && K.bits >= 2
    requires forall a :: FixedAt(K, a)
    requires forall e :: NoIdempotentAt(K, e)
    ensures IsBinaryField(K)
  {
    forall a | a != K.zero
      ensures Invertible(K, a)
    {
      var q := Exp2(K.bits);
      assert FixedAt(K, a);
      PowExp2(K, a, K.bits);
      PowExp2(K, a, K.bits - 1);
      assert q == 2 * Exp2(K.bits - 1);
      var c, e := Pow(K, a, q - 2), Pow(K, a, q - 1);
      // e a = a, so e e = c a e = c a = e
      MulComm(K, a, c);
      MulAssoc(K, c, a, e);
      assert K.mul(e, e) == e && NoIdempotentAt(K, e);
      MulZero(K, a);
      assert K.mul(a, c) == K.one;
    }
  }

  /** Fermat: raising to 2^bits - 2 inverts a nonzero element. */
  lemma Fermat<F(!new)>(K: Field<F>, a: F)
    requires IsBinaryField(K) && a != K.zero
    ensures Exp2(K.bits) >= 2 && K.mul(a, Pow(K, a, Exp2(K.bits) - 2)) == K.one
    ensures Pow(K, a, Exp2(K.bits) - 2) == Inv(K, a)
  {
    var q := Exp2(K.bits);
    assert FixedAt(K, a);
    PowExp2(K, a, K.bits);
    assert q == 2 * Exp2(K.bits - 1);
    PowExp2(K, a, K.bits - 1);
    var r := Pow(K, a, q - 1);
    assert r == K.mul(a, Pow(K, a, q - 2)) && K.mul(a, r) == a;
    // a r = a, so r = 1
    MulAssoc(K, Inv(K, a), a, r);
    MulInv(K, a);
    MulOne(K, r);
    InverseUnique(K, a, Pow(K, a, q - 2));
  }

  /** Square and multiply over the exponent 2^bits - 2, whose binary digits
      are all ones but the last; zero has no inverse. */
  method FieldInv<F(==,!new)>(K: Field<F>, value: F) returns (ok: bool, result: F)
    requires IsBinaryField(K)
    ensures ok <==> value != K.zero
    ensures ok ==> result == Inv(K, value)
  {
    if value == K.zero {
      return false, K.zero;
    }
    result := K.one;
    var bit: int := K.bits - 1;
    while bit >= 0
      invariant -1 <= bit < K.bits
      invariant bit >= 0 ==> Exp2(K.bits - 1 - bit) >= 1 && result == Pow(K, value, Exp2(K.bits - 1 - bit) - 1)
      invariant bit < 0 ==> result == Inv(K, value)
    {
      ghost var e := Exp2(K.bits - 1 - bit) - 1;
      PowDouble(K, value, e);
      result := K.mul(result, result);
      if bit > 0 {
        MulComm(K, result, value);
        result := K.mul(result, value);
      } else {
        Fermat(K, value);
        assert Exp2(K.bits) == 2 * Exp2(K.bits - 1);
      }
      bit := bit - 1;
    }
    ok := true;
  }

  // ---- the trace

  /** a + a^2 + a^4 + ... + a^(2^n), by the recurrence the decoder uses. */
  function TraceTo<F>(K: Field<F>, a: F, n: nat): F {
    if n == 0 then a else K.add(Sq(K, TraceTo(K, a, n - 1)), a)
  }

  /** Zero or one, for every element of a binary field. */
  function Trace<F>(K: Field<F>, a: F): F
    requires K.bits >= 1
  {
    TraceTo(K, a, K.bits - 1)
  }

  ghost predicate HasTraceOne<F(!new)>(K: Field<F>, w: F) {
    K.bits >= 1 && Trace(K, w) == K.one
  }

  /** Row i of a table of partial traces of w. */
  ghost predicate TraceRow<F(!new)>(K: Field<F>, w: F, t: nat -> F, i: nat) {
    t(i + 1) == K.add(Sq(K, t(i)), w)
  }

  lemma {:induction false} TraceTable<F(!new)>(K: Field<F>, w: F, t: nat -> F, n: nat)
    requires t(0) == w && forall i: nat :: i < n ==> TraceRow(K, w, t, i)
    ensures TraceTo(K, w, n) == t(n)
  {
    if n > 0 {
      TraceTable(K, w, t, n - 1);
      assert TraceRow(K, w, t, n - 1);
    }
  }

  lemma TraceOneFromTable<F(!new)>(K: Field<F>, w: F, t: nat -> F)
    requires K.bits >= 1 && t(0) == w && t(K.bits - 1) == K.one
    requires forall i: nat :: i < K.bits - 1 ==> TraceRow(K, w, t, i)
    ensures HasTraceOne(K, w)
  {
    TraceTable(K, w, t, K.bits - 1);
  }

  lemma {:induction false} TraceToAdd<F(!new)>(K: Field<F>, a: F, b: F, n: nat)
    requires IsRing(K)
    ensures TraceTo(K, K.add(a, b), n) == K.add(TraceTo(K, a, n), TraceTo(K, b, n))
  {
    if n > 0 {
      TraceToAdd(K, a, b, n - 1);
      var s, t := TraceTo(K, a, n - 1), TraceTo(K, b, n - 1);
      Frobenius(K, s, t);
      AddSwap(K, Sq(K, s), Sq(K, t), a, b);
    }
  }

  /** The trace telescopes: its square differs from it by a + a^(2^(n+1)). */
  lemma {:induction false} TraceTelescopes<F(!new)>(K: Field<F>, a: F, n: nat)
    requires IsRing(K)
    ensures K.add(Sq(K, TraceTo(K, a, n)), TraceTo(K, a, n)) == K.add(a, Frob(K, a, n + 1))
  {
    if n == 0 {
      AddComm(K, Sq(K, a), a);
      assert Frob(K, a, 1) == Sq(K, Frob(K, a, 0));
    } else {
      var t, f := TraceTo(K, a, n - 1), Frob(K, a, n);
      var u := TraceTo(K, a, n);
      TraceTelescopes(K, a, n - 1);
      // u = t^2 + a, so u^2 + u = (t^2 + t)^2 + a^2 + a = (a + f)^2 + a^2 + a
      var t2, t4, a2 := Sq(K, t), Sq(K, Sq(K, t)), Sq(K, a);
      Frobenius(K, t2, a);
      Frobenius(K, t2, t);
      Frobenius(K, a, f);
      AddSwap(K, t4, a2, t2, a);
      assert K.add(t4, t2) == K.add(a2, Sq(K, f));
      AddSwap(K, a2, Sq(K, f), a2, a);
      AddZero(K, a2);
      AddZero(K, K.add(Sq(K, f), a));
      AddComm(K, Sq(K, f), a);
    }
  }

  lemma TraceIsBit<F(!new)>(K: Field<F>, a: F)
    requires IsBinaryField(K)
    ensures Trace(K, a) == K.zero || Trace(K, a) == K.one
  {
    var t := Trace(K, a);
    assert FixedAt(K, a);
    TraceTelescopes(K, a, K.bits - 1);
    AddZero(K, a);
    AddCancel(K, Sq(K, t), t);
    // t^2 = t
    MulOne(K, t);
    Distrib(K, t, t, K.one);
    NoZeroDivisors(K, t, K.add(t, K.one));
    AddZero(K, t);
    AddCancel(K, t, K.one);
  }

  // ---- elements as words

  ghost predicate BitsAt<F(!new)>(K: Field<F>, a: F, b: F, i: nat) {
    && K.bit(K.add(a, b), i) == (K.bit(a, i) != K.bit(b, i))
    && (i < K.bits ==> forall k: nat :: k < K.bits ==> K.bit(K.unit(i), k) == (k == i))
  }

  ghost predicate SameBits<F(!new)>(K: Field<F>, a: F, b: F) {
    forall i: nat :: i < K.bits ==> K.bit(a, i) == K.bit(b, i)
  }

  /** A binary field whose elements are words: addition is bitwise exclusive or,
      the bits determine the word, and some element has trace one. */
  ghost predicate IsWordField<F(!new)>(K: Field<F>) {
    && IsBinaryField(K)
    && (forall a, b, i :: BitsAt(K, a, b, i))
    && (forall a, b :: SameBits(K, a, b) ==> a == b)
    && (exists w :: HasTraceOne(K, w))
  }
}
