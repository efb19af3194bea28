/** Roots of polynomials: products of linear factors, the bound on the number
    of roots, and the Vandermonde argument behind sketch decoding. */
module Roots {
  import opened FieldTheory
  import opened Lists
  import opened Polynomials

  /** x + a, whose root is a in characteristic two. */
  function Linear<F>(K: Field<F>, a: F): seq<F> { [a, K.one] }

  function Prod<F>(K: Field<F>, A: seq<F>): (r: seq<F>)
    ensures |r| == |A| + 1
  {
    if A == [] then [K.one] else PMul(K, Prod(K, A[..|A| - 1]), Linear(K, A[|A| - 1]))
  }

  lemma EvalLinear<F(!new)>(K: Field<F>, a: F, x: F)
    requires IsField(K)
    ensures Eval(K, Linear(K, a), x) == K.add(a, x)
  {
    assert Linear(K, a)[1..] == [K.one];
    MulZero(K, x);
    AddZero(K, K.one);
    MulOne(K, x);
    assert Eval(K, [K.one], x) == K.one;
  }

  lemma ProdMonic<F(!new)>(K: Field<F>, A: seq<F>)
    requires IsField(K)
    ensures Monic(K, Prod(K, A))
  {
    if A != [] {
      ProdMonic(K, A[..|A| - 1]);
      MonicMul(K, Prod(K, A[..|A| - 1]), Linear(K, A[|A| - 1]));
    }
  }

  lemma {:induction false} EvalProd<F(!new)>(K: Field<F>, A: seq<F>, x: F)
    requires IsField(K)
    ensures Eval(K, Prod(K, A), x) == K.zero <==> x in A
  {
    if A == [] {
      MulZero(K, x);
      AddZero(K, K.one);
    } else {
      var A', a := A[..|A| - 1], A[|A| - 1];
      assert A == A' + [a];
      EvalProd(K, A', x);
      EvalMul(K, Prod(K, A'), Linear(K, a), x);
      EvalLinear(K, a, x);
      AddCancel(K, a, x);
      NoZeroDivisors(K, Eval(K, Prod(K, A'), x), K.add(a, x));
    }
  }

  lemma {:induction false} ProdAppend<F(!new)>(K: Field<F>, A: seq<F>, B: seq<F>)
    requires IsField(K)
    ensures Prod(K, A + B) == PMul(K, Prod(K, A), Prod(K, B))
  {
    if B == [] {
      assert A + B == A;
      PMulOne(K, Prod(K, A));
    } else {
      var B', b := B[..|B| - 1], B[|B| - 1];
      assert (A + B)[..|A + B| - 1] == A + B';
      ProdAppend(K, A, B');
      PMulAssoc(K, Prod(K, A), Prod(K, B'), Linear(K, b));
    }
  }

  lemma SameProductSameMultiset<F(!new)>(K: Field<F>, A: seq<F>, roots: seq<F>)
    requires IsField(K) && Distinct(A) && Prod(K, A) == Prod(K, roots)
    ensures multiset(A) == multiset(roots)
  {
    forall a | a in A
      ensures a in roots
    {
      EvalProd(K, A, a);
      EvalProd(K, roots, a);
    }
    SameMembersSameMultiset(A, roots);
  }

  /** The quotient by a linear factor, by synthetic division. */
  ghost function Quotient<F>(K: Field<F>, f: seq<F>, a: F): (g: seq<F>)
    requires f != []
    ensures |g| == |f| - 1
  {
    seq(|f| - 1, k requires 0 <= k < |f| - 1 => Eval(K, f[k + 1..], a))
  }

  lemma QuotientAt<F(!new)>(K: Field<F>, f: seq<F>, a: F, i: nat)
    requires IsField(K) && i < |f|
    ensures Eval(K, f[i..], a) == K.add(f[i], K.mul(a, Coef(K, Quotient(K, f, a), i)))
  {
    assert f[i..][1..] == f[i + 1..];
    if i == |f| - 1 {
      assert f[i + 1..] == [];
    }
  }

  /** Synthetic division: a root of f splits off a linear factor. */
  lemma FactorTheorem<F(!new)>(K: Field<F>, f: seq<F>, a: F) returns (g: seq<F>)
    requires IsField(K) && Monic(K, f) && Eval(K, f, a) == K.zero
    ensures f == PMul(K, Linear(K, a), g) && Monic(K, g) && |g| == |f| - 1
  {
    MulZero(K, a);
    AddZero(K, K.one);
    if |f| == 1 {
      assert false;
    }
    g := Quotient(K, f, a);
    assert f[|f| - 1..] == [K.one];
    assert g[|f| - 2] == Eval(K, [K.one], a) == K.one;
    var p := PMul(K, Linear(K, a), g);
    forall i | 0 <= i < |f|
      ensures p[i] == f[i]
    {
      FactorAt(K, f, a, i);
    }
  }

  lemma FactorAt<F(!new)>(K: Field<F>, f: seq<F>, a: F, i: nat)
    requires IsField(K) && Eval(K, f, a) == K.zero && i < |f|
    ensures Coef(K, PMul(K, Linear(K, a), Quotient(K, f, a)), i) == f[i]
  {
    var g := Quotient(K, f, a);
    var ag := K.mul(a, Coef(K, g, i));
    assert Linear(K, a)[1..] == [K.one];
    PMulOne(K, g);
    CoefAdd(K, PScale(K, a, g), PShift(K, g), i);
    CoefScale(K, a, g, i);
    QuotientAt(K, f, a, i);
    AddCancel(K, f[i], ag);
    AddComm(K, f[i], ag);
    if i == 0 {
      assert f[0..] == f;
      AddZero(K, ag);
    } else {
      AddCancel(K, ag, f[i]);
      assert Coef(K, PShift(K, g), i) == g[i - 1] == Eval(K, f[i..], a);
    }
  }

  /** A monic polynomial has at most as many roots as its degree, and with
      that many it is the product of their linear factors. */
  lemma {:induction false} RootsBound<F(!new)>(K: Field<F>, f: seq<F>, B: seq<F>)
    requires IsField(K) && Monic(K, f) && Distinct(B)
    requires forall b :: b in B ==> Eval(K, f, b) == K.zero
    ensures |B| <= |f| - 1
    ensures |B| == |f| - 1 ==> f == Prod(K, B)
    decreases |B|
  {
    if B == [] {
    } else {
      var B', b := B[..|B| - 1], B[|B| - 1];
      var g := FactorTheorem(K, f, b);
      forall c | c in B'
        ensures Eval(K, g, c) == K.zero
      {
        EvalMul(K, Linear(K, b), g, c);
        EvalLinear(K, b, c);
        AddCancel(K, b, c);
        NoZeroDivisors(K, K.add(b, c), Eval(K, g, c));
      }
      RootsBound(K, g, B');
      PMulComm(K, Linear(K, b), g);
    }
  }

  /** The members of A that are roots of f. */
  ghost function RootsIn<F(!new)>(K: Field<F>, f: seq<F>, A: seq<F>): (B: seq<F>)
    ensures forall a :: a in B <==> a in A && Eval(K, f, a) == K.zero
    ensures Distinct(A) ==> Distinct(B)
  {
    if A == [] then []
    else
      var B' := RootsIn(K, f, A[..|A| - 1]);
      assert A == A[..|A| - 1] + [A[|A| - 1]];
      if Eval(K, f, A[|A| - 1]) == K.zero then B' + [A[|A| - 1]] else B'
  }

  lemma {:induction false} RootsCover<F(!new)>(K: Field<F>, f: seq<F>, g: seq<F>, A: seq<F>)
    requires forall a :: a in A ==> Eval(K, f, a) == K.zero || Eval(K, g, a) == K.zero
    ensures |A| <= |RootsIn(K, f, A)| + |RootsIn(K, g, A)|
  {
    if A != [] {
      RootsCover(K, f, g, A[..|A| - 1]);
    }
  }

  /** A monic divisor of a product of distinct linear factors is itself the
      product of the linear factors of its roots. */
  lemma DivisorOfSplit<F(!new)>(K: Field<F>, f: seq<F>, g: seq<F>, A: seq<F>)
    requires IsField(K) && Monic(K, f) && Distinct(A) && PMul(K, f, g) == Prod(K, A)
    ensures f == Prod(K, RootsIn(K, f, A)) && Monic(K, g)
  {
    ProdMonic(K, A);
    MonicQuotient(K, f, g);
    forall a | a in A
      ensures Eval(K, f, a) == K.zero || Eval(K, g, a) == K.zero
    {
      EvalProd(K, A, a);
      EvalMul(K, f, g, a);
      NoZeroDivisors(K, Eval(K, f, a), Eval(K, g, a));
    }
    RootsCover(K, f, g, A);
    RootsBound(K, f, RootsIn(K, f, A));
    RootsBound(K, g, RootsIn(K, g, A));
  }

  // ---- weighted power sums

  /** The sum of w * a^j * Q(a) over the points a and their weights w. */
  ghost function WSum<F>(K: Field<F>, A: seq<F>, W: seq<F>, j: nat, Q: seq<F>): F
    requires |A| == |W|
  {
    if A == [] then K.zero
    else
      var n := |A| - 1;
      K.add(WSum(K, A[..n], W[..n], j, Q), K.mul(K.mul(W[n], Pow(K, A[n], j)), Eval(K, Q, A[n])))
  }

  /** The j-th weighted power sum. */
  ghost function Moment<F>(K: Field<F>, A: seq<F>, W: seq<F>, j: nat): F
    requires |A| == |W|
  {
    if A == [] then K.zero
    else
      var n := |A| - 1;
      K.add(Moment(K, A[..n], W[..n], j), K.mul(W[n], Pow(K, A[n], j)))
  }

  lemma {:induction false} WSumCons<F(!new)>(K: Field<F>, A: seq<F>, W: seq<F>, j: nat, Q: seq<F>)
    requires IsField(K) && |A| == |W| && Q != []
    ensures WSum(K, A, W, j, Q) == K.add(K.mul(Q[0], Moment(K, A, W, j)), WSum(K, A, W, j + 1, Q[1..]))
  {
    if A == [] {
      MulZero(K, Q[0]);
      AddZero(K, K.zero);
    } else {
      var n := |A| - 1;
      var a, w := A[n], W[n];
      var M, R := Moment(K, A[..n], W[..n], j), WSum(K, A[..n], W[..n], j + 1, Q[1..]);
      var t, e := K.mul(w, Pow(K, a, j)), Eval(K, Q[1..], a);
      WSumCons(K, A[..n], W[..n], j, Q);
      // w a^j (q0 + a e) = q0 (w a^j) + (w a^(j+1)) e
      Distrib(K, t, Q[0], K.mul(a, e));
      MulComm(K, t, Q[0]);
      MulAssoc(K, t, a, e);
      MulAssoc(K, w, Pow(K, a, j), a);
      MulComm(K, Pow(K, a, j), a);
      Distrib(K, Q[0], M, t);
      AddSwap(K, K.mul(Q[0], M), R, K.mul(Q[0], t), K.mul(K.mul(w, Pow(K, a, j + 1)), e));
    }
  }

  lemma {:induction false} WSumZero<F(!new)>(K: Field<F>, A: seq<F>, W: seq<F>, j: nat, Q: seq<F>)
    requires IsField(K) && |A| == |W|
    requires forall m :: j <= m < j + |Q| ==> Moment(K, A, W, m) == K.zero
    ensures WSum(K, A, W, j, Q) == K.zero
    decreases |Q|, |A|
  {
    AddZero(K, K.zero);
    if Q == [] {
      WSumEmpty(K, A, W, j);
    } else {
      assert Moment(K, A, W, j) == K.zero;
      WSumZero(K, A, W, j + 1, Q[1..]);
      WSumCons(K, A, W, j, Q);
      MulZero(K, Q[0]);
    }
  }

  lemma {:induction false} WSumEmpty<F(!new)>(K: Field<F>, A: seq<F>, W: seq<F>, j: nat)
    requires IsField(K) && |A| == |W|
    ensures WSum(K, A, W, j, []) == K.zero
  {
    AddZero(K, K.zero);
    if A != [] {
      var n := |A| - 1;
      WSumEmpty(K, A[..n], W[..n], j);
      MulZero(K, K.mul(W[n], Pow(K, A[n], j)));
    }
  }

  /** Terms at roots of Q vanish. */
  lemma {:induction false} WSumAtRoots<F(!new)>(K: Field<F>, A: seq<F>, W: seq<F>, j: nat, Q: seq<F>)
    requires IsField(K) && |A| == |W|
    requires forall a :: a in A ==> Eval(K, Q, a) == K.zero
    ensures WSum(K, A, W, j, Q) == K.zero
  {
    AddZero(K, K.zero);
    if A != [] {
      var n := |A| - 1;
      assert A[n] in A;
      WSumAtRoots(K, A[..n], W[..n], j, Q);
      MulZero(K, K.mul(W[n], Pow(K, A[n], j)));
    }
  }

  /** The Vandermonde argument: if as many consecutive weighted power sums as
      there are distinct nonzero points vanish, every weight is zero. */
  lemma {:induction false} Vandermonde<F(!new)>(K: Field<F>, A: seq<F>, W: seq<F>)
    requires IsField(K) && |A| == |W| && Distinct(A) && K.zero !in A
    requires forall m: nat :: 1 <= m <= |A| ==> Moment(K, A, W, m) == K.zero
    ensures forall i :: 0 <= i < |W| ==> W[i] == K.zero
  {
    if A != [] {
      var n := |A| - 1;
      var A', W', a := A[..n], W[..n], A[n];
      assert A == A' + [a] && W == W' + [W[n]];
      var Q := Prod(K, A');
      WSumZero(K, A, W, 1, Q);
      forall b | b in A'
        ensures Eval(K, Q, b) == K.zero
      {
        EvalProd(K, A', b);
      }
      WSumAtRoots(K, A', W', 1, Q);
      EvalProd(K, A', a);
      var t := K.mul(W[n], Pow(K, a, 1));
      AddZero(K, K.mul(t, Eval(K, Q, a)));
      NoZeroDivisors(K, t, Eval(K, Q, a));
      PowNonzero(K, a, 1);
      NoZeroDivisors(K, W[n], Pow(K, a, 1));
      forall m: nat | 1 <= m <= |A'|
        ensures Moment(K, A', W', m) == K.zero
      {
        assert Moment(K, A, W, m) == K.zero;
        MulZero(K, Pow(K, a, m));
        AddZero(K, Moment(K, A', W', m));
      }
      Vandermonde(K, A', W');
    }
  }
}
