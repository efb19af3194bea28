/** Power sums of a list of field elements, and the register that generates them. */
module PowerSums {
  import opened FieldTheory
  import opened Lists
  import opened Polynomials
  import opened Roots
  import opened BerlekampMassey

  /** The sum of the j-th powers of the members of A. */
  function PowerSum<F>(K: Field<F>, A: seq<F>, j: nat): F {
    if A == [] then K.zero else K.add(PowerSum(K, A[..|A| - 1], j), Pow(K, A[|A| - 1], j))
  }

  /** The first N power sums, from the first powers on. */
  ghost function Sums<F>(K: Field<F>, A: seq<F>, N: nat): seq<F> {
    seq(N, k requires 0 <= k < N => PowerSum(K, A, k + 1))
  }

  function Reverse<F>(p: seq<F>): (r: seq<F>)
    ensures |r| == |p|
  {
    if p == [] then [] else Reverse(p[1..]) + [p[0]]
  }

  lemma {:induction false} ReverseAt<F>(p: seq<F>, k: nat)
    requires k < |p|
    ensures Reverse(p)[k] == p[|p| - 1 - k]
  {
    if k < |p| - 1 {
      ReverseAt(p[1..], k);
    }
  }

  lemma ReverseInvolution<F>(p: seq<F>)
    ensures Reverse(Reverse(p)) == p
  {
    forall k | 0 <= k < |p|
      ensures Reverse(Reverse(p))[k] == p[k]
    {
      ReverseAt(Reverse(p), k);
      ReverseAt(p, |p| - 1 - k);
    }
  }

  /** The even power sums are squares of earlier ones. */
  lemma {:induction false} PowerSumDouble<F(!new)>(K: Field<F>, A: seq<F>, j: nat)
    requires IsField(K)
    ensures PowerSum(K, A, 2 * j) == Sq(K, PowerSum(K, A, j))
  {
    if A == [] {
      MulZero(K, K.zero);
    } else {
      var A', a := A[..|A| - 1], A[|A| - 1];
      PowerSumDouble(K, A', j);
      PowDouble(K, a, j);
      Frobenius(K, PowerSum(K, A', j), Pow(K, a, j));
    }
  }

  // ---- registers applied to power sums

  /** The reversed polynomial at each point: the weights that a register C
      puts on the points when it is applied to their power sums. */
  ghost function Weights<F>(K: Field<F>, C: seq<F>, A: seq<F>): seq<F> {
    seq(|A|, i requires 0 <= i < |A| => Eval(K, Reverse(C), A[i]))
  }

  lemma {:induction false} MomentSplit<F(!new)>(K: Field<F>, A: seq<F>, W: seq<F>, W': seq<F>, c: F, l: nat, m: nat)
    requires IsField(K) && |W| == |W'| == |A|
    requires forall i :: 0 <= i < |A| ==> W[i] == K.add(W'[i], K.mul(c, Pow(K, A[i], l)))
    ensures Moment(K, A, W, m) == K.add(K.mul(c, PowerSum(K, A, m + l)), Moment(K, A, W', m))
  {
    if A == [] {
      MulZero(K, c);
      AddZero(K, K.zero);
    } else {
      var n := |A| - 1;
      var a, p := A[n], Pow(K, A[n], m);
      var S, M := PowerSum(K, A[..n], m + l), Moment(K, A[..n], W'[..n], m);
      MomentSplit(K, A[..n], W[..n], W'[..n], c, l, m);
      assert W[n] == K.add(W'[n], K.mul(c, Pow(K, a, l)));
      // (w' + c a^l) a^m = c a^(m+l) + w' a^m
      Distrib(K, p, W'[n], K.mul(c, Pow(K, a, l)));
      MulAssoc(K, c, Pow(K, a, l), p);
      PowAdd(K, a, l, m);
      AddComm(K, K.mul(W'[n], p), K.mul(c, Pow(K, a, m + l)));
      Distrib(K, c, S, Pow(K, a, m + l));
      AddSwap(K, K.mul(c, S), M, K.mul(c, Pow(K, a, m + l)), K.mul(W'[n], p));
    }
  }

  lemma {:induction false} MomentZeroWeights<F(!new)>(K: Field<F>, A: seq<F>, W: seq<F>, m: nat)
    requires IsField(K) && |W| == |A| && forall i :: 0 <= i < |W| ==> W[i] == K.zero
    ensures Moment(K, A, W, m) == K.zero
  {
    AddZero(K, K.zero);
    if A != [] {
      var n := |A| - 1;
      MomentZeroWeights(K, A[..n], W[..n], m);
      MulZero(K, Pow(K, A[n], m));
    }
  }

  /** A register applied to power sums yields a weighted power sum. */
  lemma {:induction false} RegisterOnSums<F(!new)>(K: Field<F>, C: seq<F>, A: seq<F>, N: nat, m: nat)
    requires IsField(K) && 1 <= m && m + |C| - 2 < N
    ensures Coef(K, PMul(K, C, Sums(K, A, N)), m + |C| - 2) == Moment(K, A, Weights(K, C, A), m)
  {
    if C == [] {
      MomentZeroWeights(K, A, Weights(K, C, A), m);
    } else {
      var C', s := C[1..], Sums(K, A, N);
      RegisterOnSums(K, C', A, N, m);
      CoefMulCons(K, C, s, m + |C| - 2);
      forall i | 0 <= i < |A|
        ensures Weights(K, C, A)[i] == K.add(Weights(K, C', A)[i], K.mul(C[0], Pow(K, A[i], |C'|)))
      {
        EvalSnoc(K, Reverse(C'), C[0], A[i]);
      }
      MomentSplit(K, A, Weights(K, C, A), Weights(K, C', A), C[0], |C'|, m);
    }
  }

  /** The recurrence of C on power sums, position by position. */
  lemma RecurrenceOnSums<F(!new)>(K: Field<F>, C: seq<F>, A: seq<F>, N: nat, n: nat)
    requires IsField(K) && C != [] && |C| - 1 <= n < N
    ensures Recurrence(K, C, Sums(K, A, N), n, 0) == Moment(K, A, Weights(K, C, A), n + 2 - |C|)
  {
    RegisterOnSums(K, C, A, N, n + 2 - |C|);
    RecurrenceIsCoef(K, C, Sums(K, A, N), n);
  }

  /** The error locator of A generates its power sums. */
  lemma LocatorGenerates<F(!new)>(K: Field<F>, A: seq<F>, N: nat)
    requires IsField(K)
    ensures Generates(K, Reverse(Prod(K, A)), |A|, Sums(K, A, N))
  {
    var C := Reverse(Prod(K, A));
    ProdMonic(K, A);
    ReverseAt(Prod(K, A), 0);
    ReverseInvolution(Prod(K, A));
    forall i | 0 <= i < |A|
      ensures Weights(K, C, A)[i] == K.zero
    {
      EvalProd(K, A, A[i]);
    }
    forall n | |A| <= n < N
      ensures Recurrence(K, C, Sums(K, A, N), n, 0) == K.zero
    {
      RecurrenceOnSums(K, C, A, N, n);
      MomentZeroWeights(K, A, Weights(K, C, A), n + 2 - |C|);
    }
  }

  /** Any register short enough to leave |A| checks vanishes, reversed, on A. */
  lemma RegisterVanishes<F(!new)>(K: Field<F>, C: seq<F>, A: seq<F>, N: nat)
    requires IsField(K) && Distinct(A) && K.zero !in A
    requires Generates(K, C, |C| - 1, Sums(K, A, N)) && |C| - 1 + |A| <= N
    ensures forall a :: a in A ==> Eval(K, Reverse(C), a) == K.zero
  {
    var W := Weights(K, C, A);
    forall m: nat | 1 <= m <= |A|
      ensures Moment(K, A, W, m) == K.zero
    {
      RecurrenceOnSums(K, C, A, N, m + |C| - 2);
    }
    Vandermonde(K, A, W);
    forall a | a in A
      ensures Eval(K, Reverse(C), a) == K.zero
    {
      var i :| 0 <= i < |A| && A[i] == a;
      assert W[i] == K.zero;
    }
  }

  /** With at least 2|A| power sums, the shortest register is the error locator. */
  lemma LocatorUnique<F(!new)>(K: Field<F>, C: seq<F>, A: seq<F>, N: nat)
    requires IsField(K) && Distinct(A) && K.zero !in A && 2 * |A| <= N
    requires C != [] && Minimal(K, C, Sums(K, A, N))
    ensures |C| - 1 == |A| && Reverse(C) == Prod(K, A) && C[|C| - 1] != K.zero
  {
    LocatorGenerates(K, A, N);
    assert |C| - 1 <= |A|;
    RegisterVanishes(K, C, A, N);
    ReverseAt(C, |C| - 1);
    RootsBound(K, Reverse(C), A);
    ReverseAt(C, 0);
    EvalAtZero(K, Reverse(C));
    EvalProd(K, A, K.zero);
  }

  lemma EvalAtZero<F(!new)>(K: Field<F>, p: seq<F>)
    requires IsField(K) && p != []
    ensures Eval(K, p, K.zero) == p[0]
  {
    MulZero(K, Eval(K, p[1..], K.zero));
    AddZero(K, p[0]);
  }

  /** Power sums determine the set: two lists of distinct nonzero elements, of
      at most t elements each and with the same first 2t power sums, have the
      same members. */
  lemma SumsInjective<F(!new)>(K: Field<F>, A: seq<F>, B: seq<F>, t: nat)
    requires IsField(K) && Distinct(A) && Distinct(B) && K.zero !in A && K.zero !in B
    requires |A| <= t && |B| <= t && Sums(K, A, 2 * t) == Sums(K, B, 2 * t)
    ensures forall x :: x in A <==> x in B
  {
    SumsSubset(K, A, B, t);
    SumsSubset(K, B, A, t);
  }

  lemma SumsSubset<F(!new)>(K: Field<F>, A: seq<F>, B: seq<F>, t: nat)
    requires IsField(K) && Distinct(B) && K.zero !in B
    requires |A| <= t && |B| <= t && Sums(K, A, 2 * t) == Sums(K, B, 2 * t)
    ensures forall x :: x in B ==> x in A
  {
    var C := Reverse(Prod(K, A));
    LocatorGenerates(K, A, 2 * t);
    RegisterVanishes(K, C, B, 2 * t);
    ReverseInvolution(Prod(K, A));
    forall x | x in B
      ensures x in A
    {
      EvalProd(K, A, x);
    }
  }

  // ---- power sums of rearranged lists

  lemma {:induction false} PowerSumAppend<F(!new)>(K: Field<F>, A: seq<F>, B: seq<F>, j: nat)
    requires IsField(K)
    ensures PowerSum(K, A + B, j) == K.add(PowerSum(K, A, j), PowerSum(K, B, j))
  {
    if B == [] {
      assert A + B == A;
      AddZero(K, PowerSum(K, A, j));
    } else {
      var B', b := B[..|B| - 1], B[|B| - 1];
      assert (A + B)[..|A + B| - 1] == A + B';
      PowerSumAppend(K, A, B', j);
      AddAssoc(K, PowerSum(K, A, j), PowerSum(K, B', j), Pow(K, b, j));
    }
  }

  lemma PowerSumWithout<F(!new)>(K: Field<F>, A: seq<F>, i: nat, j: nat)
    requires IsField(K) && i < |A|
    ensures PowerSum(K, A, j) == K.add(PowerSum(K, Without(A, i), j), Pow(K, A[i], j))
  {
    var l, r, a := A[..i], A[i + 1..], A[i];
    assert A == l + ([a] + r);
    PowerSumAppend(K, l, [a] + r, j);
    PowerSumAppend(K, [a], r, j);
    PowerSumAppend(K, l, r, j);
    assert PowerSum(K, [a], j) == Pow(K, a, j) by {
      assert [a][..0] == [];
      AddZero(K, Pow(K, a, j));
    }
    AddComm(K, Pow(K, a, j), PowerSum(K, r, j));
    AddAssoc(K, PowerSum(K, l, j), PowerSum(K, r, j), Pow(K, a, j));
  }

  /** Power sums do not depend on the order. */
  lemma {:induction false} PowerSumPermuted<F(!new)>(K: Field<F>, A: seq<F>, B: seq<F>, j: nat)
    requires IsField(K) && multiset(A) == multiset(B)
    ensures PowerSum(K, A, j) == PowerSum(K, B, j)
    decreases |A|
  {
    assert |A| == |multiset(A)| == |B|;
    if A != [] {
      var n := |A| - 1;
      assert A == A[..n] + [A[n]];
      assert A[n] in multiset(B);
      var i :| 0 <= i < |B| && B[i] == A[n];
      assert B == B[..i] + [B[i]] + B[i + 1..];
      assert multiset(A) == multiset(A[..n]) + multiset{A[n]};
      assert multiset(B) == multiset(B[..i]) + multiset{B[i]} + multiset(B[i + 1..]);
      assert multiset(Without(B, i)) == multiset(B[..i]) + multiset(B[i + 1..]);
      assert multiset(A[..n]) + multiset{A[n]} == multiset(Without(B, i)) + multiset{A[n]};
      assert multiset(A[..n]) == multiset(A[..n]) + multiset{A[n]} - multiset{A[n]};
      assert multiset(Without(B, i)) == multiset(Without(B, i)) + multiset{A[n]} - multiset{A[n]};
      PowerSumPermuted(K, A[..n], Without(B, i), j);
      PowerSumWithout(K, B, i, j);
    }
  }

  /** A repeated element cancels with its copy. */
  lemma PowerSumPair<F(!new)>(K: Field<F>, A: seq<F>, a: nat, b: nat, j: nat)
    requires IsField(K) && a < b < |A| && A[a] == A[b]
    ensures PowerSum(K, A, j) == PowerSum(K, Without(Without(A, b), a), j)
  {
    var A' := Without(A, b);
    PowerSumWithout(K, A, b, j);
    PowerSumWithout(K, A', a, j);
    assert A'[a] == A[b];
    AddCancel(K, PowerSum(K, Without(A', a), j), Pow(K, A[b], j));
  }

  /** The list whose locator is a shortest register has no repetition. */
  lemma MinimalIsDistinct<F(!new)>(K: Field<F>, C: seq<F>, A: seq<F>, N: nat)
    requires IsField(K) && C != [] && Minimal(K, C, Sums(K, A, N)) && |C| - 1 == |A|
    ensures Distinct(A)
  {
    if !Distinct(A) {
      var a: nat, b: nat :| a < b < |A| && A[a] == A[b];
      var A' := Without(Without(A, b), a);
      forall k | 0 <= k < N
        ensures Sums(K, A, N)[k] == Sums(K, A', N)[k]
      {
        PowerSumPair(K, A, a, b, k + 1);
      }
      assert Sums(K, A, N) == Sums(K, A', N);
      LocatorGenerates(K, A', N);
      assert false;
    }
  }

  // ---- odd power sums

  /** The sketch coordinates: the odd power sums. */
  function OddSums<F>(K: Field<F>, A: seq<F>, t: nat): seq<F> {
    seq(t, i requires 0 <= i < t => PowerSum(K, A, 2 * i + 1))
  }

  /** The full syndrome sequence rebuilt from the odd ones by squaring. */
  ghost predicate IsSyndromes<F>(K: Field<F>, odd: seq<F>, all: seq<F>) {
    |all| == 2 * |odd| && forall i :: 0 <= i < |odd| ==> PairAt(K, odd, all, i)
  }

  predicate PairAt<F(==)>(K: Field<F>, odd: seq<F>, all: seq<F>, i: int)
    requires |all| == 2 * |odd| && 0 <= i < |odd|
  {
    all[2 * i] == odd[i] && all[2 * i + 1] == Sq(K, all[i])
  }

  lemma {:induction false} SyndromeAt<F(!new)>(K: Field<F>, A: seq<F>, t: nat, all: seq<F>, k: nat)
    requires IsField(K) && IsSyndromes(K, OddSums(K, A, t), all) && k < 2 * t
    ensures all[k] == PowerSum(K, A, k + 1)
  {
    var i := k / 2;
    assert PairAt(K, OddSums(K, A, t), all, i);
    if k % 2 == 1 {
      SyndromeAt(K, A, t, all, i);
      PowerSumDouble(K, A, i + 1);
    }
  }

  /** Odd power sums determine all of them. */
  lemma SyndromesAreSums<F(!new)>(K: Field<F>, A: seq<F>, t: nat, all: seq<F>)
    requires IsField(K) && IsSyndromes(K, OddSums(K, A, t), all)
    ensures all == Sums(K, A, 2 * t)
  {
    forall k: nat | k < 2 * t
      ensures all[k] == Sums(K, A, 2 * t)[k]
    {
      SyndromeAt(K, A, t, all, k);
    }
  }

  lemma SumsAreSyndromes<F(!new)>(K: Field<F>, A: seq<F>, t: nat)
    requires IsField(K)
    ensures IsSyndromes(K, OddSums(K, A, t), Sums(K, A, 2 * t))
  {
    forall i | 0 <= i < t
      ensures PairAt(K, OddSums(K, A, t), Sums(K, A, 2 * t), i)
    {
      PowerSumDouble(K, A, i + 1);
    }
  }

  method ReconstructSyndromes<F(==,!new)>(K: Field<F>, odd: seq<F>) returns (all: seq<F>)
    ensures IsSyndromes(K, odd, all)
  {
    all := seq(|odd| * 2, _ => K.zero);
    for index := 0 to |odd|
      invariant |all| == 2 * |odd|
      invariant forall i :: 0 <= i < index ==> PairAt(K, odd, all, i)
    {
      ghost var before := all;
      all := all[index * 2 := odd[index]];
      all := all[index * 2 + 1 := K.mul(all[index], all[index])];
      forall i | 0 <= i < index + 1
        ensures PairAt(K, odd, all, i)
      {
        assert i < index ==> PairAt(K, odd, before, i);
      }
    }
  }
}
