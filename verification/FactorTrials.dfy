/** Trials on one polynomial: reduced trace polynomials, their cost, proper
    factors, and the roots of quadratics. */
module FactorTrials {
  import opened FieldTheory
  import opened Integers
  import opened Lists
  import opened Polynomials
  import opened Roots
  import opened PolyOps
  import opened PolyGcd
  import opened Quadratic
  import opened Splitting

  datatype Status = Done | DecodeFailure | BudgetExhausted

  // ---- the trace polynomial

  lemma EvalSetOne<F(!new)>(K: Field<F>, q: seq<F>, c: F, a: F)
    requires IsField(K) && |q| >= 2 && q[1] == K.zero
    ensures Eval(K, q[1 := c], a) == K.add(Eval(K, q, a), K.mul(c, a))
  {
    var t, e := q[1..], K.mul(a, Eval(K, q[2..], a));
    assert q[1 := c][1..] == [c] + q[2..] && ([c] + q[2..])[1..] == q[2..] && t[1..] == q[2..];
    AddZero(K, e);
    assert Eval(K, t, a) == e;
    Distrib(K, a, c, e);
    MulComm(K, a, c);
    AddComm(K, K.mul(c, a), K.mul(a, e));
    AddAssoc(K, q[0], K.mul(a, e), K.mul(c, a));
  }

  /** The trace of parameter * x, reduced at every squaring; at a root of the
      modulus it takes the trace of parameter times the root. */
  method TraceMod<F(==,!new)>(K: Field<F>, modulus: seq<F>, parameter: F) returns (ok: bool, trace: seq<F>)
    requires IsBinaryField(K)
    ensures ok <==> Monic(K, modulus)
    ensures ok ==> Trimmed(K, trace) && |trace| < |modulus|
    ensures ok ==> forall a :: Root(K, modulus, a) ==> Eval(K, trace, a) == Trace(K, K.mul(parameter, a))
  {
    trace := [K.zero, parameter];
    forall a
      ensures Eval(K, trace, a) == TraceTo(K, K.mul(parameter, a), 0)
    {
      assert trace == [K.zero, K.zero][1 := parameter];
      EvalSetOne(K, [K.zero, K.zero], parameter, a);
      assert PEq(K, [K.zero, K.zero], []);
      EvalEq(K, [K.zero, K.zero], [], a);
      AddZero(K, K.mul(parameter, a));
    }
    for i := 0 to K.bits - 1
      invariant i > 0 ==> Monic(K, modulus) && Trimmed(K, trace) && |trace| < |modulus|
      invariant forall a :: Root(K, modulus, a) ==> Eval(K, trace, a) == TraceTo(K, K.mul(parameter, a), i)
    {
      ghost var before := trace;
      var square := PolySquare(K, trace);
      var padded := if |square| < 2 then Pad(K, square, 2) else square;
      assert padded[1] == K.zero && PEq(K, padded, square);
      var ok', rem := PolyMod(K, modulus, padded[1 := parameter]);
      if !ok' {
        return false, [];
      }
      ghost var Q :| DividesWith(K, padded[1 := parameter], Q, modulus, rem);
      forall a | Root(K, modulus, a)
        ensures Eval(K, rem, a) == TraceTo(K, K.mul(parameter, a), i + 1)
      {
        RootOfDivision(K, padded[1 := parameter], Q, modulus, rem, a);
        EvalSetOne(K, padded, parameter, a);
        EvalEq(K, padded, square, a);
        EvalMul(K, before, before, a);
      }
      trace := rem;
    }
    ok := true;
  }

  // ---- divisors of split polynomials

  /** poly is a product of distinct linear factors. */
  ghost predicate Splits<F(!new)>(K: Field<F>, poly: seq<F>) {
    exists A :: Distinct(A) && poly == Prod(K, A)
  }

  ghost function TrimOf<F>(K: Field<F>, p: seq<F>): (r: seq<F>)
    ensures PEq(K, r, p) && Trimmed(K, r)
  {
    if p == [] || p[|p| - 1] != K.zero then p else TrimOf(K, p[..|p| - 1])
  }

  lemma DividesStrict<F(!new)>(K: Field<F>, f: seq<F>, p: seq<F>) returns (q: seq<F>)
    requires IsField(K) && Monic(K, f) && Monic(K, p) && Divides(K, f, p)
    ensures p == PMul(K, f, q)
  {
    var q0 :| PEq(K, p, PMul(K, f, q0));
    q := TrimOf(K, q0);
    forall i: nat
      ensures Coef(K, p, i) == Coef(K, PMul(K, f, q), i)
    {
      PMulComm(K, f, q0);
      PMulComm(K, f, q);
      PMulEq(K, q, q0, f, i);
      assert Coef(K, p, i) == Coef(K, PMul(K, f, q0), i);
    }
    SameTop(K, p, f, q);
    PEqSameLength(K, p, PMul(K, f, q));
  }

  lemma SameTop<F(!new)>(K: Field<F>, p: seq<F>, f: seq<F>, q: seq<F>)
    requires IsField(K) && Monic(K, f) && Monic(K, p) && Trimmed(K, q) && PEq(K, p, PMul(K, f, q))
    ensures |p| == |PMul(K, f, q)|
  {
    var m := PMul(K, f, q);
    assert Coef(K, p, |p| - 1) == Coef(K, m, |p| - 1);
    assert |m| >= |p|;
    TopCoef(K, f, q, |q| - 1);
    MulOne(K, q[|q| - 1]);
    assert Coef(K, p, |m| - 1) == Coef(K, m, |m| - 1);
  }

  /** A greatest common divisor that is not a proper factor gives all the
      roots the same trace. */
  lemma UnsplitTraces<F(!new)>(K: Field<F>, poly: seq<F>, A: seq<F>, trace: seq<F>, g: seq<F>, parameter: F)
    requires IsBinaryField(K) && Distinct(A) && poly == Prod(K, A) && Monic(K, g) && IsGcd(K, g, poly, trace)
    requires forall a :: Root(K, poly, a) ==> Eval(K, trace, a) == Trace(K, K.mul(parameter, a))
    requires !(1 < |g| < |poly|)
    ensures forall a, b :: a in A && b in A ==> Trace(K, K.mul(parameter, a)) == Trace(K, K.mul(parameter, b))
  {
    ProdMonic(K, A);
    var q := DividesStrict(K, g, poly);
    DivisorOfSplit(K, g, q, A);
    var B := RootsIn(K, g, A);
    if |g| > 1 {
      RootsInFull(K, g, A);
    }
    forall a, b | a in A && b in A
      ensures Trace(K, K.mul(parameter, a)) == Trace(K, K.mul(parameter, b))
    {
      EvalProd(K, A, a);
      EvalProd(K, A, b);
      assert Root(K, g, a) <==> Root(K, poly, a) && Root(K, trace, a);
      assert Root(K, g, b) <==> Root(K, poly, b) && Root(K, trace, b);
      TraceIsBit(K, K.mul(parameter, a));
      TraceIsBit(K, K.mul(parameter, b));
      if |g| == 1 {
        assert a !in B && b !in B;
      } else {
        assert a in B && b in B;
      }
    }
  }

  lemma {:induction false} RootsInFull<F(!new)>(K: Field<F>, f: seq<F>, A: seq<F>)
    ensures |RootsIn(K, f, A)| <= |A|
    ensures |RootsIn(K, f, A)| == |A| ==> forall a :: a in A ==> a in RootsIn(K, f, A)
  {
    if A != [] {
      RootsInFull(K, f, A[..|A| - 1]);
      assert A == A[..|A| - 1] + [A[|A| - 1]];
    }
  }

  // ---- the cost of trials

  /** The work of one trial, refused when it does not fit an int. */
  function FactorTrialCost(degree: int, squares: nat): (int, bool)
    requires squares > 0
  {
    if degree < 0 then (0, false)
    else if degree == 0 then (0, true)
    else if degree > MAX_INT / degree then (0, false)
    else
      var value := degree * degree;
      if value > MAX_INT / squares then (0, false) else (value * squares, true)
  }

  /** The two division guards refuse exactly the products beyond MAX_INT. */
  lemma TrialCostExact(degree: int, squares: nat)
    requires squares > 0
    ensures FactorTrialCost(degree, squares).1 <==> 0 <= degree && degree * degree * squares <= MAX_INT
    ensures FactorTrialCost(degree, squares).1 ==> FactorTrialCost(degree, squares).0 == degree * degree * squares
  {
    if degree > 0 {
      QuotientBound(MAX_INT, degree, degree);
      QuotientBound(MAX_INT, squares, degree * degree);
      ProductOrder(degree * degree, squares);
    }
  }

  /** A trial on a polynomial of this degree has a cost that fits an int. */
  predicate Affordable<F>(K: Field<F>, degree: nat) {
    degree * degree * (K.bits - 1) <= MAX_INT
  }

  lemma ScaleOrder(x: int, y: int, m: nat)
    requires x <= y
    ensures x * m <= y * m
  {
  }

  /** The price of a trial; when there is none, no larger degree is affordable either. */
  method Price<F>(K: Field<F>, degree: nat) returns (ok: bool, price: nat)
    requires K.bits >= 2
    ensures price == if ok then Times(Sqr(degree), K.bits - 1) else 0
    ensures !ok ==> forall e: nat :: degree <= e ==> !Affordable(K, e)
  {
    TrialCostExact(degree, K.bits - 1);
    var cost := FactorTrialCost(degree, K.bits - 1);
    ok, price := cost.1, if cost.1 then cost.0 else 0;
    SqrIsProduct(degree);
    TimesIsProduct(Sqr(degree), K.bits - 1);
    forall e: nat | degree <= e && Affordable(K, e)
      ensures ok
    {
      SqrIsProduct(e);
      SqrMonotone(degree, e);
      ScaleOrder(degree * degree, e * e, K.bits - 1);
    }
  }

  // ---- splitting one polynomial

  ghost predicate UnsplitAt<F(!new)>(K: Field<F>, poly: seq<F>, parameter: F, A: seq<F>)
    requires K.bits >= 1
  {
    Distinct(A) && poly == Prod(K, A) ==> SameTraces(K, A, parameter)
  }

  ghost predicate Unsplit<F(!new)>(K: Field<F>, poly: seq<F>, parameter: F)
    requires K.bits >= 1
  {
    forall A :: UnsplitAt(K, poly, parameter, A)
  }

  ghost predicate FailedAt<F(!new)>(K: Field<F>, mixed: seq<F>, poly: seq<F>, t: nat)
    requires K.bits >= 1
  {
    Unsplit(K, poly, TrialParameter(K, mixed, t))
  }

  ghost predicate Failed<F(!new)>(K: Field<F>, mixed: seq<F>, poly: seq<F>, trials: nat)
    requires K.bits >= 1
  {
    forall t: nat :: t < trials ==> FailedAt(K, mixed, poly, t)
  }

  lemma FailedNext<F(!new)>(K: Field<F>, mixed: seq<F>, poly: seq<F>, t: nat)
    requires K.bits >= 1 && Failed(K, mixed, poly, t) && Unsplit(K, poly, TrialParameter(K, mixed, t))
    ensures Failed(K, mixed, poly, t + 1)
  {
    assert FailedAt(K, mixed, poly, t);
  }

  lemma {:induction false} FailedSet<F(!new)>(K: Field<F>, mixed: seq<F>, poly: seq<F>, A: seq<F>, trials: nat)
    requires K.bits >= 1 && Failed(K, mixed, poly, trials) && Distinct(A) && poly == Prod(K, A)
    ensures forall t: nat :: t < trials ==> Splitting.FailsAt(K, mixed, A, t)
  {
    forall t: nat | t < trials
      ensures Splitting.FailsAt(K, mixed, A, t)
    {
      assert FailedAt(K, mixed, poly, t) && UnsplitAt(K, poly, TrialParameter(K, mixed, t), A);
    }
  }

  /** When every trial has failed, the polynomial is not a product of distinct
      linear factors: the last trials went through a whole basis. */
  lemma AllTrialsFailed<F(!new)>(K: Field<F>, mixed: seq<F>, poly: seq<F>)
    requires IsWordField(K) && |poly| >= 3 && Failed(K, mixed, poly, Trials(K, mixed))
    ensures !Splits(K, poly)
  {
    if Splits(K, poly) {
      var A :| Distinct(A) && poly == Prod(K, A);
      FailedSet(K, mixed, poly, A, Trials(K, mixed));
      AllTrialsSeparate(K, mixed, A);
    }
  }

  /** The roots of the factor are the roots whose trace under the parameter is zero. */
  ghost predicate ZeroSide<F(!new)>(K: Field<F>, poly: seq<F>, factor: seq<F>, parameter: F)
    requires K.bits >= 1
  {
    forall a :: Root(K, factor, a) <==> Root(K, poly, a) && ZeroTrace(K, parameter, a)
  }

  /** One trial: a proper factor and its cofactor, or evidence that the
      parameter does not separate the roots. Only a monic polynomial is tried. */
  method Trial<F(==,!new)>(K: Field<F>, poly: seq<F>, parameter: F)
      returns (ok: bool, split: bool, quotient: seq<F>, factor: seq<F>)
    requires IsBinaryField(K)
    ensures ok <==> Monic(K, poly)
    ensures split ==> 1 < |factor| < |poly| && |quotient| == |poly| - |factor| + 1
    ensures split ==> Monic(K, factor) && Monic(K, quotient) && poly == PMul(K, quotient, factor)
    ensures split ==> ZeroSide(K, poly, factor, parameter)
    ensures ok && !split ==> Unsplit(K, poly, parameter)
  {
    var trace;
    ok, trace := TraceMod(K, poly, parameter);
    if !ok {
      return false, false, [], [];
    }
    MulOne(K, K.one);
    var okGcd, okDiv;
    okGcd, factor := PolyGCD(K, poly, trace);
    assert okGcd;
    split, quotient := false, [];
    if |factor| > 1 && |factor| < |poly| {
      okDiv, quotient := PolyDiv(K, poly, factor);
      ghost var rem :| |rem| < |factor| && DividesWith(K, poly, quotient, factor, rem);
      MonicSplit(K, poly, factor, quotient, rem);
      PMulComm(K, factor, quotient);
      split := true;
    } else {
      forall A
        ensures UnsplitAt(K, poly, parameter, A)
      {
        if Distinct(A) && poly == Prod(K, A) {
          UnsplitTraces(K, poly, A, trace, factor, parameter);
        }
      }
    }
  }

  /** The trial loop: each trial is paid for before it runs. */
  method Split<F(==,!new)>(K: Field<F>, mixed: seq<F>, poly: seq<F>, priced: bool, price: nat, work0: int)
      returns (status: Status, quotient: seq<F>, factor: seq<F>, work: int, ghost used: nat)
    requires IsWordField(K) && |poly| >= 4
    ensures !status.DecodeFailure? ==> 1 <= used <= Trials(K, mixed) && Failed(K, mixed, poly, used - 1)
    ensures !status.DecodeFailure? ==> work == work0 - Times(used, price) && (work < 0 <==> status.BudgetExhausted?)
    ensures status.Done? ==> ZeroSide(K, poly, factor, TrialParameter(K, mixed, used - 1))
    ensures status.Done? ==> 1 < |factor| < |poly| && |quotient| == |poly| - |factor| + 1
    ensures status.Done? ==> Monic(K, factor) && Monic(K, quotient) && poly == PMul(K, quotient, factor)
    ensures !status.BudgetExhausted? ==> work >= work0 - Times(Trials(K, mixed), price)
    ensures !priced ==> status.DecodeFailure?
    ensures status.DecodeFailure? ==> !Splits(K, poly) || !priced
    ensures status.DecodeFailure? ==> work == work0 || work >= 0
    ensures status.BudgetExhausted? ==> work0 < Times(Trials(K, mixed), price)
  {
    work, quotient, factor, used := work0, [], [], 0;
    for trial := 0 to Trials(K, mixed)
      invariant work == work0 - Times(trial, price) && (trial > 0 ==> priced && work >= 0)
      invariant Failed(K, mixed, poly, trial)
    {
      TrialSpent(trial, Trials(K, mixed), price);
      used := trial + 1;
      if !priced {
        return DecodeFailure, [], [], work, used;
      }
      work := work - price;
      if work < 0 {
        return BudgetExhausted, [], [], work, used;
      }
      var ok, split;
      ok, split, quotient, factor := Trial(K, poly, TrialParameter(K, mixed, trial));
      if !ok {
        SplitsMonic(K, poly);
        return DecodeFailure, [], [], work, used;
      }
      if split {
        return Done, quotient, factor, work, used;
      }
      FailedNext(K, mixed, poly, trial);
    }
    AllTrialsFailed(K, mixed, poly);
    status := DecodeFailure;
  }

  lemma {:induction false} TrialSpent(trial: nat, trials: nat, cost: nat)
    requires trial < trials
    ensures Times(trial + 1, cost) == Times(trial, cost) + cost <= Times(trials, cost)
  {
    TimesOrder(trial + 1, trials, cost);
  }

  lemma SplitsMonic<F(!new)>(K: Field<F>, poly: seq<F>)
    requires IsField(K)
    ensures Splits(K, poly) ==> Monic(K, poly)
  {
    forall A { ProdMonic(K, A); }
  }

  // ---- quadratics

  lemma PairProduct<F(!new)>(K: Field<F>, r: F, s: F)
    requires IsField(K)
    ensures Prod(K, [r, s]) == [K.mul(r, s), K.add(r, s), K.one]
  {
    assert [r, s][..1] == [r] && [r][..0] == [];
    PMulOne(K, Linear(K, r));
    PMulOne(K, Linear(K, s));
    assert Prod(K, [r]) == Linear(K, r);
    assert Linear(K, r)[1..] == [K.one];
    var u, v := PScale(K, r, Linear(K, s)), PShift(K, Linear(K, s));
    assert PMul(K, Linear(K, r), Linear(K, s)) == PAdd(K, u, v);
    MulOne(K, r);
    AddZero(K, K.mul(r, s));
    AddZero(K, K.one);
    CoefAdd(K, u, v, 0);
    CoefAdd(K, u, v, 1);
    CoefAdd(K, u, v, 2);
    assert PAdd(K, u, v) == [K.mul(r, s), K.add(r, s), K.one];
  }

  /** y^2 + y scaled by the square of l. */
  lemma ScaledImage<F(!new)>(K: Field<F>, y: F, l: F)
    requires IsField(K)
    ensures K.mul(Image(K, y), Sq(K, l)) == K.mul(K.mul(y, l), K.add(K.mul(y, l), l))
  {
    var r := K.mul(y, l);
    Distrib(K, Sq(K, l), Sq(K, y), y);
    Frobenius(K, y, l);
    MulAssoc(K, y, l, l);
    Distrib(K, r, r, l);
  }

  lemma UndoScale<F(!new)>(K: Field<F>, c: F, l: F)
    requires IsField(K) && l != K.zero
    ensures K.mul(K.mul(c, K.mul(Inv(K, l), Inv(K, l))), Sq(K, l)) == c
  {
    var i := Inv(K, l);
    MulInv(K, l);
    Frobenius(K, i, l);
    MulAssoc(K, c, Sq(K, i), Sq(K, l));
    MulOne(K, K.one);
    MulOne(K, c);
  }

  /** A solution of the normalized equation yields the two roots. */
  lemma QuadraticSound<F(!new)>(K: Field<F>, c: F, l: F, y: F)
    requires IsField(K) && l != K.zero && Image(K, y) == K.mul(c, K.mul(Inv(K, l), Inv(K, l)))
    ensures Prod(K, [K.mul(y, l), K.add(K.mul(y, l), l)]) == [c, l, K.one]
  {
    var r := K.mul(y, l);
    ScaledImage(K, y, l);
    UndoScale(K, c, l);
    PairProduct(K, r, K.add(r, l));
    AddComm(K, r, l);
    AddCancel(K, l, r);
    AddComm(K, r, K.add(r, l));
  }

  /** The normalized equation of two distinct roots is solvable. */
  lemma QuadraticComplete<F(!new)>(K: Field<F>, A: seq<F>, c: F, l: F)
    requires IsField(K) && |A| == 2 && Distinct(A) && Prod(K, A) == [c, l, K.one]
    ensures l != K.zero && Image(K, K.mul(A[0], Inv(K, l))) == K.mul(c, K.mul(Inv(K, l), Inv(K, l)))
  {
    var a, b := A[0], A[1];
    assert A == [a, b];
    PairProduct(K, a, b);
    AddCancel(K, a, b);
    var i := Inv(K, l);
    MulInv(K, l);
    var y := K.mul(a, i);
    // y^2 + y = a i (a i + 1) = a i (a + l) i = a b i^2
    MulOne(K, y);
    Distrib(K, y, y, K.one);
    Distrib(K, i, a, l);
    MulComm(K, l, i);
    AddCancel(K, b, a);
    AddComm(K, a, b);
    assert K.add(a, l) == b;
    assert K.add(y, K.one) == K.mul(b, i) by { MulComm(K, i, b); MulComm(K, i, a); }
    assert Image(K, y) == K.mul(y, K.mul(b, i));
    MulAssoc(K, a, i, K.mul(b, i));
    MulComm(K, b, i);
    MulAssoc(K, i, i, b);
    MulComm(K, K.mul(i, i), b);
    MulAssoc(K, a, b, K.mul(i, i));
  }

  method QuadraticRoots<F(==,!new)>(K: Field<F>, poly: seq<F>) returns (ok: bool, r: F, s: F)
    requires IsWordField(K) && |poly| == 3
    ensures ok && Monic(K, poly) ==> Prod(K, [r, s]) == poly
    ensures !ok ==> !Splits(K, poly)
  {
    r, s := K.zero, K.zero;
    ghost var c, l := poly[0], poly[1];
    forall A | Distinct(A) && poly == Prod(K, A)
      ensures l != K.zero && Image(K, K.mul(A[0], Inv(K, l))) == K.mul(c, K.mul(Inv(K, l), Inv(K, l)))
    {
      ProdMonic(K, A);
      assert poly == [c, l, K.one];
      QuadraticComplete(K, A, c, l);
    }
    var linear := poly[1];
    if linear == K.zero {
      return false, r, s;
    }
    var invertible, inverse := FieldInv(K, linear);
    assert invertible;
    var normalized := K.mul(poly[0], K.mul(inverse, inverse));
    var quadratic;
    ok, quadratic := SolveQuadraticForm(K, normalized);
    if !ok {
      return false, r, s;
    }
    r := K.mul(quadratic, linear);
    s := K.add(r, linear);
    QuadraticSound(K, c, l, quadratic);
    if Monic(K, poly) {
      assert poly == [c, l, K.one];
    }
  }
}
