/** Splitting a locator polynomial into its roots by trace maps, under a work budget. */
module FindRoots {
  import opened FieldTheory
  import opened Lists
  import opened Polynomials
  import opened Roots
  import opened PolyOps
  import opened Splitting
  import opened FactorTrials

  // ---- the stack of pending factors

  ghost function Product<F>(K: Field<F>, pending: seq<seq<F>>): seq<F> {
    if pending == [] then [K.one]
    else PMul(K, Product(K, pending[..|pending| - 1]), pending[|pending| - 1])
  }

  /** The pending factors and the roots found so far make up poly. */
  ghost predicate Accounts<F>(K: Field<F>, poly: seq<F>, pending: seq<seq<F>>, roots: seq<F>) {
    && (forall p :: p in pending ==> Monic(K, p))
    && PMul(K, Product(K, pending), Prod(K, roots)) == poly
  }

  lemma ProductPush<F(!new)>(K: Field<F>, rest: seq<seq<F>>, p: seq<F>)
    ensures Product(K, rest + [p]) == PMul(K, Product(K, rest), p)
  {
    assert (rest + [p])[..|rest|] == rest;
  }

  lemma AccountsStart<F(!new)>(K: Field<F>, poly: seq<F>)
    requires IsField(K) && Monic(K, poly)
    ensures Accounts(K, poly, [poly], [])
  {
    assert [poly][..0] == [];
    PMulOne(K, poly);
  }

  /** A factor that is a product of linear factors moves over to the roots. */
  lemma AccountsSolve<F(!new)>(K: Field<F>, poly: seq<F>, rest: seq<seq<F>>, p: seq<F>, roots: seq<F>, found: seq<F>)
    requires IsField(K) && Accounts(K, poly, rest + [p], roots) && Prod(K, found) == p
    ensures Accounts(K, poly, rest, roots + found)
  {
    assert (rest + [p])[..|rest|] == rest;
    ProdAppend(K, roots, found);
    PMulAssoc(K, Product(K, rest), p, Prod(K, roots));
    PMulComm(K, p, Prod(K, roots));
  }

  lemma {:induction false} ProductSplit<F(!new)>(K: Field<F>, rest: seq<seq<F>>, q: seq<F>, f: seq<F>)
    requires IsField(K)
    ensures Product(K, rest + [q, f]) == Product(K, rest + [PMul(K, q, f)])
  {
    ProductPush(K, rest, PMul(K, q, f));
    ProductPush(K, rest, q);
    ProductPush(K, rest + [q], f);
    assert rest + [q, f] == rest + [q] + [f];
    PMulAssoc(K, Product(K, rest), q, f);
  }

  lemma {:induction false} AccountsSplit<F(!new)>(K: Field<F>, poly: seq<F>, rest: seq<seq<F>>, p: seq<F>,
      roots: seq<F>,
      q: seq<F>, f: seq<F>)
    requires IsField(K) && Accounts(K, poly, rest + [p], roots) && p == PMul(K, q, f) && Monic(K, q) && Monic(K, f)
    ensures Accounts(K, poly, rest + [q, f], roots)
  {
    ProductSplit(K, rest, q, f);
    forall m | m in rest + [q, f]
      ensures Monic(K, m)
    {
      assert m in rest ==> m in rest + [p];
    }
  }

  /** Every pending factor of a product of distinct linear factors is the
      product over its own roots. */
  lemma AccountsPart<F(!new)>(K: Field<F>, poly: seq<F>, rest: seq<seq<F>>, p: seq<F>, roots: seq<F>, A: seq<F>)
    requires IsField(K) && Accounts(K, poly, rest + [p], roots) && Distinct(A) && poly == Prod(K, A)
    ensures p == Prod(K, RootsIn(K, p, A)) && Distinct(RootsIn(K, p, A))
  {
    assert (rest + [p])[..|rest|] == rest;
    var R, S := Product(K, rest), Prod(K, roots);
    PMulComm(K, R, p);
    PMulAssoc(K, p, R, S);
    assert p in rest + [p];
    DivisorOfSplit(K, p, PMul(K, R, S), A);
  }

  lemma AccountsSplits<F(!new)>(K: Field<F>, poly: seq<F>, rest: seq<seq<F>>, p: seq<F>, roots: seq<F>)
    requires IsField(K) && Accounts(K, poly, rest + [p], roots) && Splits(K, poly)
    ensures Splits(K, p)
  {
    var A :| Distinct(A) && poly == Prod(K, A);
    AccountsPart(K, poly, rest, p, roots, A);
  }

  lemma AccountsDone<F(!new)>(K: Field<F>, poly: seq<F>, roots: seq<F>)
    requires IsField(K) && Accounts(K, poly, [], roots)
    ensures Prod(K, roots) == poly
  {
    PMulOne(K, Prod(K, roots));
  }

  function Degree<F>(p: seq<F>): nat { if p == [] then 0 else |p| - 1 }

  /** Strictly decreasing along the loop. */
  ghost function Weight<F>(pending: seq<seq<F>>): nat {
    if pending == [] then 0
    else
      var d := Degree(pending[|pending| - 1]);
      Weight(pending[..|pending| - 1]) + Sqr(d) + 1
  }

  /** The units that the pending factors can still need, whatever their roots. */
  ghost function Owed<F>(K: Field<F>, mixed: seq<F>, pending: seq<seq<F>>): nat {
    if pending == [] then 0 else
      Owed(K, mixed, pending[..|pending| - 1]) + WorstUnits(K, mixed, Degree(pending[|pending| - 1]))
  }

  lemma {:induction false} MeasuresPush<F>(K: Field<F>, mixed: seq<F>, rest: seq<seq<F>>, p: seq<F>)
    ensures Weight(rest + [p]) == Weight(rest) + Sqr(Degree(p)) + 1
    ensures Owed(K, mixed, rest + [p]) == Owed(K, mixed, rest) + WorstUnits(K, mixed, Degree(p))
  {
    assert (rest + [p])[..|rest|] == rest;
  }

  lemma {:induction false} MeasuresPushTwo<F>(K: Field<F>, mixed: seq<F>, rest: seq<seq<F>>, q: seq<F>, f: seq<F>)
    ensures Weight(rest + [q, f]) == Weight(rest) + Sqr(Degree(q)) + Sqr(Degree(f)) + 2
    ensures Owed(K, mixed, rest + [q, f]) ==
      Owed(K, mixed, rest) + WorstUnits(K, mixed, Degree(q)) + WorstUnits(K, mixed, Degree(f))
  {
    MeasuresPush(K, mixed, rest, q);
    MeasuresPush(K, mixed, rest + [q], f);
    assert rest + [q, f] == rest + [q] + [f];
  }

  lemma {:induction false} MeasuresSplit<F>(K: Field<F>, mixed: seq<F>, rest: seq<seq<F>>, p: seq<F>, q: seq<F>,
      f: seq<F>)
    requires |p| >= 4 && 1 < |f| < |p| && |q| == |p| - |f| + 1
    ensures Weight(rest + [q, f]) < Weight(rest + [p])
    ensures Owed(K, mixed, rest + [q, f]) + TrialUnits(Trials(K, mixed), |p| - 1) <= Owed(K, mixed, rest + [p])
  {
    var a, b := |q| - 1, |f| - 1;
    MeasuresPush(K, mixed, rest, p);
    MeasuresPushTwo(K, mixed, rest, q, f);
    assert |p| - 1 == a + b;
    FullStepGrows(K, mixed, a + b);
    SplitTotal(FullStep(K, mixed), TrialUnits(Trials(K, mixed), a + b), a, b, a + b);
    SquareOfSum(a, b);
  }

  lemma {:induction false} SquareOfSum(a: nat, b: nat)
    requires a >= 1 && b >= 1
    ensures Sqr(a) + Sqr(b) + 2 <= Sqr(a + b)
    decreases b
  {
    if b == 1 {
      assert Sqr(1) == Sqr(0) + 1;
    } else {
      SquareOfSum(a, b - 1);
    }
  }

  // ---- the work that is paid for

  /** The units paid so far account for the work, and with what the pending
      factors can still need they stay within the worst case. */
  ghost predicate Budget<F>(K: Field<F>, mixed: seq<F>, poly: seq<F>, pending: seq<seq<F>>, paid: nat, work0: int,
      work: int)
    requires K.bits >= 1
  {
    && work == work0 - Times(paid, K.bits - 1) && (paid > 0 ==> work >= 0)
    && paid + Owed(K, mixed, pending) <= WorstUnits(K, mixed, Degree(poly))
  }

  lemma {:induction false} BudgetLeft<F>(K: Field<F>, mixed: seq<F>, poly: seq<F>, pending: seq<seq<F>>, paid: nat,
      work0: int, work: int)
    requires K.bits >= 1 && Budget(K, mixed, poly, pending, paid, work0, work)
    ensures work >= work0 - WorstCase(K, mixed, Degree(poly))
  {
    TimesOrder(paid, WorstUnits(K, mixed, Degree(poly)), K.bits - 1);
  }

  /** Trials on one pending factor stay within what is owed for it. */
  lemma {:induction false} BudgetTrials<F>(K: Field<F>, mixed: seq<F>, poly: seq<F>, rest: seq<seq<F>>, p: seq<F>,
      paid: nat, used: nat, work0: int, work: int)
    requires K.bits >= 1 && |p| >= 4 && Budget(K, mixed, poly, rest + [p], paid, work0, work)
    requires used <= Trials(K, mixed)
    ensures paid + TrialUnits(used, |p| - 1) + Owed(K, mixed, rest) <= WorstUnits(K, mixed, Degree(poly))
  {
    var d := |p| - 1;
    MeasuresPush(K, mixed, rest, p);
    TimesOrder(used, Trials(K, mixed), Sqr(d));
    assert WorstUnits(K, mixed, d) == FullStep(K, mixed)(d) + Total(FullStep(K, mixed), d - 1);
  }

  /** The work after some more trials, as units. */
  lemma {:induction false} PaidUnits(paid: nat, used: nat, degree: nat, price: nat, squares: nat)
    requires price <= Times(Sqr(degree), squares)
    ensures Times(paid, squares) + Times(used, price) <= Times(paid + TrialUnits(used, degree), squares)
    ensures price == Times(Sqr(degree), squares) ==>
      Times(paid, squares) + Times(used, price) == Times(paid + TrialUnits(used, degree), squares)
  {
    TimesOrderRight(used, price, Times(Sqr(degree), squares));
    TimesAssoc(used, Sqr(degree), squares);
    TimesAdd(paid, TrialUnits(used, degree), squares);
  }

  lemma {:induction false} TrialsLeft<F>(K: Field<F>, mixed: seq<F>, poly: seq<F>, rest: seq<seq<F>>, p: seq<F>,
      paid: nat, used: nat, price: nat, work0: int, work: int, work': int)
    requires K.bits >= 1 && |p| >= 4 && Budget(K, mixed, poly, rest + [p], paid, work0, work)
    requires used <= Trials(K, mixed) && price <= Times(Sqr(|p| - 1), K.bits - 1) && work' >= work - Times(used, price)
    ensures work' >= work0 - WorstCase(K, mixed, Degree(poly))
  {
    BudgetTrials(K, mixed, poly, rest, p, paid, used, work0, work);
    PaidUnits(paid, used, |p| - 1, price, K.bits - 1);
    TimesOrder(paid + TrialUnits(used, |p| - 1), WorstUnits(K, mixed, Degree(poly)), K.bits - 1);
  }

  lemma {:induction false} WorkAfter<F>(K: Field<F>, mixed: seq<F>, poly: seq<F>, pending: seq<seq<F>>, paid: nat,
      paid': nat, used: nat, degree: nat, price: nat, work0: int, work: int, work': int)
    requires K.bits >= 1 && Budget(K, mixed, poly, pending, paid, work0, work)
    requires price == Times(Sqr(degree), K.bits - 1) && work' == work - Times(used, price)
    requires paid' == paid + TrialUnits(used, degree)
    ensures work' == work0 - Times(paid', K.bits - 1)
  {
    PaidUnits(paid, used, degree, price, K.bits - 1);
  }

  lemma {:induction false} BudgetSplit<F>(K: Field<F>, mixed: seq<F>, poly: seq<F>, rest: seq<seq<F>>, p: seq<F>,
      q: seq<F>, f: seq<F>, paid: nat, paid': nat, used: nat, price: nat, work0: int, work: int, work': int)
    requires K.bits >= 1 && |p| >= 4 && Budget(K, mixed, poly, rest + [p], paid, work0, work)
    requires used <= Trials(K, mixed) && paid' == paid + TrialUnits(used, |p| - 1)
    requires price == Times(Sqr(|p| - 1), K.bits - 1) && work' == work - Times(used, price) && work' >= 0
    requires 1 < |f| < |p| && |q| == |p| - |f| + 1
    ensures Budget(K, mixed, poly, rest + [q, f], paid', work0, work')
  {
    WorkAfter(K, mixed, poly, rest + [p], paid, paid', used, |p| - 1, price, work0, work, work');
    MeasuresSplit(K, mixed, rest, p, q, f);
    TimesOrder(used, Trials(K, mixed), Sqr(|p| - 1));
  }

  // ---- for a product of distinct linear factors, exactly the cost of its roots

  /** The units that the pending factors will need, as parts of A. */
  ghost function Needs<F(!new)>(K: Field<F>, mixed: seq<F>, pending: seq<seq<F>>, A: seq<F>): nat
    requires IsBinaryField(K)
  {
    if pending == [] then 0 else
      Needs(K, mixed, pending[..|pending| - 1], A) + Units(K, mixed, RootsIn(K, pending[|pending| - 1], A))
  }

  ghost predicate ExactAt<F(!new)>(K: Field<F>, mixed: seq<F>, poly: seq<F>, pending: seq<seq<F>>, paid: nat, A: seq<F>)
    requires IsBinaryField(K)
  {
    Distinct(A) && poly == Prod(K, A) ==> paid + Needs(K, mixed, pending, A) == Units(K, mixed, A)
  }

  ghost predicate Exact<F(!new)>(K: Field<F>, mixed: seq<F>, poly: seq<F>, pending: seq<seq<F>>, paid: nat)
    requires IsBinaryField(K)
  {
    forall A :: ExactAt(K, mixed, poly, pending, paid, A)
  }

  lemma {:induction false} NeedsPush<F(!new)>(K: Field<F>, mixed: seq<F>, rest: seq<seq<F>>, p: seq<F>, A: seq<F>)
    requires IsBinaryField(K)
    ensures Needs(K, mixed, rest + [p], A) == Needs(K, mixed, rest, A) + Units(K, mixed, RootsIn(K, p, A))
  {
    assert (rest + [p])[..|rest|] == rest;
  }

  lemma {:induction false} RootsInAll<F(!new)>(K: Field<F>, f: seq<F>, A: seq<F>)
    requires forall a :: a in A ==> Eval(K, f, a) == K.zero
    ensures RootsIn(K, f, A) == A
  {
    if A != [] {
      var n := |A| - 1;
      assert A == A[..n] + [A[n]];
      RootsInAll(K, f, A[..n]);
    }
  }

  lemma {:induction false} ExactStart<F(!new)>(K: Field<F>, mixed: seq<F>, poly: seq<F>)
    requires IsBinaryField(K)
    ensures Exact(K, mixed, poly, [poly], 0)
  {
    forall A
      ensures ExactAt(K, mixed, poly, [poly], 0, A)
    {
      if Distinct(A) && poly == Prod(K, A) {
        forall a | a in A
          ensures Eval(K, poly, a) == K.zero
        {
          EvalProd(K, A, a);
        }
        RootsInAll(K, poly, A);
        NeedsPush(K, mixed, [], poly, A);
        assert [] + [poly] == [poly];
      }
    }
  }

  /** A factor of degree up to two costs nothing. */
  lemma {:induction false} ExactSolve<F(!new)>(K: Field<F>, mixed: seq<F>, poly: seq<F>, rest: seq<seq<F>>, p: seq<F>,
      roots: seq<F>,
      paid: nat)
    requires IsBinaryField(K) && Stack(K, poly, rest + [p], roots) && 1 <= |p| <= 3
    requires Exact(K, mixed, poly, rest + [p], paid)
    ensures Exact(K, mixed, poly, rest, paid)
  {
    forall A
      ensures ExactAt(K, mixed, poly, rest, paid, A)
    {
      if Distinct(A) && poly == Prod(K, A) {
        assert ExactAt(K, mixed, poly, rest + [p], paid, A);
        ProdMonic(K, A);
        AccountsPart(K, poly, rest, p, roots, A);
        NeedsPush(K, mixed, rest, p, A);
      }
    }
  }

  ghost predicate SideAt<F>(K: Field<F>, p: seq<F>, f: seq<F>, parameter: F, zero: bool, a: F)
    requires K.bits >= 1
  {
    Root(K, f, a) <==> Root(K, p, a) && ZeroTrace(K, parameter, a) == zero
  }

  lemma PartSnoc<F>(K: Field<F>, B: seq<F>, x: F, parameter: F, zero: bool)
    requires K.bits >= 1
    ensures Part(K, B + [x], parameter, zero) ==
      if ZeroTrace(K, parameter, x) == zero then Part(K, B, parameter, zero) + [x] else Part(K, B, parameter, zero)
  {
    assert (B + [x])[..|B|] == B;
  }

  /** The roots of f are those of p on one side. */
  lemma {:induction false} RootsThenPart<F(!new)>(K: Field<F>, p: seq<F>, f: seq<F>, A: seq<F>, parameter: F,
      zero: bool)
    requires K.bits >= 1 && forall i :: 0 <= i < |A| ==> SideAt(K, p, f, parameter, zero, A[i])
    ensures RootsIn(K, f, A) == Part(K, RootsIn(K, p, A), parameter, zero)
  {
    if A != [] {
      var n := |A| - 1;
      RootsThenPart(K, p, f, A[..n], parameter, zero);
      PartSnoc(K, RootsIn(K, p, A[..n]), A[n], parameter, zero);
      assert SideAt(K, p, f, parameter, zero, A[n]);
    }
  }

  /** Cofactors of a product of distinct linear factors share no root. */
  lemma {:induction false} CofactorRoots<F(!new)>(K: Field<F>, p: seq<F>, q: seq<F>, f: seq<F>, B: seq<F>, a: F)
    requires IsField(K) && Distinct(B) && p == Prod(K, B) == PMul(K, q, f) && Monic(K, q) && Monic(K, f)
    ensures Root(K, q, a) <==> Root(K, p, a) && !Root(K, f, a)
  {
    PMulComm(K, q, f);
    DivisorOfSplit(K, q, f, B);
    DivisorOfSplit(K, f, q, B);
    var Q, G := RootsIn(K, q, B), RootsIn(K, f, B);
    ProdAppend(K, Q, G);
    SameProductSameMultiset(K, B, Q + G);
    DistinctPermuted(B, Q + G);
    EvalMul(K, q, f, a);
    NoZeroDivisors(K, Eval(K, q, a), Eval(K, f, a));
    EvalProd(K, B, a);
    if a in Q {
      DistinctHalves(Q, G, a);
    }
  }

  /** The two factors of a split hold the two parts of the roots. */
  lemma {:induction false} SplitParts<F(!new)>(K: Field<F>, p: seq<F>, q: seq<F>, f: seq<F>, parameter: F, A: seq<F>)
    requires IsBinaryField(K) && p == Prod(K, RootsIn(K, p, A)) == PMul(K, q, f) && Distinct(RootsIn(K, p, A))
    requires Monic(K, q) && Monic(K, f) && ZeroSide(K, p, f, parameter)
    ensures var B := RootsIn(K, p, A);
      RootsIn(K, f, A) == Part(K, B, parameter, true) && RootsIn(K, q, A) == Part(K, B, parameter, false)
  {
    forall i | 0 <= i < |A|
      ensures SideAt(K, p, f, parameter, true, A[i]) && SideAt(K, p, q, parameter, false, A[i])
    {
      CofactorRoots(K, p, q, f, RootsIn(K, p, A), A[i]);
    }
    RootsThenPart(K, p, f, A, parameter, true);
    RootsThenPart(K, p, q, A, parameter, false);
  }

  lemma {:induction false} DivisorRoot<F(!new)>(K: Field<F>, f: seq<F>, g: seq<F>, B: seq<F>) returns (a: F)
    requires IsField(K) && Monic(K, f) && |f| > 1 && Distinct(B) && PMul(K, f, g) == Prod(K, B)
    ensures a in B && Root(K, f, a)
  {
    DivisorOfSplit(K, f, g, B);
    var X := RootsIn(K, f, B);
    assert |Prod(K, X)| == |X| + 1;
    a := X[0];
  }

  /** Both factors of a split have a root, and the traces of the two differ. */
  lemma {:induction false} SplitWitness<F(!new)>(K: Field<F>, p: seq<F>, q: seq<F>, f: seq<F>, parameter: F, B: seq<F>)
      returns (x: F, y: F)
    requires IsBinaryField(K) && p == Prod(K, B) == PMul(K, q, f) && Distinct(B)
    requires Monic(K, q) && Monic(K, f) && |q| > 1 && |f| > 1 && ZeroSide(K, p, f, parameter)
    ensures x in B && y in B && ZeroTrace(K, parameter, x) && !ZeroTrace(K, parameter, y)
  {
    PMulComm(K, q, f);
    x := DivisorRoot(K, f, q, B);
    y := DivisorRoot(K, q, f, B);
    CofactorRoots(K, p, q, f, B, y);
  }

  lemma {:induction false} SplitsFirst<F(!new)>(K: Field<F>, mixed: seq<F>, p: seq<F>, B: seq<F>, x: F, y: F, t: nat)
    requires K.bits >= 1 && p == Prod(K, B) && Distinct(B) && t < Trials(K, mixed) && Failed(K, mixed, p, t)
    requires x in B && y in B && ZeroTrace(K, TrialParameter(K, mixed, t), x) &&
      !ZeroTrace(K, TrialParameter(K, mixed, t), y)
    ensures FirstTrial(K, mixed, B, 0) == t
  {
    FailedSet(K, mixed, p, B, t);
    FirstIs(K, mixed, B, t);
  }

  lemma {:induction false} UnitsOfParts<F(!new)>(K: Field<F>, mixed: seq<F>, B: seq<F>, zeros: seq<F>, others: seq<F>,
      t: nat,
      used: nat, degree: nat)
    requires IsBinaryField(K) && |B| == degree >= 3 && used == t + 1 &&
      t == FirstTrial(K, mixed, B, 0) < Trials(K, mixed)
    requires zeros == Part(K, B, TrialParameter(K, mixed, t), true)
    requires others == Part(K, B, TrialParameter(K, mixed, t), false)
    ensures Units(K, mixed, B) == TrialUnits(used, degree) + Units(K, mixed, zeros) + Units(K, mixed, others)
  {
    UnitsSplit(K, mixed, B, t);
  }

  /** The trial that splits a factor is the first that separates its roots. */
  lemma {:induction false} SplitUnits<F(!new)>(K: Field<F>, mixed: seq<F>, p: seq<F>, q: seq<F>, f: seq<F>, used: nat,
      A: seq<F>)
    requires IsBinaryField(K) && p == Prod(K, RootsIn(K, p, A)) == PMul(K, q, f) && Distinct(RootsIn(K, p, A))
    requires Monic(K, q) && Monic(K, f) && |p| >= 4 && |q| > 1 && |f| > 1
    requires 1 <= used <= Trials(K, mixed) && Failed(K, mixed, p, used - 1)
    requires ZeroSide(K, p, f, TrialParameter(K, mixed, used - 1))
    ensures Units(K, mixed, RootsIn(K, p, A)) ==
      TrialUnits(used, |p| - 1) + Units(K, mixed, RootsIn(K, f, A)) + Units(K, mixed, RootsIn(K, q, A))
  {
    var t: nat := used - 1;
    var B, parameter := RootsIn(K, p, A), TrialParameter(K, mixed, t);
    SplitParts(K, p, q, f, parameter, A);
    var x, y := SplitWitness(K, p, q, f, parameter, B);
    assert |B| == |p| - 1;
    SplitsFirst(K, mixed, p, B, x, y, t);
    UnitsOfParts(K, mixed, B, RootsIn(K, f, A), RootsIn(K, q, A), t, used, |p| - 1);
  }

  lemma {:induction false} NeedsPushTwo<F(!new)>(K: Field<F>, mixed: seq<F>, rest: seq<seq<F>>, q: seq<F>, f: seq<F>,
      A: seq<F>)
    requires IsBinaryField(K)
    ensures Needs(K, mixed, rest + [q, f], A) ==
      Needs(K, mixed, rest, A) + Units(K, mixed, RootsIn(K, q, A)) + Units(K, mixed, RootsIn(K, f, A))
  {
    NeedsPush(K, mixed, rest, q, A);
    NeedsPush(K, mixed, rest + [q], f, A);
    assert rest + [q, f] == rest + [q] + [f];
  }

  lemma {:induction false} ExactSplitAt<F(!new)>(K: Field<F>, mixed: seq<F>, poly: seq<F>, rest: seq<seq<F>>,
      p: seq<F>, q: seq<F>,
      f: seq<F>, units: nat, paid: nat, A: seq<F>)
    requires IsBinaryField(K) && ExactAt(K, mixed, poly, rest + [p], paid, A)
    requires Units(K, mixed, RootsIn(K, p, A)) ==
      units + Units(K, mixed, RootsIn(K, f, A)) + Units(K, mixed, RootsIn(K, q, A))
    ensures ExactAt(K, mixed, poly, rest + [q, f], paid + units, A)
  {
    NeedsPush(K, mixed, rest, p, A);
    NeedsPushTwo(K, mixed, rest, q, f, A);
  }

  lemma {:induction false} ExactSplit<F(!new)>(K: Field<F>, mixed: seq<F>, poly: seq<F>, rest: seq<seq<F>>, p: seq<F>,
      roots: seq<F>,
      q: seq<F>, f: seq<F>, used: nat, paid: nat, paid': nat)
    requires IsBinaryField(K) && Stack(K, poly, rest + [p], roots) && Exact(K, mixed, poly, rest + [p], paid)
    requires p == PMul(K, q, f) && Monic(K, q) && Monic(K, f) && |p| >= 4 && |q| > 1 && |f| > 1
    requires 1 <= used <= Trials(K, mixed) && Failed(K, mixed, p, used - 1)
    requires ZeroSide(K, p, f, TrialParameter(K, mixed, used - 1)) && paid' == paid + TrialUnits(used, |p| - 1)
    ensures Exact(K, mixed, poly, rest + [q, f], paid')
  {
    var rest' := rest + [q, f];
    forall A
      ensures ExactAt(K, mixed, poly, rest', paid', A)
    {
      if Distinct(A) && poly == Prod(K, A) {
        ProdMonic(K, A);
        AccountsPart(K, poly, rest, p, roots, A);
        SplitUnits(K, mixed, p, q, f, used, A);
        assert ExactAt(K, mixed, poly, rest + [p], paid, A);
        ExactSplitAt(K, mixed, poly, rest, p, q, f, TrialUnits(used, |p| - 1), paid, A);
      }
    }
  }

  /** Trials that failed are part of the cost. */
  lemma {:induction false} FailedUnits<F(!new)>(K: Field<F>, mixed: seq<F>, p: seq<F>, B: seq<F>, used: nat)
    requires IsWordField(K) && p == Prod(K, B) && Distinct(B) && |p| >= 4
    requires 1 <= used <= Trials(K, mixed) && Failed(K, mixed, p, used - 1)
    ensures TrialUnits(used, |p| - 1) <= Units(K, mixed, B)
  {
    FailedSet(K, mixed, p, B, used - 1);
    FirstTrialBound(K, mixed, B);
    FirstSeparates(K, mixed, B, 0);
    var t := FirstTrial(K, mixed, B, 0);
    assert t >= used - 1;
    UnitsSplit(K, mixed, B, t);
    TimesOrder(used, t + 1, Sqr(|B|));
  }

  /** What the search says about a set of roots: it is charged exactly its cost,
      and stopped exactly when the budget is below that. */
  ghost predicate Charged<F(!new)>(K: Field<F>, mixed: seq<F>, A: seq<F>, status: Status, work0: int, work: int)
    requires IsBinaryField(K)
  {
    match status
    case Done => work == work0 - Cost(K, mixed, A) && (|A| >= 3 ==> work >= 0)
    case BudgetExhausted => |A| >= 3 && work0 < Cost(K, mixed, A)
    case DecodeFailure => true
  }

  ghost predicate ChargedAt<F(!new)>(K: Field<F>, mixed: seq<F>, poly: seq<F>, A: seq<F>, status: Status, work0: int,
      work: int)
    requires IsBinaryField(K)
  {
    Distinct(A) && poly == Prod(K, A) ==> Charged(K, mixed, A, status, work0, work)
  }

  lemma {:induction false} ExhaustedUnits<F(!new)>(K: Field<F>, mixed: seq<F>, poly: seq<F>, rest: seq<seq<F>>,
      p: seq<F>, roots: seq<F>, used: nat, paid: nat, A: seq<F>)
    requires IsWordField(K) && Stack(K, poly, rest + [p], roots) && ExactAt(K, mixed, poly, rest + [p], paid, A)
    requires |p| >= 4 && 1 <= used <= Trials(K, mixed) && Failed(K, mixed, p, used - 1)
    requires Distinct(A) && poly == Prod(K, A)
    ensures |A| >= 3 && paid + TrialUnits(used, |p| - 1) <= Units(K, mixed, A)
  {
    ProdMonic(K, A);
    AccountsPart(K, poly, rest, p, roots, A);
    FailedUnits(K, mixed, p, RootsIn(K, p, A), used);
    NeedsPush(K, mixed, rest, p, A);
    assert p in rest + [p];
  }

  lemma {:induction false} ExactExhausted<F(!new)>(K: Field<F>, mixed: seq<F>, poly: seq<F>, rest: seq<seq<F>>,
      p: seq<F>, roots: seq<F>, used: nat, paid: nat, paid': nat, work0: int, work: int)
    requires IsWordField(K) && Stack(K, poly, rest + [p], roots) && Exact(K, mixed, poly, rest + [p], paid)
    requires |p| >= 4 && 1 <= used <= Trials(K, mixed) && Failed(K, mixed, p, used - 1)
    requires paid' == paid + TrialUnits(used, |p| - 1) && work0 < Times(paid', K.bits - 1)
    ensures forall A :: ChargedAt(K, mixed, poly, A, BudgetExhausted, work0, work)
  {
    forall A
      ensures ChargedAt(K, mixed, poly, A, BudgetExhausted, work0, work)
    {
      if Distinct(A) && poly == Prod(K, A) {
        assert ExactAt(K, mixed, poly, rest + [p], paid, A);
        ExhaustedUnits(K, mixed, poly, rest, p, roots, used, paid, A);
        ExhaustedCost(K, mixed, A, paid', work0, work);
      }
    }
  }

  lemma {:induction false} ExhaustedCost<F(!new)>(K: Field<F>, mixed: seq<F>, A: seq<F>, units: nat, work0: int,
      work: int)
    requires IsBinaryField(K) && |A| >= 3 && units <= Units(K, mixed, A) && work0 < Times(units, K.bits - 1)
    ensures Charged(K, mixed, A, BudgetExhausted, work0, work)
  {
    TimesOrder(units, Units(K, mixed, A), K.bits - 1);
  }

  lemma {:induction false} UnitsPositive<F(!new)>(K: Field<F>, mixed: seq<F>, A: seq<F>)
    requires IsWordField(K) && Distinct(A) && |A| >= 3
    ensures Units(K, mixed, A) > 0
  {
    FirstTrialBound(K, mixed, A);
    var t := FirstTrial(K, mixed, A, 0);
    UnitsSplit(K, mixed, A, t);
    TimesOrder(1, t + 1, Sqr(|A|));
    assert Times(1, Sqr(|A|)) == Sqr(|A|);
  }

  lemma {:induction false} ExactDone<F(!new)>(K: Field<F>, mixed: seq<F>, poly: seq<F>, paid: nat, work0: int,
      work: int)
    requires IsWordField(K) && Exact(K, mixed, poly, [], paid) && Budget(K, mixed, poly, [], paid, work0, work)
    ensures forall A :: ChargedAt(K, mixed, poly, A, Done, work0, work)
  {
    forall A
      ensures ChargedAt(K, mixed, poly, A, Done, work0, work)
    {
      assert ExactAt(K, mixed, poly, [], paid, A);
      if Distinct(A) && |A| >= 3 {
        UnitsPositive(K, mixed, A);
      }
    }
  }

  /** Degrees zero to two are solved directly. */
  method SolveSmall<F(==,!new)>(K: Field<F>, p: seq<F>) returns (ok: bool, found: seq<F>)
    requires IsWordField(K) && 1 <= |p| <= 3
    ensures ok && Monic(K, p) ==> Prod(K, found) == p
    ensures !ok ==> !Splits(K, p)
  {
    if |p| == 1 {
      return true, [];
    }
    if |p| == 2 {
      if Monic(K, p) {
        LinearProduct(K, p);
      }
      return true, [p[0]];
    }
    var r, s;
    ok, r, s := QuadraticRoots(K, p);
    found := [r, s];
  }

  lemma LinearProduct<F(!new)>(K: Field<F>, p: seq<F>)
    requires IsField(K) && Monic(K, p) && |p| == 2
    ensures Prod(K, [p[0]]) == p
  {
    assert [p[0]][..0] == [];
    PMulOne(K, p);
    assert p == Linear(K, p[0]);
  }

  /** What the stack says about the polynomial, when that is monic. */
  ghost predicate Stack<F>(K: Field<F>, poly: seq<F>, pending: seq<seq<F>>, roots: seq<F>) {
    && (Monic(K, poly) ==> Accounts(K, poly, pending, roots))
    && forall p :: p in pending ==> Degree(p) <= Degree(poly)
  }

  lemma StackTop<F(!new)>(K: Field<F>, poly: seq<F>, rest: seq<seq<F>>, p: seq<F>, roots: seq<F>)
    requires IsField(K) && Stack(K, poly, rest + [p], roots)
    ensures Degree(p) <= Degree(poly) && (Splits(K, poly) ==> Splits(K, p) && Monic(K, p))
    ensures Monic(K, poly) ==> Monic(K, p)
  {
    assert p in rest + [p];
    SplitsMonic(K, poly);
    SplitsMonic(K, p);
    if Splits(K, poly) {
      AccountsSplits(K, poly, rest, p, roots);
    }
  }

  lemma StackSolve<F(!new)>(K: Field<F>, poly: seq<F>, rest: seq<seq<F>>, p: seq<F>, roots: seq<F>, found: seq<F>)
    requires IsField(K) && Stack(K, poly, rest + [p], roots) && (Monic(K, p) ==> Prod(K, found) == p)
    ensures Stack(K, poly, rest, roots + found)
  {
    StackTop(K, poly, rest, p, roots);
    if Monic(K, poly) {
      AccountsSolve(K, poly, rest, p, roots, found);
    }
    forall r | r in rest
      ensures Degree(r) <= Degree(poly)
    {
      assert r in rest + [p];
    }
  }

  lemma StackSplit<F(!new)>(K: Field<F>, poly: seq<F>, rest: seq<seq<F>>, p: seq<F>, roots: seq<F>, q: seq<F>,
      f: seq<F>)
    requires IsField(K) && Stack(K, poly, rest + [p], roots) && p == PMul(K, q, f) && Monic(K, q) && Monic(K, f)
    ensures Stack(K, poly, rest + [q, f], roots)
  {
    StackTop(K, poly, rest, p, roots);
    if Monic(K, poly) {
      AccountsSplit(K, poly, rest, p, roots, q, f);
    }
    forall r | r in rest + [q, f]
      ensures Degree(r) <= Degree(poly)
    {
      assert r in rest ==> r in rest + [p];
    }
  }

  // ---- the state of the loop

  /** The pending factors and the roots make up the polynomial, and the units
      paid so far account for the work. */
  ghost predicate Searching<F(!new)>(K: Field<F>, mixed: seq<F>, poly: seq<F>, pending: seq<seq<F>>, roots: seq<F>,
      paid: nat, work0: int, work: int)
    requires IsBinaryField(K)
  {
    && Stack(K, poly, pending, roots)
    && Budget(K, mixed, poly, pending, paid, work0, work)
    && Exact(K, mixed, poly, pending, paid)
  }

  lemma {:induction false} SearchStart<F(!new)>(K: Field<F>, mixed: seq<F>, poly: seq<F>, work0: int)
    requires IsBinaryField(K)
    ensures Searching(K, mixed, poly, [poly], [], 0, work0, work0)
  {
    if Monic(K, poly) {
      AccountsStart(K, poly);
    }
    MeasuresPush(K, mixed, [], poly);
    assert [] + [poly] == [poly];
    ExactStart(K, mixed, poly);
  }

  lemma {:induction false} SearchSolve<F(!new)>(K: Field<F>, mixed: seq<F>, poly: seq<F>, pending: seq<seq<F>>,
      rest: seq<seq<F>>, p: seq<F>, roots: seq<F>, roots': seq<F>, found: seq<F>, paid: nat, work0: int, work: int)
    requires IsBinaryField(K) && Searching(K, mixed, poly, pending, roots, paid, work0, work)
    requires pending == rest + [p] && roots' == roots + found
    requires 1 <= |p| <= 3 && (Monic(K, p) ==> Prod(K, found) == p)
    ensures Searching(K, mixed, poly, rest, roots', paid, work0, work) && Weight(rest) < Weight(pending)
  {
    ExactSolve(K, mixed, poly, rest, p, roots, paid);
    StackSolve(K, poly, rest, p, roots, found);
    MeasuresPush(K, mixed, rest, p);
  }

  /** What the trial loop says about a factor it has split or run out of budget on. */
  ghost predicate Tried<F(!new)>(K: Field<F>, mixed: seq<F>, p: seq<F>, used: nat, price: nat, before: int, after: int)
    requires K.bits >= 1
  {
    && |p| >= 4 && 1 <= used <= Trials(K, mixed) && Failed(K, mixed, p, used - 1)
    && price == Times(Sqr(|p| - 1), K.bits - 1) && after == before - Times(used, price)
  }

  lemma {:induction false} SearchSplit<F(!new)>(K: Field<F>, mixed: seq<F>, poly: seq<F>, pending: seq<seq<F>>,
      rest: seq<seq<F>>, p: seq<F>, roots: seq<F>, q: seq<F>, f: seq<F>, used: nat, price: nat, paid: nat, paid': nat,
      work0: int, before: int, work: int)
    requires IsBinaryField(K) && Searching(K, mixed, poly, rest + [p], roots, paid, work0, before)
    requires Tried(K, mixed, p, used, price, before, work) && work >= 0
    requires pending == rest + [q, f] && paid' == paid + TrialUnits(used, |p| - 1)
    requires p == PMul(K, q, f) && Monic(K, q) && Monic(K, f) && 1 < |f| < |p| && |q| == |p| - |f| + 1
    requires ZeroSide(K, p, f, TrialParameter(K, mixed, used - 1))
    ensures Searching(K, mixed, poly, pending, roots, paid', work0, work) && Weight(pending) < Weight(rest + [p])
  {
    BudgetSplit(K, mixed, poly, rest, p, q, f, paid, paid', used, price, work0, before, work);
    MeasuresSplit(K, mixed, rest, p, q, f);
    ExactSplit(K, mixed, poly, rest, p, roots, q, f, used, paid, paid');
    StackSplit(K, poly, rest, p, roots, q, f);
  }

  lemma {:induction false} SearchExhausted<F(!new)>(K: Field<F>, mixed: seq<F>, poly: seq<F>, rest: seq<seq<F>>,
      p: seq<F>, roots: seq<F>, used: nat, price: nat, paid: nat, work0: int, before: int, work: int)
    requires IsWordField(K) && Searching(K, mixed, poly, rest + [p], roots, paid, work0, before)
    requires Tried(K, mixed, p, used, price, before, work) && work < 0
    ensures forall A :: ChargedAt(K, mixed, poly, A, BudgetExhausted, work0, work)
  {
    var paid' := paid + TrialUnits(used, |p| - 1);
    WorkAfter(K, mixed, poly, rest + [p], paid, paid', used, |p| - 1, price, work0, before, work);
    ExactExhausted(K, mixed, poly, rest, p, roots, used, paid, paid', work0, work);
  }

  /** A popped factor of degree up to two gives its roots directly. */
  method SolveTop<F(==,!new)>(K: Field<F>, ghost mixed: seq<F>, ghost poly: seq<F>, rest: seq<seq<F>>, p: seq<F>,
      roots: seq<F>, ghost paid: nat, ghost work0: int, ghost work: int) returns (ok: bool, roots': seq<F>)
    requires IsWordField(K) && 1 <= |p| <= 3 && Searching(K, mixed, poly, rest + [p], roots, paid, work0, work)
    ensures ok ==> Searching(K, mixed, poly, rest, roots', paid, work0, work) && Weight(rest) < Weight(rest + [p])
    ensures !ok ==> !Splits(K, p)
  {
    var found;
    ok, found := SolveSmall(K, p);
    roots' := roots + found;
    if ok {
      SearchSolve(K, mixed, poly, rest + [p], rest, p, roots, roots', found, paid, work0, work);
    }
  }

  /** The trials on the factor p that was popped; its two factors are pushed. */
  method SplitTop<F(==,!new)>(K: Field<F>, mixed: seq<F>, ghost poly: seq<F>, rest: seq<seq<F>>, p: seq<F>,
      ghost roots: seq<F>, ghost paid: nat, ghost work0: int, work: int)
      returns (status: Status, pending: seq<seq<F>>, ghost paid': nat, left: int)
    requires IsWordField(K) && |p| >= 4 && Searching(K, mixed, poly, rest + [p], roots, paid, work0, work)
    ensures status.Done? ==> Searching(K, mixed, poly, pending, roots, paid', work0, left)
    ensures status.Done? ==> Weight(pending) < Weight(rest + [p])
    ensures status.BudgetExhausted? ==> left < 0 && forall A ::
      ChargedAt(K, mixed, poly, A, BudgetExhausted, work0, left)
    ensures status.DecodeFailure? ==> !Splits(K, p) || forall e: nat :: |p| - 1 <= e ==> !Affordable(K, e)
    ensures status.DecodeFailure? ==> left == work || left >= 0
    ensures left >= work0 - WorstCase(K, mixed, Degree(poly))
  {
    var priced, price := Price(K, |p| - 1);
    var quotient, factor;
    ghost var used;
    status, quotient, factor, left, used := Split(K, mixed, p, priced, price, work);
    ghost var tried := if status.DecodeFailure? then Trials(K, mixed) else used;
    TrialsLeft(K, mixed, poly, rest, p, paid, tried, price, work0, work, left);
    pending, paid' := rest, paid;
    if status.BudgetExhausted? {
      SearchExhausted(K, mixed, poly, rest, p, roots, used, price, paid, work0, work, left);
    } else if status.Done? {
      paid' := paid + TrialUnits(used, |p| - 1);
      pending := rest + [quotient, factor];
      SearchSplit(K, mixed, poly, pending, rest, p, roots, quotient, factor, used, price, paid, paid', work0, work,
        left);
    }
  }

  /** What a search that stops early says about the polynomial and the work. */
  ghost predicate Stopped<F(!new)>(K: Field<F>, mixed: seq<F>, poly: seq<F>, status: Status, work0: int, work: int)
    requires IsBinaryField(K)
  {
    && (status.DecodeFailure? && Affordable(K, Degree(poly)) ==> !Splits(K, poly))
    && (status.BudgetExhausted? ==> work < 0 && Degree(poly) >= 3)
    && (!status.BudgetExhausted? ==> work == work0 || work >= 0)
    && work >= work0 - WorstCase(K, mixed, Degree(poly))
    && forall A :: ChargedAt(K, mixed, poly, A, status, work0, work)
  }

  /** One pass of the loop: the last pending factor is solved or split. */
  method PopFactor<F(==,!new)>(K: Field<F>, mixed: seq<F>, ghost poly: seq<F>, before: seq<seq<F>>, known: seq<F>,
      ghost paid: nat, ghost work0: int, work: int)
      returns (status: Status, pending: seq<seq<F>>, roots: seq<F>, ghost paid': nat, left: int)
    requires IsWordField(K) && before != [] && Searching(K, mixed, poly, before, known, paid, work0, work)
    ensures status.Done? ==> Searching(K, mixed, poly, pending, roots, paid', work0, left)
    ensures status.Done? ==> Weight(pending) < Weight(before)
    ensures !status.Done? ==> Stopped(K, mixed, poly, status, work0, left)
  {
    var p := before[|before| - 1];
    var rest := before[..|before| - 1];
    assert before == rest + [p];
    StackTop(K, poly, rest, p, known);
    BudgetLeft(K, mixed, poly, before, paid, work0, work);
    var degree := |p| - 1;
    pending, roots, paid', left := rest, known, paid, work;
    if degree < 0 {
      return DecodeFailure, pending, roots, paid', left;
    }
    if degree <= 2 {
      var ok;
      ok, roots := SolveTop(K, mixed, poly, rest, p, known, paid, work0, work);
      return if ok then Done else DecodeFailure, pending, roots, paid', left;
    }
    status, pending, paid', left := SplitTop(K, mixed, poly, rest, p, known, paid, work0, work);
  }

  /** Finds all roots by splitting. On success the roots multiply back to the
      polynomial. A product of distinct linear factors within the int range is
      never refused, is charged exactly the cost of its roots, and is cut short
      exactly when the budget is below that cost. Any other polynomial is
      charged at most the worst case of its degree. */
  method FindRootsWithBudget<F(==,!new)>(K: Field<F>, mixed: seq<F>, poly: seq<F>, work0: int)
      returns (status: Status, roots: seq<F>, work: int)
    requires IsWordField(K)
    ensures status.Done? && Monic(K, poly) ==> Prod(K, roots) == poly
    ensures forall A :: ChargedAt(K, mixed, poly, A, status, work0, work)
    ensures status.DecodeFailure? && Affordable(K, Degree(poly)) ==> !Splits(K, poly)
    ensures status.BudgetExhausted? ==> work < 0 && Degree(poly) >= 3
    ensures !status.BudgetExhausted? ==> work == work0 || work >= 0
    ensures work >= work0 - WorstCase(K, mixed, Degree(poly))
  {
    var pending := [poly];
    roots, work := [], work0;
    ghost var paid: nat := 0;
    SearchStart(K, mixed, poly, work0);
    while |pending| > 0
      invariant Searching(K, mixed, poly, pending, roots, paid, work0, work)
      decreases Weight(pending)
    {
      status, pending, roots, paid, work := PopFactor(K, mixed, poly, pending, roots, paid, work0, work);
      if !status.Done? {
        return status, roots, work;
      }
    }
    if Monic(K, poly) {
      AccountsDone(K, poly, roots);
    }
    BudgetLeft(K, mixed, poly, pending, paid, work0, work);
    status := Done;
    ExactDone(K, mixed, poly, paid, work0, work);
  }
}
