/** Splitting a set by the traces of its members: which trial separates them,
    what the whole search costs, and how much it can cost for a set of a size. */
module Splitting {
  import opened FieldTheory
  import opened Lists
  import opened Quadratic

  /** The work a search may use. */
  const MAX_FACTOR_WORK := 8_000_000

  // ---- trials

  /** The parameter of a trial: the mixed parameters first, then the basis. */
  function TrialParameter<F>(K: Field<F>, mixed: seq<F>, trial: nat): F {
    if trial < |mixed| then mixed[trial] else K.unit(trial - |mixed|)
  }

  function Trials<F>(K: Field<F>, mixed: seq<F>): nat { |mixed| + K.bits }

  /** The members of A all have the same trace under a parameter. */
  ghost predicate SameTraces<F>(K: Field<F>, A: seq<F>, parameter: F)
    requires K.bits >= 1
  {
    forall a, b :: a in A && b in A ==> Trace(K, K.mul(parameter, a)) == Trace(K, K.mul(parameter, b))
  }

  ghost predicate FailsAt<F>(K: Field<F>, mixed: seq<F>, A: seq<F>, t: nat)
    requires K.bits >= 1
  {
    SameTraces(K, A, TrialParameter(K, mixed, t))
  }

  /** The first trial, from t on, that separates members of A. */
  ghost function FirstTrial<F>(K: Field<F>, mixed: seq<F>, A: seq<F>, t: nat): (r: nat)
    requires K.bits >= 1 && t <= Trials(K, mixed)
    ensures t <= r <= Trials(K, mixed)
    decreases Trials(K, mixed) - t
  {
    if t == Trials(K, mixed) || !FailsAt(K, mixed, A, t) then t else FirstTrial(K, mixed, A, t + 1)
  }

  lemma {:induction false} FirstSeparates<F>(K: Field<F>, mixed: seq<F>, A: seq<F>, t: nat)
    requires K.bits >= 1 && t <= Trials(K, mixed)
    ensures var r := FirstTrial(K, mixed, A, t);
      && (forall j: nat :: t <= j < r ==> FailsAt(K, mixed, A, j))
      && (r < Trials(K, mixed) ==> !FailsAt(K, mixed, A, r))
    decreases Trials(K, mixed) - t
  {
    if t < Trials(K, mixed) && FailsAt(K, mixed, A, t) {
      FirstSeparates(K, mixed, A, t + 1);
    }
  }

  // ---- traces separate distinct elements

  lemma TraceAdd<F(!new)>(K: Field<F>, a: F, b: F)
    requires IsBinaryField(K)
    ensures Trace(K, K.add(a, b)) == K.add(Trace(K, a), Trace(K, b))
  {
    TraceToAdd(K, a, b, K.bits - 1);
  }

  lemma TraceOfZero<F(!new)>(K: Field<F>, parameter: F)
    requires IsBinaryField(K)
    ensures Trace(K, K.mul(parameter, K.zero)) == K.zero == Trace(K, K.zero)
  {
    MulZero(K, parameter);
    TraceAdd(K, K.zero, K.zero);
    AddZero(K, K.zero);
    AddCancel(K, Trace(K, K.zero), Trace(K, K.zero));
  }

  /** Traces agree exactly when the difference has trace zero. */
  lemma TraceDifference<F(!new)>(K: Field<F>, parameter: F, a: F, b: F)
    requires IsBinaryField(K)
    ensures Trace(K, K.mul(parameter, a)) == Trace(K, K.mul(parameter, b)) <==>
      Trace(K, K.mul(parameter, K.add(a, b))) == K.zero
  {
    Distrib(K, parameter, a, b);
    TraceAdd(K, K.mul(parameter, a), K.mul(parameter, b));
    AddCancel(K, Trace(K, K.mul(parameter, a)), Trace(K, K.mul(parameter, b)));
  }

  lemma {:induction false} TraceOfSpan<F(!new)>(K: Field<F>, d: F, y: F, n: nat)
    requires IsWordField(K) && n <= K.bits
    requires forall k: nat :: k < n ==> Trace(K, K.mul(K.unit(k), d)) == K.zero
    ensures Trace(K, K.mul(Span(K, y, n), d)) == K.zero
  {
    if n == 0 {
      TraceOfZero(K, d);
      MulComm(K, K.zero, d);
    } else {
      var s, u := Span(K, y, n - 1), K.unit(n - 1);
      TraceOfSpan(K, d, y, n - 1);
      Distrib(K, d, s, u);
      TraceAdd(K, K.mul(s, d), K.mul(u, d));
      AddZero(K, K.zero);
    }
  }

  /** Only zero has trace zero under the whole basis. */
  lemma SilentIsZero<F(!new)>(K: Field<F>, d: F)
    requires IsWordField(K) && forall k: nat :: k < K.bits ==> Trace(K, K.mul(K.unit(k), d)) == K.zero
    ensures d == K.zero
  {
    if d != K.zero {
      var w :| HasTraceOne(K, w);
      var y := K.mul(w, Inv(K, d));
      MulAssoc(K, w, Inv(K, d), d);
      MulInv(K, d);
      MulOne(K, w);
      SpanAll(K, y);
      TraceOfSpan(K, d, y, K.bits);
      assert false;
    }
  }

  /** Some basis parameter gives two distinct elements different traces. */
  lemma TraceSeparates<F(!new)>(K: Field<F>, a: F, b: F)
    requires IsWordField(K) && a != b
    ensures exists k: nat :: k < K.bits && Trace(K, K.mul(K.unit(k), a)) != Trace(K, K.mul(K.unit(k), b))
  {
    var d := K.add(a, b);
    AddCancel(K, a, b);
    forall k: nat | k < K.bits
      ensures Trace(K, K.mul(K.unit(k), a)) == Trace(K, K.mul(K.unit(k), b)) <==>
        Trace(K, K.mul(K.unit(k), d)) == K.zero
    {
      TraceDifference(K, K.unit(k), a, b);
    }
    if forall k: nat :: k < K.bits ==> Trace(K, K.mul(K.unit(k), d)) == K.zero {
      SilentIsZero(K, d);
    }
  }

  // ---- the parts of a set

  ghost predicate ZeroTrace<F>(K: Field<F>, parameter: F, a: F)
    requires K.bits >= 1
  {
    Trace(K, K.mul(parameter, a)) == K.zero
  }

  /** The members whose trace under the parameter is zero, or the others. */
  ghost function Part<F>(K: Field<F>, A: seq<F>, parameter: F, zero: bool): (B: seq<F>)
    requires K.bits >= 1
  {
    if A == [] then [] else
      var B' := Part(K, A[..|A| - 1], parameter, zero);
      if ZeroTrace(K, parameter, A[|A| - 1]) == zero then B' + [A[|A| - 1]] else B'
  }

  lemma {:induction false} PartMembers<F(!new)>(K: Field<F>, A: seq<F>, parameter: F, zero: bool)
    requires K.bits >= 1
    ensures forall a :: a in Part(K, A, parameter, zero) <==> a in A && ZeroTrace(K, parameter, a) == zero
    ensures Distinct(A) ==> Distinct(Part(K, A, parameter, zero))
  {
    if A != [] {
      PartMembers(K, A[..|A| - 1], parameter, zero);
      assert A == A[..|A| - 1] + [A[|A| - 1]];
    }
  }

  lemma {:induction false} PartSizes<F(!new)>(K: Field<F>, A: seq<F>, parameter: F)
    requires K.bits >= 1
    ensures |Part(K, A, parameter, true)| + |Part(K, A, parameter, false)| == |A|
  {
    if A != [] {
      PartSizes(K, A[..|A| - 1], parameter);
    }
  }

  /** A trial that separates members of A leaves two nonempty parts. */
  lemma SeparatedParts<F(!new)>(K: Field<F>, A: seq<F>, parameter: F)
    requires IsBinaryField(K) && !SameTraces(K, A, parameter)
    ensures var a, b := |Part(K, A, parameter, true)|, |Part(K, A, parameter, false)|;
      a >= 1 && b >= 1 && a + b == |A|
  {
    PartSizes(K, A, parameter);
    PartMembers(K, A, parameter, true);
    PartMembers(K, A, parameter, false);
    var x, y :| x in A && y in A && Trace(K, K.mul(parameter, x)) != Trace(K, K.mul(parameter, y));
    TraceIsBit(K, K.mul(parameter, x));
    TraceIsBit(K, K.mul(parameter, y));
    var zero, other := if ZeroTrace(K, parameter, x) then x else y, if ZeroTrace(K, parameter, x) then y else x;
    assert zero in Part(K, A, parameter, true) && other in Part(K, A, parameter, false);
  }

  /** Within a part the traces agree, under this parameter and under every one that failed before. */
  lemma PartFails<F(!new)>(K: Field<F>, A: seq<F>, parameter: F, zero: bool, other: F)
    requires IsBinaryField(K)
    ensures SameTraces(K, Part(K, A, parameter, zero), parameter)
    ensures SameTraces(K, A, other) ==> SameTraces(K, Part(K, A, parameter, zero), other)
  {
    var B := Part(K, A, parameter, zero);
    PartMembers(K, A, parameter, zero);
    forall a, b | a in B && b in B
      ensures Trace(K, K.mul(parameter, a)) == Trace(K, K.mul(parameter, b))
    {
      TraceIsBit(K, K.mul(parameter, a));
      TraceIsBit(K, K.mul(parameter, b));
    }
  }

  lemma FirstIs<F>(K: Field<F>, mixed: seq<F>, A: seq<F>, t: nat)
    requires K.bits >= 1 && t < Trials(K, mixed) && !FailsAt(K, mixed, A, t)
    requires forall j: nat :: j < t ==> FailsAt(K, mixed, A, j)
    ensures FirstTrial(K, mixed, A, 0) == t
  {
    FirstSeparates(K, mixed, A, 0);
  }

  /** The parts at the first separating trial are only separated by later trials. */
  lemma PartsLater<F(!new)>(K: Field<F>, mixed: seq<F>, A: seq<F>, t: nat, zero: bool)
    requires IsBinaryField(K) && t == FirstTrial(K, mixed, A, 0) < Trials(K, mixed)
    ensures FirstTrial(K, mixed, Part(K, A, TrialParameter(K, mixed, t), zero), 0) > t
  {
    var p := TrialParameter(K, mixed, t);
    var B := Part(K, A, p, zero);
    FirstSeparates(K, mixed, A, 0);
    FirstSeparates(K, mixed, B, 0);
    forall j: nat | j <= t
      ensures FailsAt(K, mixed, B, j)
    {
      PartFails(K, A, p, zero, TrialParameter(K, mixed, j));
      assert j < t ==> FailsAt(K, mixed, A, j);
    }
  }

  // ---- the cost of the search

  /** d * d, by differences. */
  ghost function Sqr(d: nat): nat {
    if d == 0 then 0 else Sqr(d - 1) + 2 * d - 1
  }

  lemma {:induction false} SqrIsProduct(d: nat)
    ensures Sqr(d) == d * d
  {
    if d > 0 {
      SqrIsProduct(d - 1);
    }
  }

  lemma {:induction false} SqrMonotone(a: nat, b: nat)
    requires a <= b
    ensures Sqr(a) <= Sqr(b)
    decreases b
  {
    if a < b {
      SqrMonotone(a, b - 1);
    }
  }

  /** n * x, by repeated addition. */
  ghost function Times(n: nat, x: nat): nat {
    if n == 0 then 0 else Times(n - 1, x) + x
  }

  lemma {:induction false} TimesIsProduct(n: nat, x: nat)
    ensures Times(n, x) == n * x
  {
    if n > 0 {
      TimesIsProduct(n - 1, x);
    }
  }

  lemma {:induction false} TimesOrder(m: nat, n: nat, x: nat)
    requires m <= n
    ensures Times(m, x) <= Times(n, x)
    decreases n
  {
    if m < n {
      TimesOrder(m, n - 1, x);
    }
  }

  lemma {:induction false} TimesOrderRight(n: nat, x: nat, y: nat)
    requires x <= y
    ensures Times(n, x) <= Times(n, y)
  {
    if n > 0 {
      TimesOrderRight(n - 1, x, y);
    }
  }

  lemma {:induction false} TimesAdd(m: nat, n: nat, x: nat)
    ensures Times(m + n, x) == Times(m, x) + Times(n, x)
    decreases n
  {
    if n > 0 {
      TimesAdd(m, n - 1, x);
    }
  }

  lemma {:induction false} TimesAssoc(a: nat, b: nat, c: nat)
    ensures Times(a, Times(b, c)) == Times(Times(a, b), c)
  {
    if a > 0 {
      TimesAssoc(a - 1, b, c);
      TimesAdd(Times(a - 1, b), b, c);
    }
  }

  /** A number of trials on k elements, each priced at k squared. */
  ghost function TrialUnits(trials: nat, k: nat): nat { Times(trials, Sqr(k)) }

  /** The squared degrees of all the trials that the search for A pays for:
      those up to the first that separates it, and then those of its parts. Up to
      two elements cost nothing. */
  ghost function Units<F(!new)>(K: Field<F>, mixed: seq<F>, A: seq<F>): nat
    requires IsBinaryField(K)
    decreases |A|
  {
    if |A| < 3 then 0 else
      var t := FirstTrial(K, mixed, A, 0);
      if t == Trials(K, mixed) then TrialUnits(t, |A|) else
        var p := TrialParameter(K, mixed, t);
        FirstSeparates(K, mixed, A, 0);
        SeparatedParts(K, A, p);
        TrialUnits(t + 1, |A|) + Units(K, mixed, Part(K, A, p, true)) + Units(K, mixed, Part(K, A, p, false))
  }

  /** The work of the search for A: every unit is one squaring for each bit but one. */
  ghost function Cost<F(!new)>(K: Field<F>, mixed: seq<F>, A: seq<F>): nat
    requires IsBinaryField(K)
  {
    Times(Units(K, mixed, A), K.bits - 1)
  }

  // ---- how many elements can stay together

  ghost predicate SilentAt<F>(K: Field<F>, mixed: seq<F>, d: F, t: nat)
    requires K.bits >= 1
  {
    ZeroTrace(K, TrialParameter(K, mixed, t), d)
  }

  /** The trials before t do not see d. */
  ghost predicate Silent<F>(K: Field<F>, mixed: seq<F>, d: F, t: nat)
    requires K.bits >= 1
  {
    forall j: nat :: j < t ==> SilentAt(K, mixed, d, j)
  }

  ghost predicate AddsNothing<F>(K: Field<F>, mixed: seq<F>, t: nat, d: F)
    requires K.bits >= 1
  {
    Silent(K, mixed, d, t) ==> SilentAt(K, mixed, d, t)
  }

  /** A trial that never separates what the trials before it left together. */
  ghost predicate Redundant<F(!new)>(K: Field<F>, mixed: seq<F>, t: nat)
    requires K.bits >= 1
  {
    forall d :: AddsNothing(K, mixed, t, d)
  }

  /** The trials from t on that are not redundant. */
  ghost function Room<F(!new)>(K: Field<F>, mixed: seq<F>, t: nat): nat
    requires K.bits >= 1
    decreases Trials(K, mixed) - t
  {
    if t >= Trials(K, mixed) then 0 else
      Room(K, mixed, t + 1) + if Redundant(K, mixed, t) then 0 else 1
  }

  lemma FailsSilent<F(!new)>(K: Field<F>, mixed: seq<F>, A: seq<F>, j: nat, a: F, b: F)
    requires IsBinaryField(K) && FailsAt(K, mixed, A, j) && a in A && b in A
    ensures SilentAt(K, mixed, K.add(a, b), j)
  {
    TraceDifference(K, TrialParameter(K, mixed, j), a, b);
  }

  lemma RedundantFails<F(!new)>(K: Field<F>, mixed: seq<F>, A: seq<F>, t: nat)
    requires IsBinaryField(K) && Redundant(K, mixed, t)
    requires forall j: nat :: j < t ==> FailsAt(K, mixed, A, j)
    ensures FailsAt(K, mixed, A, t)
  {
    forall a, b | a in A && b in A
      ensures Trace(K, K.mul(TrialParameter(K, mixed, t), a)) == Trace(K, K.mul(TrialParameter(K, mixed, t), b))
    {
      var d := K.add(a, b);
      forall j: nat | j < t
        ensures SilentAt(K, mixed, d, j)
      {
        FailsSilent(K, mixed, A, j, a, b);
      }
      assert AddsNothing(K, mixed, t, d);
      TraceDifference(K, TrialParameter(K, mixed, t), a, b);
    }
  }

  /** Two elements that no trial separates are equal: the last trials go through a whole basis. */
  lemma AllTrialsSeparate<F(!new)>(K: Field<F>, mixed: seq<F>, A: seq<F>)
    requires IsWordField(K) && Distinct(A)
    requires forall j: nat :: j < Trials(K, mixed) ==> FailsAt(K, mixed, A, j)
    ensures |A| <= 1
  {
    if |A| >= 2 {
      forall k: nat | k < K.bits
        ensures Trace(K, K.mul(K.unit(k), A[0])) == Trace(K, K.mul(K.unit(k), A[1]))
      {
        assert FailsAt(K, mixed, A, |mixed| + k);
      }
      TraceSeparates(K, A[0], A[1]);
    }
  }

  /** Elements that the trials before t leave together: each later trial that
      is not redundant can at most double their number. */
  lemma {:induction false} TogetherBound<F(!new)>(K: Field<F>, mixed: seq<F>, A: seq<F>, t: nat)
    requires IsWordField(K) && Distinct(A) && t <= Trials(K, mixed)
    requires forall j: nat :: j < t ==> FailsAt(K, mixed, A, j)
    ensures |A| <= Exp2(Room(K, mixed, t))
    decreases Trials(K, mixed) - t
  {
    if t == Trials(K, mixed) {
      AllTrialsSeparate(K, mixed, A);
    } else if Redundant(K, mixed, t) {
      RedundantFails(K, mixed, A, t);
      TogetherBound(K, mixed, A, t + 1);
    } else {
      var p := TrialParameter(K, mixed, t);
      PartTogether(K, mixed, A, t, true);
      PartTogether(K, mixed, A, t, false);
      PartMembers(K, A, p, true);
      PartMembers(K, A, p, false);
      TogetherBound(K, mixed, Part(K, A, p, true), t + 1);
      TogetherBound(K, mixed, Part(K, A, p, false), t + 1);
      PartSizes(K, A, p);
    }
  }

  lemma PartTogether<F(!new)>(K: Field<F>, mixed: seq<F>, A: seq<F>, t: nat, zero: bool)
    requires IsBinaryField(K) && forall j: nat :: j < t ==> FailsAt(K, mixed, A, j)
    ensures forall j: nat :: j < t + 1 ==> FailsAt(K, mixed, Part(K, A, TrialParameter(K, mixed, t), zero), j)
  {
    var p := TrialParameter(K, mixed, t);
    forall j: nat | j < t + 1
      ensures FailsAt(K, mixed, Part(K, A, p, zero), j)
    {
      PartFails(K, A, p, zero, TrialParameter(K, mixed, j));
      assert j < t ==> FailsAt(K, mixed, A, j);
    }
  }

  /** Some trial separates the members of a set of two or more, and the trials
      left at that point leave room for the whole set. */
  lemma FirstTrialBound<F(!new)>(K: Field<F>, mixed: seq<F>, A: seq<F>)
    requires IsWordField(K) && Distinct(A)
    ensures |A| <= Exp2(Room(K, mixed, FirstTrial(K, mixed, A, 0)))
    ensures |A| >= 2 ==> FirstTrial(K, mixed, A, 0) < Trials(K, mixed)
  {
    FirstSeparates(K, mixed, A, 0);
    TogetherBound(K, mixed, A, FirstTrial(K, mixed, A, 0));
  }

  // ---- the most that a set of a size can cost

  /** Every set of two or more, up to n, is separated within the limit of its size. */
  ghost predicate LimitAt<F(!new)>(K: Field<F>, mixed: seq<F>, limit: nat -> nat, A: seq<F>, n: nat)
    requires K.bits >= 1
  {
    Distinct(A) && 2 <= |A| <= n ==> FirstTrial(K, mixed, A, 0) + 1 <= limit(|A|)
  }

  ghost predicate Limits<F(!new)>(K: Field<F>, mixed: seq<F>, limit: nat -> nat, n: nat)
    requires K.bits >= 1
  {
    forall A :: LimitAt(K, mixed, limit, A, n)
  }

  /** The sum of step(k) for k from 3 to n. */
  ghost function Total(step: nat -> nat, n: nat): nat {
    if n < 3 then 0 else step(n) + Total(step, n - 1)
  }

  ghost predicate Growing(step: nat -> nat, n: nat) {
    forall k: nat :: 3 <= k < n ==> GrowsAt(step, k)
  }

  ghost predicate GrowsAt(step: nat -> nat, k: nat) {
    var next := k + 1;
    step(k) <= step(next)
  }

  lemma {:induction false} GrowingOrder(step: nat -> nat, a: nat, b: nat, n: nat)
    requires Growing(step, n) && 3 <= a <= b <= n
    ensures step(a) <= step(b)
    decreases b
  {
    if a < b {
      GrowingOrder(step, a, b - 1, n);
      assert GrowsAt(step, b - 1);
    }
  }

  /** Two parts of two or more cost no more than one part with all but two of the elements. */
  lemma {:induction false} TotalSplit(step: nat -> nat, a: nat, b: nat, n: nat)
    requires Growing(step, n) && 2 <= a && 2 <= b && a + b <= n + 2
    ensures Total(step, a) + Total(step, b) <= Total(step, a + b - 2)
    decreases b
  {
    if b > 2 {
      TotalSplit(step, a, b - 1, n);
      GrowingOrder(step, b, a + b - 2, n);
    }
  }

  /** The units of one split of k elements are within step(k) when all but one
      stay together, as these are separated later still, and within two steps
      otherwise. */
  ghost predicate CoverAt(limit: nat -> nat, step: nat -> nat, k: nat, trial: nat)
    requires k >= 3
  {
    var rest := k - 1;
    trial <= limit(k) ==>
      && (trial < limit(rest) ==> TrialUnits(trial, k) <= step(k))
      && (k >= 4 ==> TrialUnits(trial, k) <= step(k) + step(rest))
  }

  ghost predicate Covers(limit: nat -> nat, step: nat -> nat, n: nat) {
    Growing(step, n) && forall k: nat, trial: nat :: 3 <= k <= n ==> CoverAt(limit, step, k, trial)
  }

  lemma UnitsSplit<F(!new)>(K: Field<F>, mixed: seq<F>, A: seq<F>, t: nat)
    requires IsBinaryField(K) && |A| >= 3 && t == FirstTrial(K, mixed, A, 0) < Trials(K, mixed)
    ensures var p := TrialParameter(K, mixed, t);
      Units(K, mixed, A) ==
        TrialUnits(t + 1, |A|) + Units(K, mixed, Part(K, A, p, true)) + Units(K, mixed, Part(K, A, p, false))
  {
  }

  lemma PartLimit<F(!new)>(K: Field<F>, mixed: seq<F>, limit: nat -> nat, A: seq<F>, n: nat, t: nat, zero: bool)
    requires IsBinaryField(K) && Distinct(A) && Limits(K, mixed, limit, n)
    requires t == FirstTrial(K, mixed, A, 0) < Trials(K, mixed)
    ensures var P := Part(K, A, TrialParameter(K, mixed, t), zero);
      Distinct(P) && (2 <= |P| <= n ==> t + 1 < limit(|P|))
  {
    PartsLater(K, mixed, A, t, zero);
    PartMembers(K, A, TrialParameter(K, mixed, t), zero);
    assert LimitAt(K, mixed, limit, Part(K, A, TrialParameter(K, mixed, t), zero), n);
  }

  lemma FirstLimit<F(!new)>(K: Field<F>, mixed: seq<F>, limit: nat -> nat, A: seq<F>, n: nat) returns (t: nat)
    requires IsWordField(K) && Distinct(A) && 2 <= |A| <= n && Limits(K, mixed, limit, n)
    ensures t == FirstTrial(K, mixed, A, 0) < Trials(K, mixed) && t + 1 <= limit(|A|)
    ensures var p := TrialParameter(K, mixed, t); var a, b := |Part(K, A, p, true)|, |Part(K, A, p, false)|;
      a >= 1 && b >= 1 && a + b == |A|
  {
    FirstTrialBound(K, mixed, A);
    FirstSeparates(K, mixed, A, 0);
    t := FirstTrial(K, mixed, A, 0);
    assert LimitAt(K, mixed, limit, A, n);
    SeparatedParts(K, A, TrialParameter(K, mixed, t));
  }

  /** A split pays for itself out of the total. */
  lemma {:induction false} SplitTotal(step: nat -> nat, cost: nat, a: nat, b: nat, n: nat)
    requires Growing(step, n) && a >= 1 && b >= 1 && 3 <= a + b <= n
    requires cost <= step(a + b) || (a >= 2 && b >= 2 && cost <= step(a + b) + step(a + b - 1))
    ensures cost + Total(step, a) + Total(step, b) <= Total(step, a + b)
  {
    var k := a + b;
    assert Total(step, k) == step(k) + Total(step, k - 1);
    if a >= 2 && b >= 2 {
      TotalSplit(step, a, b, n);
      assert Total(step, k - 1) == step(k - 1) + Total(step, k - 2);
    }
  }

  lemma {:induction false} SplitBound(limit: nat -> nat, step: nat -> nat, trial: nat, units: nat, left: nat,
      right: nat,
      a: nat, b: nat, n: nat)
    requires Covers(limit, step, n) && a >= 1 && b >= 1 && 3 <= a + b <= n && trial <= limit(a + b)
    requires a >= 2 ==> trial < limit(a)
    requires b >= 2 ==> trial < limit(b)
    requires units == TrialUnits(trial, a + b) + left + right && left <= Total(step, a) && right <= Total(step, b)
    ensures units <= Total(step, a + b)
  {
    assert CoverAt(limit, step, a + b, trial);
    SplitTotal(step, TrialUnits(trial, a + b), a, b, n);
  }

  /** The first split of a set: how late it can be, and what it costs. */
  lemma FirstSplit<F(!new)>(K: Field<F>, mixed: seq<F>, limit: nat -> nat, A: seq<F>, n: nat)
      returns (trial: nat, P: seq<F>, Q: seq<F>)
    requires IsWordField(K) && Distinct(A) && 3 <= |A| <= n && Limits(K, mixed, limit, n)
    ensures Distinct(P) && Distinct(Q) && |P| >= 1 && |Q| >= 1 && |P| + |Q| == |A| && trial <= limit(|A|)
    ensures (|P| >= 2 ==> trial < limit(|P|)) && (|Q| >= 2 ==> trial < limit(|Q|))
    ensures Units(K, mixed, A) == TrialUnits(trial, |A|) + Units(K, mixed, P) + Units(K, mixed, Q)
  {
    var t := FirstLimit(K, mixed, limit, A, n);
    var p := TrialParameter(K, mixed, t);
    trial, P, Q := t + 1, Part(K, A, p, true), Part(K, A, p, false);
    UnitsSplit(K, mixed, A, t);
    PartLimit(K, mixed, limit, A, n, t, true);
    PartLimit(K, mixed, limit, A, n, t, false);
  }

  /** No set of up to n elements costs more than the steps up to its size. */
  lemma {:induction false} CostBound<F(!new)>(K: Field<F>, mixed: seq<F>, limit: nat -> nat, step: nat -> nat,
      A: seq<F>, n: nat)
    requires IsWordField(K) && Distinct(A) && |A| <= n && Limits(K, mixed, limit, n) && Covers(limit, step, n)
    ensures Units(K, mixed, A) <= Total(step, |A|)
    decreases |A|
  {
    if |A| >= 3 {
      var trial, P, Q := FirstSplit(K, mixed, limit, A, n);
      CostBound(K, mixed, limit, step, P, n);
      CostBound(K, mixed, limit, step, Q, n);
      SplitBound(limit, step, trial, Units(K, mixed, A), Units(K, mixed, P), Units(K, mixed, Q), |P|, |Q|, n);
    }
  }

  ghost function FullStep<F>(K: Field<F>, mixed: seq<F>): nat -> nat { k => TrialUnits(Trials(K, mixed), k) }

  /** The most units a search can pay for on a polynomial of this degree, whatever its roots. */
  ghost function WorstUnits<F>(K: Field<F>, mixed: seq<F>, degree: nat): nat {
    Total(FullStep(K, mixed), degree)
  }

  ghost function WorstCase<F>(K: Field<F>, mixed: seq<F>, degree: nat): nat
    requires K.bits >= 1
  {
    Times(WorstUnits(K, mixed, degree), K.bits - 1)
  }

  lemma FullStepGrows<F>(K: Field<F>, mixed: seq<F>, n: nat)
    ensures Growing(FullStep(K, mixed), n)
  {
    forall k: nat | 3 <= k < n
      ensures GrowsAt(FullStep(K, mixed), k)
    {
      SqrMonotone(k, k + 1);
      TimesOrderRight(Trials(K, mixed), Sqr(k), Sqr(k + 1));
    }
  }

  lemma {:induction false} TotalMonotone(step: nat -> nat, a: nat, b: nat)
    requires a <= b
    ensures Total(step, a) <= Total(step, b)
    decreases b
  {
    if a < b && b >= 3 {
      TotalMonotone(step, a, b - 1);
    }
  }

  lemma WorstCaseMonotone<F>(K: Field<F>, mixed: seq<F>, a: nat, b: nat)
    requires K.bits >= 1 && a <= b
    ensures WorstCase(K, mixed, a) <= WorstCase(K, mixed, b)
  {
    TotalMonotone(FullStep(K, mixed), a, b);
    TimesOrder(WorstUnits(K, mixed, a), WorstUnits(K, mixed, b), K.bits - 1);
  }

  /** A set of distinct elements never costs more than that. */
  lemma CostWithinWorst<F(!new)>(K: Field<F>, mixed: seq<F>, A: seq<F>)
    requires IsWordField(K) && Distinct(A)
    ensures Cost(K, mixed, A) <= WorstCase(K, mixed, |A|)
  {
    var limit: nat -> nat, step := k => Trials(K, mixed), FullStep(K, mixed);
    forall B
      ensures LimitAt(K, mixed, limit, B, |A|)
    {
      if Distinct(B) && |B| >= 2 {
        FirstTrialBound(K, mixed, B);
      }
    }
    FullStepGrows(K, mixed, |A|);
    forall k: nat, trial: nat | 3 <= k <= |A|
      ensures CoverAt(limit, step, k, trial)
    {
      if trial <= limit(k) {
        TimesOrder(trial, Trials(K, mixed), Sqr(k));
      }
    }
    CostBound(K, mixed, limit, step, A, |A|);
    TimesOrder(Units(K, mixed, A), WorstUnits(K, mixed, |A|), K.bits - 1);
  }
}
