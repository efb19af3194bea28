/** Which trials count, and sets of words that need late ones. */
module Extremes {
  import opened FieldTheory
  import opened Lists
  import opened Quadratic
  import opened Splitting
  import opened WordLists

  // ---- counting all the words

  /** There are enough trials for all the words. */
  lemma RoomForAll<F(!new)>(K: Field<F>, mixed: seq<F>)
    requires IsWordField(K)
    ensures Room(K, mixed, 0) >= K.bits
  {
    WordsDistinct(K, 0, K.bits);
    TogetherBound(K, mixed, Words(K, 0, K.bits), 0);
    Exp2Order(K.bits, Room(K, mixed, 0));
  }

  ghost function From(S: set<nat>, t: nat): set<nat> { set x | x in S && x >= t }

  lemma {:induction false} RoomWithout<F(!new)>(K: Field<F>, mixed: seq<F>, S: set<nat>, t: nat)
    requires K.bits >= 1 && t <= Trials(K, mixed)
    requires forall x :: x in S ==> x < Trials(K, mixed) && Redundant(K, mixed, x)
    ensures Room(K, mixed, t) + |From(S, t)| <= Trials(K, mixed) - t
    decreases Trials(K, mixed) - t
  {
    if t == Trials(K, mixed) {
      assert From(S, t) == {};
    } else {
      RoomWithout(K, mixed, S, t + 1);
      if t in S {
        assert From(S, t) == From(S, t + 1) + {t};
      } else {
        assert From(S, t) == From(S, t + 1);
      }
    }
  }

  /** With as many redundant trials as there are mixed parameters, no other trial is redundant. */
  lemma OthersCount<F(!new)>(K: Field<F>, mixed: seq<F>, S: set<nat>, t: nat)
    requires IsWordField(K) && |S| == |mixed| && t < Trials(K, mixed) && t !in S
    requires forall x :: x in S ==> x < Trials(K, mixed) && Redundant(K, mixed, x)
    ensures !Redundant(K, mixed, t)
  {
    RoomForAll(K, mixed);
    assert From(S + {t}, 0) == S + {t};
    if Redundant(K, mixed, t) {
      RoomWithout(K, mixed, S + {t}, 0);
    }
  }

  // ---- trials that add nothing

  lemma MixedSilent<F(!new)>(K: Field<F>, mixed: seq<F>, d: F, x: F)
    requires IsBinaryField(K) && Silent(K, mixed, d, |mixed|) && (x in mixed || x == K.zero)
    ensures ZeroTrace(K, x, d)
  {
    if x in mixed {
      var j :| 0 <= j < |mixed| && mixed[j] == x;
      assert SilentAt(K, mixed, d, j);
    } else {
      TraceOfZero(K, d);
      MulComm(K, K.zero, d);
    }
  }

  lemma SumSilent<F(!new)>(K: Field<F>, d: F, x: F, y: F)
    requires IsBinaryField(K) && ZeroTrace(K, x, d) && ZeroTrace(K, y, d)
    ensures ZeroTrace(K, K.add(x, y), d)
  {
    Distrib(K, d, x, y);
    TraceAdd(K, K.mul(x, d), K.mul(y, d));
    AddZero(K, K.zero);
  }

  /** When mixed parameters add up to a word whose highest bit is u, the basis
      trial of that bit is redundant. */
  lemma {:induction false} LeadingIsRedundant<F(!new)>(K: Field<F>, mixed: seq<F>, t: nat, u: nat, x0: F, x1: F, x2: F,
      x3: F)
    requires IsWordField(K) && u < K.bits && t == |mixed| + u
    requires forall x :: x in [x0, x1, x2, x3] ==> x in mixed || x == K.zero
    requires var rest := K.add(K.add(K.add(x0, x1), K.add(x2, x3)), K.unit(u));
      forall i: nat :: u <= i < K.bits ==> !K.bit(rest, i)
    ensures Redundant(K, mixed, t)
  {
    var x := K.add(K.add(x0, x1), K.add(x2, x3));
    var rest := K.add(x, K.unit(u));
    forall i: nat | i < K.bits
      ensures K.bit(rest, i) == K.bit(Span(K, rest, u), i)
    {
      SpanBit(K, rest, u, i);
    }
    WordEq(K, rest, Span(K, rest, u));
    AddCancel(K, K.unit(u), x);
    AddComm(K, x, K.unit(u));
    AddComm(K, rest, x);
    forall d
      ensures AddsNothing(K, mixed, t, d)
    {
      if Silent(K, mixed, d, t) {
        BasisSilent(K, mixed, u, d);
        MixedSilent(K, mixed, d, x0);
        MixedSilent(K, mixed, d, x1);
        MixedSilent(K, mixed, d, x2);
        MixedSilent(K, mixed, d, x3);
        SumSilent(K, d, x0, x1);
        SumSilent(K, d, x2, x3);
        SumSilent(K, d, K.add(x0, x1), K.add(x2, x3));
        TraceOfSpan(K, d, rest, u);
        SumSilent(K, d, rest, x);
      }
    }
  }

  lemma BasisSilent<F(!new)>(K: Field<F>, mixed: seq<F>, u: nat, d: F)
    requires K.bits >= 1 && Silent(K, mixed, d, |mixed| + u)
    ensures Silent(K, mixed, d, |mixed|)
    ensures forall k: nat :: k < u ==> Trace(K, K.mul(K.unit(k), d)) == K.zero
  {
    forall k: nat | k < u
      ensures Trace(K, K.mul(K.unit(k), d)) == K.zero
    {
      assert SilentAt(K, mixed, d, |mixed| + k);
    }
  }

  // ---- sets that need late trials

  /** The trial t is the first that sees d. */
  ghost predicate FirstSeen<F>(K: Field<F>, mixed: seq<F>, t: nat, d: F)
    requires K.bits >= 1
  {
    Silent(K, mixed, d, t) && !SilentAt(K, mixed, d, t)
  }

  lemma SeenExists<F(!new)>(K: Field<F>, mixed: seq<F>, t: nat) returns (d: F)
    requires K.bits >= 1 && !Redundant(K, mixed, t)
    ensures FirstSeen(K, mixed, t, d)
  {
    d :| !AddsNothing(K, mixed, t, d);
  }

  lemma SeenIsNonzero<F(!new)>(K: Field<F>, mixed: seq<F>, t: nat, d: F)
    requires IsBinaryField(K) && !SilentAt(K, mixed, d, t)
    ensures d != K.zero
  {
    TraceOfZero(K, TrialParameter(K, mixed, t));
  }

  /** The trials before t do not see any of A. */
  ghost predicate AllSilent<F>(K: Field<F>, mixed: seq<F>, A: seq<F>, t: nat)
    requires K.bits >= 1
  {
    forall a :: a in A ==> Silent(K, mixed, a, t)
  }

  lemma SilentFails<F>(K: Field<F>, mixed: seq<F>, A: seq<F>, t: nat)
    requires K.bits >= 1 && AllSilent(K, mixed, A, t)
    ensures forall j: nat :: j < t ==> FailsAt(K, mixed, A, j)
  {
    forall j: nat | j < t
      ensures FailsAt(K, mixed, A, j)
    {
      forall a | a in A
        ensures SilentAt(K, mixed, a, j)
      {
        assert Silent(K, mixed, a, t);
      }
    }
  }

  lemma {:induction false} PartAppend<F(!new)>(K: Field<F>, A: seq<F>, B: seq<F>, parameter: F, zero: bool)
    requires K.bits >= 1
    ensures Part(K, A + B, parameter, zero) == Part(K, A, parameter, zero) + Part(K, B, parameter, zero)
  {
    if B == [] {
      assert A + B == A;
    } else {
      assert (A + B)[..|A + B| - 1] == A + B[..|B| - 1];
      PartAppend(K, A, B[..|B| - 1], parameter, zero);
    }
  }

  lemma {:induction false} PartWhole<F(!new)>(K: Field<F>, A: seq<F>, parameter: F, zero: bool)
    requires K.bits >= 1 && forall a :: a in A ==> ZeroTrace(K, parameter, a) == zero
    ensures Part(K, A, parameter, zero) == A && Part(K, A, parameter, !zero) == []
  {
    if A != [] {
      var B := A[..|A| - 1];
      forall a | a in B
        ensures ZeroTrace(K, parameter, a) == zero
      {
        assert a in A;
      }
      PartWhole(K, B, parameter, zero);
      assert A == B + [A[|A| - 1]];
    }
  }

  /** A trial that splits one element off. */
  lemma OneOff<F(!new)>(K: Field<F>, mixed: seq<F>, t: nat, d: F, B: seq<F>, zero: bool)
    requires IsBinaryField(K) && t < Trials(K, mixed) && |B| >= 2
    requires AllSilent(K, mixed, [d] + B, t)
    requires SilentAt(K, mixed, d, t) == zero && forall b :: b in B ==> SilentAt(K, mixed, b, t) == !zero
    ensures Units(K, mixed, [d] + B) == TrialUnits(t + 1, |B| + 1) + Units(K, mixed, B)
  {
    var A, p := [d] + B, TrialParameter(K, mixed, t);
    SilentFails(K, mixed, A, t);
    assert d in A && B[0] in B && B[0] in A;
    assert !SameTraces(K, A, p) by {
      TraceIsBit(K, K.mul(p, d));
    }
    FirstIs(K, mixed, A, t);
    UnitsSplit(K, mixed, A, t);
    OneOffParts(K, p, d, B, zero);
  }

  lemma OneOffParts<F(!new)>(K: Field<F>, p: F, d: F, B: seq<F>, zero: bool)
    requires K.bits >= 1 && ZeroTrace(K, p, d) == zero && forall b :: b in B ==> ZeroTrace(K, p, b) == !zero
    ensures Part(K, [d] + B, p, zero) == [d] && Part(K, [d] + B, p, !zero) == B
  {
    PartAppend(K, [d], B, p, zero);
    PartAppend(K, [d], B, p, !zero);
    PartWhole(K, [d], p, zero);
    PartWhole(K, B, p, !zero);
  }

  /** With at(k) for the trial that splits k elements: the fewer elements, the later the trial. */
  predicate FallsAt(at: nat -> nat, k: nat, end: nat) {
    var next := k + 1;
    at(next) < at(k) <= end
  }

  ghost predicate Falling(at: nat -> nat, m: nat, n: nat, end: nat) {
    forall k: nat :: m <= k < n ==> FallsAt(at, k, end)
  }

  ghost predicate AllCount<F(!new)>(K: Field<F>, mixed: seq<F>, at: nat -> nat, m: nat, n: nat)
    requires K.bits >= 1
  {
    forall k: nat :: m < k <= n ==> !Redundant(K, mixed, at(k))
  }

  /** One element is split off at each step. */
  ghost function StairStep(at: nat -> nat): nat -> nat { k => TrialUnits(at(k) + 1, k) }

  /** What a set of m elements is extended to, one element and one earlier trial at a time. */
  ghost predicate Tower<F(!new)>(K: Field<F>, mixed: seq<F>, at: nat -> nat, n: nat, A: seq<F>)
    requires K.bits >= 1
  {
    |A| == n && Distinct(A) && K.zero !in A && AllSilent(K, mixed, A, at(n))
  }

  lemma TowerStep<F(!new)>(K: Field<F>, mixed: seq<F>, at: nat -> nat, m: nat, n: nat, B: seq<F>) returns (A: seq<F>)
    requires IsBinaryField(K) && n >= 3 && m == n - 1 && Tower(K, mixed, at, m, B)
    requires at(n) < at(m) <= Trials(K, mixed) && !Redundant(K, mixed, at(n))
    ensures Tower(K, mixed, at, n, A)
    ensures Units(K, mixed, A) == TrialUnits(at(n) + 1, n) + Units(K, mixed, B)
  {
    var t := at(n);
    var d := SeenExists(K, mixed, t);
    A := [d] + B;
    SeenIsNonzero(K, mixed, t, d);
    forall b | b in B
      ensures SilentAt(K, mixed, b, t) && Silent(K, mixed, b, t)
    {
      assert Silent(K, mixed, b, at(m));
    }
    OneOff(K, mixed, t, d, B, false);
  }

  /** The units of a tower: those of its bottom and one step for each further element. */
  ghost predicate Built<F(!new)>(K: Field<F>, mixed: seq<F>, at: nat -> nat, m: nat, n: nat, units: nat, A: seq<F>)
    requires IsBinaryField(K)
  {
    Tower(K, mixed, at, n, A) && Units(K, mixed, A) + Total(StairStep(at), m) == units + Total(StairStep(at), n)
  }

  lemma {:induction false} BuildStep<F(!new)>(K: Field<F>, mixed: seq<F>, at: nat -> nat, m: nat, n: nat, units: nat,
      B: seq<F>) returns (A: seq<F>)
    requires IsBinaryField(K) && n >= 3 && Built(K, mixed, at, m, n - 1, units, B)
    requires at(n) < at(n - 1) <= Trials(K, mixed) && !Redundant(K, mixed, at(n))
    ensures Built(K, mixed, at, m, n, units, A)
  {
    A := TowerStep(K, mixed, at, n - 1, n, B);
    StairNext(at, n);
  }

  lemma {:induction false} StairNext(at: nat -> nat, n: nat)
    requires n >= 3
    ensures Total(StairStep(at), n) == TrialUnits(at(n) + 1, n) + Total(StairStep(at), n - 1)
  {
  }

  lemma {:induction false} TowerExists<F(!new)>(K: Field<F>, mixed: seq<F>, at: nat -> nat, m: nat, n: nat,
      units: nat, B: seq<F>) returns (A: seq<F>)
    requires IsBinaryField(K) && 2 <= m <= n && Built(K, mixed, at, m, m, units, B)
    requires Falling(at, m, n, Trials(K, mixed)) && AllCount(K, mixed, at, m, n)
    ensures Built(K, mixed, at, m, n, units, A)
    decreases n
  {
    if n == m {
      A := B;
    } else {
      var A' := TowerExists(K, mixed, at, m, n - 1, units, B);
      assert FallsAt(at, n - 1, Trials(K, mixed));
      A := BuildStep(K, mixed, at, m, n, units, A');
    }
  }

  // ---- the bottom of the tower: four elements that only the last two trials separate

  lemma SilentAdd<F(!new)>(K: Field<F>, mixed: seq<F>, x: F, y: F, t: nat)
    requires IsBinaryField(K) && Silent(K, mixed, x, t) && Silent(K, mixed, y, t)
    ensures Silent(K, mixed, K.add(x, y), t)
  {
    forall j: nat | j < t
      ensures SilentAt(K, mixed, K.add(x, y), j)
    {
      assert SilentAt(K, mixed, x, j) && SilentAt(K, mixed, y, j);
      SeenAdd(K, mixed, x, y, j);
    }
  }

  /** What a trial does not see can be added without it noticing. */
  lemma SeenAdd<F(!new)>(K: Field<F>, mixed: seq<F>, x: F, y: F, j: nat)
    requires IsBinaryField(K) && SilentAt(K, mixed, y, j)
    ensures SilentAt(K, mixed, K.add(x, y), j) <==> SilentAt(K, mixed, x, j)
  {
    var p := TrialParameter(K, mixed, j);
    Distrib(K, p, x, y);
    TraceAdd(K, K.mul(p, x), K.mul(p, y));
    AddZero(K, Trace(K, K.mul(p, x)));
  }

  ghost function Plane<F>(K: Field<F>, x: F, e: F, f: F): seq<F> {
    [x, K.add(x, e), K.add(x, f), K.add(x, K.add(e, f))]
  }

  lemma PlaneDistinct<F(!new)>(K: Field<F>, x: F, e: F, f: F)
    requires IsField(K) && e != K.zero && f != K.zero && e != f
    ensures Distinct(Plane(K, x, e, f))
  {
    var g := K.add(e, f);
    AddCancel(K, e, f);
    AddComm(K, e, f);
    AddCancel(K, f, e);
    AddZero(K, x);
    AddZero(K, e);
    AddZero(K, f);
    ShiftedDiffer(K, x, K.zero, e);
    ShiftedDiffer(K, x, K.zero, f);
    ShiftedDiffer(K, x, K.zero, g);
    ShiftedDiffer(K, x, e, f);
    ShiftedDiffer(K, x, e, g);
    ShiftedDiffer(K, x, f, g);
  }

  lemma ShiftedDiffer<F(!new)>(K: Field<F>, x: F, a: F, b: F)
    requires IsRing(K) && a != b
    ensures K.add(x, a) != K.add(x, b)
  {
    AddCancel(K, a, x);
    AddCancel(K, b, x);
  }

  /** Elements whose differences no trial before t sees stay together until t. */
  lemma TogetherUnits<F(!new)>(K: Field<F>, mixed: seq<F>, A: seq<F>, t: nat)
    requires IsWordField(K) && Distinct(A) && |A| >= 3
    requires forall j: nat :: j < t ==> FailsAt(K, mixed, A, j)
    ensures Units(K, mixed, A) >= TrialUnits(t + 1, |A|)
  {
    FirstTrialBound(K, mixed, A);
    FirstSeparates(K, mixed, A, 0);
    var r := FirstTrial(K, mixed, A, 0);
    UnitsSplit(K, mixed, A, r);
    assert r >= t;
    TimesOrder(t + 1, r + 1, Sqr(|A|));
  }

  lemma PlaneFails<F(!new)>(K: Field<F>, mixed: seq<F>, x: F, e: F, f: F, j: nat)
    requires IsBinaryField(K) && SilentAt(K, mixed, e, j) && SilentAt(K, mixed, f, j)
    ensures FailsAt(K, mixed, Plane(K, x, e, f), j)
    ensures forall a :: a in Plane(K, x, e, f) ==> SilentAt(K, mixed, a, j) == SilentAt(K, mixed, x, j)
  {
    var p := TrialParameter(K, mixed, j);
    SeenAdd(K, mixed, e, f, j);
    SeenAdd(K, mixed, x, e, j);
    SeenAdd(K, mixed, x, f, j);
    SeenAdd(K, mixed, x, K.add(e, f), j);
    forall a | a in Plane(K, x, e, f)
      ensures Trace(K, K.mul(p, a)) == Trace(K, K.mul(p, x))
    {
      TraceIsBit(K, K.mul(p, a));
      TraceIsBit(K, K.mul(p, x));
    }
  }

  /** Five elements: one that trial t does not see, and four that it sees and
      that stay together until the trial after. */
  lemma FiveExist<F(!new)>(K: Field<F>, mixed: seq<F>, at: nat -> nat, t: nat, u: nat, v: nat) returns (B: seq<F>)
    requires IsWordField(K) && at(5) == t < u < v && t < Trials(K, mixed)
    requires !Redundant(K, mixed, t) && !Redundant(K, mixed, u) && !Redundant(K, mixed, v)
    ensures Tower(K, mixed, at, 5, B)
    ensures Units(K, mixed, B) >= TrialUnits(t + 1, 5) + TrialUnits(u + 1, 4)
  {
    var x := SeenExists(K, mixed, t);
    var e := SeenExists(K, mixed, u);
    var f := SeenExists(K, mixed, v);
    SeenIsNonzero(K, mixed, u, e);
    SeenIsNonzero(K, mixed, v, f);
    assert SilentAt(K, mixed, f, u) && SilentAt(K, mixed, e, t) && SilentAt(K, mixed, f, t);
    PlaneDistinct(K, x, e, f);
    var P := Plane(K, x, e, f);
    PlaneFails(K, mixed, x, e, f, t);
    forall j: nat | j < u
      ensures FailsAt(K, mixed, P, j)
    {
      assert SilentAt(K, mixed, e, j) && SilentAt(K, mixed, f, j);
      PlaneFails(K, mixed, x, e, f, j);
    }
    TogetherUnits(K, mixed, P, u);
    B := [e] + P;
    PlaneSilent(K, mixed, x, e, f, t);
    OneOff(K, mixed, t, e, P, true);
    forall a | a in P
      ensures a != K.zero && a != e
    {
      SeenIsNonzero(K, mixed, t, a);
    }
  }

  lemma PlaneSilent<F(!new)>(K: Field<F>, mixed: seq<F>, x: F, e: F, f: F, t: nat)
    requires IsBinaryField(K) && Silent(K, mixed, x, t) && Silent(K, mixed, e, t) && Silent(K, mixed, f, t)
    ensures AllSilent(K, mixed, [e] + Plane(K, x, e, f), t)
  {
    SilentAdd(K, mixed, e, f, t);
    SilentAdd(K, mixed, x, e, t);
    SilentAdd(K, mixed, x, f, t);
    SilentAdd(K, mixed, x, K.add(e, f), t);
  }
}
