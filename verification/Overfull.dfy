/** A bucket that is solved although it holds more than its capacity: eleven of
    the nonzero elements of a subfield of sixteen have the sketch of the other four. */
module Overfull {
  import opened FieldTheory
  import opened Lists
  import opened PowerSums
  import opened Splitting
  import opened PinSketch
  import opened Triage
  import opened SharedBudget
  import opened Tiling
  import opened Client
  import opened Exchange
  import opened Difference
  import opened Wrappers
  import opened Integers
  import opened Gf64
  import opened DecodeBudget
  import Word64

  // ---- the nonzero elements of a subfield of sixteen

  /** g^4 = g + 1 and g^2 is not, so that g has order fifteen. */
  ghost predicate Generator<F>(K: Field<F>, g: F) {
    g != K.zero && Sq(K, Sq(K, g)) == K.add(g, K.one) && Sq(K, g) != K.add(g, K.one)
  }

  lemma SmallPower<F(!new)>(K: Field<F>, g: F)
    requires IsField(K)
    ensures Pow(K, g, 1) == g && Pow(K, g, 2) == Sq(K, g) && Pow(K, g, 4) == Sq(K, Sq(K, g))
    ensures Pow(K, g, 3) == K.mul(g, Sq(K, g)) && Pow(K, g, 5) == K.mul(g, Pow(K, g, 4))
  {
    MulOne(K, g);
    assert Pow(K, g, 1) == K.mul(g, Pow(K, g, 0));
    PowDouble(K, g, 1);
    PowDouble(K, g, 2);
  }

  lemma CancelLeft<F(!new)>(K: Field<F>, g: F, a: F, b: F)
    requires IsField(K) && g != K.zero && K.mul(g, a) == K.mul(g, b)
    ensures a == b
  {
    MulAssoc(K, Inv(K, g), g, a);
    MulAssoc(K, Inv(K, g), g, b);
    MulInv(K, g);
    MulOne(K, a);
    MulOne(K, b);
  }

  lemma OrderFifteen<F(!new)>(K: Field<F>, g: F)
    requires IsField(K) && Generator(K, g)
    ensures Pow(K, g, 15) == K.one
  {
    SmallPower(K, g);
    PowDouble(K, g, 4);
    PowDouble(K, g, 8);
    MulOne(K, K.one);
    Frobenius(K, g, K.one);
    Frobenius(K, Sq(K, g), K.one);
    // g^16 = (g + 1)^4 = g^4 + 1 = g
    AddCancel(K, g, K.one);
    assert Pow(K, g, 16) == g;
    assert Pow(K, g, 16) == K.mul(g, Pow(K, g, 15));
    MulOne(K, g);
    CancelLeft(K, g, Pow(K, g, 15), K.one);
  }

  lemma NotThreeOrFive<F(!new)>(K: Field<F>, g: F)
    requires IsField(K) && Generator(K, g)
    ensures Pow(K, g, 3) != K.one && Pow(K, g, 5) != K.one
  {
    SmallPower(K, g);
    MulOne(K, g);
    AddCancel(K, g, K.one);
    AddZero(K, g);
    if Pow(K, g, 3) == K.one {
      // g^4 = g, so 1 = 0
      MulAssoc(K, g, g, Sq(K, g));
      MulComm(K, g, Sq(K, g));
      assert Sq(K, Sq(K, g)) == K.mul(g, Pow(K, g, 3));
      AddComm(K, g, K.one);
      AddCancel(K, K.one, g);
      AddZero(K, g);
    }
    if Pow(K, g, 5) == K.one {
      // g^5 = g^2 + g, so g^2 = g + 1
      Distrib(K, g, g, K.one);
      AddCancel(K, Sq(K, g), g);
      AddComm(K, g, K.one);
    }
  }

  lemma {:induction false} PowOfPow<F(!new)>(K: Field<F>, a: F, m: nat, n: nat)
    requires IsRing(K)
    ensures Pow(K, Pow(K, a, m), n) == Pow(K, a, m * n)
    decreases n
  {
    if n > 0 {
      PowOfPow(K, a, m, n - 1);
      PowAdd(K, a, m, m * (n - 1));
      assert m + m * (n - 1) == m * n;
    }
  }

  lemma {:induction false} PowOne<F(!new)>(K: Field<F>, n: nat)
    requires IsRing(K)
    ensures Pow(K, K.one, n) == K.one
  {
    if n > 0 {
      PowOne(K, n - 1);
      MulOne(K, K.one);
    }
  }

  /** A multiple of d that is three or five above a multiple of fifteen. */
  function Times15(d: nat): nat
    requires 1 <= d < 15
  {
    [3, 9, 1, 12, 1, 3, 9, 6, 2, 2, 3, 4, 6, 12][d - 1]
  }

  lemma TimesLeaves(d: nat)
    requires 1 <= d < 15
    ensures d * Times15(d) % 15 == 3 || d * Times15(d) % 15 == 5
  {
  }

  lemma NoSmallerOrder<F(!new)>(K: Field<F>, g: F, d: nat)
    requires IsField(K) && Generator(K, g) && 1 <= d < 15
    ensures Pow(K, g, d) != K.one
  {
    var x := d * Times15(d);
    TimesLeaves(d);
    NotThreeOrFive(K, g);
    OrderFifteen(K, g);
    PowOfPow(K, g, d, Times15(d));
    PowOfPow(K, g, 15, x / 15);
    PowAdd(K, g, 15 * (x / 15), x % 15);
    PowOne(K, x / 15);
    PowOne(K, Times15(d));
    MulOne(K, Pow(K, g, x % 15));
  }

  ghost function Powers<F>(K: Field<F>, g: F, n: nat): (A: seq<F>)
    ensures |A| == n
  {
    seq(n, i requires 0 <= i < n => Pow(K, g, i))
  }

  lemma PowersDistinct<F(!new)>(K: Field<F>, g: F)
    requires IsField(K) && Generator(K, g)
    ensures Distinct(Powers(K, g, 15)) && K.zero !in Powers(K, g, 15)
  {
    var A := Powers(K, g, 15);
    forall i, j | 0 <= i < j < 15
      ensures A[i] != A[j]
    {
      PowAdd(K, g, i, j - i);
      PowNonzero(K, g, i);
      MulOne(K, Pow(K, g, i));
      NoSmallerOrder(K, g, j - i);
      if A[i] == A[j] {
        CancelLeft(K, Pow(K, g, i), Pow(K, g, j - i), K.one);
      }
    }
    forall i | 0 <= i < 15
      ensures A[i] != K.zero
    {
      PowNonzero(K, g, i);
    }
  }

  /** The geometric sum: (r + 1)(1 + r + ... + r^(n-1)) = r^n + 1. */
  lemma {:induction false} GeometricSum<F(!new)>(K: Field<F>, g: F, j: nat, n: nat)
    requires IsField(K)
    ensures var r := Pow(K, g, j);
      K.mul(K.add(r, K.one), PowerSum(K, Powers(K, g, n), j)) == K.add(Pow(K, r, n), K.one)
  {
    var r := Pow(K, g, j);
    if n == 0 {
      MulZero(K, K.add(r, K.one));
      AddZero(K, K.one);
    } else {
      var A, S, q := Powers(K, g, n), PowerSum(K, Powers(K, g, n - 1), j), Pow(K, r, n - 1);
      assert A[..n - 1] == Powers(K, g, n - 1);
      GeometricSum(K, g, j, n - 1);
      PowOfPow(K, g, n - 1, j);
      PowOfPow(K, g, j, n - 1);
      assert (n - 1) * j == j * (n - 1);
      assert PowerSum(K, A, j) == K.add(S, q);
      Distrib(K, K.add(r, K.one), S, q);
      Distrib(K, q, r, K.one);
      MulOne(K, q);
      // (q + 1) + (r q + q) = r q + 1
      AddComm(K, K.mul(r, q), q);
      AddSwap(K, q, K.one, q, K.mul(r, q));
      AddZero(K, q);
      AddZero(K, K.add(K.one, K.mul(r, q)));
      AddComm(K, K.one, K.mul(r, q));
    }
  }

  lemma SumVanishes<F(!new)>(K: Field<F>, g: F, j: nat)
    requires IsField(K) && Generator(K, g) && 1 <= j < 15
    ensures PowerSum(K, Powers(K, g, 15), j) == K.zero
  {
    var r, S := Pow(K, g, j), PowerSum(K, Powers(K, g, 15), j);
    GeometricSum(K, g, j, 15);
    PowOfPow(K, g, j, 15);
    PowOfPow(K, g, 15, j);
    assert j * 15 == 15 * j;
    OrderFifteen(K, g);
    PowOne(K, j);
    AddZero(K, K.one);
    NoSmallerOrder(K, g, j);
    AddCancel(K, r, K.one);
    NoZeroDivisors(K, K.add(r, K.one), S);
  }

  /** The first four of the fifteen, and the other eleven. */
  ghost function Four<F>(K: Field<F>, g: F): (A: seq<F>) ensures |A| == 4 { Powers(K, g, 15)[..4] }

  ghost function Eleven<F>(K: Field<F>, g: F): (A: seq<F>) ensures |A| == 11 { Powers(K, g, 15)[4..] }

  lemma SameSketch<F(!new)>(K: Field<F>, g: F)
    requires IsField(K) && Generator(K, g)
    ensures OddSums(K, Eleven(K, g), 4) == OddSums(K, Four(K, g), 4)
    ensures Distinct(Four(K, g)) && Distinct(Eleven(K, g)) && K.zero !in Four(K, g) && K.zero !in Eleven(K, g)
  {
    PowersDistinct(K, g);
    assert Powers(K, g, 15) == Four(K, g) + Eleven(K, g);
    forall i | 0 <= i < 4
      ensures OddSums(K, Eleven(K, g), 4)[i] == OddSums(K, Four(K, g), 4)[i]
    {
      var j := 2 * i + 1;
      SumVanishes(K, g, j);
      PowerSumAppend(K, Four(K, g), Eleven(K, g), j);
      AddCancel(K, PowerSum(K, Four(K, g), j), PowerSum(K, Eleven(K, g), j));
    }
  }

  // ---- an exchange over them

  lemma {:induction false} RestrictAll(D: seq<Word>, position: Word -> Position)
    ensures Restrict(D, position, Bucket(0, 0)) == D
  {
    if D != [] {
      var n := |D| - 1;
      RestrictAll(D[..n], position);
      FullDepth();
      assert D == D[..n] + [D[n]];
    }
  }

  function OneRequest(): seq<BucketRequest> { [BucketRequest(0, 0, 4)] }

  lemma OneRequestFacts()
    ensures Uniform(OneRequest(), 0, 4) && Sized(OneRequest()) && TotalCapacity(OneRequest()) == 4
  {
    assert OneRequest()[..0] == [];
    assert UniformAt(OneRequest()[0], 0, 0, 4);
    assert SizedAt(OneRequest()[0]);
  }

  /** The request for the whole space, at four coordinates, over the eleven
      elements: whatever the decoder makes of the true sketch is the other four. */
  lemma SolvedAsFour(K: Field<Word>, mixed: seq<Word>, g: Word, position: Word -> Position, outcomes: seq<Outcome>,
      left: seq<int>)
    requires IsWordField(K) && Generator(K, g) && Cost(K, mixed, Four(K, g)) <= MAX_FACTOR_WORK && |outcomes| == 1
    requires Ledger(K, mixed, SketchesOf(K, Eleven(K, g), position, OneRequest()), OneRequest(), outcomes, left)
    ensures outcomes[0].Solved? && multiset(outcomes[0].roots) == multiset(Four(K, g))
  {
    var requests, D, A := OneRequest(), Eleven(K, g), Four(K, g);
    var encoded := SketchesOf(K, D, position, requests);
    OneRequestFacts();
    SameSketch(K, g);
    RestrictAll(D, position);
    SketchAnswer(K, D, position, requests, 0);
    assert HoldsAt(K, encoded, requests, [A], 0);
    assert [A][..1] == [A] && [A][..0] == [];
    SolvedIff(K, mixed, encoded, requests, outcomes, left, [A], 0);
    assert Attempted(K, mixed, encoded, requests, outcomes, left, 0);
    DecodesSet(K, OddSums(K, A, 4), 4, A, outcomes[0].roots);
  }

  lemma OneRound(c: ReconciliationClient, requests: seq<BucketRequest>, outcomes: seq<Outcome>,
      estimate: Option<uint64>, aggregateCap: int)
    requires |requests| == |outcomes| == 1 && outcomes[0].Solved? && Invariant(InitialState(requests, 0))
    ensures var s := Run(c, InitialState(requests, 0), [Round(outcomes, estimate, aggregateCap)]);
      s.Resolved? && s.roots == outcomes[0].roots
  {
    var rounds := [Round(outcomes, estimate, aggregateCap)];
    assert rounds[..0] == [] && requests[..0] == [] && outcomes[..0] == [];
    ValidInts(requests);
    assert Run(c, InitialState(requests, 0), []) == InitialState(requests, 0);
    var d := BucketDecodeSuccess(requests[0].depth, requests[0].prefix, outcomes[0].roots);
    assert Successes(requests, outcomes) == [d] && [d][..0] == [];
    assert Failures(requests, outcomes) == [];
  }

  /** No root of an exchange over the eleven elements is one of them. */
  ghost predicate ReturnsOther(c: ReconciliationClient, D: seq<Word>, outcomes: seq<Outcome>, estimate: Option<uint64>,
      aggregateCap: int)
    requires Invariant(InitialState(OneRequest(), 0))
  {
    var s := Run(c, InitialState(OneRequest(), 0), [Round(outcomes, estimate, aggregateCap)]);
    s.Resolved? && |s.roots| == 4 && forall x :: x in s.roots ==> x !in D
  }

  lemma FourNotEleven(K: Field<Word>, g: Word, roots: seq<Word>)
    requires IsField(K) && Generator(K, g) && multiset(roots) == multiset(Four(K, g))
    ensures |roots| == 4 && forall x :: x in roots ==> x !in Eleven(K, g)
  {
    SameLength(roots, Four(K, g));
    PowersDistinct(K, g);
    assert Powers(K, g, 15) == Four(K, g) + Eleven(K, g);
    forall x | x in roots
      ensures x !in Eleven(K, g)
    {
      assert x in multiset(roots);
      DistinctHalves(Four(K, g), Eleven(K, g), x);
    }
  }

  lemma OverfullExchange(K: Field<Word>, mixed: seq<Word>, g: Word, c: ReconciliationClient, position: Word -> Position,
      outcomes: seq<Outcome>, left: seq<int>, estimate: Option<uint64>, aggregateCap: int)
    requires IsWordField(K) && Generator(K, g) && Cost(K, mixed, Four(K, g)) <= MAX_FACTOR_WORK && |outcomes| == 1
    requires Ledger(K, mixed, SketchesOf(K, Eleven(K, g), position, OneRequest()), OneRequest(), outcomes, left)
    requires Invariant(InitialState(OneRequest(), 0))
    ensures ReturnsOther(c, Eleven(K, g), outcomes, estimate, aggregateCap)
  {
    SolvedAsFour(K, mixed, g, position, outcomes, left);
    OneRound(c, OneRequest(), outcomes, estimate, aggregateCap);
    FourNotEleven(K, g, outcomes[0].roots);
  }

  const GENERATOR: Word := 0xb848_d149_48d5_2b97

  lemma GeneratorWord()
    ensures Generator(Gf(), GENERATOR)
  {
    var g := GENERATOR;
    GfSquare(g);
    GfSquare(Word64.Square(g));
    SquaresOfGenerator();
  }

  lemma SquaresOfGenerator()
    ensures Word64.Square(Word64.Square(0xb848_d149_48d5_2b97)) == Word64.Xor(0xb848_d149_48d5_2b97, 1)
    ensures Word64.Square(0xb848_d149_48d5_2b97) != Word64.Xor(0xb848_d149_48d5_2b97, 1)
  {
  }

  /** What the decoder makes of the true sketch of D under the one request. */
  ghost predicate Decoded(K: Field<Word>, mixed: seq<Word>, D: seq<Word>, position: Word -> Position,
      outcomes: seq<Outcome>, left: seq<int>)
    requires IsBinaryField(K)
  {
    |outcomes| == 1 && Ledger(K, mixed, SketchesOf(K, D, position, OneRequest()), OneRequest(), outcomes, left)
  }

  /** There are eleven words for which an exchange that starts with one request
      of capacity four resolves in its first round, and returns four other words. */
  lemma ExchangeCanReturnOther() returns (D: seq<Word>)
    ensures |D| == 11 && Distinct(D) && 0 !in D && IsBinaryField(Gf())
    ensures Uniform(OneRequest(), 0, 4) && Invariant(InitialState(OneRequest(), 0))
    ensures forall c, position, outcomes, left, estimate, aggregateCap ::
      Decoded(Gf(), Mixed(), D, position, outcomes, left) ==> ReturnsOther(c, D, outcomes, estimate, aggregateCap)
  {
    var K, mixed, g := Gf(), Mixed(), GENERATOR;
    GfIsWordField();
    GeneratorWord();
    SameSketch(K, g);
    EighteenFit(Four(K, g));
    D := Eleven(K, g);
    OneRequestFacts();
    FirstActionStarts(OneRequest(), 0, 4, 0);
    forall c, position, outcomes, left, estimate, aggregateCap | Decoded(K, mixed, D, position, outcomes, left)
      ensures ReturnsOther(c, D, outcomes, estimate, aggregateCap)
    {
      OverfullExchange(K, mixed, g, c, position, outcomes, left, estimate, aggregateCap);
    }
  }
}
