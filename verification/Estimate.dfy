/** The size of a difference, estimated from the highest stratum in which two
    populations differ. */
module Estimate {
  import opened Wrappers
  import opened Integers
  import opened FieldTheory
  import opened PowerSums
  import opened Splitting
  import opened PinSketch
  import opened Algebraic
  import opened Resident
  import opened WordOrder
  import T = FactorTrials

  const FALLBACK_ESTIMATE: uint64 := 8 * 0x8000_0000

  type Strata<F> = seq<seq<F>>

  predicate Shaped<F>(strata: Strata<F>) {
    |strata| == STRATA_COUNT && forall i :: 0 <= i < STRATA_COUNT ==> |strata[i]| == STRATUM_CAPACITY
  }

  /** How much one element found in a stratum stands for: one in so many words is
      in the stratum. */
  function Weight(stratum: nat): nat { Exp2(if stratum >= 31 then 31 else stratum + 1) }

  /** The highest stratum in which the two sides differ, and the elements on one
      side only in it, if it can hold them. */
  ghost predicate TopSet<F>(K: Field<F>, local: Strata<F>, remote: Strata<F>, t: nat, D: seq<F>)
    requires Shaped(local) && Shaped(remote)
  {
    && t < STRATA_COUNT && D != [] && Candidate(K, Added(K, local[t], remote[t]), STRATUM_CAPACITY, D)
    && forall i :: t < i < STRATA_COUNT ==> local[i] == remote[i]
  }

  ghost predicate TopStratum<F>(local: Strata<F>, remote: Strata<F>, t: nat)
    requires Shaped(local) && Shaped(remote)
  {
    t < STRATA_COUNT && local[t] != remote[t] && forall i :: t < i < STRATA_COUNT ==> local[i] == remote[i]
  }

  ghost predicate Weighted(value: int, stratum: nat, c: nat) { 1 <= c <= 8 && value == c * Weight(stratum) }

  /** An estimate: zero exactly when the strata agree, and otherwise the greatest
      estimate or the weight of up to eight elements in the top stratum: of those
      it holds, when it can hold them. */
  ghost predicate Estimated<F(!new)>(K: Field<F>, local: Strata<F>, remote: Strata<F>, estimate: Option<uint64>)
    requires Shaped(local) && Shaped(remote)
  {
    && estimate.Some? && estimate.value <= 8 * 0x8000_0000 && (estimate.value == 0 <==> local == remote)
    && (forall t: nat :: TopStratum(local, remote, t) ==>
      estimate.value == 8 * 0x8000_0000 || exists c: nat :: Weighted(estimate.value, t, c))
    && forall t: nat, D :: TopSet(K, local, remote, t, D) ==> estimate.value == |D| * Weight(t)
  }

  lemma SmallPowers(n: nat)
    requires n <= 31
    ensures 1 <= Exp2(n) <= 0x8000_0000
  {
    assert Exp2(8) == 0x100;
    assert Exp2(16) == 0x1_0000;
    assert Exp2(24) == 0x100_0000;
    assert Exp2(31) == 0x8000_0000;
    Exp2Order(n, 31);
  }

  /** A sum of coordinates is all zero exactly for equal coordinates. */
  lemma ZeroSum<F(!new)>(K: Field<F>, left: seq<F>, right: seq<F>)
    requires IsField(K) && |left| == |right|
    ensures (forall i :: 0 <= i < |left| ==> Added(K, left, right)[i] == K.zero) <==> left == right
  {
    forall i | 0 <= i < |left|
      ensures Added(K, left, right)[i] == K.zero <==> left[i] == right[i]
    {
      AddCancel(K, left[i], right[i]);
    }
  }

  /** Equal coordinates hold no difference within the capacity. */
  lemma EqualHoldsNothing<F(!new)>(K: Field<F>, left: seq<F>, right: seq<F>, D: seq<F>)
    requires IsField(K) && |left| == |right| && left == right && Candidate(K, Added(K, left, right), |left|, D)
    ensures D == []
  {
    ZeroSum(K, left, right);
    assert Added(K, left, right) == OddSums(K, [], |left|);
    SketchInjective(K, Added(K, left, right), D, []);
    SameEmptiness(D, []);
  }

  lemma TopDiffers<F(!new)>(K: Field<F>, local: Strata<F>, remote: Strata<F>, t: nat, D: seq<F>)
    requires IsField(K) && Shaped(local) && Shaped(remote) && TopSet(K, local, remote, t, D)
    ensures local[t] != remote[t]
  {
    if local[t] == remote[t] {
      EqualHoldsNothing(K, local[t], remote[t], D);
    }
  }

  lemma AgreeingIsZero<F(!new)>(K: Field<F>, local: Strata<F>, remote: Strata<F>)
    requires IsField(K) && Shaped(local) && local == remote
    ensures Estimated(K, local, remote, Some(0))
  {
    forall t: nat, D
      ensures !TopSet(K, local, remote, t, D)
    {
      if TopSet(K, local, remote, t, D) {
        TopDiffers(K, local, remote, t, D);
      }
    }
  }

  lemma TopIsUnique<F(!new)>(K: Field<F>, local: Strata<F>, remote: Strata<F>, t: nat, D: seq<F>, stratum: nat)
    requires IsField(K) && Shaped(local) && Shaped(remote) && TopSet(K, local, remote, t, D)
    requires stratum < STRATA_COUNT && local[stratum] != remote[stratum]
    requires forall i :: stratum < i < STRATA_COUNT ==> local[i] == remote[i]
    ensures t == stratum
  {
    TopDiffers(K, local, remote, t, D);
  }

  lemma WeightFits(c: nat, w: nat)
    requires 1 <= c <= STRATUM_CAPACITY && 1 <= w <= 0x8000_0000
    ensures 1 <= c * w <= 8 * w <= FALLBACK_ESTIMATE && c <= MAX_UINT64 / w
  {
    QuotientBound(MAX_UINT64, w, c);
    ProductOrder(1, c * w);
  }

  lemma WeightBound(c: nat, stratum: nat)
    requires 1 <= c <= STRATUM_CAPACITY && stratum < STRATA_COUNT
    ensures 1 <= c * Weight(stratum) <= FALLBACK_ESTIMATE && c <= MAX_UINT64 / Weight(stratum)
  {
    SmallPowers(if stratum >= 31 then 31 else stratum + 1);
    WeightFits(c, Weight(stratum));
  }

  /** What the decoder says about every set behind the residual of a stratum. */
  ghost predicate Decided<F(!new)>(K: Field<F>, mixed: seq<F>, residual: seq<F>, status: T.Status, roots: seq<F>,
      work0: int, work: int)
    requires IsBinaryField(K)
  {
    forall A :: Candidate(K, residual, STRATUM_CAPACITY, A) ==> Accounted(K, mixed, A, status, roots, work0, work)
  }

  lemma EqualIsEmpty<F(!new)>(K: Field<F>, mixed: seq<F>, left: seq<F>, right: seq<F>, status: T.Status, roots: seq<F>,
      work0: int, work: int)
    requires IsBinaryField(K) && |left| == |right| == STRATUM_CAPACITY && left == right
    requires Decided(K, mixed, Added(K, left, right), status, roots, work0, work)
    ensures !status.DecodeFailure? && (status.Done? ==> roots == [])
  {
    ZeroSum(K, left, right);
    assert Added(K, left, right) == OddSums(K, [], STRATUM_CAPACITY);
    assert Candidate(K, Added(K, left, right), STRATUM_CAPACITY, []);
    assert Accounted(K, mixed, [], status, roots, work0, work);
    if status.Done? {
      assert |multiset(roots)| == |roots|;
    }
  }

  /** The first stratum whose residual is not empty decides. */
  lemma DecidesHere<F(!new)>(K: Field<F>, mixed: seq<F>, local: Strata<F>, remote: Strata<F>, stratum: nat,
      status: T.Status, roots: seq<F>, work0: int, work: int)
    requires IsWordField(K) && K.bits == 64 && Shaped(local) && Shaped(remote) && stratum < STRATA_COUNT
    requires forall i :: stratum < i < STRATA_COUNT ==> local[i] == remote[i]
    requires Decided(K, mixed, Added(K, local[stratum], remote[stratum]), status, roots, work0, work)
    requires status.Done? ==> |roots| <= STRATUM_CAPACITY
    ensures status.DecodeFailure? ==> Estimated(K, local, remote, Some(FALLBACK_ESTIMATE))
    ensures status.Done? && roots != [] ==> |roots| * Weight(stratum) <= FALLBACK_ESTIMATE
    ensures status.Done? && roots != [] ==> Estimated(K, local, remote, Some(|roots| * Weight(stratum)))
  {
    if local[stratum] == remote[stratum] {
      EqualIsEmpty(K, mixed, local[stratum], remote[stratum], status, roots, work0, work);
    } else if status.DecodeFailure? || (status.Done? && roots != []) {
      forall t: nat, D | TopSet(K, local, remote, t, D)
        ensures status.Done? && t == stratum && |D| == |roots|
      {
        TopIsUnique(K, local, remote, t, D, stratum);
        CapacityAffordable(K, |D|);
        assert Accounted(K, mixed, D, status, roots, work0, work);
        assert |multiset(roots)| == |roots| && |multiset(D)| == |D|;
      }
      if status.Done? {
        WeightBound(|roots|, stratum);
        assert Weighted(|roots| * Weight(stratum), stratum, |roots|);
      }
    }
  }

  /** The strata from the highest down, with one shared budget; the first
      difference that is found decides. The budget never runs out. */
  method EstimateDelta<F(==,!new)>(K: Field<F>, mixed: seq<F>, local: Strata<F>, remote: Strata<F>)
      returns (estimate: Option<uint64>)
    requires IsWordField(K) && K.bits == 64 && Shaped(local) && Shaped(remote)
    requires WorstCase(K, mixed, STRATUM_CAPACITY) <= MAX_FACTOR_WORK
    ensures Estimated(K, local, remote, estimate)
  {
    var work := MAX_FACTOR_WORK;
    for stratum := STRATA_COUNT downto 0
      invariant work == MAX_FACTOR_WORK && forall i :: stratum <= i < STRATA_COUNT ==> local[i] == remote[i]
    {
      var residual := Added(K, local[stratum], remote[stratum]);
      ZeroSum(K, local[stratum], remote[stratum]);
      var status, roots;
      status, roots, work := DecodePinSketch(K, mixed, residual, STRATUM_CAPACITY, work);
      if status == T.BudgetExhausted {
        assert false;
        return None;
      }
      DecidesHere(K, mixed, local, remote, stratum, status, roots, MAX_FACTOR_WORK, work);
      if status == T.DecodeFailure {
        return Some(FALLBACK_ESTIMATE);
      }
      var cardinality := |roots|;
      if cardinality == 0 {
        continue;
      }
      var weight := Weight(stratum);
      WeightBound(cardinality, stratum);
      if cardinality > MAX_UINT64 / weight {
        return Some(FALLBACK_ESTIMATE);
      }
      return Some(cardinality * weight);
    }
    assert local == remote;
    AgreeingIsZero(K, local, remote);
    return Some(0);
  }

  /** For the strata of two kernels: the top stratum in which they differ holds
      exactly the identifiers present on one side only. */
  lemma TopOfKernels<F(!new)>(K: Field<F>, left: seq<Operation<F>>, right: seq<Operation<F>>, t: nat)
      returns (A: seq<F>, B: seq<F>, D: seq<F>)
    requires IsField(K) && t < STRATA_COUNT
    requires forall i :: t < i < STRATA_COUNT ==> Run(K, left).strata[i] == Run(K, right).strata[i]
    ensures Shaped(Run(K, left).strata) && Shaped(Run(K, right).strata)
    ensures Present(K, left, t, A) && Present(K, right, t, B) && forall x :: x in D <==> (x in A) != (x in B)
    ensures D != [] && |D| <= STRATUM_CAPACITY ==> TopSet(K, Run(K, left).strata, Run(K, right).strata, t, D)
  {
    A, B, D := StrataDifference(K, left, right, t);
  }
}
