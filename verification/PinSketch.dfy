/** The sketch of a set of nonzero words, which is its odd power sums, and the
    decoder that recovers the set from them. */
module PinSketch {
  import opened FieldTheory
  import opened Lists
  import opened Polynomials
  import opened Roots
  import opened BerlekampMassey
  import opened PowerSums
  import opened Splitting
  import opened WordOrder
  import R = FindRoots
  import T = FactorTrials

  /** A set, as a list without repetition and without zero, whose sketch is given. */
  ghost predicate Candidate<F>(K: Field<F>, coords: seq<F>, limit: int, A: seq<F>) {
    Distinct(A) && K.zero !in A && |A| <= limit && OddSums(K, A, |coords|) == coords
  }

  /** The answer the decoder promises: the members in ascending order. */
  ghost predicate Decodes<F>(K: Field<F>, coords: seq<F>, limit: int, xs: seq<F>) {
    Ascending(K, xs) && K.zero !in xs && |xs| <= limit && OddSums(K, xs, |coords|) == coords
  }

  lemma DecodesIsCandidate<F(!new)>(K: Field<F>, coords: seq<F>, limit: int, xs: seq<F>)
    requires IsWordField(K)
    ensures Decodes(K, coords, limit, xs) ==> Candidate(K, coords, limit, xs)
  {
    AscendingIff(K, xs);
  }

  /** Two sets within the capacity with the same sketch are the same set. */
  lemma SketchInjective<F(!new)>(K: Field<F>, coords: seq<F>, A: seq<F>, B: seq<F>)
    requires IsField(K) && Candidate(K, coords, |coords|, A) && Candidate(K, coords, |coords|, B)
    ensures forall x :: x in A <==> x in B
  {
    var t := |coords|;
    SumsAreSyndromes(K, A, t);
    SyndromesAreSums(K, B, t, Sums(K, A, 2 * t));
    SumsInjective(K, A, B, t);
  }

  /** The decoded list is the only one. */
  lemma DecodesUnique<F(!new)>(K: Field<F>, coords: seq<F>, xs: seq<F>, ys: seq<F>)
    requires IsWordField(K) && Decodes(K, coords, |coords|, xs) && Decodes(K, coords, |coords|, ys)
    ensures xs == ys
  {
    DecodesIsCandidate(K, coords, |coords|, xs);
    DecodesIsCandidate(K, coords, |coords|, ys);
    SketchInjective(K, coords, xs, ys);
    AscendingUnique(K, xs, ys);
  }

  /** A decoded list is the set that was toggled in, whichever set that was. */
  lemma DecodesSet<F(!new)>(K: Field<F>, coords: seq<F>, limit: nat, A: seq<F>, xs: seq<F>)
    requires IsWordField(K) && limit <= |coords| && Candidate(K, coords, limit, A) && Decodes(K, coords, limit, xs)
    ensures multiset(A) == multiset(xs)
  {
    DecodesIsCandidate(K, coords, limit, xs);
    SketchInjective(K, coords, A, xs);
    forall x
      ensures multiset(A)[x] == multiset(xs)[x]
    {
      CountOnce(A, x);
      CountOnce(xs, x);
    }
  }

  // ---- the decoder

  /** reverseUint64s: swaps from both ends. */
  method ReverseInPlace<F>(values: seq<F>) returns (r: seq<F>)
    ensures r == Reverse(values)
  {
    r := values;
    var i, j := 0, |values| - 1;
    while i < j
      invariant |r| == |values| && 0 <= i && i <= j + 1 && i + j == |values| - 1
      invariant forall k :: 0 <= k < i ==> r[k] == values[|values| - 1 - k] && r[|values| - 1 - k] == values[k]
      invariant forall k :: i <= k <= j ==> r[k] == values[k]
    {
      r := r[i := r[j]][j := r[i]];
      i, j := i + 1, j - 1;
    }
    forall k | 0 <= k < |r|
      ensures r[k] == Reverse(values)[k]
    {
      ReverseAt(values, k);
      if k > j {
        assert k == |values| - 1 - (|values| - 1 - k);
      }
    }
  }

  /** What a locator found by Berlekamp-Massey says about the roots of its reverse. */
  lemma LocatorRoots<F(!new)>(K: Field<F>, all: seq<F>, locator: seq<F>, roots: seq<F>)
    requires IsField(K) && locator != [] && Minimal(K, locator, all) && locator[|locator| - 1] != K.zero
    requires Prod(K, roots) == Reverse(locator)
    ensures |roots| == |locator| - 1 && K.zero !in roots
    ensures all == Sums(K, roots, |all|) ==> Distinct(roots)
  {
    ReverseAt(locator, 0);
    EvalAtZero(K, Reverse(locator));
    EvalProd(K, roots, K.zero);
    if all == Sums(K, roots, |all|) {
      MinimalIsDistinct(K, locator, roots, |all|);
    }
  }

  lemma MonicReverse<F(!new)>(K: Field<F>, locator: seq<F>)
    requires locator != [] && locator[0] == K.one
    ensures Monic(K, Reverse(locator))
  {
    ReverseAt(locator, |locator| - 1);
  }

  /** A register of length zero generates only zeros. */
  lemma EmptyLocator<F(!new)>(K: Field<F>, odd: seq<F>, all: seq<F>, locator: seq<F>)
    requires IsField(K) && IsSyndromes(K, odd, all) && |locator| == 1 && Generates(K, locator, 0, all)
    ensures forall i :: 0 <= i < |odd| ==> odd[i] == K.zero
  {
    forall i | 0 <= i < |odd|
      ensures odd[i] == K.zero
    {
      assert PairAt(K, odd, all, i);
      assert Recurrence(K, locator, all, 2 * i, 0) == K.zero;
      assert Recurrence(K, locator, all, 2 * i, 1) == K.zero;
      MulOne(K, all[2 * i]);
      AddZero(K, all[2 * i]);
    }
  }

  /** What a decoding attempt says about a set behind the syndromes: on success
      the roots are the set, a refusal means that its size is outside the int
      range, and the work is charged exactly. */
  ghost predicate Accounted<F(!new)>(K: Field<F>, mixed: seq<F>, A: seq<F>, status: T.Status, roots: seq<F>,
      work0: int, work: int)
    requires IsBinaryField(K)
  {
    && (status.Done? ==> multiset(roots) == multiset(A))
    && (status.DecodeFailure? ==> !T.Affordable(K, |A|))
    && R.Charged(K, mixed, A, status, work0, work)
  }

  /** Decoding of the syndromes alone, before the result is checked against the sketch. */
  method DecodePinSketch<F(==,!new)>(K: Field<F>, mixed: seq<F>, odd: seq<F>, maxElements: nat, work0: int)
      returns (status: T.Status, roots: seq<F>, work: int)
    requires IsWordField(K) && maxElements <= |odd|
    ensures status.Done? ==> Sorted(K, roots) && K.zero !in roots && |roots| <= maxElements
    ensures status.Done? && OddSums(K, roots, |odd|) == odd ==> Distinct(roots)
    ensures forall A :: Candidate(K, odd, maxElements, A) ==> Accounted(K, mixed, A, status, roots, work0, work)
    ensures status.Done? && roots == [] ==> work == work0 && forall i :: 0 <= i < |odd| ==> odd[i] == K.zero
    ensures status.BudgetExhausted? ==> work < 0
    ensures !status.BudgetExhausted? ==> work == work0 || work >= 0
    ensures work >= work0 - WorstCase(K, mixed, maxElements)
  {
    work := work0;
    var all := ReconstructSyndromes(K, odd);
    ghost var N := 2 * |odd|;
    forall A | Candidate(K, odd, maxElements, A)
      ensures all == Sums(K, A, N)
    {
      SyndromesAreSums(K, A, |odd|, all);
    }
    var ok, locator := BerlekampMassey.Run(K, all, maxElements);
    forall A | Candidate(K, odd, maxElements, A)
      ensures ok && |locator| - 1 == |A| && Reverse(locator) == Prod(K, A)
    {
      LocatorFound(K, all, A, maxElements, ok, locator);
    }
    if !ok {
      return T.DecodeFailure, [], work;
    }
    if |locator| == 1 {
      EmptyLocator(K, odd, all, locator);
      return T.Done, [], work;
    }
    var reversed := ReverseInPlace(locator);
    MonicReverse(K, locator);
    var found;
    status, found, work := R.FindRootsWithBudget(K, mixed, reversed, work0);
    WorstCaseMonotone(K, mixed, R.Degree(reversed), maxElements);
    forall A | Candidate(K, odd, maxElements, A)
      ensures R.Charged(K, mixed, A, status, work0, work) && T.Splits(K, reversed) && R.Degree(reversed) == |A|
    {
      assert R.ChargedAt(K, mixed, reversed, A, status, work0, work);
    }
    if !status.Done? {
      return status, [], work;
    }
    LocatorRoots(K, all, locator, found);
    roots := Sort(K, found);
    SortSorts(K, found);
    SortedRoots(K, odd, all, found, roots);
    forall A | Candidate(K, odd, maxElements, A)
      ensures multiset(roots) == multiset(A)
    {
      SameProductSameMultiset(K, A, found);
    }
  }

  /** For the sketch of a set, Berlekamp-Massey succeeds with the locator of the set. */
  lemma LocatorFound<F(!new)>(K: Field<F>, all: seq<F>, A: seq<F>, maxElements: nat, ok: bool, locator: seq<F>)
    requires IsField(K) && Distinct(A) && K.zero !in A && |A| <= maxElements && 2 * |A| <= |all|
    requires all == Sums(K, A, |all|)
    requires ok ==> locator != [] && Minimal(K, locator, all)
    requires !ok ==>
      || (forall C, l :: Generates(K, C, l, all) ==> l > maxElements)
      || (exists C :: C != [] && C[|C| - 1] == K.zero && Minimal(K, C, all))
    ensures ok && |locator| - 1 == |A| && Reverse(locator) == Prod(K, A)
  {
    LocatorGenerates(K, A, |all|);
    if !ok {
      var C :| C != [] && C[|C| - 1] == K.zero && Minimal(K, C, all);
      LocatorUnique(K, C, A, |all|);
    } else {
      LocatorUnique(K, locator, A, |all|);
    }
  }

  lemma SortedRoots<F(!new)>(K: Field<F>, odd: seq<F>, all: seq<F>, found: seq<F>, roots: seq<F>)
    requires IsField(K) && IsSyndromes(K, odd, all) && multiset(found) == multiset(roots)
    requires K.zero !in found && (all == Sums(K, found, |all|) ==> Distinct(found))
    ensures |roots| == |found| && K.zero !in roots
    ensures OddSums(K, roots, |odd|) == odd ==> Distinct(roots)
  {
    assert |roots| == |multiset(roots)| == |multiset(found)| == |found|;
    assert K.zero !in multiset(found);
    if OddSums(K, roots, |odd|) == odd {
      SumsPermuted(K, found, roots, |odd|);
      SyndromesAreSums(K, found, |odd|, all);
      DistinctPermuted(found, roots);
    }
  }

  lemma SumsPermuted<F(!new)>(K: Field<F>, A: seq<F>, B: seq<F>, t: nat)
    requires IsField(K) && multiset(A) == multiset(B)
    ensures OddSums(K, A, t) == OddSums(K, B, t)
  {
    forall i | 0 <= i < t
      ensures OddSums(K, A, t)[i] == OddSums(K, B, t)[i]
    {
      PowerSumPermuted(K, A, B, 2 * i + 1);
    }
  }
}
