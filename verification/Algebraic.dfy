/** Syndrome sketches as the objects the protocol passes around. */
module Algebraic {
  import opened Wrappers
  import opened Errors
  import opened FieldTheory
  import opened Lists
  import opened PowerSums
  import opened Splitting
  import opened SymmetricDifference
  import opened WordOrder
  import opened PinSketch
  import R = FindRoots
  import T = FactorTrials

  const MAX_SKETCH_CAPACITY := 32

  /** The coordinates after one toggle. */
  function Toggled<F>(K: Field<F>, coords: seq<F>, value: F): (r: seq<F>)
    ensures |r| == |coords|
  {
    seq(|coords|, i requires 0 <= i < |coords| => K.add(coords[i], Pow(K, value, 2 * i + 1)))
  }

  /** The coordinates of the difference of two sketches. */
  function Added<F>(K: Field<F>, left: seq<F>, right: seq<F>): (r: seq<F>)
    requires |left| == |right|
    ensures |r| == |left|
  {
    seq(|left|, i requires 0 <= i < |left| => K.add(left[i], right[i]))
  }

  /** A toggle adds one element to the list the sketch stands for. */
  lemma ToggleAppends<F(!new)>(K: Field<F>, A: seq<F>, value: F, t: nat)
    ensures Toggled(K, OddSums(K, A, t), value) == OddSums(K, A + [value], t)
  {
    var B := A + [value];
    assert B[..|B| - 1] == A && B[|B| - 1] == value;
    forall i | 0 <= i < t
      ensures Toggled(K, OddSums(K, A, t), value)[i] == OddSums(K, B, t)[i]
    {
    }
  }

  /** Toggling twice restores the sketch, whatever it holds. */
  lemma ToggleTwice<F(!new)>(K: Field<F>, coords: seq<F>, value: F)
    requires IsField(K)
    ensures Toggled(K, Toggled(K, coords, value), value) == coords
  {
    forall i | 0 <= i < |coords|
      ensures Toggled(K, Toggled(K, coords, value), value)[i] == coords[i]
    {
      AddCancel(K, coords[i], Pow(K, value, 2 * i + 1));
    }
  }

  /** Adding sketches appends the lists they stand for. */
  lemma AddedAppends<F(!new)>(K: Field<F>, A: seq<F>, B: seq<F>, t: nat)
    requires IsField(K)
    ensures Added(K, OddSums(K, A, t), OddSums(K, B, t)) == OddSums(K, A + B, t)
  {
    forall i | 0 <= i < t
      ensures Added(K, OddSums(K, A, t), OddSums(K, B, t))[i] == OddSums(K, A + B, t)[i]
    {
      PowerSumAppend(K, A, B, 2 * i + 1);
    }
  }

  /** The difference of the sketches of two sets is the sketch of their
      symmetric difference: a candidate of the difference contains exactly the
      elements on one side only. */
  lemma DifferenceIsSymmetric<F(!new)>(K: Field<F>, A: seq<F>, B: seq<F>, t: nat) returns (D: seq<F>)
    requires IsField(K) && Distinct(A) && Distinct(B) && K.zero !in A && K.zero !in B
    ensures forall x :: x in D <==> (x in A) != (x in B)
    ensures Distinct(D)
    ensures |D| <= t ==> Candidate(K, Added(K, OddSums(K, A, t), OddSums(K, B, t)), t, D)
  {
    D := OddMembersExist(K, A + B);
    OddMembersOfTwoSets(A, B, D);
    AddedAppends(K, A, B, t);
    SameOddSums(K, A + B, D, t);
  }

  lemma FirstPower<F(!new)>(K: Field<F>, value: F)
    requires IsRing(K)
    ensures Pow(K, value, 1) == value
  {
    MulOne(K, value);
    MulComm(K, value, K.one);
    assert Pow(K, value, 1) == K.mul(value, Pow(K, value, 0));
  }

  lemma OddPowers<F(!new)>(K: Field<F>, value: F, i: nat)
    requires IsRing(K)
    ensures K.mul(Pow(K, value, 2 * i + 1), K.mul(value, value)) == Pow(K, value, 2 * (i + 1) + 1)
  {
    PowAdd(K, value, 2 * i + 1, 2);
    FirstPower(K, value);
    assert Pow(K, value, 2) == K.mul(value, Pow(K, value, 1));
  }

  /** An element occurs in the sketch of a list exactly when a candidate of the
      whole capacity is also one of its prefix. */
  lemma CandidatePrefix<F(!new)>(K: Field<F>, coords: seq<F>, limit: nat, A: seq<F>)
    requires limit <= |coords| && Candidate(K, coords, limit, A)
    ensures Candidate(K, coords[..limit], limit, A)
  {
    assert coords == OddSums(K, A, |coords|);
    forall i | 0 <= i < limit
      ensures OddSums(K, A, limit)[i] == coords[..limit][i]
    {
      assert coords[i] == OddSums(K, A, |coords|)[i];
    }
  }

  lemma CapacityAffordable<F>(K: Field<F>, degree: nat)
    requires K.bits == 64 && degree <= MAX_SKETCH_CAPACITY
    ensures T.Affordable(K, degree)
  {
    assert degree * degree <= degree * MAX_SKETCH_CAPACITY;
  }

  /** What decoding says about a set behind the sketch: the set is found and
      charged exactly its cost, unless that is more than the budget or its size
      is outside the int range. */
  ghost predicate Settled<F(!new)>(K: Field<F>, mixed: seq<F>, A: seq<F>, r: Result<seq<F>, Error>, work0: int,
      work: int)
    requires IsBinaryField(K)
  {
    match r
    case Ok(roots) => multiset(roots) == multiset(A) && R.Charged(K, mixed, A, T.Done, work0, work)
    case Err(BudgetExhausted) => |A| >= 3 && work0 < Cost(K, mixed, A)
    case Err(DecodeFailure) => !T.Affordable(K, |A|)
    case Err(_) => true
  }

  class SyndromeSketch<F(==,!new)> {
    const K: Field<F>
    var coordinates: seq<F>

    constructor (K: Field<F>, coordinates: seq<F>)
      ensures this.K == K && this.coordinates == coordinates
    {
      this.K, this.coordinates := K, coordinates;
    }

    /** A sketch of the empty set, unless the capacity is out of range. */
    static method New(K: Field<F>, capacity: int) returns (r: Result<SyndromeSketch<F>, Error>)
      ensures r.Ok? <==> 1 <= capacity <= 32
      ensures r.Err? ==> r.error == InvalidSketchCapacity
      ensures r.Ok? ==> fresh(r.value) && r.value.K == K && r.value.coordinates == OddSums(K, [], capacity)
    {
      if capacity <= 0 || capacity > MAX_SKETCH_CAPACITY {
        return Err(InvalidSketchCapacity);
      }
      var s := new SyndromeSketch(K, seq(capacity, i => K.zero));
      assert s.coordinates == OddSums(K, [], capacity);
      return Ok(s);
    }

    method Toggle(value: F) returns (r: Result<(), Error>)
      requires IsField(K)
      modifies this`coordinates
      ensures r == if value == K.zero then Err(ZeroShortIdentifier) else Ok(())
      ensures coordinates == if r.Ok? then Toggled(K, old(coordinates), value) else old(coordinates)
    {
      if value == K.zero {
        return Err(ZeroShortIdentifier);
      }
      var squared := K.mul(value, value);
      var oddPower := value;
      FirstPower(K, value);
      ghost var after := Toggled(K, coordinates, value);
      for i := 0 to |coordinates|
        invariant |coordinates| == |after| && oddPower == Pow(K, value, 2 * i + 1)
        invariant forall k :: 0 <= k < |after| ==> coordinates[k] == if k < i then after[k] else old(coordinates)[k]
      {
        coordinates := coordinates[i := K.add(coordinates[i], oddPower)];
        OddPowers(K, value, i);
        oddPower := K.mul(oddPower, squared);
      }
      return Ok(());
    }

    method Xor(other: SyndromeSketch<F>) returns (r: Result<(), Error>)
      modifies this`coordinates
      ensures r == if |old(coordinates)| == |old(other.coordinates)| then Ok(()) else Err(InvalidSketchLength)
      ensures coordinates == if r.Ok? then Added(K, old(coordinates), old(other.coordinates)) else old(coordinates)
    {
      if |coordinates| != |other.coordinates| {
        return Err(InvalidSketchLength);
      }
      ghost var after := Added(K, coordinates, other.coordinates);
      for i := 0 to |coordinates|
        invariant |coordinates| == |other.coordinates| == |old(coordinates)|
        invariant forall k :: 0 <= k < |coordinates| ==>
          coordinates[k] == if k < i then after[k] else old(coordinates)[k]
        invariant other == this || other.coordinates == old(other.coordinates)
      {
        coordinates := coordinates[i := K.add(coordinates[i], other.coordinates[i])];
      }
      return Ok(());
    }

    method Subtract(other: SyndromeSketch<F>) returns (r: Result<SyndromeSketch<F>, Error>)
      ensures r.Ok? <==> |coordinates| == |other.coordinates|
      ensures r.Err? ==> r.error == InvalidSketchLength
      ensures r.Ok? ==> fresh(r.value) && r.value.K == K
      ensures r.Ok? ==> r.value.coordinates == Added(K, coordinates, other.coordinates)
    {
      if |coordinates| != |other.coordinates| {
        return Err(InvalidSketchLength);
      }
      var out := seq(|coordinates|, i => K.zero);
      ghost var after := Added(K, coordinates, other.coordinates);
      for i := 0 to |out|
        invariant |out| == |coordinates| && out[..i] == after[..i]
      {
        out := out[i := K.add(coordinates[i], other.coordinates[i])];
      }
      var s := new SyndromeSketch(K, out);
      return Ok(s);
    }

    /** The sketch of a list of nonzero elements. */
    static method Sketched(K: Field<F>, elements: seq<F>, capacity: int) returns (r: Result<SyndromeSketch<F>, Error>)
      requires IsField(K) && K.zero !in elements
      ensures r.Ok? <==> 1 <= capacity <= 32
      ensures r.Err? ==> r.error == InvalidSketchCapacity
      ensures r.Ok? ==> fresh(r.value) && r.value.coordinates == OddSums(K, elements, capacity)
    {
      r := New(K, capacity);
      if r.Ok? {
        assert elements[..0] == [];
        for i := 0 to |elements|
          invariant r.value.K == K && r.value.coordinates == OddSums(K, elements[..i], capacity)
        {
          ToggleAppends(K, elements[..i], elements[i], capacity);
          assert elements[..i] + [elements[i]] == elements[..i + 1];
          var toggled := r.value.Toggle(elements[i]);
          assert toggled.Ok?;
        }
        assert elements[..|elements|] == elements;
      }
    }

    /** Decoding of the first coordinates, checked against all of them. */
    method DecodeAndVerify(mixed: seq<F>, maxElements: nat, work0: int) returns (r: Result<seq<F>, Error>, work: int)
      requires IsWordField(K) && maxElements <= |coordinates|
      ensures r.Ok? ==> Decodes(K, coordinates, maxElements, r.value)
      ensures r.Err? ==> r.error in {DecodeFailure, BudgetExhausted, InvalidSketchCapacity}
      ensures 1 <= |coordinates| <= 32 ==> r != Err(InvalidSketchCapacity)
      ensures forall A :: Candidate(K, coordinates, maxElements, A) ==> Settled(K, mixed, A, r, work0, work)
      ensures r == Err(BudgetExhausted) ==> work < 0
      ensures r != Err(BudgetExhausted) ==> work == work0 || work >= 0
      ensures work >= work0 - WorstCase(K, mixed, maxElements)
    {
      forall A | Candidate(K, coordinates, maxElements, A)
        ensures Candidate(K, coordinates[..maxElements], maxElements, A)
      {
        CandidatePrefix(K, coordinates, maxElements, A);
      }
      var status, decoded;
      status, decoded, work := DecodePinSketch(K, mixed, coordinates[..maxElements], maxElements, work0);
      if !status.Done? {
        return Err(if status.DecodeFailure? then DecodeFailure else BudgetExhausted), work;
      }
      var check := Sketched(K, decoded, |coordinates|);
      if check.Err? {
        return Err(check.error), work;
      }
      if check.value.coordinates != coordinates {
        forall A | Candidate(K, coordinates, maxElements, A)
          ensures false
        {
          SumsPermuted(K, A, decoded, |coordinates|);
        }
        return Err(DecodeFailure), work;
      }
      CheckedIsDecoded(K, coordinates, maxElements, decoded);
      return Ok(decoded), work;
    }

    /** Recovers the set behind the sketch. */
    method DecodeElements(mixed: seq<F>, maxElements: int) returns (r: Result<seq<F>, Error>)
      requires IsWordField(K)
      ensures r.Ok? ==> 1 <= maxElements <= |coordinates| && Decodes(K, coordinates, maxElements, r.value)
      ensures !(1 <= maxElements <= |coordinates| && maxElements <= 32) ==> r == Err(InvalidSketchCapacity)
      ensures r.Err? ==> r.error in {DecodeFailure, InvalidSketchCapacity}
      ensures 1 <= maxElements <= |coordinates| <= 32 ==> r != Err(InvalidSketchCapacity)
      ensures r.Ok? || r == Err(DecodeFailure) ==> forall A :: Candidate(K, coordinates, maxElements, A) ==>
        (r.Ok? ==> multiset(A) == multiset(r.value)) &&
        (T.Affordable(K, |A|) ==> (r.Ok? <==> Cost(K, mixed, A) <= MAX_FACTOR_WORK))
    {
      if maxElements <= 0 || maxElements > |coordinates| || maxElements > MAX_SKETCH_CAPACITY {
        return Err(InvalidSketchCapacity);
      }
      var work;
      r, work := DecodeAndVerify(mixed, maxElements, MAX_FACTOR_WORK);
      if r == Err(BudgetExhausted) {
        r := Err(DecodeFailure);
      }
    }
  }

  /** A sorted list that reproduces the sketch has no repetition. */
  lemma CheckedIsDecoded<F(!new)>(K: Field<F>, coords: seq<F>, limit: nat, decoded: seq<F>)
    requires IsWordField(K) && limit <= |coords| && Sorted(K, decoded) && K.zero !in decoded && |decoded| <= limit
    requires OddSums(K, decoded, |coords|) == coords
    requires OddSums(K, decoded, limit) == coords[..limit] ==> Distinct(decoded)
    ensures Decodes(K, coords, limit, decoded)
  {
    forall i | 0 <= i < limit
      ensures OddSums(K, decoded, limit)[i] == coords[..limit][i]
    {
      assert coords[i] == OddSums(K, decoded, |coords|)[i];
    }
    AscendingIff(K, decoded);
  }
}
