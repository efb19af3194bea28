/** Lists of toggled elements, and the set they stand for: the elements toggled
    an odd number of times. */
module SymmetricDifference {
  import opened FieldTheory
  import opened Lists
  import opened PowerSums

  /** B lists, without repetition, the elements that occur an odd number of times in A. */
  ghost predicate OddMembers<F(!new)>(A: seq<F>, B: seq<F>) {
    Distinct(B) && forall x :: x in B <==> multiset(A)[x] % 2 == 1
  }

  lemma RemoveTwo<F>(A: seq<F>, a: nat, b: nat)
    requires a < b < |A| && A[a] == A[b]
    ensures multiset(A) == multiset(Without(Without(A, b), a)) + multiset{A[a], A[a]}
  {
    RemoveOne(A, b);
    RemoveOne(Without(A, b), a);
  }

  ghost predicate SamePowerSum<F>(K: Field<F>, A: seq<F>, B: seq<F>, j: nat) {
    PowerSum(K, A, j) == PowerSum(K, B, j)
  }

  lemma PairParity<F(!new)>(A: seq<F>, a: nat, b: nat, B: seq<F>)
    requires a < b < |A| && A[a] == A[b]
    ensures OddMembers(Without(Without(A, b), a), B) ==> OddMembers(A, B)
  {
    var A' := Without(Without(A, b), a);
    RemoveTwo(A, a, b);
    forall x
      ensures multiset(A)[x] % 2 == multiset(A')[x] % 2
    {
      assert multiset(A)[x] == multiset(A')[x] + if x == A[a] then 2 else 0;
    }
  }

  /** Every list of toggles has the power sums of the set it stands for. */
  lemma OddMembersExist<F(!new)>(K: Field<F>, A: seq<F>) returns (B: seq<F>)
    requires IsField(K)
    ensures OddMembers(A, B) && |B| <= |A|
    ensures forall j: nat :: SamePowerSum(K, B, A, j)
    decreases |A|
  {
    if Distinct(A) {
      B := A;
      forall x
        ensures x in B <==> multiset(A)[x] % 2 == 1
      {
        CountOnce(A, x);
      }
    } else {
      var a, b :| 0 <= a < b < |A| && A[a] == A[b];
      var A' := Without(Without(A, b), a);
      B := OddMembersExist(K, A');
      PairParity(A, a, b, B);
      forall j: nat
        ensures SamePowerSum(K, B, A, j)
      {
        assert SamePowerSum(K, B, A', j);
        PowerSumPair(K, A, a, b, j);
      }
    }
  }

  lemma SameOddSums<F(!new)>(K: Field<F>, A: seq<F>, B: seq<F>, t: nat)
    requires forall j: nat :: SamePowerSum(K, B, A, j)
    ensures OddSums(K, B, t) == OddSums(K, A, t)
  {
    forall i | 0 <= i < t
      ensures OddSums(K, B, t)[i] == OddSums(K, A, t)[i]
    {
      assert SamePowerSum(K, B, A, 2 * i + 1);
    }
  }

  /** Toggling two sets one after the other leaves their symmetric difference. */
  lemma OddMembersOfTwoSets<F(!new)>(A: seq<F>, B: seq<F>, D: seq<F>)
    requires Distinct(A) && Distinct(B) && OddMembers(A + B, D)
    ensures forall x :: x in D <==> (x in A) != (x in B)
  {
    forall x
      ensures x in D <==> (x in A) != (x in B)
    {
      CountOnce(A, x);
      CountOnce(B, x);
    }
  }
}
