/** Lists without repetition, and their elements with multiplicity. */
module Lists {
  ghost predicate Distinct<F>(A: seq<F>) {
    forall i, j :: 0 <= i < j < |A| ==> A[i] != A[j]
  }

  ghost function Without<F>(A: seq<F>, i: nat): seq<F>
    requires i < |A|
  {
    A[..i] + A[i + 1..]
  }

  lemma RemoveOne<F>(A: seq<F>, a: nat)
    requires a < |A|
    ensures multiset(A) == multiset(Without(A, a)) + multiset{A[a]}
  {
    assert A == A[..a] + [A[a]] + A[a + 1..];
  }

  lemma CountOnce<F>(A: seq<F>, x: F)
    requires Distinct(A)
    ensures multiset(A)[x] == if x in A then 1 else 0
  {
    if A != [] {
      assert A == A[..|A| - 1] + [A[|A| - 1]];
      CountOnce(A[..|A| - 1], x);
    }
  }

  lemma CountTwice<F>(B: seq<F>, i: nat, j: nat)
    requires i < j < |B|
    ensures B[i] == B[j] ==> multiset(B)[B[i]] >= 2
  {
    assert B == B[..j] + [B[j]] + B[j + 1..];
    assert B[i] in B[..j];
  }

  /** A list of the right length that contains a set without repetition is a
      rearrangement of it. */
  lemma SameMembersSameMultiset<F>(A: seq<F>, B: seq<F>)
    requires Distinct(A) && |A| == |B| && forall a :: a in A ==> a in B
    ensures multiset(A) == multiset(B)
  {
    forall x
      ensures multiset(A)[x] <= multiset(B)[x]
    {
      CountOnce(A, x);
      if x in A {
        assert x in multiset(B);
      }
    }
    var rest := multiset(B) - multiset(A);
    assert multiset(B) == multiset(A) + rest;
    assert |rest| == 0;
  }

  lemma DistinctPermuted<F>(A: seq<F>, B: seq<F>)
    requires Distinct(A) && multiset(A) == multiset(B)
    ensures Distinct(B)
  {
    forall i, j | 0 <= i < j < |B|
      ensures B[i] != B[j]
    {
      CountOnce(A, B[i]);
      CountTwice(B, i, j);
    }
  }

  lemma DistinctHalves<F>(A: seq<F>, B: seq<F>, a: F)
    requires Distinct(A + B) && a in A
    ensures a !in B
  {
    var i :| 0 <= i < |A| && A[i] == a;
    forall j | 0 <= j < |B|
      ensures B[j] != a
    {
      assert (A + B)[i] == a && (A + B)[|A| + j] == B[j];
    }
  }

  /** How many elements of a list have a property. */
  ghost function CountIf<T>(A: seq<T>, p: T -> bool): nat { |set j | 0 <= j < |A| && p(A[j])| }

  lemma CountIfSnoc<T>(A: seq<T>, p: T -> bool)
    requires A != []
    ensures CountIf(A, p) == CountIf(A[..|A| - 1], p) + if p(A[|A| - 1]) then 1 else 0
  {
    var n := |A| - 1;
    var before, all := set j | 0 <= j < n && p(A[..n][j]), set j | 0 <= j < |A| && p(A[j]);
    assert all == if p(A[n]) then before + {n} else before;
  }

  ghost predicate AnyOf<T>(A: seq<T>, p: T -> bool) { exists i :: 0 <= i < |A| && p(A[i]) }

  lemma AnyOfSnoc<T>(A: seq<T>, p: T -> bool)
    requires A != []
    ensures AnyOf(A, p) <==> AnyOf(A[..|A| - 1], p) || p(A[|A| - 1])
  {
    var n := |A| - 1;
    if AnyOf(A[..n], p) {
      var i :| 0 <= i < n && p(A[..n][i]);
      assert p(A[i]);
    }
    if AnyOf(A, p) {
      var i :| 0 <= i < |A| && p(A[i]);
      assert i < n ==> p(A[..n][i]);
    }
  }
}
