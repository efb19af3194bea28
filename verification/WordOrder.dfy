/** The unsigned order on words, and ascending lists. */
module WordOrder {
  import opened FieldTheory
  import opened Lists
  import opened Quadratic
  import Sorting

  /** a < b on the low n bits, decided at the highest bit that differs. */
  function LessTo<F>(K: Field<F>, a: F, b: F, n: nat): bool {
    if n == 0 then false
    else if K.bit(a, n - 1) != K.bit(b, n - 1) then K.bit(b, n - 1)
    else LessTo(K, a, b, n - 1)
  }

  function Less<F>(K: Field<F>, a: F, b: F): bool { LessTo(K, a, b, K.bits) }

  lemma {:induction false} LessToOrder<F(!new)>(K: Field<F>, a: F, b: F, n: nat)
    ensures !(LessTo(K, a, b, n) && LessTo(K, b, a, n))
    ensures !LessTo(K, a, b, n) && !LessTo(K, b, a, n) <==> forall i: nat :: i < n ==> K.bit(a, i) == K.bit(b, i)
  {
    if n > 0 {
      LessToOrder(K, a, b, n - 1);
      if forall i: nat :: i < n - 1 ==> K.bit(a, i) == K.bit(b, i) {
        forall i: nat | i < n && K.bit(a, n - 1) == K.bit(b, n - 1) ensures K.bit(a, i) == K.bit(b, i) { }
      }
    }
  }

  lemma {:induction false} LessToTrans<F(!new)>(K: Field<F>, a: F, b: F, c: F, n: nat)
    requires LessTo(K, a, b, n) && LessTo(K, b, c, n)
    ensures LessTo(K, a, c, n)
  {
    if n > 0 {
      if LessTo(K, a, b, n - 1) && LessTo(K, b, c, n - 1) {
        LessToTrans(K, a, b, c, n - 1);
      }
    }
  }

  /** Exactly one of a < b, b < a and a == b holds. */
  lemma Trichotomy<F(!new)>(K: Field<F>, a: F, b: F)
    requires IsWordField(K)
    ensures !(Less(K, a, b) && Less(K, b, a))
    ensures a == b <==> !Less(K, a, b) && !Less(K, b, a)
  {
    LessToOrder(K, a, b, K.bits);
    if !Less(K, a, b) && !Less(K, b, a) {
      WordEq(K, a, b);
    }
  }

  ghost predicate Ascending<F>(K: Field<F>, xs: seq<F>) {
    forall i, j :: 0 <= i < j < |xs| ==> Less(K, xs[i], xs[j])
  }

  ghost predicate Sorted<F>(K: Field<F>, xs: seq<F>) {
    forall i, j :: 0 <= i < j < |xs| ==> !Less(K, xs[j], xs[i])
  }

  function Sort<F>(K: Field<F>, xs: seq<F>): seq<F> { Sorting.Sort((a, b) => Less(K, a, b), xs) }

  lemma SortSorts<F(!new)>(K: Field<F>, xs: seq<F>)
    requires IsWordField(K)
    ensures Sorted(K, Sort(K, xs)) && multiset(Sort(K, xs)) == multiset(xs)
  {
    var less := (a, b) => Less(K, a, b);
    forall a, b, c
      ensures Sorting.OrderAt(less, a, b, c)
    {
      Trichotomy(K, a, b);
      Trichotomy(K, b, c);
      if Less(K, a, b) && Less(K, b, c) {
        LessToTrans(K, a, b, c, K.bits);
      }
    }
    Sorting.SortSorts(less, xs);
  }

  lemma AscendingIff<F(!new)>(K: Field<F>, xs: seq<F>)
    requires IsWordField(K)
    ensures Ascending(K, xs) <==> Sorted(K, xs) && Distinct(xs)
  {
    forall i, j | 0 <= i < j < |xs|
      ensures Less(K, xs[i], xs[j]) <==> !Less(K, xs[j], xs[i]) && xs[i] != xs[j]
    {
      Trichotomy(K, xs[i], xs[j]);
    }
  }

  /** An ascending list is determined by its members. */
  lemma {:induction false} AscendingUnique<F(!new)>(K: Field<F>, xs: seq<F>, ys: seq<F>)
    requires IsWordField(K) && Ascending(K, xs) && Ascending(K, ys) && forall x :: x in xs <==> x in ys
    ensures xs == ys
  {
    if xs != [] && ys != [] {
      SameFirst(K, xs, ys);
      forall x
        ensures x in xs[1..] <==> x in ys[1..]
      {
        TailMembers(K, xs, x);
        TailMembers(K, ys, x);
      }
      AscendingUnique(K, xs[1..], ys[1..]);
    } else {
      SameEmptiness(xs, ys);
    }
  }

  lemma SameEmptiness<F(!new)>(xs: seq<F>, ys: seq<F>)
    requires forall x :: x in xs <==> x in ys
    ensures xs == [] <==> ys == []
  {
    if xs != [] {
      assert xs[0] in ys;
    }
    if ys != [] {
      assert ys[0] in xs;
    }
  }

  lemma SameFirst<F(!new)>(K: Field<F>, xs: seq<F>, ys: seq<F>)
    requires IsWordField(K) && Ascending(K, xs) && Ascending(K, ys) && forall x :: x in xs <==> x in ys
    requires xs != [] && ys != []
    ensures xs[0] == ys[0]
  {
    assert xs[0] in ys && ys[0] in xs;
    var i :| 0 <= i < |ys| && ys[i] == xs[0];
    var j :| 0 <= j < |xs| && xs[j] == ys[0];
    Trichotomy(K, xs[0], ys[0]);
  }

  lemma TailMembers<F(!new)>(K: Field<F>, xs: seq<F>, x: F)
    requires IsWordField(K) && Ascending(K, xs) && xs != []
    ensures x in xs[1..] <==> x in xs && x != xs[0]
  {
    AscendingIff(K, xs);
  }
}
