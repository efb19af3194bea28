/** Lists of all the words with their bits in a given range. */
module WordLists {
  import opened FieldTheory
  import opened Lists
  import opened Quadratic

  /** The words with no bit below `low` and none from n on. */
  ghost function Words<F>(K: Field<F>, low: nat, n: nat): (W: seq<F>)
    requires low <= n
    ensures |W| == Exp2(n - low)
    decreases n
  {
    if n == low then [K.zero] else Words(K, low, n - 1) + Shifted(K, Words(K, low, n - 1), K.unit(n - 1))
  }

  ghost function Shifted<F>(K: Field<F>, W: seq<F>, u: F): (r: seq<F>)
    ensures |r| == |W|
  {
    seq(|W|, i requires 0 <= i < |W| => K.add(W[i], u))
  }

  /** All the bits of a word are in a range. */
  ghost predicate BitsIn<F>(K: Field<F>, w: F, low: nat, n: nat) {
    forall i: nat :: i < K.bits && K.bit(w, i) ==> low <= i < n
  }

  lemma ShiftedBits<F(!new)>(K: Field<F>, W: seq<F>, k: nat, j: nat, i: nat)
    requires IsWordField(K) && k < K.bits && j < |W| && i < K.bits
    ensures K.bit(Shifted(K, W, K.unit(k))[j], i) == (K.bit(W[j], i) != (i == k))
  {
    BitAdd(K, W[j], K.unit(k), i);
    BitUnit(K, k, i);
  }

  /** The word with one more bit is in the shifted list exactly when the word is in the list. */
  lemma ShiftedMember<F(!new)>(K: Field<F>, W: seq<F>, u: F, w: F)
    requires IsWordField(K)
    ensures w in Shifted(K, W, u) <==> K.add(w, u) in W
  {
    AddCancel(K, w, u);
    if w in Shifted(K, W, u) {
      var j :| 0 <= j < |W| && K.add(W[j], u) == w;
      AddCancel(K, W[j], u);
    }
    if K.add(w, u) in W {
      var j :| 0 <= j < |W| && W[j] == K.add(w, u);
      assert Shifted(K, W, u)[j] == w;
    }
  }

  lemma ShiftedDistinct<F(!new)>(K: Field<F>, W: seq<F>, u: F)
    requires IsWordField(K) && Distinct(W)
    ensures Distinct(Shifted(K, W, u))
  {
    forall i, j | 0 <= i < j < |W|
      ensures K.add(W[i], u) != K.add(W[j], u)
    {
      AddCancel(K, W[i], u);
      AddCancel(K, W[j], u);
    }
  }

  /** The list holds every such word, and nothing else. */
  lemma {:induction false} WordsMember<F(!new)>(K: Field<F>, low: nat, n: nat, w: F)
    requires IsWordField(K) && low <= n <= K.bits
    ensures w in Words(K, low, n) <==> BitsIn(K, w, low, n)
    decreases n
  {
    if n == low {
      forall i: nat { BitZero(K, i); }
      if BitsIn(K, w, low, n) {
        WordEq(K, w, K.zero);
      }
    } else {
      var u := K.unit(n - 1);
      WordsMember(K, low, n - 1, w);
      WordsMember(K, low, n - 1, K.add(w, u));
      ShiftedMember(K, Words(K, low, n - 1), u, w);
      forall i: nat | i < K.bits
        ensures K.bit(K.add(w, u), i) == (K.bit(w, i) != (i == n - 1))
      {
        BitAdd(K, w, u, i);
        BitUnit(K, n - 1, i);
      }
      if K.bit(w, n - 1) {
        assert BitsIn(K, w, low, n) <==> BitsIn(K, K.add(w, u), low, n - 1);
        assert !BitsIn(K, w, low, n - 1);
      } else {
        assert BitsIn(K, w, low, n) <==> BitsIn(K, w, low, n - 1);
        assert K.bit(K.add(w, u), n - 1) && !BitsIn(K, K.add(w, u), low, n - 1);
      }
    }
  }

  /** Each of them once. */
  lemma {:induction false} WordsDistinct<F(!new)>(K: Field<F>, low: nat, n: nat)
    requires IsWordField(K) && low <= n <= K.bits
    ensures Distinct(Words(K, low, n))
    decreases n
  {
    if n > low {
      var W, u := Words(K, low, n - 1), K.unit(n - 1);
      WordsDistinct(K, low, n - 1);
      ShiftedDistinct(K, W, u);
      forall i, j | 0 <= i < |W| && 0 <= j < |W|
        ensures W[i] != Shifted(K, W, u)[j]
      {
        ShiftedBits(K, W, n - 1, j, n - 1);
        WordsMember(K, low, n - 1, W[i]);
        WordsMember(K, low, n - 1, W[j]);
        assert W[i] in W && W[j] in W;
      }
    }
  }
}
