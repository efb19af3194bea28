/** How many words each stratum holds, and what the weight of an element means. */
module StratumSize {
  import opened FieldTheory
  import opened Lists
  import opened Quadratic
  import opened WordLists
  import opened Resident
  import opened Estimate

  /** The list holds each word of a stratum once, and no other. */
  ghost predicate IsStratum<F(!new)>(K: Field<F>, t: nat, L: seq<F>) {
    Distinct(L) && forall w :: w in L <==> StratumOf(K, w) == t
  }

  /** A stratum before the last: the bits below it are clear, and its own bit is set. */
  lemma EarlyStratum<F(!new)>(K: Field<F>, t: nat) returns (L: seq<F>)
    requires IsWordField(K) && K.bits == 64 && t < 31
    ensures IsStratum(K, t, L) && |L| == Exp2(63 - t)
  {
    var W := Words(K, t + 1, 64);
    L := Shifted(K, W, K.unit(t));
    WordsDistinct(K, t + 1, 64);
    ShiftedDistinct(K, W, K.unit(t));
    forall w { InStratum(K, w, t); }
  }

  /** The last stratum: the bits below it are clear. */
  lemma FinalStratum<F(!new)>(K: Field<F>) returns (L: seq<F>)
    requires IsWordField(K) && K.bits == 64
    ensures IsStratum(K, 31, L) && |L| == Exp2(33)
  {
    L := Words(K, 31, 64);
    WordsDistinct(K, 31, 64);
    forall w { InLast(K, w); }
  }

  lemma InStratum<F(!new)>(K: Field<F>, w: F, t: nat)
    requires IsWordField(K) && K.bits == 64 && t < 31
    ensures w in Shifted(K, Words(K, t + 1, 64), K.unit(t)) <==> StratumOf(K, w) == t
  {
    ShiftedMember(K, Words(K, t + 1, 64), K.unit(t), w);
    WordsMember(K, t + 1, 64, K.add(w, K.unit(t)));
    WithUnit(K, w, t);
  }

  lemma InLast<F(!new)>(K: Field<F>, w: F)
    requires IsWordField(K) && K.bits == 64
    ensures w in Words(K, 31, 64) <==> StratumOf(K, w) == 31
  {
    WordsMember(K, 31, 64, w);
    LastStratum(K, w);
  }

  lemma WithUnit<F(!new)>(K: Field<F>, w: F, t: nat)
    requires IsWordField(K) && K.bits == 64 && t < 31
    ensures BitsIn(K, K.add(w, K.unit(t)), t + 1, 64) <==> StratumOf(K, w) == t
  {
    forall i: nat | i < K.bits
      ensures K.bit(K.add(w, K.unit(t)), i) == (K.bit(w, i) != (i == t))
    {
      BitAdd(K, w, K.unit(t), i);
      BitUnit(K, t, i);
    }
    var s := StratumOf(K, w);
    if BitsIn(K, K.add(w, K.unit(t)), t + 1, 64) {
      assert K.bit(w, t) && !K.bit(K.add(w, K.unit(t)), t);
      if s < t {
        assert false;
      }
    }
  }

  lemma LastStratum<F(!new)>(K: Field<F>, w: F)
    requires IsWordField(K) && K.bits == 64
    ensures BitsIn(K, w, 31, 64) <==> StratumOf(K, w) == 31
  {
    var s := StratumOf(K, w);
    assert s < 31 ==> K.bit(w, s);
  }

  /** What a weight means: a stratum holds one word in as many as its weight. */
  lemma WeightOfStratum<F(!new)>(K: Field<F>, t: nat, L: seq<F>)
    requires IsWordField(K) && K.bits == 64 && t < STRATA_COUNT
    requires IsStratum(K, t, L)
    ensures Weight(t) * |L| == 0x1_0000_0000_0000_0000
  {
    AllWords();
    if t < 31 {
      var M := EarlyStratum(K, t);
      SameSize(L, M);
      Exp2Add(t + 1, 63 - t);
    } else {
      var M := FinalStratum(K);
      SameSize(L, M);
      Exp2Add(31, 33);
    }
  }

  lemma SameSize<T>(L: seq<T>, M: seq<T>)
    requires Distinct(L) && Distinct(M) && forall x :: x in L <==> x in M
    ensures |L| == |M|
  {
    forall x
      ensures multiset(L)[x] == multiset(M)[x]
    {
      CountOnce(L, x);
      CountOnce(M, x);
    }
    assert |multiset(L)| == |L| && |multiset(M)| == |M|;
    assert multiset(L) == multiset(M);
  }

  lemma AllWords()
    ensures Exp2(64) == 0x1_0000_0000_0000_0000
  {
    Exp2Add(4, 4);
    Exp2Add(8, 8);
    Exp2Add(16, 16);
    Exp2Add(32, 32);
  }
}
