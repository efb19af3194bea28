/** The decoder over the 64-bit words with its own constants. */
module Gf64Sketch {
  import opened Wrappers
  import opened Errors
  import opened Splitting
  import opened PinSketch
  import opened Algebraic
  import opened FieldTheory
  import opened Gf64
  import opened DecodeBudget
  import opened WordOrder
  import Word64

  // ---- the order of the words

  ghost predicate ReadsBits(K: Field<Word>) { forall w, i: nat :: ReadsBit(K, w, i) }

  ghost predicate ReadsBit(K: Field<Word>, w: Word, i: nat) { K.bit(w, i) == Word64.BitAt(w, i) }

  lemma HalvesBelow(a: Word, b: Word)
    requires Below(Word64.Shr(a), Word64.Shr(b))
    ensures Below(a, b)
  {
  }

  lemma LowBitBelow(a: Word, b: Word)
    requires Word64.Shr(a) == Word64.Shr(b) && !Word64.Odd(a) && Word64.Odd(b)
    ensures Below(a, b)
  {
  }

  lemma NotBelow(a: Word, b: Word)
    ensures !Below(a, a) && (Below(a, b) ==> !Below(b, a))
  {
  }

  /** The comparison at the highest bit that differs, taken from below. */
  lemma {:induction false} LessToStep(K: Field<Word>, a: Word, b: Word, n: nat)
    requires ReadsBits(K)
    ensures LessTo(K, a, b, n + 1) <==>
      || LessTo(K, Word64.Shr(a), Word64.Shr(b), n)
      || (!LessTo(K, Word64.Shr(b), Word64.Shr(a), n) && !Word64.Odd(a) && Word64.Odd(b))
    decreases n
  {
    assert ReadsBit(K, a, n) && ReadsBit(K, b, n);
    if n > 0 {
      assert ReadsBit(K, Word64.Shr(a), n - 1) && ReadsBit(K, Word64.Shr(b), n - 1);
      LessToStep(K, a, b, n - 1);
    }
  }

  lemma Undecided(K: Field<Word>, a: Word, b: Word, n: nat)
    requires ReadsBits(K) && |Word64.Bits(a)| <= n && |Word64.Bits(b)| <= n
    requires !LessTo(K, a, b, n) && !LessTo(K, b, a, n)
    ensures a == b
  {
    LessToOrder(K, a, b, n);
    forall i: nat | i < n
      ensures Word64.BitAt(a, i) == Word64.BitAt(b, i)
    {
      assert K.bit(a, i) == K.bit(b, i) && ReadsBit(K, a, i) && ReadsBit(K, b, i);
    }
    Word64.SameBits(a, b, n);
  }

  lemma ShorterHalf(a: Word, n: nat)
    requires |Word64.Bits(a)| <= n + 1
    ensures |Word64.Bits(Word64.Shr(a))| <= n
  {
    assert Word64.Shr(0) == 0;
  }

  lemma LowBitDecides(K: Field<Word>, a: Word, b: Word, ha: Word, hb: Word, n: nat)
    requires ReadsBits(K) && |Word64.Bits(ha)| <= n && |Word64.Bits(hb)| <= n
    requires ha == Word64.Shr(a) && hb == Word64.Shr(b) && !Word64.Odd(a) && Word64.Odd(b)
    requires !LessTo(K, ha, hb, n) && !LessTo(K, hb, ha, n)
    ensures Below(a, b)
  {
    Undecided(K, ha, hb, n);
    LowBitBelow(a, b);
  }

  lemma {:induction false} LessIsBelow(K: Field<Word>, a: Word, b: Word, n: nat)
    requires ReadsBits(K) && |Word64.Bits(a)| <= n && |Word64.Bits(b)| <= n && LessTo(K, a, b, n)
    ensures Below(a, b)
    decreases n
  {
    var m: nat := n - 1;
    ShorterHalf(a, m);
    ShorterHalf(b, m);
    LessToStep(K, a, b, m);
    if LessTo(K, Word64.Shr(a), Word64.Shr(b), m) {
      LessIsBelow(K, Word64.Shr(a), Word64.Shr(b), m);
      HalvesBelow(a, b);
    } else {
      LowBitDecides(K, a, b, Word64.Shr(a), Word64.Shr(b), m);
    }
  }

  lemma LessToIsBelow(K: Field<Word>, a: Word, b: Word, n: nat)
    requires ReadsBits(K) && |Word64.Bits(a)| <= n && |Word64.Bits(b)| <= n
    ensures LessTo(K, a, b, n) <==> Below(a, b)
  {
    NotBelow(a, b);
    if LessTo(K, a, b, n) {
      LessIsBelow(K, a, b, n);
    } else if LessTo(K, b, a, n) {
      LessIsBelow(K, b, a, n);
    } else {
      Undecided(K, a, b, n);
    }
  }

  /** The order of the decoded lists is the order of unsigned words. */
  lemma WordLess(a: Word, b: Word)
    ensures Less(Gf(), a, b) <==> a < b
  {
    var K := Gf();
    assert ReadsBits(K);
    Word64.WidthIs64();
    Word64.WordLength(a);
    Word64.WordLength(b);
    LessToIsBelow(K, a, b, K.bits);
  }

  // ---- decoding

  /** What decoding says about a set behind the sketch: it is found exactly when
      its search fits the budget, and always when it has up to eighteen elements. */
  ghost predicate Found(A: seq<Word>, r: Result<seq<Word>, Error>) {
    && (r.Ok? ==> multiset(A) == multiset(r.value))
    && (r.Ok? <==> SearchCost(A) <= MAX_FACTOR_WORK)
    && (|A| <= 18 ==> r.Ok?)
  }

  /** DecodeElements on 64-bit words. Whatever the sketch holds, a result is the
      one ascending list of nonzero words with that sketch. */
  method DecodeElements(s: SyndromeSketch<Word>, maxElements: int) returns (r: Result<seq<Word>, Error>)
    requires s.K == Gf()
    ensures r.Ok? || r.error in {DecodeFailure, InvalidSketchCapacity}
    ensures !(1 <= maxElements <= |s.coordinates| && maxElements <= 32) ==> r == Err(InvalidSketchCapacity)
    ensures 1 <= maxElements <= |s.coordinates| <= 32 ==> r != Err(InvalidSketchCapacity)
    ensures r.Ok? ==> Decodes(Gf(), s.coordinates, maxElements, r.value)
    ensures r.Ok? ==> forall i, j :: 0 <= i < j < |r.value| ==> r.value[i] < r.value[j]
    ensures r != Err(InvalidSketchCapacity) ==> forall A :: Candidate(Gf(), s.coordinates, maxElements, A) ==>
      Found(A, r)
  {
    GfIsWordField();
    Word64.WidthIs64();
    r := s.DecodeElements(Mixed(), maxElements);
    if r.Ok? {
      forall i, j | 0 <= i < j < |r.value|
        ensures r.value[i] < r.value[j]
      {
        WordLess(r.value[i], r.value[j]);
      }
    }
    if r != Err(InvalidSketchCapacity) {
      forall A | Candidate(Gf(), s.coordinates, maxElements, A)
        ensures Found(A, r)
      {
        CapacityAffordable(Gf(), |A|);
        if |A| <= 18 {
          EighteenFit(A);
        }
      }
    }
  }
}
