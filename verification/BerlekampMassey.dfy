/** Linear feedback shift registers and the Berlekamp-Massey algorithm. */
module BerlekampMassey {
  import opened FieldTheory
  import opened Polynomials

  /** The sum over i >= j of s[n - i] * C[i], with s read as zero outside its range. */
  ghost function Recurrence<F>(K: Field<F>, C: seq<F>, s: seq<F>, n: int, j: nat): F
    requires j <= |C|
    decreases |C| - j
  {
    if j == |C| then K.zero else K.add(K.mul(Coef(K, s, n - j), C[j]), Recurrence(K, C, s, n, j + 1))
  }

  /** C, with C[0] = 1 and at most l + 1 coefficients, is a register of length l
      generating s: the recurrence holds at every position from l on. */
  ghost predicate Generates<F>(K: Field<F>, C: seq<F>, l: int, s: seq<F>) {
    && 1 <= |C| <= l + 1 && C[0] == K.one
    && forall n :: l <= n < |s| ==> Recurrence(K, C, s, n, 0) == K.zero
  }

  ghost predicate NoneShorter<F(!new)>(K: Field<F>, l: int, s: seq<F>) {
    forall C', l' :: Generates(K, C', l', s) ==> l <= l'
  }

  /** A shortest register for s. */
  ghost predicate Minimal<F(!new)>(K: Field<F>, C: seq<F>, s: seq<F>) {
    Generates(K, C, |C| - 1, s) && NoneShorter(K, |C| - 1, s)
  }

  // ---- the recurrence is a coefficient of the product of C and s

  lemma {:induction false} RecurrenceTail<F(!new)>(K: Field<F>, C: seq<F>, s: seq<F>, n: int, j: nat)
    requires IsField(K) && j < |C|
    ensures Recurrence(K, C, s, n, j + 1) == Recurrence(K, C[1..], s, n - 1, j)
    decreases |C| - j
  {
    if j + 1 < |C| {
      RecurrenceTail(K, C, s, n, j + 1);
    }
  }

  lemma {:induction false} RecurrenceIsCoef<F(!new)>(K: Field<F>, C: seq<F>, s: seq<F>, n: int)
    requires IsField(K)
    ensures Recurrence(K, C, s, n, 0) == Coef(K, PMul(K, C, s), n)
  {
    if C != [] {
      RecurrenceTail(K, C, s, n, 0);
      RecurrenceIsCoef(K, C[1..], s, n - 1);
      CoefMulCons(K, C, s, n);
      MulComm(K, C[0], Coef(K, s, n));
    }
  }

  lemma {:induction false} RecurrencePrefix<F(!new)>(K: Field<F>, C: seq<F>, s: seq<F>, m: nat, n: int, j: nat)
    requires n < m <= |s| && j <= |C|
    ensures Recurrence(K, C, s[..m], n, j) == Recurrence(K, C, s, n, j)
    decreases |C| - j
  {
    if j < |C| {
      RecurrencePrefix(K, C, s, m, n, j + 1);
    }
  }

  lemma GeneratesPrefix<F(!new)>(K: Field<F>, C: seq<F>, l: int, s: seq<F>, m: nat)
    requires m <= |s| && Generates(K, C, l, s)
    ensures Generates(K, C, l, s[..m])
  {
    forall n | l <= n < m
      ensures Recurrence(K, C, s[..m], n, 0) == K.zero
    {
      RecurrencePrefix(K, C, s, m, n, 0);
    }
  }

  lemma NoneShorterExtends<F(!new)>(K: Field<F>, l: int, s: seq<F>, m: nat)
    requires m <= |s| && NoneShorter(K, l, s[..m])
    ensures NoneShorter(K, l, s)
  {
    forall C', l' | Generates(K, C', l', s)
      ensures l <= l'
    {
      GeneratesPrefix(K, C', l', s, m);
    }
  }

  /** A product has a zero coefficient at n when the second factor vanishes on
      the whole window that the first one reaches. */
  lemma {:induction false} ZeroWindow<F(!new)>(K: Field<F>, p: seq<F>, q: seq<F>, n: int)
    requires IsField(K)
    requires forall k :: n - |p| < k <= n ==> Coef(K, q, k) == K.zero
    ensures Coef(K, PMul(K, p, q), n) == K.zero
  {
    if p != [] {
      CoefMulCons(K, p, q, n);
      ZeroWindow(K, p[1..], q, n - 1);
      MulZero(K, p[0]);
      AddZero(K, K.zero);
    }
  }

  /** The coefficients of the product vanish where the register generates. */
  lemma GeneratesWindow<F(!new)>(K: Field<F>, C: seq<F>, l: int, s: seq<F>, n: nat)
    requires IsField(K) && n <= |s| && Generates(K, C, l, s[..n])
    ensures forall k :: l <= k < n ==> Coef(K, PMul(K, C, s), k) == K.zero
  {
    forall k | l <= k < n
      ensures Coef(K, PMul(K, C, s), k) == K.zero
    {
      RecurrenceIsCoef(K, C, s, k);
      RecurrencePrefix(K, C, s, n, k, 0);
    }
  }

  lemma RegistersCommute<F(!new)>(K: Field<F>, C: seq<F>, C': seq<F>, s: seq<F>)
    requires IsField(K)
    ensures PMul(K, C, PMul(K, C', s)) == PMul(K, C', PMul(K, C, s))
  {
    PMulAssoc(K, C, C', s);
    PMulAssoc(K, C', C, s);
    PMulComm(K, C, C');
  }

  /** Only the constant coefficient of C' reaches a nonzero coefficient of p. */
  lemma FirstOnly<F(!new)>(K: Field<F>, C': seq<F>, p: seq<F>, n: nat)
    requires IsField(K) && C' != [] && C'[0] == K.one
    requires forall k :: n - |C'| < k <= n - 1 ==> Coef(K, p, k) == K.zero
    ensures Coef(K, PMul(K, C', p), n) == Coef(K, p, n)
  {
    ZeroWindow(K, C'[1..], p, n - 1);
    CoefMulCons(K, C', p, n);
    MulOne(K, Coef(K, p, n));
    MulComm(K, K.one, Coef(K, p, n));
    AddZero(K, Coef(K, p, n));
  }

  /** Massey's lemma: a register of length l that generates s up to n but not
      at n forces length at least n + 1 - l on any register that does both. */
  lemma Massey<F(!new)>(K: Field<F>, C: seq<F>, l: nat, C': seq<F>, l': int, s: seq<F>, n: nat)
    requires IsField(K) && n < |s|
    requires Generates(K, C, l, s[..n]) && Recurrence(K, C, s, n, 0) != K.zero
    requires Generates(K, C', l', s[..n + 1])
    ensures n + 1 - l <= l'
  {
    var p, p' := PMul(K, C, s), PMul(K, C', s);
    GeneratesWindow(K, C', l', s, n + 1);
    GeneratesWindow(K, C, l, s, n);
    RecurrenceIsCoef(K, C, s, n);
    // the coefficient of C * C' * s at n, computed in two ways
    RegistersCommute(K, C, C', s);
    if l' <= n - l {
      ZeroWindow(K, C, p', n);
      FirstOnly(K, C', p, n);
    }
  }

  // ---- the algorithm

  /** s preceded by a one: the initial register of the algorithm, of length 0 and
      discrepancy 1, then meets its discrepancy at position 0. */
  ghost function Primed<F>(K: Field<F>, s: seq<F>): seq<F> { [K.one] + s }

  lemma PrimedCoef<F(!new)>(K: Field<F>, C: seq<F>, s: seq<F>, n: int)
    requires IsField(K)
    ensures Coef(K, PMul(K, C, Primed(K, s)), n + 1) == K.add(Coef(K, C, n + 1), Recurrence(K, C, s, n, 0))
  {
    PMulConsRight(K, C, K.one, s);
    CoefAdd(K, PScale(K, K.one, C), PShift(K, PMul(K, C, s)), n + 1);
    CoefScale(K, K.one, C, n + 1);
    MulOne(K, Coef(K, C, n + 1));
    RecurrenceIsCoef(K, C, s, n);
  }

  /** The register read on the primed sequence: zero from |C| up to n. */
  ghost predicate ZeroUpTo<F>(K: Field<F>, C: seq<F>, t: seq<F>, n: int) {
    forall k :: |C| <= k <= n ==> ZeroAt(K, C, t, k)
  }

  ghost predicate ZeroAt<F>(K: Field<F>, C: seq<F>, t: seq<F>, k: int) {
    Coef(K, PMul(K, C, t), k) == K.zero
  }

  lemma ZeroUpToGenerates<F(!new)>(K: Field<F>, C: seq<F>, s: seq<F>, n: nat)
    requires IsField(K) && n <= |s| && C != [] && C[0] == K.one
    ensures ZeroUpTo(K, C, Primed(K, s), n) <==> Generates(K, C, |C| - 1, s[..n])
  {
    forall k | |C| - 1 <= k < n
      ensures Coef(K, PMul(K, C, Primed(K, s)), k + 1) == Recurrence(K, C, s[..n], k, 0)
    {
      PrimedCoef(K, C, s, k);
      RecurrencePrefix(K, C, s, n, k, 0);
      AddZero(K, Recurrence(K, C, s, k, 0));
    }
    if Generates(K, C, |C| - 1, s[..n]) {
      forall k | |C| <= k <= n
        ensures ZeroAt(K, C, Primed(K, s), k)
      {
        assert Coef(K, PMul(K, C, Primed(K, s)), (k - 1) + 1) == Recurrence(K, C, s[..n], k - 1, 0);
      }
    }
    if ZeroUpTo(K, C, Primed(K, s), n) {
      forall k | |C| - 1 <= k < n
        ensures Recurrence(K, C, s[..n], k, 0) == K.zero
      {
        assert ZeroAt(K, C, Primed(K, s), k + 1);
      }
    }
  }

  lemma CorrectedCoef<F(!new)>(K: Field<F>, R: seq<F>, C: seq<F>, scale: F, B: seq<F>, shift: nat, t: seq<F>, k: int)
    requires IsField(K) && PlusMultiple(K, R, C, scale, B, shift)
    ensures Coef(K, PMul(K, R, t), k)
         == K.add(Coef(K, PMul(K, C, t), k), K.mul(scale, Coef(K, PMul(K, B, t), k - shift)))
  {
    var xB := PShiftBy(K, B, shift);
    var S := PScale(K, scale, xB);
    forall i: nat
      ensures Coef(K, R, i) == Coef(K, PAdd(K, C, S), i)
    {
      assert PlusMultipleAt(K, R, C, scale, B, shift, i);
      CoefAdd(K, C, S, i);
      CoefScale(K, scale, xB, i);
      CoefShiftBy(K, B, shift, i);
    }
    PMulEq(K, R, PAdd(K, C, S), t, k);
    PMulAddLeft(K, C, S, t);
    CoefAdd(K, PMul(K, C, t), PMul(K, S, t), k);
    PMulScaleLeft(K, scale, xB, t);
    CoefScale(K, scale, PMul(K, xB, t), k);
    PMulShiftByLeft(K, B, shift, t);
    CoefShiftBy(K, PMul(K, B, t), shift, k);
  }

  /** The state kept between two discrepancies: `previous` was the current
      register just before the last length change, and met its own
      discrepancy at the position given by the two lengths. */
  ghost predicate PreviousOk<F>(K: Field<F>, B: seq<F>, b: F, t: seq<F>, m: int) {
    B != [] && b != K.zero && ZeroUpTo(K, B, t, m - 1) && Coef(K, PMul(K, B, t), m) == b
  }

  /** A correction keeps the zeros that both registers have. */
  lemma CorrectionKeeps<F(!new)>(K: Field<F>, R: seq<F>, C: seq<F>, B: seq<F>, scale: F, shift: nat, t: seq<F>,
      k: int, j: int)
    requires IsField(K) && PlusMultiple(K, R, C, scale, B, shift)
    requires j == k - shift && ZeroAt(K, C, t, k) && ZeroAt(K, B, t, j)
    ensures ZeroAt(K, R, t, k)
  {
    CorrectedCoef(K, R, C, scale, B, shift, t, k);
    MulZero(K, scale);
    AddZero(K, K.zero);
  }

  /** At the discrepancy itself the two contributions cancel. */
  lemma CorrectionCancels<F(!new)>(K: Field<F>, R: seq<F>, C: seq<F>, B: seq<F>, b: F, d: F,
      scale: F, shift: nat, t: seq<F>, m: int, k: int)
    requires IsField(K) && PlusMultiple(K, R, C, scale, B, shift) && b != K.zero && scale == K.mul(d, Inv(K, b))
    requires m == k - shift && Coef(K, PMul(K, C, t), k) == d && Coef(K, PMul(K, B, t), m) == b
    ensures ZeroAt(K, R, t, k)
  {
    CorrectedCoef(K, R, C, scale, B, shift, t, k);
    CancelDiscrepancy(K, d, b);
  }

  /** The correction cancels the discrepancy at n and breaks nothing before it. */
  lemma Correction<F(!new)>(K: Field<F>, R: seq<F>, C: seq<F>, B: seq<F>, b: F, d: F, t: seq<F>, m: int, n: nat,
      scale: F, shift: nat)
    requires IsField(K) && m <= n && shift == n + 1 - m && scale == K.mul(d, Inv(K, b))
    requires PreviousOk(K, B, b, t, m) && ZeroUpTo(K, C, t, n)
    requires Coef(K, PMul(K, C, t), n + 1) == d
    requires PlusMultiple(K, R, C, scale, B, shift)
    requires |R| >= |C| && |R| >= |B| + shift
    ensures ZeroUpTo(K, R, t, n + 1)
  {
    CorrectionCancels(K, R, C, B, b, d, scale, shift, t, m, n + 1);
    forall k | |R| <= k <= n
      ensures ZeroAt(K, R, t, k)
    {
      var j := k - shift;
      assert ZeroAt(K, C, t, k) && ZeroAt(K, B, t, j);
      CorrectionKeeps(K, R, C, B, scale, shift, t, k, j);
    }
  }

  lemma CancelDiscrepancy<F(!new)>(K: Field<F>, d: F, b: F)
    requires IsField(K) && b != K.zero
    ensures K.add(d, K.mul(K.mul(d, Inv(K, b)), b)) == K.zero
  {
    MulAssoc(K, d, Inv(K, b), b);
    MulInv(K, b);
    MulOne(K, d);
    AddZero(K, d);
  }

  /** The two registers after n syndromes, read on the primed sequence t. */
  ghost predicate Registers<F>(K: Field<F>, C: seq<F>, B: seq<F>, b: F, t: seq<F>, m: int, n: nat) {
    && C != [] && C[0] == K.one && B != [] && m == |C| + |B| - 2 && m <= n
    && ZeroUpTo(K, C, t, n)
    && PreviousOk(K, B, b, t, m)
  }

  /** One nonzero discrepancy d, with or without a length change. */
  lemma RegistersStep<F(!new)>(K: Field<F>, C: seq<F>, B: seq<F>, b: F, d: F, t: seq<F>, m: int, n: nat,
      R: seq<F>, scale: F, shift: nat, swap: bool)
    requires IsField(K) && Registers(K, C, B, b, t, m, n)
    requires Coef(K, PMul(K, C, t), n + 1) == d && d != K.zero && swap == ((|C| - 1) * 2 <= n)
    requires shift == n + 1 - m && scale == K.mul(d, Inv(K, b))
    requires |R| == if swap then Max(|C|, |B| + shift) else |C|
    requires PlusMultiple(K, R, C, scale, B, shift)
    ensures |R| == if swap then n + 3 - |C| else |C|
    ensures if swap then Registers(K, R, C, d, t, n + 1, n + 1) else Registers(K, R, B, b, t, m, n + 1)
  {
    Correction(K, R, C, B, b, d, t, m, n, scale, shift);
    CorrectedHead(K, R, C, scale, B, shift);
  }

  lemma CorrectedHead<F(!new)>(K: Field<F>, R: seq<F>, C: seq<F>, scale: F, B: seq<F>, shift: int)
    requires IsField(K) && PlusMultiple(K, R, C, scale, B, shift) && shift > 0 && R != [] && C != []
    ensures R[0] == C[0]
  {
    assert PlusMultipleAt(K, R, C, scale, B, shift, 0);
    MulZero(K, scale);
    AddZero(K, C[0]);
  }

  lemma RegistersInitially<F(!new)>(K: Field<F>, s: seq<F>)
    requires IsField(K)
    ensures Registers(K, [K.one], [K.one], K.one, Primed(K, s), 0, 0)
  {
    PMulOne(K, Primed(K, s));
  }

  /** The discrepancy is the next coefficient on the primed sequence. */
  lemma PrimedDiscrepancy<F(!new)>(K: Field<F>, C: seq<F>, s: seq<F>, n: nat)
    requires IsField(K) && |C| <= n + 1
    ensures Coef(K, PMul(K, C, Primed(K, s)), n + 1) == Recurrence(K, C, s, n, 0)
  {
    PrimedCoef(K, C, s, n);
    AddZero(K, Recurrence(K, C, s, n, 0));
  }

  // ---- minimality along the loop

  ghost predicate NoneShorterAt<F(!new)>(K: Field<F>, l: int, s: seq<F>, n: nat) {
    n <= |s| && NoneShorter(K, l, s[..n])
  }

  lemma NoneShorterInitially<F(!new)>(K: Field<F>, s: seq<F>)
    ensures NoneShorterAt(K, 0, s, 0)
  {
  }

  lemma NoneShorterNext<F(!new)>(K: Field<F>, l: int, s: seq<F>, n: nat)
    requires n < |s| && NoneShorterAt(K, l, s, n)
    ensures NoneShorterAt(K, l, s, n + 1)
  {
    assert s[..n] == s[..n + 1][..n];
    NoneShorterExtends(K, l, s[..n + 1], n);
  }

  /** A discrepancy at n leaves only registers of length at least n + 1 - (|C| - 1). */
  lemma LengthChange<F(!new)>(K: Field<F>, C: seq<F>, s: seq<F>, n: nat)
    requires IsField(K) && n < |s| && 1 <= |C| && C[0] == K.one
    requires ZeroUpTo(K, C, Primed(K, s), n) && Recurrence(K, C, s, n, 0) != K.zero
    ensures NoneShorterAt(K, n + 2 - |C|, s, n + 1)
  {
    ZeroUpToGenerates(K, C, s, n);
    var s' := s[..n + 1];
    forall C', l' | Generates(K, C', l', s')
      ensures n + 2 - |C| <= l'
    {
      Massey(K, C, |C| - 1, C', l', s, n);
    }
  }

  lemma MinimalFinally<F(!new)>(K: Field<F>, C: seq<F>, B: seq<F>, b: F, m: int, s: seq<F>)
    requires IsField(K) && Registers(K, C, B, b, Primed(K, s), m, |s|) && NoneShorterAt(K, |C| - 1, s, |s|)
    ensures Minimal(K, C, s)
  {
    assert s[..|s|] == s;
    ZeroUpToGenerates(K, C, s, |s|);
  }

  /** The discrepancy at position n, accumulated over the register as in the source. */
  method Discrepancy<F(==,!new)>(K: Field<F>, current: seq<F>, s: seq<F>, n: nat) returns (d: F)
    requires IsField(K) && n < |s| && current != [] && current[0] == K.one
    ensures d == Recurrence(K, current, s, n, 0)
  {
    d := s[n];
    MulOne(K, s[n]);
    for i := 0 to |current|
      invariant i == 0 ==> d == s[n]
      invariant i > 0 ==> K.add(d, Recurrence(K, current, s, n, i)) == Recurrence(K, current, s, n, 0)
    {
      ghost var term := K.mul(Coef(K, s, n - i), current[i]);
      AddAssoc(K, d, term, Recurrence(K, current, s, n, i + 1));
      if i == 0 || n < i {
        MulZero(K, current[i]);
        AddZero(K, d);
        continue;
      }
      d := K.add(d, K.mul(s[n - i], current[i]));
    }
    AddZero(K, d);
  }

  /** The correction of the current register, already lengthened, by a multiple of the previous one. */
  method Correct<F(==,!new)>(K: Field<F>, ghost unpadded: seq<F>, padded: seq<F>, previous: seq<F>,
      previousDiscrepancy: F, discrepancy: F, shift: nat) returns (current: seq<F>, ghost scale: F)
    requires IsBinaryField(K) && previousDiscrepancy != K.zero
    requires |previous| + shift <= |padded| && PEq(K, padded, unpadded)
    ensures |current| == |padded| && scale == K.mul(discrepancy, Inv(K, previousDiscrepancy))
    ensures PlusMultiple(K, current, unpadded, scale, previous, shift)
  {
    var invertible, inverse := FieldInv(K, previousDiscrepancy);
    assert invertible;
    scale := K.mul(discrepancy, inverse);
    current := AddMultiple(K, padded, K.mul(discrepancy, inverse), previous, shift, unpadded);
  }

  /** The state of the algorithm after n syndromes. */
  ghost predicate Running<F(!new)>(K: Field<F>, s: seq<F>, maxDegree: int, C: seq<F>, B: seq<F>, b: F, m: int, n: nat) {
    && Registers(K, C, B, b, Primed(K, s), m, n)
    && NoneShorterAt(K, |C| - 1, s, n)
    && |C| - 1 <= Max(0, maxDegree)
  }

  lemma RunSkip<F(!new)>(K: Field<F>, s: seq<F>, maxDegree: int, C: seq<F>, B: seq<F>, b: F, m: int, n: nat)
    requires IsField(K) && n < |s| && Running(K, s, maxDegree, C, B, b, m, n) && Recurrence(K, C, s, n, 0) == K.zero
    ensures Running(K, s, maxDegree, C, B, b, m, n + 1)
  {
    PrimedDiscrepancy(K, C, s, n);
    NoneShorterNext(K, |C| - 1, s, n);
  }

  lemma RunStep<F(!new)>(K: Field<F>, s: seq<F>, maxDegree: int, C: seq<F>, B: seq<F>, b: F, d: F, m: int, n: nat,
      R: seq<F>, scale: F, shift: nat, swap: bool)
    requires IsField(K) && n < |s| && Running(K, s, maxDegree, C, B, b, m, n)
    requires d == Recurrence(K, C, s, n, 0) != K.zero && swap == ((|C| - 1) * 2 <= n)
    requires shift == n + 1 - m && scale == K.mul(d, Inv(K, b))
    requires |R| == if swap then Max(|C|, |B| + shift) else |C|
    requires PlusMultiple(K, R, C, scale, B, shift) && (swap ==> |B| + shift - 1 <= maxDegree)
    ensures if swap then Running(K, s, maxDegree, R, C, d, n + 1, n + 1)
      else Running(K, s, maxDegree, R, B, b, m, n + 1)
  {
    PrimedDiscrepancy(K, C, s, n);
    NoneShorterNext(K, |C| - 1, s, n);
    LengthChange(K, C, s, n);
    RegistersStep(K, C, B, b, d, Primed(K, s), m, n, R, scale, shift, swap);
  }

  /** No register within the degree is left when the length would have to pass it. */
  lemma RunFails<F(!new)>(K: Field<F>, s: seq<F>, maxDegree: int, C: seq<F>, B: seq<F>, b: F, m: int, n: nat,
      shift: nat)
    requires IsField(K) && n < |s| && Running(K, s, maxDegree, C, B, b, m, n)
    requires Recurrence(K, C, s, n, 0) != K.zero && shift == n + 1 - m && |B| + shift - 1 > maxDegree
    ensures forall C', l :: Generates(K, C', l, s) ==> l > maxDegree
  {
    LengthChange(K, C, s, n);
    NoneShorterExtends(K, n + 2 - |C|, s, n + 1);
  }

  /** The recovered register is a shortest one for the whole sequence, and its
      length is its degree. A failure is one of two things: no register of
      length at most maxDegree generates the sequence, or a shortest one has
      a zero last coefficient. */
  method Run<F(==,!new)>(K: Field<F>, s: seq<F>, maxDegree: int) returns (ok: bool, current: seq<F>)
    requires IsBinaryField(K)
    ensures ok ==> Minimal(K, current, s) && |current| - 1 <= Max(0, maxDegree) && current[|current| - 1] != K.zero
    ensures !ok ==>
      || (forall C, l :: Generates(K, C, l, s) ==> l > maxDegree)
      || (exists C :: C != [] && C[|C| - 1] == K.zero && Minimal(K, C, s))
  {
    current := [K.one];
    var previous := [K.one];
    var previousDiscrepancy := K.one;
    ghost var m := 0;
    RegistersInitially(K, s);
    NoneShorterInitially(K, s);
    for n := 0 to |s|
      invariant Running(K, s, maxDegree, current, previous, previousDiscrepancy, m, n)
    {
      var discrepancy := Discrepancy(K, current, s, n);
      if discrepancy == K.zero {
        RunSkip(K, s, maxDegree, current, previous, previousDiscrepancy, m, n);
        continue;
      }
      var currentDegree := |current| - 1;
      var previousDegree := |previous| - 1;
      var shift := n + 1 - currentDegree - previousDegree;
      var swap := currentDegree * 2 <= n;
      var oldCurrent := current;
      if swap {
        var newLen := |previous| + shift;
        if newLen - 1 > maxDegree {
          RunFails(K, s, maxDegree, current, previous, previousDiscrepancy, m, n, shift);
          return false, current;
        }
        if newLen > |current| {
          current := Pad(K, current, newLen);
        }
      }
      ghost var scale;
      current, scale := Correct(K, oldCurrent, current, previous, previousDiscrepancy, discrepancy, shift);
      RunStep(K, s, maxDegree, oldCurrent, previous, previousDiscrepancy, discrepancy, m, n, current, scale, shift,
        swap);
      if swap {
        previous := oldCurrent;
        previousDiscrepancy := discrepancy;
        m := n + 1;
      }
    }
    MinimalFinally(K, current, previous, previousDiscrepancy, m, s);
    ok := current[|current| - 1] != K.zero;
  }
}
