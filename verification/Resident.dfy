/** The state a server keeps per population: an exact count, a digest, and one
    small sketch per estimator stratum. */
module Resident {
  import opened Wrappers
  import opened Integers
  import opened ByteBits
  import opened Errors
  import opened FieldTheory
  import opened Lists
  import opened PowerSums
  import opened SymmetricDifference
  import opened PinSketch
  import opened Algebraic
  import opened Quadratic

  const STRATA_COUNT := 32
  const STRATUM_CAPACITY := 8

  type Digest = d: seq<bv8> | |d| == 16 witness seq(16, i => 0)

  datatype ElementHash<F> = ElementHash(h128: Digest, h64: F)

  datatype Operation<F> = Insert(hash: ElementHash<F>) | Remove(hash: ElementHash<F>)

  /** The state as a value. */
  datatype Kernel<F> = Kernel(digest: Digest, count: int, strata: seq<seq<F>>)

  function XorBytes(a: Digest, b: Digest): Digest {
    seq(16, i requires 0 <= i < 16 => a[i] ^ b[i])
  }

  /** A hash mixed into a digest flips the bits that are set in the hash. */
  ghost predicate Mixed(before: Digest, hash: Digest, after: Digest) {
    forall i: nat, s: nat :: i < 16 && s < 8 ==> ByteBit(after[i], s) == (ByteBit(before[i], s) != ByteBit(hash[i], s))
  }

  lemma XorMixes(before: Digest, hash: Digest)
    ensures Mixed(before, hash, XorBytes(before, hash))
  {
    forall i: nat, s: nat | i < 16 && s < 8
      ensures ByteBit(XorBytes(before, hash)[i], s) == (ByteBit(before[i], s) != ByteBit(hash[i], s))
    {
      XorBit(before[i], hash[i], s);
    }
  }

  /** The stratum of an identifier: its trailing zeros, capped. */
  function StratumOf<F>(K: Field<F>, value: F): (index: nat)
    ensures index <= 31
    ensures forall j: nat :: j < index && j < K.bits ==> !K.bit(value, j)
    ensures index < 31 && index < K.bits ==> K.bit(value, index)
  {
    var zeros := TrailingZeros(K, value, 0);
    if zeros >= STRATA_COUNT then STRATA_COUNT - 1 else zeros
  }

  function Empty<F>(K: Field<F>): Kernel<F> {
    Kernel(seq(16, i => 0), 0, seq(STRATA_COUNT, i => seq(STRATUM_CAPACITY, j => K.zero)))
  }

  ghost predicate WellFormed<F>(k: Kernel<F>) {
    && 0 <= k.count <= MAX_UINT64
    && |k.strata| == STRATA_COUNT
    && forall i :: 0 <= i < STRATA_COUNT ==> |k.strata[i]| == STRATUM_CAPACITY
  }

  /** The outcome of an operation, decided before anything is written. */
  function Outcome<F(==)>(K: Field<F>, k: Kernel<F>, op: Operation<F>): Result<(), Error> {
    if op.hash.h64 == K.zero then Err(ZeroShortIdentifier)
    else if op.Insert? && k.count == MAX_UINT64 then Err(CountOverflow)
    else if op.Remove? && k.count == 0 then Err(CountUnderflow)
    else Ok(())
  }

  /** The state after an operation. */
  function Apply<F(==)>(K: Field<F>, k: Kernel<F>, op: Operation<F>): Kernel<F>
    requires |k.strata| == STRATA_COUNT
  {
    if Outcome(K, k, op).Err? then k else
      var index := StratumOf(K, op.hash.h64);
      Kernel(XorBytes(k.digest, op.hash.h128),
             if op.Insert? then k.count + 1 else k.count - 1,
             k.strata[index := Toggled(K, k.strata[index], op.hash.h64)])
  }

  // ---- the objects

  class RoomAccumulator<F(==)> {
    var digest: Digest
    var count: int

    constructor ()
      ensures digest == seq(16, i => 0) && count == 0
    {
      digest, count := seq(16, i => 0), 0;
    }

    method Mix(hash: Digest)
      modifies this`digest
      ensures digest == XorBytes(old(digest), hash) && Mixed(old(digest), hash, digest)
    {
      XorMixes(digest, hash);
      ghost var after := XorBytes(digest, hash);
      for i := 0 to 16
        invariant forall k :: 0 <= k < 16 ==> digest[k] == if k < i then after[k] else old(digest)[k]
      {
        digest := digest[i := digest[i] ^ hash[i]];
      }
    }

    method Insert(hash: ElementHash<F>) returns (r: Result<(), Error>)
      modifies this
      ensures r == if old(count) == 0xFFFF_FFFF_FFFF_FFFF then Err(CountOverflow) else Ok(())
      ensures r.Err? ==> count == old(count) && digest == old(digest)
      ensures r.Ok? ==> count == old(count) + 1 && Mixed(old(digest), hash.h128, digest)
      ensures r.Ok? ==> digest == XorBytes(old(digest), hash.h128)
    {
      if count == MAX_UINT64 {
        return Err(CountOverflow);
      }
      count := count + 1;
      Mix(hash.h128);
      return Ok(());
    }

    method Remove(hash: ElementHash<F>) returns (r: Result<(), Error>)
      modifies this
      ensures r == if old(count) == 0 then Err(CountUnderflow) else Ok(())
      ensures r.Err? ==> count == old(count) && digest == old(digest)
      ensures r.Ok? ==> count == old(count) - 1 && Mixed(old(digest), hash.h128, digest)
      ensures r.Ok? ==> digest == XorBytes(old(digest), hash.h128)
    {
      if count == 0 {
        return Err(CountUnderflow);
      }
      count := count - 1;
      Mix(hash.h128);
      return Ok(());
    }
  }

  class ResidentKernel<F(==,!new)> {
    const K: Field<F>
    const accumulator: RoomAccumulator<F>
    const strata: array<seq<F>>

    ghost predicate Valid()
      reads this, accumulator, strata
    {
      strata.Length == STRATA_COUNT && WellFormed(State())
    }

    ghost function State(): Kernel<F>
      reads this, accumulator, strata
    {
      Kernel(accumulator.digest, accumulator.count, strata[..])
    }

    constructor (K: Field<F>)
      ensures Valid() && fresh(accumulator) && fresh(strata)
      ensures this.K == K && State() == Empty(K)
    {
      this.K := K;
      accumulator := new RoomAccumulator();
      strata := new seq<F>[STRATA_COUNT](i => seq(STRATUM_CAPACITY, j => K.zero));
      new;
      assert strata[..] == Empty(K).strata;
    }

    method ToggleStratum(value: F)
      requires Valid() && IsField(K)
      modifies strata
      ensures Valid()
      ensures strata[..] == old(strata[..])[StratumOf(K, value) := Toggled(K, old(strata[..])[StratumOf(K, value)],
        value)]
    {
      var index := TrailingZeros(K, value, 0);
      if index >= STRATA_COUNT {
        index := STRATA_COUNT - 1;
      }
      var squared := K.mul(value, value);
      var oddPower := value;
      FirstPower(K, value);
      ghost var before := strata[..];
      ghost var after := Toggled(K, before[index], value);
      for i := 0 to STRATUM_CAPACITY
        invariant oddPower == Pow(K, value, 2 * i + 1)
        invariant |strata[index]| == STRATUM_CAPACITY && strata[..] == before[index := strata[index]]
        invariant forall k :: 0 <= k < STRATUM_CAPACITY ==>
          strata[index][k] == if k < i then after[k] else before[index][k]
      {
        strata[index] := strata[index][i := K.add(strata[index][i], oddPower)];
        OddPowers(K, value, i);
        oddPower := K.mul(oddPower, squared);
      }
      assert strata[index] == after;
    }

    method Insert(hash: ElementHash<F>) returns (r: Result<(), Error>)
      requires Valid() && IsField(K)
      modifies accumulator, strata
      ensures Valid() && r == Outcome(K, old(State()), Operation.Insert(hash))
      ensures r == if hash.h64 == K.zero then Err(ZeroShortIdentifier)
                   else if old(accumulator.count) == 0xFFFF_FFFF_FFFF_FFFF then Err(CountOverflow) else Ok(())
      ensures r.Err? ==> State() == old(State())
      ensures r.Ok? ==> accumulator.count == old(accumulator.count) + 1
      ensures r.Ok? ==> Mixed(old(accumulator.digest), hash.h128, accumulator.digest)
      ensures State() == Apply(K, old(State()), Operation.Insert(hash))
    {
      if hash.h64 == K.zero {
        return Err(ZeroShortIdentifier);
      }
      r := accumulator.Insert(hash);
      if r.Err? {
        return;
      }
      ToggleStratum(hash.h64);
    }

    method Remove(hash: ElementHash<F>) returns (r: Result<(), Error>)
      requires Valid() && IsField(K)
      modifies accumulator, strata
      ensures Valid() && r == Outcome(K, old(State()), Operation.Remove(hash))
      ensures r == if hash.h64 == K.zero then Err(ZeroShortIdentifier)
                   else if old(accumulator.count) == 0 then Err(CountUnderflow) else Ok(())
      ensures r.Err? ==> State() == old(State())
      ensures r.Ok? ==> accumulator.count == old(accumulator.count) - 1
      ensures r.Ok? ==> Mixed(old(accumulator.digest), hash.h128, accumulator.digest)
      ensures State() == Apply(K, old(State()), Operation.Remove(hash))
    {
      if hash.h64 == K.zero {
        return Err(ZeroShortIdentifier);
      }
      r := accumulator.Remove(hash);
      if r.Err? {
        return;
      }
      ToggleStratum(hash.h64);
    }
  }

  // ---- whole runs

  ghost function Run<F>(K: Field<F>, ops: seq<Operation<F>>): (k: Kernel<F>)
    ensures WellFormed(k)
  {
    if ops == [] then Empty(K) else Apply(K, Run(K, ops[..|ops| - 1]), ops[|ops| - 1])
  }

  /** The operations of a run that succeed. */
  ghost function Applied<F>(K: Field<F>, ops: seq<Operation<F>>): seq<Operation<F>> {
    if ops == [] then [] else
      var before := Applied(K, ops[..|ops| - 1]);
      if Outcome(K, Run(K, ops[..|ops| - 1]), ops[|ops| - 1]).Ok? then before + [ops[|ops| - 1]] else before
  }

  /** The operations whose hash has a given bit. */
  ghost function HasBit<F>(i: nat, s: nat): Operation<F> -> bool
    requires i < 16 && s < 8
  {
    (op: Operation<F>) => ByteBit(op.hash.h128[i], s)
  }

  ghost function Inserts<F>(): Operation<F> -> bool { (op: Operation<F>) => op.Insert? }

  ghost function Removes<F>(): Operation<F> -> bool { (op: Operation<F>) => op.Remove? }

  /** A bit of the digest is the parity of the hashes that have it. */
  ghost predicate ParityAt<F>(digest: Digest, ops: seq<Operation<F>>, i: nat, s: nat)
    requires i < 16 && s < 8
  {
    ByteBit(digest[i], s) == (CountIf(ops, HasBit(i, s)) % 2 == 1)
  }

  lemma ParityNext<F>(before: Digest, digest: Digest, ops: seq<Operation<F>>, i: nat, s: nat)
    requires ops != [] && Mixed(before, ops[|ops| - 1].hash.h128, digest) && i < 16 && s < 8
    requires ParityAt(before, ops[..|ops| - 1], i, s)
    ensures ParityAt(digest, ops, i, s)
  {
    CountIfSnoc(ops, HasBit(i, s));
    assert HasBit<F>(i, s)(ops[|ops| - 1]) == ByteBit(ops[|ops| - 1].hash.h128[i], s);
  }

  /** The identifiers of one stratum, in the order they were toggled. */
  ghost function InStratum<F>(K: Field<F>, ops: seq<Operation<F>>, index: nat): seq<F> {
    if ops == [] then [] else
      var before := InStratum(K, ops[..|ops| - 1], index);
      var id := ops[|ops| - 1].hash.h64;
      if StratumOf(K, id) == index then before + [id] else before
  }

  /** What every run keeps: each part of the state is decided by the operations
      that succeeded. A bit of the digest is set when an odd number of their
      hashes have it, and the count is the insertions less the removals. */
  lemma {:induction false} RunKeeps<F(!new)>(K: Field<F>, ops: seq<Operation<F>>)
    ensures forall i: nat, s: nat :: i < 16 && s < 8 ==> ParityAt(Run(K, ops).digest, Applied(K, ops), i, s)
    ensures Run(K, ops).count == CountIf(Applied(K, ops), Inserts()) - CountIf(Applied(K, ops), Removes())
    ensures forall i :: 0 <= i < STRATA_COUNT ==>
      Run(K, ops).strata[i] == OddSums(K, InStratum(K, Applied(K, ops), i), STRATUM_CAPACITY)
    ensures forall op :: op in Applied(K, ops) ==> op.hash.h64 != K.zero
  {
    if ops == [] {
      forall i | 0 <= i < STRATA_COUNT
        ensures Run(K, ops).strata[i] == OddSums(K, [], STRATUM_CAPACITY)
      {
      }
      forall i: nat, s: nat | i < 16 && s < 8
        ensures ParityAt<F>(Run(K, ops).digest, [], i, s)
      {
        ZeroBit(s);
      }
    } else {
      var n := |ops| - 1;
      RunKeeps(K, ops[..n]);
      if Outcome(K, Run(K, ops[..n]), ops[n]).Ok? {
        var A := Applied(K, ops);
        assert A[..|A| - 1] == Applied(K, ops[..n]) && A[|A| - 1] == ops[n];
        CountIfSnoc(A, Inserts());
        CountIfSnoc(A, Removes());
        XorMixes(Run(K, ops[..n]).digest, ops[n].hash.h128);
        forall i: nat, s: nat | i < 16 && s < 8
          ensures ParityAt(Run(K, ops).digest, A, i, s)
        {
          ParityNext(Run(K, ops[..n]).digest, Run(K, ops).digest, A, i, s);
        }
        ToggleAppends(K, InStratum(K, A[..|A| - 1], StratumOf(K, ops[n].hash.h64)), ops[n].hash.h64, STRATUM_CAPACITY);
      }
    }
  }

  /** The identifiers of a stratum that are present: toggled an odd number of times. */
  ghost predicate Present<F(!new)>(K: Field<F>, ops: seq<Operation<F>>, index: nat, members: seq<F>) {
    OddMembers(InStratum(K, Applied(K, ops), index), members)
  }

  lemma {:induction false} StratumNonzero<F(!new)>(K: Field<F>, ops: seq<Operation<F>>, index: nat)
    requires forall op :: op in ops ==> op.hash.h64 != K.zero
    ensures K.zero !in InStratum(K, ops, index)
    ensures forall x :: x in InStratum(K, ops, index) ==> StratumOf(K, x) == index
  {
    if ops != [] {
      StratumNonzero(K, ops[..|ops| - 1], index);
    }
  }

  /** Each stratum is the sketch of the identifiers present in it. */
  lemma StratumIsSketch<F(!new)>(K: Field<F>, ops: seq<Operation<F>>, index: nat) returns (members: seq<F>)
    requires IsField(K) && index < STRATA_COUNT
    ensures Present(K, ops, index, members) && K.zero !in members
    ensures Run(K, ops).strata[index] == OddSums(K, members, STRATUM_CAPACITY)
    ensures forall x :: x in members ==> StratumOf(K, x) == index
  {
    RunKeeps(K, ops);
    var toggled := InStratum(K, Applied(K, ops), index);
    StratumNonzero(K, Applied(K, ops), index);
    members := OddMembersExist(K, toggled);
    SameOddSums(K, toggled, members, STRATUM_CAPACITY);
    forall x | x in members
      ensures x in toggled
    {
      assert multiset(toggled)[x] % 2 == 1;
    }
  }

  /** The xor of the strata of two kernels is the sketch of the identifiers
      present on one side only. */
  lemma StrataDifference<F(!new)>(K: Field<F>, left: seq<Operation<F>>, right: seq<Operation<F>>, index: nat)
      returns (A: seq<F>, B: seq<F>, D: seq<F>)
    requires IsField(K) && index < STRATA_COUNT
    ensures Present(K, left, index, A) && Present(K, right, index, B)
    ensures Distinct(D) && forall x :: x in D <==> (x in A) != (x in B)
    ensures |D| <= STRATUM_CAPACITY ==>
      Candidate(K, Added(K, Run(K, left).strata[index], Run(K, right).strata[index]), STRATUM_CAPACITY, D)
  {
    A := StratumIsSketch(K, left, index);
    B := StratumIsSketch(K, right, index);
    D := DifferenceIsSymmetric(K, A, B, STRATUM_CAPACITY);
  }

  lemma XorBytesTwice(a: Digest, b: Digest)
    ensures XorBytes(XorBytes(a, b), b) == a
  {
    forall i | 0 <= i < 16
      ensures XorBytes(XorBytes(a, b), b)[i] == a[i]
    {
      ByteTwice(a[i], b[i]);
    }
  }

  lemma ByteTwice(a: bv8, b: bv8)
    ensures (a ^ b) ^ b == a
  {
  }

  /** Removing what was just inserted restores the whole state. */
  lemma RemoveUndoesInsert<F(!new)>(K: Field<F>, k: Kernel<F>, hash: ElementHash<F>)
    requires IsField(K) && WellFormed(k) && Outcome(K, k, Operation.Insert(hash)).Ok?
    ensures Apply(K, Apply(K, k, Operation.Insert(hash)), Operation.Remove(hash)) == k
  {
    var index := StratumOf(K, hash.h64);
    ToggleTwice(K, k.strata[index], hash.h64);
    XorBytesTwice(k.digest, hash.h128);
    assert k.strata[index := Toggled(K, k.strata[index], hash.h64)][index := k.strata[index]] == k.strata;
  }
}
