/** Bucketed sketch requests: which request lists are valid, which part of the
    32-bit space each bucket covers, and the decoding of a whole answer. */
module Triage {
  import opened Wrappers
  import opened Integers
  import opened Splitting
  import opened Errors
  import opened FieldTheory
  import opened PinSketch
  import opened Algebraic
  import Word64
  import opened Encoding

  type Word = Word64.Word

  const MAX_BUCKETED_SKETCH_CAPACITY := 4096
  const MAX_BUCKET_SKETCH_CAPACITY := 32
  const MAX_DEPTH: nat := 32

  datatype BucketRequest = BucketRequest(depth: uint8, prefix: uint32, capacity: int)
  datatype BucketDecodeSuccess = BucketDecodeSuccess(depth: uint8, prefix: uint32, roots: seq<Word>)
  datatype FailedBucket = FailedBucket(depth: uint8, prefix: uint32)
  datatype BucketDecodeBatch = BucketDecodeBatch(successful: seq<BucketDecodeSuccess>, failed: seq<FailedBucket>)

  // ---- the space covered by a bucket

  /** The number of positions below a node of this depth. */
  function Size(depth: nat): (n: nat)
    requires depth <= MAX_DEPTH
    ensures n >= 1
  {
    Exp2(MAX_DEPTH - depth)
  }

  function Start(depth: nat, prefix: nat): nat
    requires depth <= MAX_DEPTH
  {
    prefix * Size(depth)
  }

  function End(depth: nat, prefix: nat): nat
    requires depth <= MAX_DEPTH
  {
    Start(depth, prefix) + Size(depth)
  }

  predicate ValidIndex(depth: nat, prefix: nat) {
    depth <= MAX_DEPTH && prefix < Exp2(depth)
  }

  // ---- valid request lists

  function TotalCapacity(requests: seq<BucketRequest>): int {
    if requests == [] then 0 else TotalCapacity(requests[..|requests| - 1]) + requests[|requests| - 1].capacity
  }

  predicate ValidRequest(r: BucketRequest) {
    1 <= r.capacity <= MAX_BUCKET_SKETCH_CAPACITY && ValidIndex(r.depth, r.prefix)
  }

  predicate Before(a: BucketRequest, b: BucketRequest)
    requires a.depth <= MAX_DEPTH && b.depth <= MAX_DEPTH
  {
    End(a.depth, a.prefix) <= Start(b.depth, b.prefix)
  }

  /** Buckets that are disjoint and in order. */
  ghost predicate Ordered(requests: seq<BucketRequest>) {
    && (forall i :: 0 <= i < |requests| ==> ValidRequest(requests[i]))
    && forall i, j :: 0 <= i < j < |requests| ==> Before(requests[i], requests[j])
  }

  ghost predicate ValidRequests(requests: seq<BucketRequest>) {
    Ordered(requests) && TotalCapacity(requests) <= MAX_BUCKETED_SKETCH_CAPACITY
  }

  /** Every capacity is within its limit. */
  ghost predicate Sized(requests: seq<BucketRequest>) {
    forall i :: 0 <= i < |requests| ==> SizedAt(requests[i])
  }

  predicate SizedAt(r: BucketRequest) { 1 <= r.capacity <= MAX_BUCKET_SKETCH_CAPACITY }

  lemma OrderedIsSized(requests: seq<BucketRequest>)
    requires forall i :: 0 <= i < |requests| ==> ValidRequest(requests[i])
    ensures Sized(requests)
  {
    forall i | 0 <= i < |requests|
      ensures SizedAt(requests[i])
    {
      assert ValidRequest(requests[i]);
    }
  }

  lemma {:induction false} TotalMonotone(requests: seq<BucketRequest>, k: nat)
    requires k <= |requests| && Sized(requests)
    ensures k <= TotalCapacity(requests[..k]) <= TotalCapacity(requests)
    decreases |requests|
  {
    var n := |requests|;
    assert n > 0 ==> SizedAt(requests[n - 1]);
    if k == n {
      assert requests[..k] == requests;
      if n > 0 {
        TotalMonotone(requests[..n - 1], n - 1);
        assert requests[..n - 1][..n - 1] == requests[..n - 1];
      }
    } else {
      TotalMonotone(requests[..n - 1], k);
      assert requests[..n - 1][..k] == requests[..k];
    }
  }

  /** The first k requests are valid so far. */
  ghost predicate Checked(requests: seq<BucketRequest>, k: nat, total: int, previousEnd: nat)
    requires k <= |requests|
  {
    && (forall i :: 0 <= i < k ==> ValidRequest(requests[i]))
    && (forall i, j :: 0 <= i < j < k ==> Before(requests[i], requests[j]))
    && total == TotalCapacity(requests[..k]) <= MAX_BUCKETED_SKETCH_CAPACITY
    && previousEnd == if k == 0 then 0 else End(requests[k - 1].depth, requests[k - 1].prefix)
  }

  lemma CheckedNext(requests: seq<BucketRequest>, k: nat, total: int, previousEnd: nat, start: nat)
    requires k < |requests| && Checked(requests, k, total, previousEnd) && ValidRequest(requests[k])
    requires start == Start(requests[k].depth, requests[k].prefix)
    ensures TotalCapacity(requests[..k + 1]) == total + requests[k].capacity
    ensures start < previousEnd ==> k > 0 && !Before(requests[k - 1], requests[k])
    ensures total + requests[k].capacity <= MAX_BUCKETED_SKETCH_CAPACITY && start >= previousEnd ==>
      Checked(requests, k + 1, total + requests[k].capacity, start + Size(requests[k].depth))
  {
    assert requests[..k + 1][..k] == requests[..k];
    if start >= previousEnd {
      forall i | 0 <= i < k
        ensures Before(requests[i], requests[k])
      {
        assert i < k - 1 ==> Before(requests[i], requests[k - 1]);
      }
    }
  }

  lemma OverTotal(requests: seq<BucketRequest>, k: nat)
    requires k <= |requests| && TotalCapacity(requests[..k]) > MAX_BUCKETED_SKETCH_CAPACITY
    ensures TotalCapacity(requests) > MAX_BUCKETED_SKETCH_CAPACITY || exists i ::
      0 <= i < |requests| && !ValidRequest(requests[i])
  {
    if forall i :: 0 <= i < |requests| ==> ValidRequest(requests[i]) {
      OrderedIsSized(requests);
      TotalMonotone(requests, k);
    }
  }

  lemma IndexInRange(depth: nat, prefix: uint32)
    requires depth <= MAX_DEPTH && (depth < MAX_DEPTH ==> prefix < Exp2(depth))
    ensures ValidIndex(depth, prefix)
  {
    FullDepth();
  }

  method ValidateBucketRequests(requests: seq<BucketRequest>) returns (r: Result<(), Error>)
    ensures r.Ok? <==> ValidRequests(requests)
    ensures r.Ok? ==> TotalCapacity(requests) <= 4096 && forall q :: q in requests ==> 1 <= q.capacity <= 32
    ensures r == Err(InvalidSketchCapacity) ==>
      || TotalCapacity(requests) > MAX_BUCKETED_SKETCH_CAPACITY
      || exists i :: 0 <= i < |requests| && !ValidRequest(requests[i])
    ensures r.Err? ==> r.error in {InvalidSketchCapacity, InvalidBucketIndex}
  {
    var totalCapacity, previousEnd: nat := 0, 0;
    for k := 0 to |requests|
      invariant Checked(requests, k, totalCapacity, previousEnd)
    {
      var req := requests[k];
      if req.capacity <= 0 || req.capacity > MAX_BUCKET_SKETCH_CAPACITY {
        return Err(InvalidSketchCapacity);
      }
      if req.depth > MAX_DEPTH {
        return Err(InvalidBucketIndex);
      }
      if req.depth < MAX_DEPTH && req.prefix >= Exp2(req.depth) {
        return Err(InvalidBucketIndex);
      }
      IndexInRange(req.depth, req.prefix);
      assert ValidRequest(req);
      var start := Start(req.depth, req.prefix);
      CheckedNext(requests, k, totalCapacity, previousEnd, start);
      totalCapacity := totalCapacity + req.capacity;
      if totalCapacity > MAX_BUCKETED_SKETCH_CAPACITY {
        OverTotal(requests, k + 1);
        return Err(InvalidSketchCapacity);
      }
      var end := start + Size(req.depth);
      if start < previousEnd {
        return Err(InvalidBucketIndex);
      }
      previousEnd := end;
    }
    assert requests[..|requests|] == requests;
    return Ok(());
  }

  lemma FullDepth()
    ensures Exp2(MAX_DEPTH) == 0x1_0000_0000
  {
    PowersOfTwo();
  }

  lemma PowersOfTwo()
    ensures Exp2(8) == 0x100 && Exp2(16) == 0x1_0000 && Exp2(32) == 0x1_0000_0000
  {
    assert Exp2(8) == 0x100;
    assert Exp2(16) == 0x1_0000;
    assert Exp2(24) == 0x100_0000;
  }

  // ---- decoding an answer

  /** What became of one request. */
  datatype Outcome = Solved(roots: seq<Word>) | Unsolved

  function Successes(requests: seq<BucketRequest>, outcomes: seq<Outcome>): seq<BucketDecodeSuccess>
    requires |requests| == |outcomes|
  {
    if requests == [] then [] else
      var n := |requests| - 1;
      Successes(requests[..n], outcomes[..n]) +
      if outcomes[n].Solved? then [BucketDecodeSuccess(requests[n].depth, requests[n].prefix, outcomes[n].roots)]
        else []
  }

  function Failures(requests: seq<BucketRequest>, outcomes: seq<Outcome>): seq<FailedBucket>
    requires |requests| == |outcomes|
  {
    if requests == [] then [] else
      var n := |requests| - 1;
      Failures(requests[..n], outcomes[..n]) +
      if outcomes[n].Unsolved? then [FailedBucket(requests[n].depth, requests[n].prefix)] else []
  }

  /** The batch that reports these outcomes, in request order. */
  function BatchOf(requests: seq<BucketRequest>, outcomes: seq<Outcome>): BucketDecodeBatch
    requires |requests| == |outcomes|
  {
    BucketDecodeBatch(Successes(requests, outcomes), Failures(requests, outcomes))
  }

  /** The coordinates encoded at an offset. */
  ghost function Section(encoded: seq<bv8>, from: int, capacity: int): seq<Word> {
    if 0 <= from && 0 <= capacity && from + 8 * capacity <= |encoded|
    then WordsOf(encoded[from..from + 8 * capacity], capacity) else []
  }

  /** The coordinates answered to the i-th request. */
  ghost function Answer(encoded: seq<bv8>, requests: seq<BucketRequest>, i: nat): seq<Word>
    requires i < |requests|
  {
    Section(encoded, 8 * TotalCapacity(requests[..i]), requests[i].capacity)
  }

  lemma SectionIs(encoded: seq<bv8>, from: nat, capacity: nat, bytes: seq<bv8>)
    requires from + 8 * capacity <= |encoded| && bytes == encoded[from..from + 8 * capacity]
    ensures WordsOf(bytes, capacity) == Section(encoded, from, capacity)
  {
  }

  function OutcomeOf(r: Result<seq<Word>, Error>): Outcome {
    if r.Ok? then Solved(r.value) else Unsolved
  }

  /** What an outcome says about a set behind the sketch: a solved bucket is
      charged exactly the cost of the set, and an unsolved one found the budget
      below it and leaves nothing. */
  ghost predicate Paid(K: Field<Word>, mixed: seq<Word>, A: seq<Word>, outcome: Outcome, before: int, after: int)
    requires IsBinaryField(K)
  {
    match outcome
    case Solved(_) => after == before - Cost(K, mixed, A) && (|A| >= 3 ==> after >= 0)
    case Unsolved => |A| >= 3 && before < Cost(K, mixed, A) && after < 0
  }

  /** A solved bucket holds the unique set with its sketch. The work left before
      and after accounts for a set of the capacity, if there is one, and
      otherwise drops by at most the worst case of the capacity. */
  ghost predicate Attempt(K: Field<Word>, mixed: seq<Word>, coords: seq<Word>, capacity: int, outcome: Outcome,
      before: int, after: int)
    requires IsBinaryField(K)
  {
    && (outcome.Solved? ==> Decodes(K, coords, capacity, outcome.roots))
    && (forall A :: Candidate(K, coords, capacity, A) ==> Paid(K, mixed, A, outcome, before, after))
    && (capacity >= 0 ==> after >= before - WorstCase(K, mixed, capacity))
  }

  /** The i-th request, with the work left before and after it. */
  ghost predicate Attempted(K: Field<Word>, mixed: seq<Word>, encoded: seq<bv8>, requests: seq<BucketRequest>,
      outcomes: seq<Outcome>, left: seq<int>, i: nat)
    requires IsBinaryField(K) && i < |outcomes| <= |requests| && |left| == |outcomes| + 1
  {
    Attempt(K, mixed, Answer(encoded, requests, i), requests[i].capacity, outcomes[i], left[i], left[i + 1])
  }

  /** The outcomes of some requests, in order, with the work left before each and after the last. */
  ghost predicate Ledger(K: Field<Word>, mixed: seq<Word>, encoded: seq<bv8>, requests: seq<BucketRequest>,
      outcomes: seq<Outcome>, left: seq<int>)
    requires IsBinaryField(K)
  {
    && |outcomes| <= |requests| && |left| == |outcomes| + 1 && left[0] == MAX_FACTOR_WORK
    && forall i: nat :: i < |outcomes| ==> Attempted(K, mixed, encoded, requests, outcomes, left, i)
  }

  method NewSketchFromEncodedBytes(K: Field<Word>, capacity: int, bytes: seq<bv8>)
      returns (r: Result<SyndromeSketch<Word>, Error>)
    ensures r.Ok? <==> |bytes| == 8 * capacity
    ensures r.Err? ==> r.error == InvalidSketchLength
    ensures r.Ok? ==> fresh(r.value) && r.value.K == K && r.value.coordinates == WordsOf(bytes, capacity)
  {
    if |bytes| != 8 * capacity {
      return Err(InvalidSketchLength);
    }
    var coordinates: seq<Word> := seq(capacity, i => K.zero);
    for i := 0 to capacity
      invariant |coordinates| == capacity && forall k :: 0 <= k < i ==> coordinates[k] == WordsOf(bytes, capacity)[k]
    {
      coordinates := coordinates[i := WordOf(bytes[8 * i..8 * i + 8])];
    }
    var s := new SyndromeSketch(K, coordinates);
    return Ok(s);
  }

  method DecodeBucket(K: Field<Word>, mixed: seq<Word>, bytes: seq<bv8>, capacity: nat, work0: int)
      returns (r: Result<seq<Word>, Error>, work: int)
    requires IsWordField(K) && K.bits == 64
    requires 1 <= capacity <= MAX_BUCKET_SKETCH_CAPACITY && |bytes| == 8 * capacity
    ensures r.Err? ==> r.error in {DecodeFailure, BudgetExhausted}
    ensures Attempt(K, mixed, WordsOf(bytes, capacity), capacity, OutcomeOf(r), work0, work)
  {
    var sketch := NewSketchFromEncodedBytes(K, capacity, bytes);
    assert sketch.Ok?;
    r, work := sketch.value.DecodeAndVerify(mixed, capacity, work0);
    forall A | Candidate(K, WordsOf(bytes, capacity), capacity, A)
      ensures Paid(K, mixed, A, OutcomeOf(r), work0, work)
    {
      CapacityAffordable(K, |A|);
    }
  }

  /** Decodes all the buckets of an answer with one shared budget. */
  method DecodeBucketSketches(K: Field<Word>, mixed: seq<Word>, encoded: seq<bv8>, requests: seq<BucketRequest>)
      returns (r: Result<BucketDecodeBatch, Error>, ghost outcomes: seq<Outcome>, ghost left: seq<int>)
    requires IsWordField(K) && K.bits == 64
    ensures r.Ok? <==> ValidRequests(requests) && |encoded| == 8 * TotalCapacity(requests)
    ensures r.Err? && ValidRequests(requests) ==> r.error == InvalidSketchLength
    ensures r.Ok? ==> |outcomes| == |requests| && r.value == BatchOf(requests, outcomes)
    ensures r.Ok? ==> Ledger(K, mixed, encoded, requests, outcomes, left)
  {
    outcomes, left := [], [MAX_FACTOR_WORK];
    var valid := ValidateBucketRequests(requests);
    if valid.Err? {
      return Err(valid.error), outcomes, left;
    }
    OrderedIsSized(requests);
    r, outcomes, left := DecodeAll(K, mixed, encoded, requests);
  }

  /** The decoding loop. */
  method DecodeAll(K: Field<Word>, mixed: seq<Word>, encoded: seq<bv8>, requests: seq<BucketRequest>)
      returns (r: Result<BucketDecodeBatch, Error>, ghost outcomes: seq<Outcome>, ghost left: seq<int>)
    requires IsWordField(K) && K.bits == 64
    requires Sized(requests) && TotalCapacity(requests) <= MAX_BUCKETED_SKETCH_CAPACITY
    ensures r.Ok? <==> |encoded| == 8 * TotalCapacity(requests)
    ensures r.Err? ==> r.error == InvalidSketchLength
    ensures r.Ok? ==> |outcomes| == |requests| && r.value == BatchOf(requests, outcomes)
    ensures r.Ok? ==> Ledger(K, mixed, encoded, requests, outcomes, left)
  {
    outcomes, left := [], [MAX_FACTOR_WORK];
    var offset, work := 0, MAX_FACTOR_WORK;
    var batch := BucketDecodeBatch([], []);
    for k := 0 to |requests|
      invariant Progress(encoded, requests, k, outcomes, batch, offset)
      invariant Ledger(K, mixed, encoded, requests, outcomes, left) && left[k] == work
    {
      var request := requests[k];
      assert SizedAt(request);
      var byteLen := 8 * request.capacity;
      if byteLen > MAX_INT - offset || offset + byteLen > |encoded| {
        TooShort(encoded, requests, k);
        return Err(InvalidSketchLength), outcomes, left;
      }
      var bytes := encoded[offset..offset + byteLen];
      var decoded, rest := DecodeBucket(K, mixed, bytes, request.capacity, work);
      ghost var outcome := OutcomeOf(decoded);
      SectionIs(encoded, offset, request.capacity, bytes);
      LedgerNext(K, mixed, encoded, requests, outcomes, left, outcome, rest);
      ProgressNext(encoded, requests, k, outcomes, batch, offset, outcome);
      outcomes, left := outcomes + [outcome], left + [rest];
      offset, work := offset + byteLen, rest;
      if decoded.Err? {
        batch := batch.(failed := batch.failed + [FailedBucket(request.depth, request.prefix)]);
        continue;
      }
      batch := batch.(successful := batch.successful + [BucketDecodeSuccess(request.depth, request.prefix,
        decoded.value)]);
    }
    assert requests[..|requests|] == requests;
    if offset != |encoded| {
      return Err(InvalidSketchLength), outcomes, left;
    }
    return Ok(batch), outcomes, left;
  }

  /** The state of the decoding loop after k requests. */
  ghost predicate Progress(encoded: seq<bv8>, requests: seq<BucketRequest>, k: nat, outcomes: seq<Outcome>,
      batch: BucketDecodeBatch, offset: int)
    requires k <= |requests|
  {
    && |outcomes| == k && batch == BatchOf(requests[..k], outcomes)
    && 0 <= offset == 8 * TotalCapacity(requests[..k]) <= |encoded|
  }

  lemma TooShort(encoded: seq<bv8>, requests: seq<BucketRequest>, k: nat)
    requires Sized(requests) && TotalCapacity(requests) <= MAX_BUCKETED_SKETCH_CAPACITY && k < |requests|
    ensures 8 * TotalCapacity(requests[..k]) + 8 * requests[k].capacity <= 8 * TotalCapacity(requests)
    ensures 8 * TotalCapacity(requests) <= MAX_INT
  {
    assert requests[..k + 1][..k] == requests[..k];
    TotalMonotone(requests, k + 1);
  }

  lemma ProgressNext(encoded: seq<bv8>, requests: seq<BucketRequest>, k: nat, outcomes: seq<Outcome>,
      batch: BucketDecodeBatch, offset: int, outcome: Outcome)
    requires k < |requests| && requests[k].capacity >= 1 && Progress(encoded, requests, k, outcomes, batch, offset)
    requires offset + 8 * requests[k].capacity <= |encoded|
    ensures Progress(encoded, requests, k + 1, outcomes + [outcome],
      BatchOf(requests[..k + 1], outcomes + [outcome]), offset + 8 * requests[k].capacity)
    ensures BatchOf(requests[..k + 1], outcomes + [outcome]) == (match outcome
      case Solved(roots) =>
        batch.(successful := batch.successful + [BucketDecodeSuccess(requests[k].depth, requests[k].prefix, roots)])
      case Unsolved =>
        batch.(failed := batch.failed + [FailedBucket(requests[k].depth, requests[k].prefix)]))
  {
    var next := outcomes + [outcome];
    assert requests[..k + 1][..k] == requests[..k] && next[..k] == outcomes;
  }

  lemma LedgerNext(K: Field<Word>, mixed: seq<Word>, encoded: seq<bv8>, requests: seq<BucketRequest>,
      outcomes: seq<Outcome>, left: seq<int>, outcome: Outcome, rest: int)
    requires IsBinaryField(K) && Ledger(K, mixed, encoded, requests, outcomes, left) && |outcomes| < |requests|
    requires Attempt(K, mixed, Answer(encoded, requests, |outcomes|), requests[|outcomes|].capacity, outcome,
      left[|outcomes|], rest)
    ensures Ledger(K, mixed, encoded, requests, outcomes + [outcome], left + [rest])
  {
    var outcomes', left' := outcomes + [outcome], left + [rest];
    forall i: nat | i < |outcomes'|
      ensures Attempted(K, mixed, encoded, requests, outcomes', left', i)
    {
      if i < |outcomes| {
        assert Attempted(K, mixed, encoded, requests, outcomes, left, i);
      }
    }
  }
}
