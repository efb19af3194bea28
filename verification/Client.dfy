/** The requester: how many coordinates to ask for, and what to do with the answers. */
module Client {
  import opened Wrappers
  import opened Integers
  import opened FieldTheory
  import opened Triage
  import opened Tiling
  import opened Splitting
  import opened Estimate
  import Resident

  datatype ReconciliationClient = ReconciliationClient(maxRounds: int, gateThreshold: Option<uint64>)

  datatype ClientAction =
    | Synchronized
    | ExtremityDiff
    | BucketSketches(requests: seq<BucketRequest>, accumulatedRoots: seq<Word>)
    | ResolveRoots(roots: seq<Word>)

  /** The digest and count of one side. */
  datatype Frontier = Frontier(digest: seq<bv8>, count: uint64)

  // ---- provisioning

  /** One and a half times the estimate, rounded up, plus a margin. */
  function Needed(estimate: int, headroom: int): (r: int)
    ensures var margin := 4 + if headroom > 0 then headroom else 0;
      3 * estimate <= 2 * (r - margin) <= 3 * estimate + 1
  {
    estimate + (estimate + 1) / 2 + 4 + if headroom > 0 then headroom else 0
  }

  /** The provision in 64-bit arithmetic, or -1 when it does not fit an int. */
  function ProvisionCapacity(estimatedDelta: uint64, headroom: int): (r: int)
    requires headroom <= MAX_INT
    ensures r == if Needed(estimatedDelta, headroom) <= MAX_INT then Needed(estimatedDelta, headroom) else -1
  {
    var half := estimatedDelta / 2;
    if estimatedDelta > MAX_UINT64 - half then -1 else
    var value := estimatedDelta + half;
    var remainder := estimatedDelta % 2;
    if value > MAX_UINT64 - remainder then -1 else
    var value := value + remainder;
    if value > MAX_UINT64 - 4 then -1 else
    var value := value + 4;
    if headroom > 0 && value > MAX_UINT64 - headroom then -1 else
    var value := if headroom > 0 then value + headroom else value;
    if value > MAX_INT then -1 else value
  }

  /** The nearest value to a given one between the bounds; the upper bound wins. */
  function Clamp(value: int, low: int, high: int): (r: int)
    ensures r <= high && (low <= high ==> r >= low)
    ensures low <= value <= high ==> r == value
    ensures value < low <= high ==> r == low
    ensures value > high || low > high ==> r == high
  {
    var raised := if value < low then low else value;
    if raised > high then high else raised
  }

  /** The capacity for one bucket: the provision, at least the floor and at most the limit. */
  function ProvisionBucketCapacity(target: uint64, floor: int): (r: Option<int>)
    ensures r == if Needed(target, 0) <= MAX_INT then Some(Clamp(Needed(target, 0), floor, MAX_BUCKET_SKETCH_CAPACITY))
      else None
    ensures r.Some? ==> 4 <= r.value <= MAX_BUCKET_SKETCH_CAPACITY
  {
    var half := target / 2;
    if target > MAX_UINT64 - half then None else
    var value := target + half;
    var remainder := target % 2;
    if value > MAX_UINT64 - remainder then None else
    var value := value + remainder;
    if value > MAX_UINT64 - 4 then None else
    var value := value + 4;
    if value > MAX_INT then None else
    var capacity := if value < floor then floor else value;
    Some(if capacity > MAX_BUCKET_SKETCH_CAPACITY then MAX_BUCKET_SKETCH_CAPACITY else capacity)
  }

  function CeilDiv(n: int, d: int): (q: int)
    ensures n > 0 && d > 0 ==> q * d >= n > (q - 1) * d
    ensures n <= 0 || d <= 0 ==> q == 0
  {
    if d <= 0 then 0
    else if n <= 0 then 0
    else
      assert n == n / d * d + n % d;
      if n % d != 0 then n / d + 1 else n / d
  }

  /** The distance of two counts. */
  function AbsDiff(a: uint64, b: uint64): (d: uint64)
    ensures a == b + d || b == a + d
  {
    if a >= b then a - b else b - a
  }

  function MaxU64(a: uint64, b: uint64): (m: uint64)
    ensures m >= a && m >= b && (m == a || m == b)
  {
    if a > b then a else b
  }

  // ---- the first action

  function BucketsOf(requests: seq<BucketRequest>): (r: seq<Bucket>)
    ensures |r| == |requests|
  {
    seq(|requests|, i requires 0 <= i < |requests| => Bucket(requests[i].depth, requests[i].prefix))
  }

  /** A request for every bucket of one depth. */
  ghost predicate Uniform(requests: seq<BucketRequest>, depth: nat, capacity: int) {
    && depth <= 6 && |requests| == Exp2(depth)
    && forall i :: 0 <= i < |requests| ==> UniformAt(requests[i], depth, i, capacity)
  }

  predicate UniformAt(r: BucketRequest, depth: nat, prefix: nat, capacity: int) {
    r.depth == depth && r.prefix == prefix && r.capacity == capacity
  }

  lemma {:induction false} UniformTotal(requests: seq<BucketRequest>, depth: nat, capacity: int)
    requires forall i :: 0 <= i < |requests| ==> UniformAt(requests[i], depth, i, capacity)
    ensures TotalCapacity(requests) == |requests| * capacity
  {
    if requests != [] {
      var n := |requests| - 1;
      UniformTotal(requests[..n], depth, capacity);
      assert UniformAt(requests[n], depth, n, capacity);
      assert (n + 1) * capacity == n * capacity + capacity;
    }
  }

  lemma SmallPowers(depth: nat)
    requires depth <= 6
    ensures Exp2(depth) == [1, 2, 4, 8, 16, 32, 64][depth]
  {
  }

  /** A uniform list is valid, and its buckets tile the space. */
  lemma UniformIsValid(requests: seq<BucketRequest>, depth: nat, capacity: int)
    requires Uniform(requests, depth, capacity) && 1 <= capacity <= MAX_BUCKET_SKETCH_CAPACITY
    ensures ValidRequests(requests) && Tiles(BucketsOf(requests)) && TotalCapacity(requests) == Exp2(depth) * capacity
  {
    SmallPowers(depth);
    UniformTotal(requests, depth, capacity);
    assert |requests| * capacity <= 64 * capacity;
    forall i, j | 0 <= i < j < |requests|
      ensures Before(requests[i], requests[j])
    {
      assert UniformAt(requests[i], depth, i, capacity) && UniformAt(requests[j], depth, j, capacity);
      InOrder(depth, i, j);
    }
    forall i | 0 <= i < |requests|
      ensures ValidRequest(requests[i])
    {
      assert UniformAt(requests[i], depth, i, capacity);
    }
    UniformBuckets(requests, depth, capacity);
    LevelTiles(depth);
  }

  lemma InOrder(depth: nat, i: nat, j: nat)
    requires depth <= MAX_DEPTH && i < j
    ensures End(depth, i) <= Start(depth, j)
  {
    Spread(i, j, Size(depth));
  }

  lemma Spread(i: nat, j: nat, s: nat)
    requires i < j
    ensures i * s + s <= j * s
  {
    var gap := j - i - 1;
    assert j * s == (i + 1 + gap) * s == i * s + s + gap * s;
    assert gap * s >= 0;
  }

  lemma UniformBuckets(requests: seq<BucketRequest>, depth: nat, capacity: int)
    requires Uniform(requests, depth, capacity)
    ensures BucketsOf(requests) == Level(depth, Exp2(depth))
  {
    forall i | 0 <= i < |requests|
      ensures BucketsOf(requests)[i] == Level(depth, Exp2(depth))[i]
    {
      assert UniformAt(requests[i], depth, i, capacity);
    }
  }

  /** The change expected: the larger of the count difference and the estimate. */
  function ExpectedDelta(local: Frontier, remote: Frontier, estimate: Option<uint64>): (d: uint64)
    ensures d >= local.count - remote.count && d >= remote.count - local.count
    ensures estimate.Some? ==> d >= estimate.value
    ensures local.count == remote.count + d || remote.count == local.count + d || estimate == Some(d)
  {
    var countDelta := AbsDiff(local.count, remote.count);
    if estimate.Some? && estimate.value > countDelta then estimate.value else countDelta
  }

  /** The depth, and the capacity per bucket, of the first round: the least
      depth whose buckets can hold the provision, if any up to six can. */
  ghost predicate FirstShape(needed: int, depth: nat, capacity: int) {
    && depth <= 6 && 4 <= capacity <= MAX_BUCKET_SKETCH_CAPACITY
    && (depth > 0 ==> Exp2(depth - 1) * MAX_BUCKET_SKETCH_CAPACITY < needed)
    && (needed <= 64 * MAX_BUCKET_SKETCH_CAPACITY ==> Exp2(depth) * capacity >= needed)
    && (needed > 64 * MAX_BUCKET_SKETCH_CAPACITY ==> depth == 6 && capacity == MAX_BUCKET_SKETCH_CAPACITY)
  }

  lemma ShapeFits(needed: int, target: int, depth: nat, buckets: nat, perBucket: int, capacity: int)
    requires depth <= 6 && buckets == Exp2(depth) && needed >= 4
    requires target == if needed <= MAX_INT then needed else MAX_INT
    requires depth > 0 ==> Exp2(depth - 1) * 32 < target
    requires depth == 6 || target <= buckets * 32
    requires perBucket * buckets >= target > (perBucket - 1) * buckets
    requires capacity == Clamp(perBucket, 4, MAX_BUCKET_SKETCH_CAPACITY)
    ensures FirstShape(needed, depth, capacity)
  {
    SmallPowers(depth);
    if perBucket > 32 {
      assert (perBucket - 1) * buckets >= 32 * buckets;
    } else {
      assert perBucket * buckets <= 32 * buckets;
      assert capacity * buckets >= perBucket * buckets;
    }
    assert buckets <= 64;
  }

  /** The depth, number of buckets and capacity per bucket for an estimate. */
  method ShapeFor(estimatedDelta: uint64, headroom: int) returns (depth: uint8, buckets: nat, perBucket: int)
    requires headroom <= MAX_INT
    ensures FirstShape(Needed(estimatedDelta, headroom), depth, perBucket) && buckets == Exp2(depth) <= 64
  {
    var provisioned := ProvisionCapacity(estimatedDelta, headroom);
    var targetCapacity := if provisioned < 0 then MAX_INT else provisioned;
    depth, buckets := 0, 1;
    while buckets * 32 < targetCapacity && depth < 6
      invariant 0 <= depth <= 6 && buckets == Exp2(depth)
      invariant depth > 0 ==> Exp2(depth - 1) * 32 < targetCapacity
    {
      depth := depth + 1;
      buckets := buckets * 2;
    }
    perBucket := CeilDiv(targetCapacity, buckets);
    ghost var ceiling := perBucket;
    if perBucket < 4 {
      perBucket := 4;
    }
    if perBucket > MAX_BUCKET_SKETCH_CAPACITY {
      perBucket := MAX_BUCKET_SKETCH_CAPACITY;
    }
    ShapeFits(Needed(estimatedDelta, headroom), targetCapacity, depth, buckets, ceiling, perBucket);
    SmallPowers(depth);
  }

  /** The first action: the estimate is taken from the strata, unless the state
      already decides. */
  method SelectAction(K: Field<Word>, mixed: seq<Word>, c: ReconciliationClient, local: Frontier, remote: Frontier,
      localStrata: Strata<Word>, remoteStrata: Strata<Word>, frameMatches: bool, hasUnknownExtremity: bool,
      headroom: int)
      returns (action: ClientAction, ghost estimate: Option<uint64>)
    requires IsWordField(K) && K.bits == 64 && Shaped(localStrata) && Shaped(remoteStrata)
    requires WorstCase(K, mixed, Resident.STRATUM_CAPACITY) <= MAX_FACTOR_WORK && headroom <= MAX_INT
    ensures frameMatches && !hasUnknownExtremity && local != remote ==>
      Estimated(K, localStrata, remoteStrata, estimate)
    ensures action == ExtremityDiff <==>
      || !frameMatches || hasUnknownExtremity
      || (local != remote && c.gateThreshold.Some? && ExpectedDelta(local, remote, estimate) > c.gateThreshold.value)
    ensures action == Synchronized <==> frameMatches && !hasUnknownExtremity && local == remote
    ensures !action.ResolveRoots?
    ensures action.BucketSketches? ==> action.accumulatedRoots == []
    ensures action.BucketSketches? ==> exists depth, capacity ::
      FirstShape(Needed(ExpectedDelta(local, remote, estimate), headroom), depth, capacity)
      && Uniform(action.requests, depth, capacity)
  {
    estimate := None;
    if !frameMatches || hasUnknownExtremity {
      return ExtremityDiff, estimate;
    }
    if local.digest == remote.digest && local.count == remote.count {
      return Synchronized, estimate;
    }
    var estimatedDelta := AbsDiff(local.count, remote.count);
    var found := EstimateDelta(K, mixed, localStrata, remoteStrata);
    estimate := found;
    if found.Some? && found.value > estimatedDelta {
      estimatedDelta := found.value;
    }
    if c.gateThreshold.Some? && estimatedDelta > c.gateThreshold.value {
      return ExtremityDiff, estimate;
    }
    var depth, buckets, perBucket := ShapeFor(estimatedDelta, headroom);
    var requests := [];
    for prefix := 0 to buckets
      invariant |requests| == prefix
      invariant forall i :: 0 <= i < prefix ==> UniformAt(requests[i], depth, i, perBucket)
    {
      requests := requests + [BucketRequest(depth, prefix, perBucket)];
    }
    assert Uniform(requests, depth, perBucket);
    return BucketSketches(requests, []), estimate;
  }
}
