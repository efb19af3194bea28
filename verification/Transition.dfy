/** One step of the exchange: buckets that failed are asked for again, with more
    capacity or in two halves. */
module Transition {
  import opened Wrappers
  import opened Integers
  import opened Lists
  import opened Triage
  import opened Client

  function AllRoots(buckets: seq<BucketDecodeSuccess>): seq<Word> {
    if buckets == [] then [] else AllRoots(buckets[..|buckets| - 1]) + buckets[|buckets| - 1].roots
  }

  predicate IsFor(q: BucketRequest, failed: FailedBucket) { q.depth == failed.depth && q.prefix == failed.prefix }

  ghost predicate FirstFor(requests: seq<BucketRequest>, failed: FailedBucket, k: nat) {
    k < |requests| && IsFor(requests[k], failed) && forall j :: 0 <= j < k ==> !IsFor(requests[j], failed)
  }

  lemma FirstForNext(requests: seq<BucketRequest>, failed: FailedBucket, k: nat)
    requires requests != [] && !IsFor(requests[0], failed) && FirstFor(requests[1..], failed, k)
    ensures FirstFor(requests, failed, k + 1)
  {
    forall j | 0 <= j < k + 1
      ensures !IsFor(requests[j], failed)
    {
      assert j > 0 ==> requests[j] == requests[1..][j - 1];
    }
  }

  /** The first request for a bucket. */
  function Find(requests: seq<BucketRequest>, failed: FailedBucket): (r: Option<BucketRequest>)
    ensures r.Some? ==> exists k: nat :: FirstFor(requests, failed, k) && requests[k] == r.value
    ensures r.Some? ==> r.value in requests && IsFor(r.value, failed)
    ensures r.None? ==> forall q :: q in requests ==> !IsFor(q, failed)
  {
    if requests == [] then None
    else if IsFor(requests[0], failed) then assert FirstFor(requests, failed, 0); Some(requests[0])
    else
      var rest := Find(requests[1..], failed);
      assert rest.Some? ==> exists k: nat :: FirstFor(requests, failed, k) && requests[k] == rest.value by {
        if rest.Some? {
          var k: nat :| FirstFor(requests[1..], failed, k) && requests[1..][k] == rest.value;
          FirstForNext(requests, failed, k);
        }
      }
      rest
  }

  /** An int read as a 64-bit unsigned word. */
  function AsUint64(x: int): (w: uint64)
    ensures 0 <= x <= MAX_UINT64 ==> w == x
  {
    x % (MAX_UINT64 + 1)
  }

  /** What replaces a failed request. */
  function Reprovision(previous: BucketRequest, share: uint64): Option<seq<BucketRequest>>
    requires previous.capacity <= MAX_INT
  {
    if previous.capacity < MAX_BUCKET_SKETCH_CAPACITY then
      var floor := previous.capacity + 1;
      match ProvisionBucketCapacity(MaxU64(share, AsUint64(floor)), floor)
      case None => None
      case Some(capacity) => Some([BucketRequest(previous.depth, previous.prefix, capacity)])
    else if previous.depth >= MAX_DEPTH then None
    else
      match ProvisionBucketCapacity(MaxU64(share / 2, 4), 4)
      case None => None
      case Some(capacity) =>
        Some([BucketRequest(previous.depth + 1, Shifted(previous.prefix, 0), capacity),
              BucketRequest(previous.depth + 1, Shifted(previous.prefix, 1), capacity)])
  }

  /** The index of a half of a bucket. */
  function Shifted(prefix: uint32, bit: uint32): (r: uint32)
    requires bit <= 1
    ensures 2 * prefix <= MAX_UINT32 ==> r == 2 * prefix + bit
  {
    (2 * prefix) % (MAX_UINT32 + 1) + bit
  }

  ghost predicate Ints(requests: seq<BucketRequest>) {
    forall q :: q in requests ==> q.capacity <= MAX_INT
  }

  function Reprovisioned(failed: seq<FailedBucket>, previous: seq<BucketRequest>,
      share: uint64): (r: Option<seq<BucketRequest>>)
    requires Ints(previous)
  {
    if failed == [] then Some([]) else
      var n := |failed| - 1;
      var before, found := Reprovisioned(failed[..n], previous, share), Find(previous, failed[n]);
      if before.None? || found.None? then None else
        match Reprovision(found.value, share)
        case None => None
        case Some(requests) => Some(before.value + requests)
  }

  /** The part of the estimate that the roots do not account for. */
  function Unaccounted(estimate: Option<uint64>, resolved: uint64): (r: uint64)
    ensures estimate.Some? && estimate.value > resolved ==> r + resolved == estimate.value
    ensures estimate.None? || estimate.value <= resolved ==> r == 0
  {
    if estimate.Some? && estimate.value > resolved then estimate.value - resolved else 0
  }

  /** That part shared out among the failed buckets, rounded down. */
  function Share(estimate: Option<uint64>, resolved: uint64, failed: nat): (r: uint64)
    requires failed > 0
    ensures r * failed <= Unaccounted(estimate, resolved) < (r + 1) * failed
  {
    QuotientSmall(Unaccounted(estimate, resolved), failed);
    Quotient(Unaccounted(estimate, resolved), failed);
    Unaccounted(estimate, resolved) / failed
  }

  lemma Quotient(x: nat, d: nat)
    requires d > 0
    ensures x / d * d <= x < (x / d + 1) * d
  {
    QuotientBound(x, d, x / d);
    QuotientBound(x, d, x / d + 1);
  }

  function Min(a: int, b: int): (m: int)
    ensures m <= a && m <= b && (m == a || m == b)
  {
    if a > b then b else a
  }

  /** The next action. */
  function Next(maxRounds: int, batch: BucketDecodeBatch, previous: seq<BucketRequest>, accumulated: seq<Word>,
      estimate: Option<uint64>, round: int, aggregateCap: int): ClientAction
    requires Ints(previous)
  {
    var roots := accumulated + AllRoots(batch.successful);
    if batch.failed == [] then ResolveRoots(roots)
    else if round >= maxRounds then ExtremityDiff
    else
      match Reprovisioned(batch.failed, previous, Share(estimate, AsUint64(|roots|), |batch.failed|))
      case None => ExtremityDiff
      case Some(requests) =>
        if TotalCapacity(requests) > Min(aggregateCap, MAX_BUCKETED_SKETCH_CAPACITY) then ExtremityDiff
        else BucketSketches(requests, roots)
  }

  // ---- the method

  lemma {:induction false} TotalAppend(a: seq<BucketRequest>, b: seq<BucketRequest>)
    ensures TotalCapacity(a + b) == TotalCapacity(a) + TotalCapacity(b)
  {
    if b == [] {
      assert a + b == a;
    } else {
      assert (a + b)[..|a + b| - 1] == a + b[..|b| - 1];
      TotalAppend(a, b[..|b| - 1]);
    }
  }

  lemma TotalOne(q: BucketRequest)
    ensures TotalCapacity([q]) == q.capacity
  {
    assert [q][..0] == [];
  }

  lemma TotalTwo(p: BucketRequest, q: BucketRequest)
    ensures TotalCapacity([p, q]) == p.capacity + q.capacity
  {
    assert [p, q] == [p] + [q];
    TotalAppend([p], [q]);
    TotalOne(p);
    TotalOne(q);
  }

  lemma ReprovisionTotal(previous: BucketRequest, share: uint64)
    requires previous.capacity <= MAX_INT
    ensures Reprovision(previous, share).Some? ==> TotalCapacity(Reprovision(previous, share).value) >= 0
  {
    var r := Reprovision(previous, share);
    if r.Some? {
      if |r.value| == 1 {
        TotalOne(r.value[0]);
      } else {
        TotalTwo(r.value[0], r.value[1]);
      }
    }
  }

  /** A failure, or a total over the limit, on some of the buckets decides the outcome. */
  lemma {:induction false} ReprovisionedPrefix(failed: seq<FailedBucket>, previous: seq<BucketRequest>,
      share: uint64, k: nat)
    requires Ints(previous) && k <= |failed|
    ensures Reprovisioned(failed[..k], previous, share).None? ==> Reprovisioned(failed, previous, share).None?
    ensures Reprovisioned(failed, previous, share).Some? ==>
      Reprovisioned(failed[..k], previous, share).Some? &&
      TotalCapacity(Reprovisioned(failed[..k], previous, share).value) <= TotalCapacity(Reprovisioned(failed, previous,
        share).value)
    decreases |failed|
  {
    var n := |failed| - 1;
    if k == |failed| {
      assert failed[..k] == failed;
    } else {
      assert failed[..n][..k] == failed[..k];
      ReprovisionedPrefix(failed[..n], previous, share, k);
      var before, found := Reprovisioned(failed[..n], previous, share), Find(previous, failed[n]);
      if before.Some? && found.Some? && Reprovision(found.value, share).Some? {
        ReprovisionTotal(found.value, share);
        TotalAppend(before.value, Reprovision(found.value, share).value);
      }
    }
  }

  // ---- what the next action means

  /** The least capacity for what replaces a failed request. */
  function Floor(p: BucketRequest): int { if p.capacity < 32 then p.capacity + 1 else 4 }

  /** The number of elements provisioned for, from the share of the estimate. */
  function Target(p: BucketRequest, share: uint64): (t: uint64)
    ensures t >= if p.capacity < 32 then share else share / 2
    ensures 0 <= p.capacity ==> t >= Floor(p)
  {
    if p.capacity < 32 then MaxU64(share, AsUint64(p.capacity + 1)) else MaxU64(share / 2, 4)
  }

  /** The capacity asked for in place of a failed request: more than before while
      that is possible, and one and a half times the share and four more, or the limit. */
  function NewCapacity(p: BucketRequest, share: uint64): (r: int)
    ensures p.capacity < r <= 32 || (p.capacity >= 32 && 10 <= r <= 32)
    ensures r == 32 || 2 * (r - 4) >= 3 * if p.capacity < 32 then share else share / 2
  {
    Clamp(Needed(Target(p, share), 0), Floor(p), 32)
  }

  /** A failed request that nothing can replace: it is at full capacity and at
      full depth, or its provision exceeds the int range. */
  predicate Exhausted(p: BucketRequest, share: uint64) {
    (p.capacity >= 32 && p.depth >= 32) || Needed(Target(p, share), 0) > MAX_INT
  }

  /** The request q asks for a failed bucket again, or for a half of it when the
      capacity cannot grow. */
  predicate Continues(p: BucketRequest, share: uint64, q: BucketRequest) {
    && q.capacity == NewCapacity(p, share)
    && if p.capacity < 32 then q.depth == p.depth && q.prefix == p.prefix
       else q.depth == p.depth + 1 && exists bit :: 0 <= bit <= 1 && q.prefix == Shifted(p.prefix, bit)
  }

  /** What is asked for again for one request, in all. */
  function Wanted(p: BucketRequest, share: uint64): int {
    if p.capacity < 32 then NewCapacity(p, share) else 2 * NewCapacity(p, share)
  }

  lemma ReprovisionMeans(p: BucketRequest, share: uint64)
    requires p.capacity <= MAX_INT
    ensures Reprovision(p, share).None? <==> Exhausted(p, share)
    ensures Reprovision(p, share).Some? ==> TotalCapacity(Reprovision(p, share).value) == Wanted(p, share)
    ensures Reprovision(p, share).Some? ==> forall q :: q in Reprovision(p, share).value <==> Continues(p, share, q)
  {
    var r := Reprovision(p, share);
    if r.Some? {
      if p.capacity < 32 {
        TotalOne(r.value[0]);
      } else {
        TotalTwo(r.value[0], r.value[1]);
      }
    }
  }

  /** No request before is for the bucket, or nothing can replace it. */
  ghost predicate Stuck(previous: seq<BucketRequest>, failed: FailedBucket, share: uint64) {
    forall k: nat :: FirstFor(previous, failed, k) ==> Exhausted(previous[k], share)
  }

  ghost predicate ContinuesBucket(previous: seq<BucketRequest>, failed: FailedBucket, share: uint64, q: BucketRequest) {
    exists k: nat :: FirstFor(previous, failed, k) && Continues(previous[k], share, q)
  }

  ghost predicate ContinuesSome(previous: seq<BucketRequest>, failed: seq<FailedBucket>, share: uint64,
      q: BucketRequest) {
    AnyOf(failed, (f: FailedBucket) => ContinuesBucket(previous, f, share, q))
  }

  ghost predicate SomeStuck(previous: seq<BucketRequest>, failed: seq<FailedBucket>, share: uint64) {
    AnyOf(failed, (f: FailedBucket) => Stuck(previous, f, share))
  }

  /** What is asked for again for all the failed buckets. */
  ghost function WantedForAll(previous: seq<BucketRequest>, failed: seq<FailedBucket>, share: uint64): int {
    if failed == [] then 0 else
      var n := |failed| - 1;
      var p := Find(previous, failed[n]);
      WantedForAll(previous, failed[..n], share) + if p.Some? then Wanted(p.value, share) else 0
  }

  lemma FindMeans(previous: seq<BucketRequest>, failed: FailedBucket, share: uint64)
    requires Ints(previous)
    ensures var p := Find(previous, failed);
      && (Stuck(previous, failed, share) <==> p.None? || Reprovision(p.value, share).None?)
      && forall q :: ContinuesBucket(previous, failed, share, q) <==> p.Some? && Continues(p.value, share, q)
  {
    var p := Find(previous, failed);
    forall k: nat | FirstFor(previous, failed, k)
      ensures p == Some(previous[k])
    {
      FirstIsFound(previous, failed, k);
    }
    if p.Some? {
      var k: nat :| FirstFor(previous, failed, k) && previous[k] == p.value;
      ReprovisionMeans(p.value, share);
    }
  }

  lemma FirstIsFound(previous: seq<BucketRequest>, failed: FailedBucket, k: nat)
    requires FirstFor(previous, failed, k)
    ensures Find(previous, failed) == Some(previous[k])
  {
    assert previous[k] in previous && IsFor(previous[k], failed);
    var f: nat :| FirstFor(previous, failed, f) && previous[f] == Find(previous, failed).value;
    assert FirstFor(previous, failed, f) && IsFor(previous[f], failed);
  }

  /** The requests for the next round: which failures cannot be replaced, what
      the others are replaced by, and how much that is in all. */
  lemma {:induction false} ReprovisionedMeans(failed: seq<FailedBucket>, previous: seq<BucketRequest>, share: uint64)
    requires Ints(previous)
    ensures Reprovisioned(failed, previous, share).None? <==> SomeStuck(previous, failed, share)
    ensures Reprovisioned(failed, previous, share).Some? ==>
      TotalCapacity(Reprovisioned(failed, previous, share).value) == WantedForAll(previous, failed, share)
    ensures Reprovisioned(failed, previous, share).Some? ==> forall q ::
      q in Reprovisioned(failed, previous, share).value <==> ContinuesSome(previous, failed, share, q)
  {
    if failed != [] {
      var n := |failed| - 1;
      ReprovisionedMeans(failed[..n], previous, share);
      FindMeans(previous, failed[n], share);
      AnyOfSnoc(failed, (f: FailedBucket) => Stuck(previous, f, share));
      forall q
        ensures ContinuesSome(previous, failed, share, q) <==>
          ContinuesSome(previous, failed[..n], share, q) || ContinuesBucket(previous, failed[n], share, q)
      {
        AnyOfSnoc(failed, (f: FailedBucket) => ContinuesBucket(previous, f, share, q));
      }
      var before, p := Reprovisioned(failed[..n], previous, share), Find(previous, failed[n]);
      if before.Some? && p.Some? && Reprovision(p.value, share).Some? {
        ReprovisionMeans(p.value, share);
        TotalAppend(before.value, Reprovision(p.value, share).value);
      }
    }
  }

  /** What the next action says. The roots are returned exactly when nothing
      failed. Otherwise the exchange falls back exactly at the round limit, at a
      bucket that nothing can replace, or over the total that is allowed; and if
      it goes on, it asks for what continues the failed buckets and for nothing else. */
  ghost predicate Justified(maxRounds: int, batch: BucketDecodeBatch, previous: seq<BucketRequest>,
      accumulated: seq<Word>, estimate: Option<uint64>, round: int, aggregateCap: int, action: ClientAction)
  {
    var roots := accumulated + AllRoots(batch.successful);
    && (action == ResolveRoots(roots) <==> batch.failed == [])
    && (batch.failed != [] ==>
      var share := Share(estimate, AsUint64(|roots|), |batch.failed|);
      var wanted := WantedForAll(previous, batch.failed, share);
      && (action == ExtremityDiff <==>
        round >= maxRounds || SomeStuck(previous, batch.failed, share) || wanted > aggregateCap || wanted > 4096)
      && (action != ExtremityDiff ==>
        && action.BucketSketches? && action.accumulatedRoots == roots
        && TotalCapacity(action.requests) == wanted
        && forall q :: q in action.requests <==> ContinuesSome(previous, batch.failed, share, q)))
  }

  lemma NextIsJustified(maxRounds: int, batch: BucketDecodeBatch, previous: seq<BucketRequest>,
      accumulated: seq<Word>, estimate: Option<uint64>, round: int, aggregateCap: int)
    requires Ints(previous)
    ensures Justified(maxRounds, batch, previous, accumulated, estimate, round, aggregateCap,
      Next(maxRounds, batch, previous, accumulated, estimate, round, aggregateCap))
  {
    if batch.failed != [] {
      var roots := accumulated + AllRoots(batch.successful);
      ReprovisionedMeans(batch.failed, previous, Share(estimate, AsUint64(|roots|), |batch.failed|));
    }
  }

  method FindPrevious(requests: seq<BucketRequest>, failed: FailedBucket) returns (r: Option<BucketRequest>)
    ensures r == Find(requests, failed)
  {
    assert requests[0..] == requests;
    for i := 0 to |requests|
      invariant Find(requests, failed) == Find(requests[i..], failed)
    {
      if requests[i].prefix == failed.prefix && requests[i].depth == failed.depth {
        return Some(requests[i]);
      }
      assert requests[i..][1..] == requests[i + 1..];
    }
    return None;
  }

  method TransitionBucketBatch(c: ReconciliationClient, batch: BucketDecodeBatch, previousRequests: seq<BucketRequest>,
      accumulatedRoots: seq<Word>, globalEstimate: Option<uint64>, exchangeRound: int, aggregateCap: int)
      returns (action: ClientAction)
    requires Ints(previousRequests)
    ensures action == Next(c.maxRounds, batch, previousRequests, accumulatedRoots, globalEstimate, exchangeRound,
      aggregateCap)
    ensures Justified(c.maxRounds, batch, previousRequests, accumulatedRoots, globalEstimate, exchangeRound,
      aggregateCap, action)
  {
    NextIsJustified(c.maxRounds, batch, previousRequests, accumulatedRoots, globalEstimate, exchangeRound,
      aggregateCap);
    var roots := accumulatedRoots;
    for i := 0 to |batch.successful|
      invariant roots == accumulatedRoots + AllRoots(batch.successful[..i])
    {
      assert batch.successful[..i + 1][..i] == batch.successful[..i];
      roots := roots + batch.successful[i].roots;
    }
    assert batch.successful[..|batch.successful|] == batch.successful;
    if |batch.failed| == 0 {
      return ResolveRoots(roots);
    }
    if exchangeRound >= c.maxRounds {
      return ExtremityDiff;
    }
    var resolvedCount := AsUint64(|roots|);
    var unaccounted := 0;
    if globalEstimate.Some? && globalEstimate.value > resolvedCount {
      unaccounted := globalEstimate.value - resolvedCount;
    }
    QuotientSmall(unaccounted, |batch.failed|);
    var share := unaccounted / |batch.failed|;
    assert share == Share(globalEstimate, resolvedCount, |batch.failed|);
    var aggregateLimit := aggregateCap;
    if aggregateLimit > MAX_BUCKETED_SKETCH_CAPACITY {
      aggregateLimit := MAX_BUCKETED_SKETCH_CAPACITY;
    }
    var ok, requests := RetryAll(batch.failed, previousRequests, share, aggregateLimit);
    return if ok then BucketSketches(requests, roots) else ExtremityDiff;
  }

  /** The loop over the failed buckets. */
  method RetryAll(failed: seq<FailedBucket>, previousRequests: seq<BucketRequest>, share: uint64, aggregateLimit: int)
      returns (ok: bool, requests: seq<BucketRequest>)
    requires Ints(previousRequests) && failed != []
    ensures ok <==>
      && Reprovisioned(failed, previousRequests, share).Some?
      && TotalCapacity(Reprovisioned(failed, previousRequests, share).value) <= aggregateLimit
    ensures ok ==> Reprovisioned(failed, previousRequests, share) == Some(requests)
  {
    var total := 0;
    requests := [];
    for k := 0 to |failed|
      invariant Reprovisioned(failed[..k], previousRequests, share) == Some(requests)
      invariant total == TotalCapacity(requests) && (k > 0 ==> total <= aggregateLimit)
    {
      ReprovisionedPrefix(failed, previousRequests, share, k + 1);
      assert failed[..k + 1][..k] == failed[..k];
      var previous := FindPrevious(previousRequests, failed[k]);
      if previous.None? {
        return false, [];
      }
      var fits;
      fits, total, requests := Retry(previous.value, share, aggregateLimit, total, requests);
      if !fits {
        return false, [];
      }
    }
    assert failed[..|failed|] == failed;
    ok := true;
  }

  /** One failed bucket: grown while it can grow, then split. */
  method Retry(previous: BucketRequest, share: uint64, aggregateLimit: int, total0: int, requests0: seq<BucketRequest>)
      returns (fits: bool, total: int, requests: seq<BucketRequest>)
    requires previous.capacity <= MAX_INT && total0 == TotalCapacity(requests0)
    ensures fits <==>
      && Reprovision(previous, share).Some?
      && TotalCapacity(requests0 + Reprovision(previous, share).value) <= aggregateLimit
    ensures fits ==> requests == requests0 + Reprovision(previous, share).value && total == TotalCapacity(requests)
  {
    total, requests := total0, requests0;
    if previous.capacity < MAX_BUCKET_SKETCH_CAPACITY {
      var floor := previous.capacity + 1;
      var target := MaxU64(share, AsUint64(floor));
      var capacity := ProvisionBucketCapacity(target, floor);
      if capacity.None? {
        return false, total, requests;
      }
      var request := BucketRequest(previous.depth, previous.prefix, capacity.value);
      TotalAppend(requests0, [request]);
      TotalOne(request);
      total := total + capacity.value;
      if total > aggregateLimit {
        return false, total, requests;
      }
      return true, total, requests + [request];
    }
    if previous.depth >= MAX_DEPTH {
      return false, total, requests;
    }
    var capacity := ProvisionBucketCapacity(MaxU64(share / 2, 4), 4);
    if capacity.None? {
      return false, total, requests;
    }
    var nextDepth := previous.depth + 1;
    ghost var halves := Reprovision(previous, share).value;
    TotalAppend(requests0, halves);
    TotalTwo(halves[0], halves[1]);
    for sub := 0 to 2
      invariant total == total0 + sub * capacity.value && (sub > 0 ==> total <= aggregateLimit)
      invariant requests == requests0 + halves[..sub]
    {
      total := total + capacity.value;
      if total > aggregateLimit {
        return false, total, requests;
      }
      requests := requests + [BucketRequest(nextDepth, Shifted(previous.prefix, sub), capacity.value)];
    }
    assert halves[..2] == halves;
    fits := true;
  }
}
