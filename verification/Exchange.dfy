/** Whole exchanges: from the first action, any number of rounds, any answers. */
module Exchange {
  import opened Wrappers
  import opened Integers
  import opened FieldTheory
  import opened Triage
  import opened Tiling
  import opened Client
  import opened Transition

  /** The requester's state between rounds. */
  datatype State =
    | Running(decoded: seq<BucketDecodeSuccess>, requests: seq<BucketRequest>, roots: seq<Word>, round: int)
    | Resolved(decoded: seq<BucketDecodeSuccess>, roots: seq<Word>)
    | Fallback

  /** What one round brings from outside: the outcomes of the decoding, the
      current estimate and the responder's limit. */
  datatype Round = Round(outcomes: seq<Outcome>, estimate: Option<uint64>, aggregateCap: int)

  function DecodedBuckets(decoded: seq<BucketDecodeSuccess>): (r: seq<Bucket>)
    ensures |r| == |decoded|
  {
    seq(|decoded|, i requires 0 <= i < |decoded| => Bucket(decoded[i].depth, decoded[i].prefix))
  }

  function FailedBuckets(failed: seq<FailedBucket>): (r: seq<Bucket>)
    ensures |r| == |failed|
  {
    seq(|failed|, i requires 0 <= i < |failed| => Bucket(failed[i].depth, failed[i].prefix))
  }

  // ---- one round

  lemma Snoc<T>(a: seq<T>, x: T)
    ensures (a + [x])[..|a + [x]| - 1] == a
  {
  }

  lemma HitsSnoc(a: seq<Bucket>, b: Bucket, x: int)
    ensures Hits(a + [b], x) == Hits(a, x) + if Covers(b, x) then 1 else 0
  {
    Snoc(a, b);
  }

  lemma BucketsSnoc(requests: seq<BucketRequest>, x: int)
    requires requests != []
    ensures var n := |requests| - 1;
      Hits(BucketsOf(requests), x) == Hits(BucketsOf(requests[..n]), x) +
        if Covers(Bucket(requests[n].depth, requests[n].prefix), x) then 1 else 0
  {
    var n := |requests| - 1;
    var b := Bucket(requests[n].depth, requests[n].prefix);
    assert BucketsOf(requests) == BucketsOf(requests[..n]) + [b];
    HitsSnoc(BucketsOf(requests[..n]), b, x);
  }

  lemma DecodedSnoc(decoded: seq<BucketDecodeSuccess>, d: BucketDecodeSuccess, x: int)
    ensures Hits(DecodedBuckets(decoded + [d]), x) ==
      Hits(DecodedBuckets(decoded), x) + if Covers(Bucket(d.depth, d.prefix), x) then 1 else 0
  {
    assert DecodedBuckets(decoded + [d]) == DecodedBuckets(decoded) + [Bucket(d.depth, d.prefix)];
    HitsSnoc(DecodedBuckets(decoded), Bucket(d.depth, d.prefix), x);
  }

  lemma FailedSnoc(failed: seq<FailedBucket>, f: FailedBucket, x: int)
    ensures Hits(FailedBuckets(failed + [f]), x) ==
      Hits(FailedBuckets(failed), x) + if Covers(Bucket(f.depth, f.prefix), x) then 1 else 0
  {
    assert FailedBuckets(failed + [f]) == FailedBuckets(failed) + [Bucket(f.depth, f.prefix)];
    HitsSnoc(FailedBuckets(failed), Bucket(f.depth, f.prefix), x);
  }

  /** Each request is either decoded or failed. */
  lemma {:induction false} BatchHits(requests: seq<BucketRequest>, outcomes: seq<Outcome>, x: int)
    requires |requests| == |outcomes|
    ensures Hits(DecodedBuckets(Successes(requests, outcomes)), x) + Hits(FailedBuckets(Failures(requests, outcomes)),
      x)
         == Hits(BucketsOf(requests), x)
  {
    if requests != [] {
      var n := |requests| - 1;
      var q := requests[n];
      BatchHits(requests[..n], outcomes[..n], x);
      BucketsSnoc(requests, x);
      var solved, failed := Successes(requests[..n], outcomes[..n]), Failures(requests[..n], outcomes[..n]);
      if outcomes[n].Solved? {
        DecodedSnoc(solved, BucketDecodeSuccess(q.depth, q.prefix, outcomes[n].roots), x);
        assert Failures(requests, outcomes) == failed;
      } else {
        FailedSnoc(failed, FailedBucket(q.depth, q.prefix), x);
        assert Successes(requests, outcomes) == solved;
      }
    }
  }

  lemma {:induction false} FoundItself(requests: seq<BucketRequest>, i: nat)
    requires i < |requests| && Ordered(requests)
    ensures Find(requests, FailedBucket(requests[i].depth, requests[i].prefix)) == Some(requests[i])
    decreases |requests|
  {
    if i > 0 {
      assert Before(requests[0], requests[i]);
      forall j, k | 0 <= j < k < |requests[1..]|
        ensures Before(requests[1..][j], requests[1..][k])
      {
        assert Before(requests[j + 1], requests[k + 1]);
      }
      FoundItself(requests[1..], i - 1);
    }
  }

  /** What a valid request is replaced by covers the same positions, stays
      within its bounds, and has a smaller rank. */
  ghost predicate ReplacesOne(q: BucketRequest, next: seq<BucketRequest>)
    requires q.depth <= MAX_DEPTH
  {
    && Ordered(next)
    && (forall x: int :: Hits(BucketsOf(next), x) == if Covers(Bucket(q.depth, q.prefix), x) then 1 else 0)
    && (forall r :: r in next ==> r.depth <= MAX_DEPTH && Within(r, q) && Rank(r) < Rank(q))
  }

  lemma ReprovisionKeeps(q: BucketRequest, share: uint64)
    requires ValidRequest(q) && Reprovision(q, share).Some?
    ensures ReplacesOne(q, Reprovision(q, share).value)
  {
    if q.capacity < MAX_BUCKET_SKETCH_CAPACITY {
      GrowKeeps(q, share);
    } else {
      SplitKeeps(q, share);
    }
  }

  lemma GrowKeeps(q: BucketRequest, share: uint64)
    requires ValidRequest(q) && q.capacity < MAX_BUCKET_SKETCH_CAPACITY && Reprovision(q, share).Some?
    ensures ReplacesOne(q, Reprovision(q, share).value)
  {
    var next := Reprovision(q, share).value;
    assert next[0].capacity > q.capacity;
    assert BucketsOf(next) == [Bucket(q.depth, q.prefix)];
    forall x: int { HitsOne(Bucket(q.depth, q.prefix), x); }
  }

  lemma SplitKeeps(q: BucketRequest, share: uint64)
    requires ValidRequest(q) && q.capacity == MAX_BUCKET_SKETCH_CAPACITY && Reprovision(q, share).Some?
    ensures ReplacesOne(q, Reprovision(q, share).value)
  {
    ChildIndex(q.depth, q.prefix);
    var next := Reprovision(q, share).value;
    assert next == [next[0], next[1]];
    SplitReplaces(q, next[0], next[1]);
  }

  lemma SplitReplaces(q: BucketRequest, l: BucketRequest, r: BucketRequest)
    requires ValidRequest(q) && q.capacity == MAX_BUCKET_SKETCH_CAPACITY && ValidRequest(l) && ValidRequest(r)
    requires l.depth == r.depth == q.depth + 1 && l.prefix == 2 * q.prefix && r.prefix == 2 * q.prefix + 1
    ensures ReplacesOne(q, [l, r])
  {
    SplitOrdered(q, l, r);
    SplitCovers(q, l, r);
  }

  lemma SplitCovers(q: BucketRequest, l: BucketRequest, r: BucketRequest)
    requires q.depth < MAX_DEPTH
    requires l.depth == r.depth == q.depth + 1 && l.prefix == 2 * q.prefix && r.prefix == 2 * q.prefix + 1
    ensures forall x: int :: Hits(BucketsOf([l, r]), x) == if Covers(Bucket(q.depth, q.prefix), x) then 1 else 0
  {
    var b := Bucket(q.depth, q.prefix);
    assert BucketsOf([l, r]) == [Bucket(q.depth + 1, 2 * q.prefix), Bucket(q.depth + 1, 2 * q.prefix + 1)];
    forall x: int
      ensures Hits(BucketsOf([l, r]), x) == Hits([b], x)
    {
      SplitHits(q.depth, q.prefix, x);
    }
    SameCover(BucketsOf([l, r]), b);
  }

  lemma SameCover(buckets: seq<Bucket>, b: Bucket)
    requires forall x: int :: Hits(buckets, x) == Hits([b], x)
    ensures forall x: int :: Hits(buckets, x) == if Covers(b, x) then 1 else 0
  {
    forall x: int
      ensures Hits(buckets, x) == if Covers(b, x) then 1 else 0
    {
      HitsOne(b, x);
    }
  }

  lemma SplitOrdered(q: BucketRequest, l: BucketRequest, r: BucketRequest)
    requires ValidRequest(q) && q.capacity == MAX_BUCKET_SKETCH_CAPACITY && ValidRequest(l) && ValidRequest(r)
    requires l.depth == r.depth == q.depth + 1 && l.prefix == 2 * q.prefix && r.prefix == 2 * q.prefix + 1
    ensures Ordered([l, r]) && Within(l, q) && Within(r, q) && Rank(l) < Rank(q) && Rank(r) < Rank(q)
  {
    Children(q.depth, q.prefix);
  }

  lemma ChildIndex(depth: nat, prefix: uint32)
    requires depth < MAX_DEPTH && prefix < Exp2(depth)
    ensures 2 * prefix + 1 < Exp2(depth + 1) <= MAX_UINT32 + 1
    ensures Shifted(prefix, 0) == 2 * prefix && Shifted(prefix, 1) == 2 * prefix + 1
  {
    Exp2Order(depth + 1, MAX_DEPTH);
    FullDepth();
  }

  predicate Within(r: BucketRequest, q: BucketRequest)
    requires r.depth <= MAX_DEPTH && q.depth <= MAX_DEPTH
  {
    Start(q.depth, q.prefix) <= Start(r.depth, r.prefix) && End(r.depth, r.prefix) <= End(q.depth, q.prefix)
  }

  /** Strictly smaller for everything that replaces a failed request. */
  function Rank(q: BucketRequest): int { (MAX_DEPTH - q.depth) * 33 + (MAX_BUCKET_SKETCH_CAPACITY - q.capacity) }

  function MaxRank(requests: seq<BucketRequest>): (r: int)
    ensures r >= 0
  {
    if requests == [] then 0 else
      var before, last := MaxRank(requests[..|requests| - 1]), Rank(requests[|requests| - 1]);
      if before > last then before else last
  }

  lemma {:induction false} MaxRankBounds(requests: seq<BucketRequest>, q: BucketRequest)
    requires q in requests
    ensures Rank(q) <= MaxRank(requests)
  {
    var n := |requests| - 1;
    if q != requests[n] {
      MaxRankBounds(requests[..n], q);
    }
  }

  lemma {:induction false} MaxRankBelow(requests: seq<BucketRequest>, bound: int)
    requires forall q :: q in requests ==> Rank(q) < bound
    requires bound > 0
    ensures MaxRank(requests) < bound
  {
    if requests != [] {
      var n := |requests| - 1;
      assert requests[n] in requests;
      MaxRankBelow(requests[..n], bound);
    }
  }

  /** What the requests that replace the failures of the first k requests have in common. */
  ghost predicate Replaces(requests: seq<BucketRequest>, k: nat, failed: seq<FailedBucket>, next: seq<BucketRequest>)
    requires k <= |requests| && Ordered(requests)
  {
    && Ordered(next)
    && (forall r :: r in next ==>
      k > 0 && r.depth <= MAX_DEPTH && End(r.depth, r.prefix) <= End(requests[k - 1].depth, requests[k - 1].prefix))
    && (forall r :: r in next ==> Rank(r) < MaxRank(requests))
    && (forall x: int :: SameHits(BucketsOf(next), FailedBuckets(failed), x))
  }

  predicate SameHits(a: seq<Bucket>, b: seq<Bucket>, x: int) { Hits(a, x) == Hits(b, x) }

  lemma FailuresNext(requests: seq<BucketRequest>, outcomes: seq<Outcome>, k: nat)
    requires k < |requests| == |outcomes|
    ensures var f := Failures(requests[..k], outcomes[..k]);
      Failures(requests[..k + 1], outcomes[..k + 1]) ==
        if outcomes[k].Solved? then f else f + [FailedBucket(requests[k].depth, requests[k].prefix)]
  {
    assert requests[..k + 1][..k] == requests[..k] && outcomes[..k + 1][..k] == outcomes[..k];
  }

  lemma ReprovisionedSnoc(requests: seq<BucketRequest>, f: seq<FailedBucket>, k: nat, share: uint64)
    requires Ordered(requests) && Ints(requests) && k < |requests|
    requires Reprovisioned(f + [FailedBucket(requests[k].depth, requests[k].prefix)], requests, share).Some?
    ensures Reprovisioned(f, requests, share).Some? && Reprovision(requests[k], share).Some?
    ensures Reprovisioned(f + [FailedBucket(requests[k].depth, requests[k].prefix)], requests, share).value
      == Reprovisioned(f, requests, share).value + Reprovision(requests[k], share).value
  {
    Snoc(f, FailedBucket(requests[k].depth, requests[k].prefix));
    FoundItself(requests, k);
  }

  /** The replacements of a failed list are ordered, cover what it covers, and
      are all of smaller rank. */
  lemma {:induction false} ReprovisionedKeeps(requests: seq<BucketRequest>, outcomes: seq<Outcome>,
      failed: seq<FailedBucket>,
      share: uint64, k: nat)
    requires Ordered(requests) && Ints(requests) && |requests| == |outcomes| && k <= |requests|
    requires failed == Failures(requests[..k], outcomes[..k]) && Reprovisioned(failed, requests, share).Some?
    ensures Replaces(requests, k, failed, Reprovisioned(failed, requests, share).value)
    decreases k
  {
    if k > 0 {
      var f := Failures(requests[..k - 1], outcomes[..k - 1]);
      FailuresNext(requests, outcomes, k - 1);
      if outcomes[k - 1].Solved? {
        ReprovisionedKeeps(requests, outcomes, f, share, k - 1);
        ReplacesSkip(requests, k - 1, failed, Reprovisioned(failed, requests, share).value);
      } else {
        ReprovisionedSnoc(requests, f, k - 1, share);
        ReprovisionedKeeps(requests, outcomes, f, share, k - 1);
        ReplacesNext(requests, k - 1, f, Reprovisioned(f, requests, share).value, share);
      }
    }
  }

  lemma ReplacesSkip(requests: seq<BucketRequest>, k: nat, failed: seq<FailedBucket>, next: seq<BucketRequest>)
    requires k < |requests| && Ordered(requests) && Replaces(requests, k, failed, next)
    ensures Replaces(requests, k + 1, failed, next)
  {
    if k > 0 {
      assert Before(requests[k - 1], requests[k]);
    }
  }

  lemma ReplacesNext(requests: seq<BucketRequest>, k: nat, failed: seq<FailedBucket>, next: seq<BucketRequest>,
      share: uint64)
    requires k < |requests| && Ordered(requests) && Replaces(requests, k, failed, next)
    requires Reprovision(requests[k], share).Some?
    ensures Replaces(requests, k + 1, failed + [FailedBucket(requests[k].depth, requests[k].prefix)],
      next + Reprovision(requests[k], share).value)
  {
    var q := requests[k];
    var more := Reprovision(q, share).value;
    ReprovisionKeeps(q, share);
    MaxRankBounds(requests, q);
    ReplacesSkip(requests, k, failed, next);
    forall x: int
      ensures SameHits(BucketsOf(next + more), FailedBuckets(failed + [FailedBucket(q.depth, q.prefix)]), x)
    {
      assert BucketsOf(next + more) == BucketsOf(next) + BucketsOf(more);
      HitsAppend(BucketsOf(next), BucketsOf(more), x);
      FailedSnoc(failed, FailedBucket(q.depth, q.prefix), x);
      assert SameHits(BucketsOf(next), FailedBuckets(failed), x);
    }
    AppendOrdered(requests, k, next, more);
  }

  lemma AppendOrdered(requests: seq<BucketRequest>, k: nat, next: seq<BucketRequest>, more: seq<BucketRequest>)
    requires k < |requests| && Ordered(requests) && Ordered(next) && Ordered(more)
    requires forall r :: r in next ==>
      k > 0 && r.depth <= MAX_DEPTH && End(r.depth, r.prefix) <= End(requests[k - 1].depth, requests[k - 1].prefix)
    requires forall r :: r in more ==> r.depth <= MAX_DEPTH && Within(r, requests[k])
    ensures Ordered(next + more)
  {
    var all := next + more;
    forall i, j | 0 <= i < j < |all|
      ensures Before(all[i], all[j])
    {
      if j < |next| {
        assert Before(next[i], next[j]);
      } else if i >= |next| {
        assert Before(more[i - |next|], more[j - |next|]);
      } else {
        assert next[i] in next && more[j - |next|] in more;
        assert Before(requests[k - 1], requests[k]);
      }
    }
  }

  // ---- whole runs

  /** The state after a round; rounds that do not answer the requests are ignored. */
  function Step(c: ReconciliationClient, s: State, round: Round): State
    requires s.Running? ==> Ints(s.requests)
  {
    if !s.Running? || |round.outcomes| != |s.requests| then s else
      var batch := BatchOf(s.requests, round.outcomes);
      match Next(c.maxRounds, batch, s.requests, s.roots, round.estimate, s.round, round.aggregateCap)
      case BucketSketches(requests, roots) => Running(s.decoded + batch.successful, requests, roots, s.round + 1)
      case ResolveRoots(roots) => Resolved(s.decoded + batch.successful, roots)
      case _ => Fallback
  }

  /** The decoded buckets and the outstanding requests tile the space, the
      requests are valid, and the roots are those of the decoded buckets. */
  ghost predicate Invariant(s: State) {
    match s
    case Running(decoded, requests, roots, _) =>
      && ValidRequests(requests)
      && Tiles(DecodedBuckets(decoded) + BucketsOf(requests))
      && roots == AllRoots(decoded)
    case Resolved(decoded, roots) => Tiles(DecodedBuckets(decoded)) && roots == AllRoots(decoded)
    case Fallback => true
  }

  lemma {:induction false} AllRootsAppend(a: seq<BucketDecodeSuccess>, b: seq<BucketDecodeSuccess>)
    ensures AllRoots(a + b) == AllRoots(a) + AllRoots(b)
  {
    if b == [] {
      assert a + b == a;
    } else {
      assert (a + b)[..|a + b| - 1] == a + b[..|b| - 1];
      AllRootsAppend(a, b[..|b| - 1]);
    }
  }

  lemma ValidInts(requests: seq<BucketRequest>)
    requires Ordered(requests)
    ensures Ints(requests)
  {
  }

  /** The tiles after a round: the failures are exactly replaced. */
  lemma TilesMove(decoded: seq<BucketDecodeSuccess>, requests: seq<BucketRequest>, outcomes: seq<Outcome>,
      rest: seq<Bucket>)
    requires |requests| == |outcomes| && Tiles(DecodedBuckets(decoded) + BucketsOf(requests))
    requires forall x: int :: SameHits(rest, FailedBuckets(Failures(requests, outcomes)), x)
    ensures Tiles(DecodedBuckets(decoded + Successes(requests, outcomes)) + rest)
  {
    var more := Successes(requests, outcomes);
    assert DecodedBuckets(decoded + more) == DecodedBuckets(decoded) + DecodedBuckets(more);
    forall x: int
      ensures TiledAt(DecodedBuckets(decoded + more) + rest, x)
    {
      assert TiledAt(DecodedBuckets(decoded) + BucketsOf(requests), x);
      HitsAppend(DecodedBuckets(decoded), BucketsOf(requests), x);
      BatchHits(requests, outcomes, x);
      HitsAppend(DecodedBuckets(decoded), DecodedBuckets(more), x);
      HitsAppend(DecodedBuckets(decoded + more), rest, x);
      assert SameHits(rest, FailedBuckets(Failures(requests, outcomes)), x);
    }
  }

  lemma NextRequests(maxRounds: int, batch: BucketDecodeBatch, previous: seq<BucketRequest>, accumulated: seq<Word>,
      estimate: Option<uint64>, round: int, aggregateCap: int) returns (share: uint64)
    requires Ints(previous)
    ensures var next := Next(maxRounds, batch, previous, accumulated, estimate, round, aggregateCap);
      next.BucketSketches? ==>
        && Reprovisioned(batch.failed, previous, share) == Some(next.requests) && next.requests != []
        && TotalCapacity(next.requests) <= MAX_BUCKETED_SKETCH_CAPACITY
  {
    if batch.failed == [] {
      share := 0;
    } else {
      share := Share(estimate, AsUint64(|accumulated + AllRoots(batch.successful)|), |batch.failed|);
      var found := Find(previous, batch.failed[|batch.failed| - 1]);
      if found.Some? && Reprovision(found.value, share).Some? {
        assert |Reprovision(found.value, share).value| > 0;
      }
    }
  }

  /** The requests of the next round, when there is one, replace the failures of this one. */
  lemma StepReplaces(c: ReconciliationClient, s: State, round: Round)
    requires s.Running? && ValidRequests(s.requests) && |round.outcomes| == |s.requests|
    ensures Ints(s.requests) && (Step(c, s, round).Running? ==>
      ValidRequests(Step(c, s, round).requests) && Step(c, s, round).requests != [] &&
      Replaces(s.requests, |s.requests|, Failures(s.requests, round.outcomes), Step(c, s, round).requests))
  {
    ValidInts(s.requests);
    var batch := BatchOf(s.requests, round.outcomes);
    var share := NextRequests(c.maxRounds, batch, s.requests, s.roots, round.estimate, s.round, round.aggregateCap);
    if Step(c, s, round).Running? {
      assert s.requests[..|s.requests|] == s.requests && round.outcomes[..|s.requests|] == round.outcomes;
      ReprovisionedKeeps(s.requests, round.outcomes, batch.failed, share, |s.requests|);
    }
  }

  /** Every round keeps the invariant, whatever it brings. */
  lemma StepKeeps(c: ReconciliationClient, s: State, round: Round)
    requires Invariant(s)
    ensures (s.Running? ==> Ints(s.requests)) && Invariant(Step(c, s, round))
  {
    if s.Running? {
      ValidInts(s.requests);
      if |round.outcomes| == |s.requests| {
        var failed, next := Failures(s.requests, round.outcomes), Step(c, s, round);
        AllRootsAppend(s.decoded, Successes(s.requests, round.outcomes));
        if next.Running? {
          StepReplaces(c, s, round);
          TilesMove(s.decoded, s.requests, round.outcomes, BucketsOf(next.requests));
        } else if next.Resolved? {
          assert FailedBuckets(failed) == [];
          TilesMove(s.decoded, s.requests, round.outcomes, []);
          assert DecodedBuckets(next.decoded) + [] == DecodedBuckets(next.decoded);
        }
      }
    }
  }

  /** The state after the rounds so far. */
  ghost function Run(c: ReconciliationClient, start: State, rounds: seq<Round>): (s: State)
    requires Invariant(start)
    ensures Invariant(s)
  {
    if rounds == [] then start else
      var before := Run(c, start, rounds[..|rounds| - 1]);
      StepKeeps(c, before, rounds[|rounds| - 1]);
      Step(c, before, rounds[|rounds| - 1])
  }

  ghost function InitialState(requests: seq<BucketRequest>, round: int): State { Running([], requests, [], round) }

  /** The first action starts a run. */
  lemma FirstActionStarts(requests: seq<BucketRequest>, depth: nat, capacity: int, round: int)
    requires Uniform(requests, depth, capacity) && 4 <= capacity <= MAX_BUCKET_SKETCH_CAPACITY
    ensures Invariant(InitialState(requests, round)) && MaxRank(requests) <= 1084
  {
    UniformIsValid(requests, depth, capacity);
    assert DecodedBuckets([]) + BucketsOf(requests) == BucketsOf(requests);
    forall q | q in requests
      ensures Rank(q) < 1085
    {
      var i :| 0 <= i < |requests| && requests[i] == q;
      assert UniformAt(requests[i], depth, i, capacity);
    }
    MaxRankBelow(requests, 1085);
  }

  /** Each round answers all the outstanding requests. */
  ghost predicate Answered(c: ReconciliationClient, start: State, rounds: seq<Round>)
    requires Invariant(start)
  {
    forall k :: 0 <= k < |rounds| ==> AnsweredAt(Run(c, start, rounds[..k]), rounds[k])
  }

  predicate AnsweredAt(s: State, round: Round) { s.Running? ==> |round.outcomes| == |s.requests| }

  lemma AnsweredPrefix(c: ReconciliationClient, start: State, rounds: seq<Round>)
    requires Invariant(start) && Answered(c, start, rounds) && rounds != []
    ensures Answered(c, start, rounds[..|rounds| - 1]) &&
      AnsweredAt(Run(c, start, rounds[..|rounds| - 1]), rounds[|rounds| - 1])
  {
    var n := |rounds| - 1;
    forall k | 0 <= k < n
      ensures AnsweredAt(Run(c, start, rounds[..n][..k]), rounds[..n][k])
    {
      assert rounds[..n][..k] == rounds[..k];
      assert AnsweredAt(Run(c, start, rounds[..k]), rounds[k]);
    }
  }

  /** The rank drops in a round that leaves requests outstanding. */
  lemma StepDrops(c: ReconciliationClient, s: State, round: Round)
    requires Invariant(s) && AnsweredAt(s, round)
    ensures (s.Running? ==> Ints(s.requests)) && (Step(c, s, round).Running? ==>
      s.Running? && MaxRank(Step(c, s, round).requests) < MaxRank(s.requests))
  {
    if s.Running? {
      StepReplaces(c, s, round);
      var next := Step(c, s, round);
      if next.Running? {
        assert next.requests[0] in next.requests && ValidRequest(next.requests[0]);
        MaxRankBelow(next.requests, MaxRank(s.requests));
      }
    }
  }

  /** Even without a round limit the exchange ends: the greatest outstanding
      rank drops every round. */
  lemma {:induction false} RunEnds(c: ReconciliationClient, start: State, rounds: seq<Round>)
    requires Invariant(start) && start.Running? && Answered(c, start, rounds)
    ensures var s := Run(c, start, rounds);
      s.Running? ==> MaxRank(s.requests) + |rounds| <= MaxRank(start.requests)
    ensures |rounds| > MaxRank(start.requests) >= 0 ==> !Run(c, start, rounds).Running?
    decreases |rounds|
  {
    if rounds != [] {
      var n := |rounds| - 1;
      AnsweredPrefix(c, start, rounds);
      RunEnds(c, start, rounds[..n]);
      StepDrops(c, Run(c, start, rounds[..n]), rounds[n]);
    }
  }

  // ---- how a round ends

  /** The roots so far and the requests that are no longer outstanding decide what
      a round ends in: a resolution exactly when nothing failed, the fallback
      exactly when the next action is the fallback, and otherwise requests that
      continue exactly the failed buckets. */
  lemma StepIsJustified(c: ReconciliationClient, s: State, round: Round)
    requires Invariant(s) && s.Running? && AnsweredAt(s, round)
    ensures var next, batch := Step(c, s, round), BatchOf(s.requests, round.outcomes);
      var action := match next
        case Resolved(_, roots) => ResolveRoots(roots)
        case Fallback => ExtremityDiff
        case Running(_, requests, roots, _) => BucketSketches(requests, roots);
      && Justified(c.maxRounds, batch, s.requests, s.roots, round.estimate, s.round, round.aggregateCap, action)
      && (!next.Fallback? ==> next.decoded == s.decoded + batch.successful)
  {
    ValidInts(s.requests);
    NextIsJustified(c.maxRounds, BatchOf(s.requests, round.outcomes), s.requests, s.roots, round.estimate, s.round,
      round.aggregateCap);
  }

  // ---- the round limit

  /** A round that leaves requests outstanding is below the limit on rounds, asks
      for no more than the responder allows, and counts. */
  lemma StepIsLimited(c: ReconciliationClient, s: State, round: Round)
    requires Invariant(s) && s.Running? && AnsweredAt(s, round)
    ensures Ints(s.requests)
    ensures Step(c, s, round).Running? ==>
      && s.round < c.maxRounds && Step(c, s, round).round == s.round + 1
      && TotalCapacity(Step(c, s, round).requests) <= round.aggregateCap
  {
    ValidInts(s.requests);
  }

  /** A run that is still going has had no more rounds than the limit allows,
      whatever they brought: it ends at the limit, if not before. */
  lemma {:induction false} RoundLimit(c: ReconciliationClient, start: State, rounds: seq<Round>)
    requires Invariant(start) && start.Running? && Answered(c, start, rounds)
    ensures Run(c, start, rounds).Running? ==> Run(c, start, rounds).round == start.round + |rounds|
    ensures |rounds| > 0 && start.round + |rounds| > c.maxRounds ==> !Run(c, start, rounds).Running?
    decreases |rounds|
  {
    if rounds != [] {
      var n := |rounds| - 1;
      AnsweredPrefix(c, start, rounds);
      RoundLimit(c, start, rounds[..n]);
      var before := Run(c, start, rounds[..n]);
      StepDrops(c, before, rounds[n]);
      if before.Running? {
        StepIsLimited(c, before, rounds[n]);
      }
    }
  }
}
