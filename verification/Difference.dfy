/** What an exchange returns when it is answered with the true sketches of a difference. */
module Difference {
  import opened FieldTheory
  import opened Lists
  import opened PowerSums
  import opened PinSketch
  import opened Encoding
  import opened Triage
  import opened Tiling
  import opened Client
  import opened Transition
  import opened Exchange

  /** The part of the difference that a request asks for. */
  ghost function PartOf(D: seq<Word>, position: Word -> Position, q: BucketRequest): seq<Word> {
    Restrict(D, position, Bucket(q.depth, q.prefix))
  }

  /** The part of the difference in a decoded bucket. */
  ghost function PartIn(D: seq<Word>, position: Word -> Position, d: BucketDecodeSuccess): seq<Word> {
    Restrict(D, position, Bucket(d.depth, d.prefix))
  }

  ghost predicate Honest(D: seq<Word>, position: Word -> Position, d: BucketDecodeSuccess) {
    multiset(d.roots) == multiset(PartIn(D, position, d))
  }

  /** A decoded bucket holds its part of the difference, or too little. */
  ghost predicate HonestOrShort(D: seq<Word>, position: Word -> Position, d: BucketDecodeSuccess) {
    Honest(D, position, d) || |d.roots| < |PartIn(D, position, d)|
  }

  ghost predicate AllHonest(D: seq<Word>, position: Word -> Position, decoded: seq<BucketDecodeSuccess>) {
    forall i :: 0 <= i < |decoded| ==> Honest(D, position, decoded[i])
  }

  ghost predicate AllHonestOrShort(D: seq<Word>, position: Word -> Position, decoded: seq<BucketDecodeSuccess>) {
    forall i :: 0 <= i < |decoded| ==> HonestOrShort(D, position, decoded[i])
  }

  lemma SameLength<T>(a: seq<T>, b: seq<T>)
    requires multiset(a) == multiset(b)
    ensures |a| == |b|
  {
    assert |multiset(a)| == |a| && |multiset(b)| == |b|;
  }

  /** A bucket that is solved from the true sketch of its part holds exactly the
      part when that fits the capacity, and fewer elements when it does not. */
  lemma SolvedIsHonest(K: Field<Word>, D: seq<Word>, position: Word -> Position, q: BucketRequest, roots: seq<Word>)
    requires IsWordField(K) && Distinct(D) && K.zero !in D && q.capacity >= 0
    requires Decodes(K, OddSums(K, PartOf(D, position, q), q.capacity), q.capacity, roots)
    ensures var d := BucketDecodeSuccess(q.depth, q.prefix, roots);
      HonestOrShort(D, position, d) && (Honest(D, position, d) <==> |PartOf(D, position, q)| <= q.capacity)
  {
    var A := PartOf(D, position, q);
    RestrictIsSet(D, position, Bucket(q.depth, q.prefix));
    if |A| <= q.capacity {
      DecodesSet(K, OddSums(K, A, q.capacity), q.capacity, A, roots);
    } else if multiset(roots) == multiset(A) {
      SameLength(roots, A);
    }
  }

  /** The parts of the difference in the decoded buckets. */
  ghost function PartsIn(D: seq<Word>, position: Word -> Position, decoded: seq<BucketDecodeSuccess>): seq<seq<Word>> {
    seq(|decoded|, i requires 0 <= i < |decoded| => PartIn(D, position, decoded[i]))
  }

  lemma PartsInNext(D: seq<Word>, position: Word -> Position, decoded: seq<BucketDecodeSuccess>)
    requires decoded != []
    ensures var n := |decoded| - 1;
      Concat(PartsIn(D, position, decoded)) ==
        Concat(PartsIn(D, position, decoded[..n])) + PartIn(D, position, decoded[n])
  {
    var n := |decoded| - 1;
    assert PartsIn(D, position, decoded)[..n] == PartsIn(D, position, decoded[..n]);
  }

  /** Buckets that are honest or short hold all the parts exactly when the numbers of elements agree. */
  lemma {:induction false} ShortCount(D: seq<Word>, position: Word -> Position, decoded: seq<BucketDecodeSuccess>)
    requires AllHonestOrShort(D, position, decoded)
    ensures |AllRoots(decoded)| <= |Concat(PartsIn(D, position, decoded))|
    ensures |AllRoots(decoded)| == |Concat(PartsIn(D, position, decoded))| <==> AllHonest(D, position, decoded)
  {
    if decoded != [] {
      var n := |decoded| - 1;
      ShortCount(D, position, decoded[..n]);
      PartsInNext(D, position, decoded);
      assert HonestOrShort(D, position, decoded[n]);
      if Honest(D, position, decoded[n]) {
        SameLength(decoded[n].roots, PartIn(D, position, decoded[n]));
      }
      HonestSnoc(D, position, decoded);
    }
  }

  lemma HonestSnoc(D: seq<Word>, position: Word -> Position, decoded: seq<BucketDecodeSuccess>)
    requires decoded != []
    ensures var n := |decoded| - 1;
      AllHonest(D, position, decoded) <==> AllHonest(D, position, decoded[..n]) && Honest(D, position, decoded[n])
  {
    var n := |decoded| - 1;
    if AllHonest(D, position, decoded[..n]) && Honest(D, position, decoded[n]) {
      forall i | 0 <= i < |decoded|
        ensures Honest(D, position, decoded[i])
      {
        assert i < n ==> Honest(D, position, decoded[..n][i]);
      }
    }
    if AllHonest(D, position, decoded) {
      forall i | 0 <= i < n
        ensures Honest(D, position, decoded[..n][i])
      {
        assert Honest(D, position, decoded[i]);
      }
      assert Honest(D, position, decoded[n]);
    }
  }

  lemma {:induction false} RootsAreParts(decoded: seq<BucketDecodeSuccess>)
    ensures AllRoots(decoded) == Concat(seq(|decoded|, i requires 0 <= i < |decoded| => decoded[i].roots))
  {
    if decoded != [] {
      var n := |decoded| - 1;
      RootsAreParts(decoded[..n]);
      assert seq(|decoded|, i requires 0 <= i < |decoded| => decoded[i].roots)[..n]
          == seq(n, i requires 0 <= i < n => decoded[..n][i].roots);
    }
  }

  lemma HonestIsDifference(D: seq<Word>, position: Word -> Position, decoded: seq<BucketDecodeSuccess>)
    requires Tiles(DecodedBuckets(decoded)) && AllHonest(D, position, decoded)
    ensures multiset(AllRoots(decoded)) == multiset(D)
  {
    var parts := seq(|decoded|, i requires 0 <= i < |decoded| => decoded[i].roots);
    RootsAreParts(decoded);
    forall i | 0 <= i < |decoded|
      ensures PartAt(D, position, DecodedBuckets(decoded), parts, i)
    {
      assert Honest(D, position, decoded[i]);
    }
    TiledParts(D, position, DecodedBuckets(decoded), parts);
  }

  lemma PartsAreDifference(D: seq<Word>, position: Word -> Position, decoded: seq<BucketDecodeSuccess>)
    requires Tiles(DecodedBuckets(decoded))
    ensures |Concat(PartsIn(D, position, decoded))| == |D|
  {
    var parts := PartsIn(D, position, decoded);
    forall i | 0 <= i < |decoded|
      ensures PartAt(D, position, DecodedBuckets(decoded), parts, i)
    {
    }
    TiledParts(D, position, DecodedBuckets(decoded), parts);
    SameLength(Concat(parts), D);
  }

  /** When the exchange resolves with buckets that are honest or short, the
      roots are the whole difference, each element once, exactly when every
      bucket is honest, and exactly when there are as many roots as elements. */
  lemma ResolvedIsDifference(D: seq<Word>, position: Word -> Position, s: State)
    requires s.Resolved? && Invariant(s) && AllHonestOrShort(D, position, s.decoded)
    ensures multiset(s.roots) == multiset(D) <==> AllHonest(D, position, s.decoded)
    ensures |s.roots| == |D| <==> AllHonest(D, position, s.decoded)
    ensures |s.roots| <= |D|
  {
    ShortCount(D, position, s.decoded);
    PartsAreDifference(D, position, s.decoded);
    if AllHonest(D, position, s.decoded) {
      HonestIsDifference(D, position, s.decoded);
    } else if multiset(s.roots) == multiset(D) {
      SameLength(s.roots, D);
    }
  }

  // ---- exchanges over true sketches

  /** A request answered with the sketch of its part of the difference: what is solved has that sketch. */
  ghost predicate Truthful(K: Field<Word>, D: seq<Word>, position: Word -> Position, q: BucketRequest, outcome: Outcome)
  {
    q.capacity >= 0 &&
    (outcome.Solved? ==> Decodes(K, OddSums(K, PartOf(D, position, q), q.capacity), q.capacity, outcome.roots))
  }

  /** A bucket that is solved holds no more than its capacity. */
  ghost predicate Fits(D: seq<Word>, position: Word -> Position, q: BucketRequest, outcome: Outcome) {
    outcome.Solved? ==> |PartOf(D, position, q)| <= q.capacity
  }

  ghost predicate AllTruthful(K: Field<Word>, D: seq<Word>, position: Word -> Position, requests: seq<BucketRequest>,
      outcomes: seq<Outcome>)
    requires |requests| == |outcomes|
  {
    forall i :: 0 <= i < |requests| ==> Truthful(K, D, position, requests[i], outcomes[i])
  }

  ghost predicate AllFit(D: seq<Word>, position: Word -> Position, requests: seq<BucketRequest>, outcomes: seq<Outcome>)
    requires |requests| == |outcomes|
  {
    forall i :: 0 <= i < |requests| ==> Fits(D, position, requests[i], outcomes[i])
  }

  lemma FitSnoc(D: seq<Word>, position: Word -> Position, requests: seq<BucketRequest>, outcomes: seq<Outcome>)
    requires |requests| == |outcomes| > 0
    ensures var n := |requests| - 1;
      AllFit(D, position, requests, outcomes) <==>
        AllFit(D, position, requests[..n], outcomes[..n]) && Fits(D, position, requests[n], outcomes[n])
  {
    var n := |requests| - 1;
    if AllFit(D, position, requests[..n], outcomes[..n]) && Fits(D, position, requests[n], outcomes[n]) {
      forall i | 0 <= i < |requests|
        ensures Fits(D, position, requests[i], outcomes[i])
      {
        assert i < n ==> Fits(D, position, requests[..n][i], outcomes[..n][i]);
      }
    }
    if AllFit(D, position, requests, outcomes) {
      forall i | 0 <= i < n
        ensures Fits(D, position, requests[..n][i], outcomes[..n][i])
      {
        assert Fits(D, position, requests[i], outcomes[i]);
      }
      assert Fits(D, position, requests[n], outcomes[n]);
    }
  }

  lemma ShortSnoc(D: seq<Word>, position: Word -> Position, decoded: seq<BucketDecodeSuccess>, d: BucketDecodeSuccess)
    requires AllHonestOrShort(D, position, decoded) && HonestOrShort(D, position, d)
    ensures AllHonestOrShort(D, position, decoded + [d])
    ensures AllHonest(D, position, decoded + [d]) <==> AllHonest(D, position, decoded) && Honest(D, position, d)
  {
    HonestSnoc(D, position, decoded + [d]);
    Snoc(decoded, d);
  }

  /** The solved buckets of a round are honest or short, and all honest exactly when they all fit. */
  lemma {:induction false} SuccessesHonest(K: Field<Word>, D: seq<Word>, position: Word -> Position,
      requests: seq<BucketRequest>, outcomes: seq<Outcome>)
    requires IsWordField(K) && Distinct(D) && K.zero !in D && |requests| == |outcomes|
    requires AllTruthful(K, D, position, requests, outcomes)
    ensures AllHonestOrShort(D, position, Successes(requests, outcomes))
    ensures AllHonest(D, position, Successes(requests, outcomes)) <==> AllFit(D, position, requests, outcomes)
  {
    if requests != [] {
      var n := |requests| - 1;
      forall i | 0 <= i < n
        ensures Truthful(K, D, position, requests[..n][i], outcomes[..n][i])
      {
        assert Truthful(K, D, position, requests[i], outcomes[i]);
      }
      SuccessesHonest(K, D, position, requests[..n], outcomes[..n]);
      FitSnoc(D, position, requests, outcomes);
      assert Truthful(K, D, position, requests[n], outcomes[n]);
      if outcomes[n].Solved? {
        SolvedIsHonest(K, D, position, requests[n], outcomes[n].roots);
        ShortSnoc(D, position, Successes(requests[..n], outcomes[..n]),
          BucketDecodeSuccess(requests[n].depth, requests[n].prefix, outcomes[n].roots));
      } else {
        assert Successes(requests, outcomes) == Successes(requests[..n], outcomes[..n]);
      }
    }
  }

  lemma HonestAppend(D: seq<Word>, position: Word -> Position, a: seq<BucketDecodeSuccess>, b: seq<BucketDecodeSuccess>)
    requires AllHonestOrShort(D, position, a) && AllHonestOrShort(D, position, b)
    ensures AllHonestOrShort(D, position, a + b)
    ensures AllHonest(D, position, a + b) <==> AllHonest(D, position, a) && AllHonest(D, position, b)
  {
    if AllHonest(D, position, a + b) {
      forall i | 0 <= i < |a|
        ensures Honest(D, position, a[i])
      {
        assert Honest(D, position, (a + b)[i]);
      }
      forall i | 0 <= i < |b|
        ensures Honest(D, position, b[i])
      {
        assert Honest(D, position, (a + b)[|a| + i]);
      }
    }
  }

  // ---- whole runs over true sketches

  ghost predicate TruthfulRound(K: Field<Word>, D: seq<Word>, position: Word -> Position, s: State, round: Round) {
    s.Running? && |round.outcomes| == |s.requests| ==> AllTruthful(K, D, position, s.requests, round.outcomes)
  }

  ghost predicate FittingRound(D: seq<Word>, position: Word -> Position, s: State, round: Round) {
    s.Running? && |round.outcomes| == |s.requests| ==> AllFit(D, position, s.requests, round.outcomes)
  }

  /** Every round of a run is answered with true sketches. */
  ghost predicate TruthfulRun(K: Field<Word>, c: ReconciliationClient, D: seq<Word>, position: Word -> Position,
      start: State, rounds: seq<Round>)
    requires Invariant(start)
  {
    rounds == [] ||
      (TruthfulRun(K, c, D, position, start, rounds[..|rounds| - 1]) &&
       TruthfulRound(K, D, position, Run(c, start, rounds[..|rounds| - 1]), rounds[|rounds| - 1]))
  }

  /** No bucket of a run is solved while it holds more than its capacity. */
  ghost predicate FittingRun(c: ReconciliationClient, D: seq<Word>, position: Word -> Position, start: State,
      rounds: seq<Round>)
    requires Invariant(start)
  {
    rounds == [] ||
      (FittingRun(c, D, position, start, rounds[..|rounds| - 1]) &&
       FittingRound(D, position, Run(c, start, rounds[..|rounds| - 1]), rounds[|rounds| - 1]))
  }

  function DecodedOf(s: State): seq<BucketDecodeSuccess> {
    match s
    case Running(decoded, _, _, _) => decoded
    case Resolved(decoded, _) => decoded
    case Fallback => []
  }

  lemma StepHonest(K: Field<Word>, c: ReconciliationClient, D: seq<Word>, position: Word -> Position, s: State,
      round: Round)
    requires IsWordField(K) && Distinct(D) && K.zero !in D && (s.Running? ==> Ints(s.requests))
    requires AllHonestOrShort(D, position, DecodedOf(s)) && TruthfulRound(K, D, position, s, round)
    ensures AllHonestOrShort(D, position, DecodedOf(Step(c, s, round)))
    ensures !Step(c, s, round).Fallback? ==> !s.Fallback?
    ensures !Step(c, s, round).Fallback? ==>
      (AllHonest(D, position, DecodedOf(Step(c, s, round))) <==>
        AllHonest(D, position, DecodedOf(s)) && FittingRound(D, position, s, round))
  {
    if s.Running? && |round.outcomes| == |s.requests| {
      SuccessesHonest(K, D, position, s.requests, round.outcomes);
      HonestAppend(D, position, s.decoded, Successes(s.requests, round.outcomes));
    }
  }

  lemma {:induction false} RunHonest(K: Field<Word>, c: ReconciliationClient, D: seq<Word>, position: Word -> Position,
      start: State, rounds: seq<Round>)
    requires IsWordField(K) && Distinct(D) && K.zero !in D && Invariant(start) && DecodedOf(start) == []
    requires TruthfulRun(K, c, D, position, start, rounds)
    ensures AllHonestOrShort(D, position, DecodedOf(Run(c, start, rounds)))
    ensures !Run(c, start, rounds).Fallback? ==>
      (AllHonest(D, position, DecodedOf(Run(c, start, rounds))) <==> FittingRun(c, D, position, start, rounds))
    decreases |rounds|
  {
    if rounds != [] {
      var before, last := rounds[..|rounds| - 1], rounds[|rounds| - 1];
      RunHonest(K, c, D, position, start, before);
      StepKeeps(c, Run(c, start, before), last);
      StepHonest(K, c, D, position, Run(c, start, before), last);
    }
  }

  // ---- true sketches as an answer

  /** The bytes of the sketches of the parts, one after the other. */
  ghost function SketchesOf(K: Field<Word>, D: seq<Word>, position: Word -> Position,
      requests: seq<BucketRequest>): seq<bv8>
  {
    if requests == [] then [] else
      var n := |requests| - 1;
      var q := requests[n];
      SketchesOf(K, D, position, requests[..n]) +
      if q.capacity < 0 then [] else BytesOf(OddSums(K, PartOf(D, position, q), q.capacity))
  }

  lemma {:induction false} SketchesLength(K: Field<Word>, D: seq<Word>, position: Word -> Position,
      requests: seq<BucketRequest>)
    requires Sized(requests)
    ensures |SketchesOf(K, D, position, requests)| == 8 * TotalCapacity(requests)
  {
    if requests != [] {
      var n := |requests| - 1;
      assert SizedAt(requests[n]);
      SizedPrefix(requests);
      SketchesLength(K, D, position, requests[..n]);
    }
  }

  lemma SizedPrefix(requests: seq<BucketRequest>)
    requires Sized(requests) && requests != []
    ensures Sized(requests[..|requests| - 1])
  {
    var before := requests[..|requests| - 1];
    forall i | 0 <= i < |before|
      ensures SizedAt(before[i])
    {
      assert SizedAt(requests[i]);
    }
  }

  lemma SectionPrefix(encoded: seq<bv8>, more: seq<bv8>, from: nat, capacity: nat)
    requires from + 8 * capacity <= |encoded|
    ensures Section(encoded + more, from, capacity) == Section(encoded, from, capacity)
  {
    assert (encoded + more)[from..from + 8 * capacity] == encoded[from..from + 8 * capacity];
  }

  lemma SectionSuffix(encoded: seq<bv8>, words: seq<Word>)
    ensures Section(encoded + BytesOf(words), |encoded|, |words|) == words
  {
    var all := encoded + BytesOf(words);
    assert all[|encoded|..|encoded| + 8 * |words|] == BytesOf(words);
    BytesRoundTrip(words);
  }

  lemma {:induction false} AnswerBefore(encoded: seq<bv8>, more: seq<bv8>, requests: seq<BucketRequest>, i: nat)
    requires Sized(requests) && i < |requests| - 1 && |encoded| == 8 * TotalCapacity(requests[..|requests| - 1])
    ensures Answer(encoded + more, requests, i) == Answer(encoded, requests[..|requests| - 1], i)
  {
    var n, next := |requests| - 1, i + 1;
    SizedPrefix(requests);
    assert requests[..n][..i] == requests[..i] && requests[..n][..next] == requests[..next] &&
      requests[..next][..i] == requests[..i];
    TotalMonotone(requests[..n], next);
    TotalMonotone(requests, i);
    assert SizedAt(requests[i]);
    SectionPrefix(encoded, more, 8 * TotalCapacity(requests[..i]), requests[i].capacity);
  }

  lemma {:induction false} AnswerLast(encoded: seq<bv8>, words: seq<Word>, requests: seq<BucketRequest>, n: nat)
    requires n == |requests| - 1 && |encoded| == 8 * TotalCapacity(requests[..n]) && requests[n].capacity == |words|
    ensures Answer(encoded + BytesOf(words), requests, n) == words
  {
    SectionSuffix(encoded, words);
  }

  /** What the i-th request receives is the sketch of its part. */
  lemma {:induction false} SketchAnswer(K: Field<Word>, D: seq<Word>, position: Word -> Position,
      requests: seq<BucketRequest>, i: nat)
    requires Sized(requests) && i < |requests|
    ensures requests[i].capacity >= 0
    ensures Answer(SketchesOf(K, D, position, requests), requests, i)
      == OddSums(K, PartOf(D, position, requests[i]), requests[i].capacity)
    decreases |requests|
  {
    var n := |requests| - 1;
    assert SizedAt(requests[n]) && SizedAt(requests[i]);
    var before := SketchesOf(K, D, position, requests[..n]);
    var words := OddSums(K, PartOf(D, position, requests[n]), requests[n].capacity);
    SizedPrefix(requests);
    SketchesLength(K, D, position, requests[..n]);
    if i < n {
      SketchAnswer(K, D, position, requests[..n], i);
      AnswerBefore(before, BytesOf(words), requests, i);
    } else {
      AnswerLast(before, words, requests, n);
    }
  }

  /** Decoding the sketches of the parts gives truthful outcomes. */
  lemma DecodedIsTruthful(K: Field<Word>, mixed: seq<Word>, D: seq<Word>, position: Word -> Position,
      requests: seq<BucketRequest>, outcomes: seq<Outcome>, left: seq<int>)
    requires IsBinaryField(K) && Sized(requests) && |outcomes| == |requests|
    requires Ledger(K, mixed, SketchesOf(K, D, position, requests), requests, outcomes, left)
    ensures AllTruthful(K, D, position, requests, outcomes)
  {
    forall i: nat | i < |requests|
      ensures Truthful(K, D, position, requests[i], outcomes[i])
    {
      SketchAnswer(K, D, position, requests, i);
      assert Attempted(K, mixed, SketchesOf(K, D, position, requests), requests, outcomes, left, i);
    }
  }

  /** A round whose outcomes are what the decoder makes of the sketches of the parts. */
  ghost predicate DecodedRound(K: Field<Word>, mixed: seq<Word>, D: seq<Word>, position: Word -> Position, s: State,
      round: Round)
    requires IsBinaryField(K)
  {
    s.Running? && |round.outcomes| == |s.requests| ==>
      exists left :: Ledger(K, mixed, SketchesOf(K, D, position, s.requests), s.requests, round.outcomes, left)
  }

  lemma DecodedRoundIsTruthful(K: Field<Word>, mixed: seq<Word>, D: seq<Word>, position: Word -> Position, s: State,
      round: Round)
    requires IsBinaryField(K) && Invariant(s) && DecodedRound(K, mixed, D, position, s, round)
    ensures TruthfulRound(K, D, position, s, round)
  {
    if s.Running? && |round.outcomes| == |s.requests| {
      OrderedIsSized(s.requests);
      var left :| Ledger(K, mixed, SketchesOf(K, D, position, s.requests), s.requests, round.outcomes, left);
      DecodedIsTruthful(K, mixed, D, position, s.requests, round.outcomes, left);
    }
  }

  /** Every round of a run decodes the sketches of the parts. */
  ghost predicate DecodedRun(K: Field<Word>, mixed: seq<Word>, c: ReconciliationClient, D: seq<Word>,
      position: Word -> Position, start: State, rounds: seq<Round>)
    requires IsBinaryField(K) && Invariant(start)
  {
    rounds == [] ||
      (DecodedRun(K, mixed, c, D, position, start, rounds[..|rounds| - 1]) &&
       DecodedRound(K, mixed, D, position, Run(c, start, rounds[..|rounds| - 1]), rounds[|rounds| - 1]))
  }

  lemma {:induction false} DecodedRunIsTruthful(K: Field<Word>, mixed: seq<Word>, c: ReconciliationClient, D: seq<Word>,
      position: Word -> Position, start: State, rounds: seq<Round>)
    requires IsBinaryField(K) && Invariant(start) && DecodedRun(K, mixed, c, D, position, start, rounds)
    ensures TruthfulRun(K, c, D, position, start, rounds)
    decreases |rounds|
  {
    if rounds != [] {
      var before, last := rounds[..|rounds| - 1], rounds[|rounds| - 1];
      DecodedRunIsTruthful(K, mixed, c, D, position, start, before);
      DecodedRoundIsTruthful(K, mixed, D, position, Run(c, start, before), last);
    }
  }

  /** From the first action on: when every round decodes the sketches of the
      parts of a difference and the run resolves, what it returns is the
      difference, each element once, exactly when no bucket was solved while it
      held more than its capacity, and exactly when there are as many roots as
      elements. Otherwise there are fewer. */
  lemma ExchangeReturnsDifference(K: Field<Word>, mixed: seq<Word>, c: ReconciliationClient, D: seq<Word>,
      position: Word -> Position,
      requests: seq<BucketRequest>, depth: nat, capacity: int, rounds: seq<Round>)
    requires IsWordField(K) && Distinct(D) && K.zero !in D
    requires Uniform(requests, depth, capacity) && 4 <= capacity <= MAX_BUCKET_SKETCH_CAPACITY
    requires Invariant(InitialState(requests, 0))
    requires DecodedRun(K, mixed, c, D, position, InitialState(requests, 0), rounds)
    ensures var start := InitialState(requests, 0);
      var s := Run(c, start, rounds);
      s.Resolved? ==>
        && (multiset(s.roots) == multiset(D) <==> FittingRun(c, D, position, start, rounds))
        && (|s.roots| == |D| <==> FittingRun(c, D, position, start, rounds))
        && |s.roots| <= |D|
  {
    var start := InitialState(requests, 0);
    DecodedRunIsTruthful(K, mixed, c, D, position, start, rounds);
    RunHonest(K, c, D, position, start, rounds);
    var s := Run(c, start, rounds);
    if s.Resolved? {
      ResolvedIsDifference(D, position, s);
    }
  }
}
