/** The whole search for a proof. */
module FindProofs {
  import opened Wrappers
  import opened Cuckoo
  import opened Trim
  import opened Peel
  import opened Search
  import opened Prover
  import opened Completeness

  /** Where an edge of a proof is among the remaining survivors. */
  lemma PlaceOf(I: Instance, alive: seq<bool>, n: nat, N: seq<nat>, e: nat) returns (i: nat)
    requires WellFormed(I) && ValidProof(I.c, I.hash, I.seed, N) && e < |N|
    requires Collected(I.survivors, alive, n, EndsOf(I.c, I.hash, I.seed))
    requires N[e] in Remaining(I.survivors, I.removed)
    ensures i < |I.survivors| && !I.removed[i]
    ensures I.survivors[i] == LabeledEdge(N[e], Endpoints(I.c, I.hash, I.seed, N)[2 * e],
      Endpoints(I.c, I.hash, I.seed, N)[2 * e + 1])
  {
    i :| 0 <= i < |I.survivors| && !I.removed[i] && I.survivors[i].nonce == N[e];
    assert CollectedAt(I.survivors[i], alive, n, EndsOf(I.c, I.hash, I.seed));
    EndpointsOf(I.c, I.hash, I.seed, N, e);
  }

  lemma Places(I: Instance, alive: seq<bool>, n: nat, N: seq<nat>) returns (idx: seq<nat>)
    requires WellFormed(I) && ValidProof(I.c, I.hash, I.seed, N)
    requires Collected(I.survivors, alive, n, EndsOf(I.c, I.hash, I.seed))
    requires Members(N) <= Remaining(I.survivors, I.removed)
    ensures Placed(I, N, idx)
  {
    idx := [];
    while |idx| < |N|
      invariant |idx| <= |N|
      invariant forall e: nat :: e < |idx| ==> HeldAt(I, N, idx, e)
    {
      assert N[|idx|] in Members(N);
      var i := PlaceOf(I, alive, n, N, |idx|);
      var before := idx;
      idx := idx + [i];
      forall e: nat | e < |idx|
        ensures HeldAt(I, N, idx, e)
      {
        if e < |before| {
          assert HeldAt(I, N, before, e);
        }
      }
    }
    forall e: nat | e < |N|
      ensures PlacedAt(Trip(I, N, [], idx), e)
    {
      assert HeldAt(I, N, idx, e);
    }
  }

  predicate HeldAt(I: Instance, N: seq<nat>, idx: seq<nat>, e: nat)
    requires |I.removed| == |I.survivors| && e < |idx| && e < |N|
  {
    && idx[e] < |I.survivors| && !I.removed[idx[e]]
    && I.survivors[idx[e]] == LabeledEdge(N[e], Endpoints(I.c, I.hash, I.seed, N)[2 * e],
      Endpoints(I.c, I.hash, I.seed, N)[2 * e + 1])
  }

  predicate BelowAll(nonces: seq<nat>, maxNonce: nat) {
    forall n: nat :: n in nonces ==> n < maxNonce
  }

  /** When the search fails from every remaining edge, there is no proof. */
  lemma NothingLeft(I: Instance, alive: seq<bool>, n: nat, N: seq<nat>)
    requires WellFormed(I) && Reduced(I.survivors, I.removed, alive, n, EndsOf(I.c, I.hash, I.seed))
    requires forall i :: 0 <= i < |I.survivors| && !I.removed[i] ==> FailsFrom(I, i)
    ensures !(ValidProof(I.c, I.hash, I.seed, N) && BelowAll(N, n))
  {
    if ValidProof(I.c, I.hash, I.seed, N) && BelowAll(N, n) {
      CycleIsCore(I.c, I.hash, I.seed, N);
      CoreRemains(I.survivors, I.removed, alive, n, EndsOf(I.c, I.hash, I.seed), Members(N));
      var idx := Places(I, alive, n, N);
      ProofIsFound(I, N, idx);
    }
  }

  /** Trimming, collecting and peeling. */
  method Reduce(c: Config, hash: Hash, seed: Seed, maxNonce: nat, survivorTarget: nat)
      returns (survivors: seq<LabeledEdge>, removed: seq<bool>, incident: map<nat, seq<nat>>, ghost alive: seq<bool>)
    ensures Reduced(survivors, removed, alive, maxNonce, EndsOf(c, hash, seed))
    ensures Incidents(incident, |survivors|, Indexed(survivors))
  {
    var ends := EndsOf(c, hash, seed);
    EndsGraph(c, hash, seed);
    var bits, aliveCount := BulkTrim(maxNonce, 2 * Edges(c), ends, survivorTarget);
    survivors := CollectSurvivors(bits, maxNonce, ends);
    alive := bits.bits;
    forall i | 0 <= i < |survivors|
      ensures survivors[i].u != survivors[i].v
    {
      assert CollectedAt(survivors[i], alive, maxNonce, ends) && GraphAt(ends, 2 * Edges(c), survivors[i].nonce);
    }
    var degrees;
    degrees, incident := BuildTables(survivors);
    removed := PeelLeaves(survivors, degrees, incident);
  }

  /** The loop over the starting edges. */
  method SearchAll(I: Instance, incident: map<nat, seq<nat>>) returns (found: bool, proof: seq<nat>)
    requires WellFormed(I) && Incidents(incident, |I.survivors|, Indexed(I.survivors))
    ensures found ==> ValidProof(I.c, I.hash, I.seed, proof) && FromSurvivors(I.survivors, proof)
    ensures !found ==> forall i :: 0 <= i < |I.survivors| && !I.removed[i] ==> FailsFrom(I, i)
  {
    var search := new Searcher(I, incident);
    ghost var unused := seq(|I.survivors|, k => false);
    for startIdx := 0 to |I.survivors|
      invariant fresh(search) && search.Valid() && search.I == I
      invariant search.usedEdges == unused && search.seenNodes == {}
      invariant forall i :: 0 <= i < startIdx && !I.removed[i] ==> FailsFrom(I, i)
    {
      if I.removed[startIdx] {
        continue;
      }
      var start := I.survivors[startIdx];
      search.usedEdges := search.usedEdges[startIdx := true];
      search.path := [start.nonce];
      assert HasNonce(I.survivors, start.nonce);
      proof, found := search.Dfs(start.u, start.v, 1);
      if found {
        return;
      }
      search.usedEdges := search.usedEdges[startIdx := false];
    }
    return false, [];
  }

  /** Sound and complete: what it returns is a proof, and it reports that there
      is none exactly when no list of indices in the range is one. */
  method FindProof(cfg: Config, hash: Hash, seed: Seed, maxNonce: nat, survivorTarget: nat)
      returns (r: Result<seq<nat>, Error>)
    ensures Normalize(cfg).Err? ==> r == Err(Normalize(cfg).error)
    ensures Normalize(cfg).Ok? && |seed| != SEED_LENGTH ==> r == Err(InvalidSeed)
    ensures r.Ok? ==> ValidProof(Normalize(cfg).value, hash, seed, r.value) && BelowAll(r.value, maxNonce)
    ensures Normalize(cfg).Ok? && |seed| == SEED_LENGTH && r.Err? ==> r.error == NoSolution
    ensures Normalize(cfg).Ok? && |seed| == SEED_LENGTH && r.Err? ==>
      forall N: seq<nat> :: !(ValidProof(Normalize(cfg).value, hash, seed, N) && BelowAll(N, maxNonce))
  {
    var normalized := Normalize(cfg);
    if normalized.Err? {
      return Err(normalized.error);
    }
    NormalizeTwice(cfg);
    var c := normalized.value;
    if |seed| != SEED_LENGTH {
      return Err(InvalidSeed);
    }
    var survivors, removed, incident, alive := Reduce(c, hash, seed, maxNonce, survivorTarget);
    var I := Instance(c, hash, seed, survivors, removed);
    var found, proof := SearchAll(I, incident);
    if found {
      FromBelow(survivors, alive, maxNonce, EndsOf(c, hash, seed), proof);
      return Ok(proof);
    }
    forall N: seq<nat>
      ensures !(ValidProof(c, hash, seed, N) && BelowAll(N, maxNonce))
    {
      NothingLeft(I, alive, maxNonce, N);
    }
    return Err(NoSolution);
  }

  lemma FromBelow(survivors: seq<LabeledEdge>, alive: seq<bool>, n: nat, ends: Ends, proof: seq<nat>)
    requires Collected(survivors, alive, n, ends) && FromSurvivors(survivors, proof)
    ensures BelowAll(proof, n)
  {
    forall p: nat | p in proof
      ensures p < n
    {
      assert HasNonce(survivors, p);
      var i :| 0 <= i < |survivors| && survivors[i].nonce == p;
      assert CollectedAt(survivors[i], alive, n, ends);
    }
  }
}
