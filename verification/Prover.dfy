/** The proof search: bulk trimming, the exact peel, then the depth-first search. */
module Prover {
  import opened Cuckoo
  import opened Cycle
  import opened Bitsets
  import opened Trim
  import opened Peel

  /** The tagged endpoints of every edge index. */
  function EndsOf(c: Config, hash: Hash, seed: Seed): Ends {
    n => if n < 0 then Edge(0, 1) else Tagged(EdgeOf(c, hash, seed, n))
  }

  lemma EndsGraph(c: Config, hash: Hash, seed: Seed)
    ensures Graph(EndsOf(c, hash, seed), 2 * Edges(c))
  {
    forall n: nat
      ensures GraphAt(EndsOf(c, hash, seed), 2 * Edges(c), n)
    {
      var e := EdgeOf(c, hash, seed, n);
      assert e.u < Edges(c) && e.v < Edges(c);
    }
  }

  // ---- cycles are cores

  ghost function Members(nonces: seq<nat>): set<nat> { set n | n in nonces }

  lemma CycleIsCore(c: Config, hash: Hash, seed: Seed, N: seq<nat>)
    requires ValidProof(c, hash, seed, N)
    ensures Core(Members(N), EndsOf(c, hash, seed))
  {
    var ends := EndsOf(c, hash, seed);
    forall n: nat
      ensures CoreAt(Members(N), ends, n)
    {
      if n in N {
        var e :| 0 <= e < |N| && N[e] == n;
        CycleShares(c, hash, seed, N, e, 0);
        CycleShares(c, hash, seed, N, e, 1);
      }
    }
  }

  function EndAt(e: Edge, side: nat): nat { if side == 0 then e.u else e.v }

  lemma TagParity(e: Edge)
    ensures Tagged(e).u % 2 == 0 && Tagged(e).v % 2 == 1
  {
  }

  lemma EndpointAt(c: Config, hash: Hash, seed: Seed, N: seq<nat>, i: nat)
    requires i < 2 * |N|
    ensures Endpoints(c, hash, seed, N)[i] == EndAt(EndsOf(c, hash, seed)(N[i / 2]), i % 2)
    ensures Endpoints(c, hash, seed, N)[i] % 2 == i % 2
  {
    var e := EdgeOf(c, hash, seed, N[i / 2]);
    TagParity(e);
    assert EndsOf(c, hash, seed)(N[i / 2]) == Tagged(e);
  }

  lemma EndpointsOf(c: Config, hash: Hash, seed: Seed, N: seq<nat>, e: nat)
    requires e < |N|
    ensures EndsOf(c, hash, seed)(N[e]) == Edge(Endpoints(c, hash, seed, N)[2 * e],
      Endpoints(c, hash, seed, N)[2 * e + 1])
  {
    assert (2 * e) / 2 == e && (2 * e + 1) / 2 == e;
  }

  lemma CycleShares(c: Config, hash: Hash, seed: Seed, N: seq<nat>, e: nat, side: nat)
    requires ValidProof(c, hash, seed, N) && e < |N| && side < 2
    ensures Shared(Members(N), EndsOf(c, hash, seed), N[e], EndAt(EndsOf(c, hash, seed)(N[e]), side))
  {
    var uvs, i := Endpoints(c, hash, seed, N), 2 * e + side;
    assert HasPartner(uvs, i);
    var j: nat :| IsPartner(uvs, i, j);
    assert Meets(uvs, i, j);
    EndpointAt(c, hash, seed, N, i);
    EndpointAt(c, hash, seed, N, j);
    OtherEdge(EndsOf(c, hash, seed), N, e, j / 2, EndAt(EndsOf(c, hash, seed)(N[e]), side));
  }

  lemma OtherEdge(ends: Ends, N: seq<nat>, e: nat, f: nat, x: nat)
    requires StrictlyAscending(N) && e < |N| && f < |N| && e != f && Touches(ends(N[f]), x)
    ensures Shared(Members(N), ends, N[e], x)
  {
    assert N[f] in Members(N);
    assert N[f] != N[e];
  }

  // ---- bulk trimming

  ghost predicate BulkKeepsAt(alive: seq<bool>, n: nat, ends: Ends, S: set<nat>) {
    Core(S, ends) && (forall e: nat :: e in S ==> e < n) ==> Alive(alive, n, S)
  }

  /** Every core below n is still alive. */
  ghost predicate BulkKeeps(alive: seq<bool>, n: nat, ends: Ends) {
    forall S: set<nat> :: BulkKeepsAt(alive, n, ends, S)
  }

  lemma RoundKeeps(alive: seq<bool>, n: nat, ends: Ends)
    requires n <= |alive| && BulkKeeps(alive, n, ends)
    ensures BulkKeeps(Trimmed(alive, n, ends), n, ends)
  {
    forall S: set<nat>
      ensures BulkKeepsAt(Trimmed(alive, n, ends), n, ends, S)
    {
      assert BulkKeepsAt(alive, n, ends, S);
      if Core(S, ends) && Alive(alive, n, S) {
        TrimKeepsCore(alive, n, ends, S);
      }
    }
  }

  lemma {:induction false} AllLive(alive: seq<bool>, n: nat)
    requires n <= |alive| && forall i :: 0 <= i < n ==> alive[i]
    ensures LiveCount(alive, n) == n
  {
    if n > 0 {
      AllLive(alive, n - 1);
    }
  }

  method BulkTrim(maxNonce: nat, nodes: nat, ends: Ends, survivorTarget: nat) returns (alive: Bitset, aliveCount: nat)
    requires Graph(ends, nodes)
    ensures alive.Valid() && maxNonce <= |alive.bits| && BulkKeeps(alive.bits, maxNonce, ends)
    ensures aliveCount == LiveCount(alive.bits, maxNonce)
  {
    alive := new Bitset(maxNonce);
    alive.Fill(true);
    var lo := new Bitset(nodes);
    var hi := new Bitset(nodes);
    aliveCount := maxNonce;
    AllLive(alive.bits, maxNonce);
    assert forall S: set<nat> :: BulkKeepsAt(alive.bits, maxNonce, ends, S);
    var round := 0;
    while round < 64 && aliveCount > survivorTarget
      invariant Three(alive, lo, hi) && fresh(alive) && fresh(alive.words) && fresh(lo) && fresh(lo.words) &&
        fresh(hi) && fresh(hi.words)
      invariant maxNonce <= |alive.bits| && nodes <= |lo.bits| && BulkKeeps(alive.bits, maxNonce, ends)
      invariant aliveCount == LiveCount(alive.bits, maxNonce)
    {
      RoundKeeps(alive.bits, maxNonce, ends);
      var removedThisRound := TrimAliveEdges(alive, lo, hi, maxNonce, ends, nodes);
      aliveCount := aliveCount - removedThisRound;
      if removedThisRound == 0 || removedThisRound * 1000 < aliveCount {
        break;
      }
      round := round + 1;
    }
  }

  // ---- what is left after the peel

  /** The edges that are left, by index. */
  ghost function Remaining(survivors: seq<LabeledEdge>, removed: seq<bool>): set<nat>
    requires |removed| == |survivors|
  {
    set i | 0 <= i < |survivors| && !removed[i] :: survivors[i].nonce
  }

  ghost function IndicesOf(survivors: seq<LabeledEdge>, S: set<nat>): set<nat> {
    set i | 0 <= i < |survivors| && survivors[i].nonce in S
  }

  ghost predicate Reduced(survivors: seq<LabeledEdge>, removed: seq<bool>, alive: seq<bool>, n: nat, ends: Ends) {
    && Collected(survivors, alive, n, ends) && BulkKeeps(alive, n, ends)
    && |removed| == |survivors| && GreatestCore(removed, Indexed(survivors))
  }

  lemma SharedIndices(survivors: seq<LabeledEdge>, alive: seq<bool>, n: nat, ends: Ends, S: set<nat>, i: nat, x: nat)
    requires Collected(survivors, alive, n, ends) && Alive(alive, n, S) && i < |survivors|
    requires Shared(S, ends, survivors[i].nonce, x)
    ensures Shared(IndicesOf(survivors, S), Indexed(survivors), i, x)
  {
    var f: nat :| f in S && f != survivors[i].nonce && Touches(ends(f), x);
    assert HasNonce(survivors, f);
    var j :| 0 <= j < |survivors| && survivors[j].nonce == f;
    assert CollectedAt(survivors[j], alive, n, ends);
    assert j in IndicesOf(survivors, S);
  }

  lemma CoreOfIndices(survivors: seq<LabeledEdge>, alive: seq<bool>, n: nat, ends: Ends, S: set<nat>)
    requires Collected(survivors, alive, n, ends) && Alive(alive, n, S) && Core(S, ends)
    ensures Core(IndicesOf(survivors, S), Indexed(survivors))
  {
    forall i: nat
      ensures CoreAt(IndicesOf(survivors, S), Indexed(survivors), i)
    {
      if i in IndicesOf(survivors, S) {
        assert CoreAt(S, ends, survivors[i].nonce) && CollectedAt(survivors[i], alive, n, ends);
        SharedIndices(survivors, alive, n, ends, S, i, survivors[i].u);
        SharedIndices(survivors, alive, n, ends, S, i, survivors[i].v);
      }
    }
  }

  /** Every core below n is among the remaining edges. */
  lemma CoreRemains(survivors: seq<LabeledEdge>, removed: seq<bool>, alive: seq<bool>, n: nat, ends: Ends, S: set<nat>)
    requires Reduced(survivors, removed, alive, n, ends) && Core(S, ends) && forall e: nat :: e in S ==> e < n
    ensures S <= Remaining(survivors, removed)
  {
    assert BulkKeepsAt(alive, n, ends, S);
    CoreOfIndices(survivors, alive, n, ends, S);
    var T := IndicesOf(survivors, S);
    assert KeepsCore(Live(removed), Indexed(survivors), T);
    forall e: nat | e in S
      ensures e in Remaining(survivors, removed)
    {
      assert HasNonce(survivors, e);
      var i :| 0 <= i < |survivors| && survivors[i].nonce == e;
      assert i in T;
    }
  }

  lemma SharedNonces(survivors: seq<LabeledEdge>, removed: seq<bool>, alive: seq<bool>, n: nat, ends: Ends, i: nat,
      x: nat)
    requires Collected(survivors, alive, n, ends) && |removed| == |survivors| && i < |survivors|
    requires Shared(LiveSet(Live(removed)), Indexed(survivors), i, x)
    ensures Shared(Remaining(survivors, removed), ends, survivors[i].nonce, x)
  {
    var j: nat :| j in LiveSet(Live(removed)) && j != i && Touches(Indexed(survivors)(j), x);
    assert CollectedAt(survivors[j], alive, n, ends);
    assert survivors[j].nonce in Remaining(survivors, removed);
  }

  /** After trimming and the peel, in whatever order, exactly the greatest core
      of the whole graph is left: the remaining edges are a core, and every core
      is among them. */
  lemma RemainingIsGreatestCore(survivors: seq<LabeledEdge>, removed: seq<bool>, alive: seq<bool>, n: nat, ends: Ends)
    requires Reduced(survivors, removed, alive, n, ends)
    ensures Core(Remaining(survivors, removed), ends)
    ensures forall S: set<nat> :: Core(S, ends) && (forall e: nat :: e in S ==> e < n) ==>
      S <= Remaining(survivors, removed)
  {
    var R := Remaining(survivors, removed);
    forall m: nat
      ensures CoreAt(R, ends, m)
    {
      if m in R {
        var i :| 0 <= i < |survivors| && !removed[i] && survivors[i].nonce == m;
        assert CoreAt(LiveSet(Live(removed)), Indexed(survivors), i) && CollectedAt(survivors[i], alive, n, ends);
        SharedNonces(survivors, removed, alive, n, ends, i, survivors[i].u);
        SharedNonces(survivors, removed, alive, n, ends, i, survivors[i].v);
      }
    }
    forall S: set<nat> | Core(S, ends) && (forall e: nat :: e in S ==> e < n)
      ensures S <= R
    {
      CoreRemains(survivors, removed, alive, n, ends, S);
    }
  }
}
