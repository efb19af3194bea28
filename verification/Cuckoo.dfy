/** Proofs of work: lists of edge indices whose edges form one cycle in the
    graph of a seed. The keyed hash is an arbitrary function. */
module Cuckoo {
  import opened Wrappers
  import opened FieldTheory
  import opened Cycle

  const PROOF_SIZE := 42
  const SEED_LENGTH := 32

  datatype Error = InvalidEdgeBits | InvalidSeed | InvalidProof | NoSolution

  datatype Config = Config(edgeBits: nat, proofSize: int)

  type Seed = seq<bv8>

  /** The hash of a message under a seed. */
  type Hash = (Seed, nat) -> nat

  datatype Edge = Edge(u: nat, v: nat)

  /** The configurations that are in range; zero stands for the default size. */
  predicate Configurable(cfg: Config) {
    2 <= cfg.edgeBits <= 31 && (cfg.proofSize == 0 || 2 <= cfg.proofSize <= 255)
  }

  /** Fills in the default size, changes nothing else, and says what is out of range. */
  function Normalize(c: Config): (r: Result<Config, Error>)
    ensures r.Ok? <==> Configurable(c)
    ensures r.Ok? ==> r.value.edgeBits == c.edgeBits && 2 <= r.value.proofSize <= 255
    ensures r.Ok? ==> r.value.proofSize == if c.proofSize == 0 then 42 else c.proofSize
    ensures r == Err(InvalidEdgeBits) <==> !(2 <= c.edgeBits <= 31)
    ensures r.Err? ==> r.error in {InvalidEdgeBits, InvalidProof}
  {
    if c.edgeBits < 2 || c.edgeBits > 31 then Err(InvalidEdgeBits) else
      var size := if c.proofSize == 0 then PROOF_SIZE else c.proofSize;
      if size < 2 || size > 255 then Err(InvalidProof) else Ok(Config(c.edgeBits, size))
  }

  lemma NormalizeTwice(c: Config)
    ensures Normalize(c).Ok? ==> Normalize(Normalize(c).value) == Normalize(c)
  {
  }

  /** The number of edges, and of nodes on each side. */
  function Edges(c: Config): (n: nat)
    ensures n > 0
  {
    Exp2(c.edgeBits)
  }

  /** The endpoints of an edge: the low bits of the hashes of two messages. */
  function EdgeOf(c: Config, hash: Hash, seed: Seed, nonce: nat): Edge {
    Edge(hash(seed, 2 * nonce) % Edges(c), hash(seed, 2 * nonce + 1) % Edges(c))
  }

  /** The endpoints with the side in the lowest bit. */
  function Tagged(e: Edge): Edge { Edge(2 * e.u, 2 * e.v + 1) }

  /** The endpoints of all the edges of a list, side by side. */
  function Endpoints(c: Config, hash: Hash, seed: Seed, nonces: seq<nat>): (uvs: seq<nat>)
    ensures |uvs| == 2 * |nonces|
  {
    seq(2 * |nonces|, i requires 0 <= i < 2 * |nonces| =>
      var e := Tagged(EdgeOf(c, hash, seed, nonces[i / 2]));
      if i % 2 == 0 then e.u else e.v)
  }

  lemma EndpointsNext(c: Config, hash: Hash, seed: Seed, nonces: seq<nat>, i: nat)
    requires i < |nonces|
    ensures var e := Tagged(EdgeOf(c, hash, seed, nonces[i]));
      Endpoints(c, hash, seed, nonces[..i + 1]) == Endpoints(c, hash, seed, nonces[..i]) + [e.u, e.v]
  {
  }

  /** The hash gives the n-th edge of a seed the ends u(n) and v(n): the even
      messages are for one end, the odd ones for the other. */
  ghost predicate HashesTo(hash: Hash, seed: Seed, u: nat -> nat, v: nat -> nat) {
    forall m: nat :: hash(seed, m) == if m % 2 == 0 then u(m / 2) else v(m / 2)
  }

  /** An edge has the low bits of its two ends, whatever the ends are. */
  lemma EdgeHasEnds(c: Config, hash: Hash, seed: Seed, u: nat -> nat, v: nat -> nat, nonce: nat)
    requires HashesTo(hash, seed, u, v)
    ensures EdgeOf(c, hash, seed, nonce) == Edge(u(nonce) % Exp2(c.edgeBits), v(nonce) % Exp2(c.edgeBits))
  {
    assert (2 * nonce) / 2 == nonce && (2 * nonce + 1) / 2 == nonce;
  }

  /** A list that contains the edge has its two endpoints at its position, each
      with its side. */
  ghost predicate EndpointsAt(cfg: Config, hash: Hash, seed: Seed, nonce: nat, e: Edge, nonces: seq<nat>, i: nat) {
    i < |nonces| && nonces[i] == nonce ==>
      Endpoints(cfg, hash, seed, nonces)[2 * i] == 2 * e.u &&
        Endpoints(cfg, hash, seed, nonces)[2 * i + 1] == 2 * e.v + 1
  }

  lemma EndpointsHold(cfg: Config, hash: Hash, seed: Seed, nonce: nat, nonces: seq<nat>, i: nat)
    ensures EndpointsAt(cfg, hash, seed, nonce, EdgeOf(cfg, hash, seed, nonce), nonces, i)
  {
    assert (2 * i) / 2 == i && (2 * i + 1) / 2 == i;
  }

  /** The edge of an index: its two ends, cut to the node range, at which every
      list that contains the index has its endpoints. Which input is refused, and how. */
  method EdgeForNonce(cfg: Config, hash: Hash, seed: Seed, nonce: nat) returns (r: Result<Edge, Error>)
    ensures r.Ok? <==> Configurable(cfg) && nonce < Exp2(cfg.edgeBits) && |seed| == 32
    ensures r == Err(InvalidEdgeBits) <==> !(2 <= cfg.edgeBits <= 31)
    ensures r == Err(InvalidSeed) <==> Configurable(cfg) && nonce < Exp2(cfg.edgeBits) && |seed| != 32
    ensures r.Err? ==> r.error in {InvalidEdgeBits, InvalidSeed, InvalidProof}
    ensures r.Ok? ==> r.value.u < Exp2(cfg.edgeBits) && r.value.v < Exp2(cfg.edgeBits)
    ensures r.Ok? ==> r.value == EdgeOf(cfg, hash, seed, nonce)
    ensures r.Ok? ==> forall u: nat -> nat, v: nat -> nat :: HashesTo(hash, seed, u, v) ==>
      r.value == Edge(u(nonce) % Exp2(cfg.edgeBits), v(nonce) % Exp2(cfg.edgeBits))
    ensures r.Ok? ==> forall nonces, i :: EndpointsAt(cfg, hash, seed, nonce, r.value, nonces, i)
  {
    var normalized := Normalize(cfg);
    if normalized.Err? {
      return Err(normalized.error);
    }
    var c := normalized.value;
    if nonce >= Edges(c) {
      return Err(InvalidProof);
    }
    if |seed| != SEED_LENGTH {
      return Err(InvalidSeed);
    }
    var mask := Edges(c);
    var u := hash(seed, 2 * nonce) % mask;
    var v := hash(seed, 2 * nonce + 1) % mask;
    forall us: nat -> nat, vs: nat -> nat | HashesTo(hash, seed, us, vs)
      ensures Edge(u, v) == Edge(us(nonce) % Exp2(cfg.edgeBits), vs(nonce) % Exp2(cfg.edgeBits))
    {
      EdgeHasEnds(cfg, hash, seed, us, vs, nonce);
    }
    forall nonces, i {
      EndpointsHold(cfg, hash, seed, nonce, nonces, i);
    }
    return Ok(Edge(u, v));
  }

  predicate StrictlyAscending(nonces: seq<nat>) {
    forall i, j :: 0 <= i < j < |nonces| ==> nonces[i] < nonces[j]
  }

  /** A proof: the right number of edges, listed in order without repetition,
      that form one single cycle. */
  ghost predicate ValidProof(c: Config, hash: Hash, seed: Seed, nonces: seq<nat>) {
    && |nonces| == c.proofSize
    && StrictlyAscending(nonces)
    && (forall i :: 0 <= i < |nonces| ==> nonces[i] < Edges(c))
    && SingleCycle(Endpoints(c, hash, seed, nonces))
  }

  ghost predicate NeverFalls(s: seq<nat>) {
    forall i, j :: 0 <= i < j < |s| ==> s[i] <= s[j]
  }

  method IsSorted(s: seq<nat>) returns (r: bool)
    ensures r <==> NeverFalls(s)
  {
    for k := 0 to |s|
      invariant forall i, j :: 0 <= i < j < k ==> s[i] <= s[j]
    {
      if k > 0 && s[k] < s[k - 1] {
        return false;
      }
    }
    return true;
  }

  /** Whether an index may follow the one before it. */
  predicate Acceptable(c: Config, nonces: seq<nat>, k: nat)
    requires k < |nonces|
  {
    nonces[k] < Edges(c) && (k > 0 ==> nonces[k - 1] != nonces[k])
  }

  /** The loop that checks the indices and collects their endpoints. */
  method Gather(c: Config, hash: Hash, seed: Seed, nonces: seq<nat>) returns (r: Result<seq<nat>, Error>)
    requires Normalize(c) == Ok(c) && nonces != []
    ensures r.Ok? <==> |seed| == SEED_LENGTH && forall k :: 0 <= k < |nonces| ==> Acceptable(c, nonces, k)
    ensures r.Ok? ==> r.value == Endpoints(c, hash, seed, nonces)
    ensures r.Err? ==> r.error == if |seed| != SEED_LENGTH && nonces[0] < Edges(c) then InvalidSeed else InvalidProof
  {
    var uvs := [];
    for i := 0 to |nonces|
      invariant |seed| == SEED_LENGTH || i == 0
      invariant forall k :: 0 <= k < i ==> Acceptable(c, nonces, k)
      invariant uvs == Endpoints(c, hash, seed, nonces[..i])
    {
      if i > 0 && nonces[i] == nonces[i - 1] {
        assert !Acceptable(c, nonces, i);
        return Err(InvalidProof);
      }
      if nonces[i] >= Edges(c) {
        assert !Acceptable(c, nonces, i);
        return Err(InvalidProof);
      }
      var edge := EdgeForNonce(c, hash, seed, nonces[i]);
      if edge.Err? {
        return Err(edge.error);
      }
      uvs := uvs + [2 * edge.value.u, 2 * edge.value.v + 1];
      EndpointsNext(c, hash, seed, nonces, i);
    }
    assert nonces[..|nonces|] == nonces;
    return Ok(uvs);
  }

  /** Accepts exactly the proofs; the other outcomes say what was wrong. */
  method Verify(cfg: Config, hash: Hash, seed: Seed, nonces: seq<nat>) returns (r: Result<(), Error>)
    ensures Normalize(cfg).Err? ==> r == Err(Normalize(cfg).error)
    ensures Normalize(cfg).Ok? && |seed| == SEED_LENGTH ==>
      r == if ValidProof(Normalize(cfg).value, hash, seed, nonces) then Ok(()) else Err(InvalidProof)
    ensures Normalize(cfg).Ok? && |seed| != SEED_LENGTH ==>
      var c := Normalize(cfg).value;
      r == Err(if |nonces| == c.proofSize && NeverFalls(nonces) && nonces[0] < Edges(c) then InvalidSeed
        else InvalidProof)
  {
    var normalized := Normalize(cfg);
    if normalized.Err? {
      return Err(normalized.error);
    }
    NormalizeTwice(cfg);
    var c := normalized.value;
    if |nonces| != c.proofSize {
      return Err(InvalidProof);
    }
    var sorted := IsSorted(nonces);
    if !sorted {
      return Err(InvalidProof);
    }
    SortedDistinct(c, nonces);
    var uvs := Gather(c, hash, seed, nonces);
    if uvs.Err? {
      return Err(uvs.error);
    }
    var ok := VerifyCycle(uvs.value);
    return if ok then Ok(()) else Err(InvalidProof);
  }

  lemma SortedDistinct(c: Config, s: seq<nat>)
    requires NeverFalls(s)
    ensures (forall k :: 0 <= k < |s| ==> Acceptable(c, s, k)) <==>
      StrictlyAscending(s) && forall k :: 0 <= k < |s| ==> s[k] < Edges(c)
  {
    if forall k :: 0 <= k < |s| ==> Acceptable(c, s, k) {
      forall i, j | 0 <= i < j < |s|
        ensures s[i] < s[j]
      {
        assert Acceptable(c, s, j) && s[j - 1] <= s[j];
        assert i < j - 1 ==> s[i] <= s[j - 1];
      }
      forall k | 0 <= k < |s|
        ensures s[k] < Edges(c)
      {
        assert Acceptable(c, s, k);
      }
    }
  }
}
