/** Which graphs the hash can make, and for which sizes a proof exists. */
module EdgeGraphs {
  import opened Wrappers
  import opened FieldTheory
  import opened Cycle
  import opened Cuckoo

  // ---- the hash and the graph

  /** The hash with given ends of edges. */
  function HashOf(u: nat -> nat, v: nat -> nat): Hash {
    (s, m) => if m % 2 == 0 then u(m / 2) else v(m / 2)
  }

  /** Any two functions are the ends of the edges of some hash, under every seed. */
  lemma AnyGraph(c: Config, u: nat -> nat, v: nat -> nat, seed: Seed, nonce: nat)
    ensures HashesTo(HashOf(u, v), seed, u, v)
    ensures EdgeOf(c, HashOf(u, v), seed, nonce) == Edge(u(nonce) % Exp2(c.edgeBits), v(nonce) % Exp2(c.edgeBits))
  {
    EdgeHasEnds(c, HashOf(u, v), seed, u, v, nonce);
  }

  /** A message decides one end of one edge: a hash that differs at the second
      message of an edge only gives the same first ends, and the same second
      ends to the other edges; and the other way round. */
  lemma OneMessageOneEnd(c: Config, hash: Hash, other: Hash, seed: Seed, n: nat, second: bool, nonce: nat)
    requires forall m: nat :: m != 2 * n + (if second then 1 else 0) ==> hash(seed, m) == other(seed, m)
    ensures nonce != n || second ==> EdgeOf(c, hash, seed, nonce).u == EdgeOf(c, other, seed, nonce).u
    ensures nonce != n || !second ==> EdgeOf(c, hash, seed, nonce).v == EdgeOf(c, other, seed, nonce).v
  {
    var m := 2 * n + if second then 1 else 0;
    if nonce != n || second {
      assert 2 * nonce != m;
    }
    if nonce != n || !second {
      assert 2 * nonce + 1 != m;
    }
  }

  // ---- rings

  /** The ends of the n-th edge of a ring of the given size. */
  function RingU(n: nat): nat { n / 2 }

  function RingV(size: nat, n: nat): nat { if n + 1 == size then 0 else (n + 1) / 2 }

  /** The first edges of the graph form a ring. */
  ghost predicate IsRing(c: Config, hash: Hash, seed: Seed, size: nat) {
    forall n: nat :: n < size ==> RingAt(c, hash, seed, size, n)
  }

  ghost predicate RingAt(c: Config, hash: Hash, seed: Seed, size: nat, n: nat) {
    EdgeOf(c, hash, seed, n) == Edge(RingU(n), RingV(size, n))
  }

  /** The first edges, in order. */
  function Upto(size: nat): (r: seq<nat>)
    ensures |r| == size && forall i :: 0 <= i < size ==> r[i] == i
  {
    seq(size, i => i)
  }

  /** The endpoints of a ring. */
  ghost predicate RingEnds(uvs: seq<nat>, size: nat) {
    |uvs| == 2 * size && forall n: nat :: n < size ==> EndsAt(uvs, size, n)
  }

  ghost predicate EndsAt(uvs: seq<nat>, size: nat, n: nat)
    requires |uvs| == 2 * size && n < size
  {
    uvs[2 * n] == 2 * RingU(n) && uvs[2 * n + 1] == 2 * RingV(size, n) + 1
  }

  lemma RingEndpoints(c: Config, hash: Hash, seed: Seed, size: nat)
    requires IsRing(c, hash, seed, size)
    ensures RingEnds(Endpoints(c, hash, seed, Upto(size)), size)
  {
    forall n: nat | n < size
      ensures EndsAt(Endpoints(c, hash, seed, Upto(size)), size, n)
    {
      assert RingAt(c, hash, seed, size, n);
      EndpointsHold(c, hash, seed, n, Upto(size), n);
    }
  }

  /** The a-th position of the walk around a ring: the first end of the even
      edges, the second end of the odd ones. */
  function RingStop(a: nat): nat { 2 * a + a % 2 }

  function RingNext(size: nat, a: nat): nat { if a + 1 == size then 0 else a + 1 }

  function RingWalk(size: nat): (r: seq<nat>)
    ensures |r| == size
  {
    seq(size, a requires 0 <= a < size => RingStop(a))
  }

  lemma RingPairs(size: nat, a: nat, f: nat)
    requires size % 2 == 0 && a < size && f < size
    ensures a % 2 == 0 ==> (RingU(f) == RingU(a) && f != a <==> f == RingNext(size, a))
    ensures a % 2 == 1 ==> (RingV(size, f) == RingV(size, a) && f != a <==> f == RingNext(size, a))
  {
  }

  /** Positions of a ring on the same side meet when their edges have the same end there. */
  lemma RingMeets(uvs: seq<nat>, size: nat, a: nat, side: nat, f: nat)
    requires RingEnds(uvs, size) && a < size && f < size && side < 2
    ensures Meets(uvs, 2 * a + side, 2 * f + side) <==>
      f != a && if side == 0 then RingU(f) == RingU(a) else RingV(size, f) == RingV(size, a)
  {
    assert EndsAt(uvs, size, a) && EndsAt(uvs, size, f);
    assert (2 * a + side) % 2 == (2 * f + side) % 2;
  }

  lemma OnSide(k: nat, x: nat, size: nat)
    requires k < 2 * size && k % 2 == x % 2
    ensures k == 2 * (k / 2) + x % 2 && k / 2 < size
  {
  }

  lemma RingPartner(uvs: seq<nat>, size: nat, a: nat, side: nat, b: nat)
    requires RingEnds(uvs, size) && size % 2 == 0 && a < size && side == a % 2 && b == RingNext(size, a)
    ensures IsPartner(uvs, 2 * a + side, 2 * b + side)
  {
    var x := 2 * a + side;
    RingMeets(uvs, size, a, side, b);
    RingPairs(size, a, b);
    forall k: nat | Meets(uvs, x, k)
      ensures k == 2 * b + side
    {
      OnSide(k, x, size);
      RingMeets(uvs, size, a, side, k / 2);
      RingPairs(size, a, k / 2);
    }
  }

  lemma RingFollows(uvs: seq<nat>, size: nat, a: nat)
    requires RingEnds(uvs, size) && size % 2 == 0 && a < size
    ensures Follows(uvs, RingStop(a), RingStop(RingNext(size, a)))
  {
    var b := RingNext(size, a);
    assert Flip(RingStop(b)) == 2 * b + a % 2;
    RingPartner(uvs, size, a, a % 2, b);
  }

  /** The walk around a ring is a tour of all its edges. */
  lemma RingIsCycle(uvs: seq<nat>, size: nat)
    requires RingEnds(uvs, size) && size % 2 == 0 && size > 0
    ensures SingleCycle(uvs)
  {
    var xs := RingWalk(size);
    forall a | 0 <= a < size - 1
      ensures Follows(uvs, xs[a], xs[a + 1])
    {
      RingFollows(uvs, size, a);
    }
    RingFollows(uvs, size, size - 1);
    FullTour(uvs, xs);
  }

  /** The first edges of a ring are a proof. */
  lemma RingIsProof(c: Config, hash: Hash, seed: Seed)
    requires c.proofSize >= 2 && c.proofSize % 2 == 0 && c.proofSize <= Exp2(c.edgeBits)
    requires IsRing(c, hash, seed, c.proofSize)
    ensures ValidProof(c, hash, seed, Upto(c.proofSize))
  {
    RingEndpoints(c, hash, seed, c.proofSize);
    RingIsCycle(Endpoints(c, hash, seed, Upto(c.proofSize)), c.proofSize);
  }

  /** The smallest ring in full: eight hash values that make a proof of four edges. */
  lemma FourCycle(hash: Hash, seed: Seed)
    requires hash(seed, 0) == 0 && hash(seed, 1) == 0 && hash(seed, 2) == 0 && hash(seed, 3) == 1
    requires hash(seed, 4) == 1 && hash(seed, 5) == 1 && hash(seed, 6) == 1 && hash(seed, 7) == 0
    ensures ValidProof(Config(4, 4), hash, seed, [0, 1, 2, 3])
  {
    var c := Config(4, 4);
    assert Exp2(4) == 16;
    forall n: nat | n < 4
      ensures RingAt(c, hash, seed, 4, n)
    {
    }
    RingIsProof(c, hash, seed);
    assert Upto(4) == [0, 1, 2, 3];
  }

  // ---- the sizes of proofs

  /** A walk changes sides at every step. */
  lemma {:induction false} WalkAlternates(uvs: seq<nat>, xs: seq<nat>, a: nat)
    requires Walk(uvs, xs) && a < |xs|
    ensures xs[a] % 2 == (xs[0] + a) % 2
  {
    if a > 0 {
      WalkAlternates(uvs, xs, a - 1);
      FollowsFlips(uvs, xs[a - 1], xs[a]);
    }
  }

  lemma FollowsFlips(uvs: seq<nat>, x: nat, y: nat)
    requires Follows(uvs, x, y)
    ensures x % 2 != y % 2
  {
  }

  lemma TourIsEven(uvs: seq<nat>, xs: seq<nat>)
    requires Tour(uvs, xs)
    ensures |xs| % 2 == 0
  {
    var n: nat := |xs| - 1;
    WalkAlternates(uvs, xs, n);
    FollowsFlips(uvs, xs[n], xs[0]);
  }

  /** A single cycle has an even number of edges. */
  lemma CycleIsEven(uvs: seq<nat>)
    requires SingleCycle(uvs)
    ensures (|uvs| / 2) % 2 == 0
  {
    var xs := TourFrom(uvs, 0);
    TourIsEven(uvs, xs);
  }

  lemma {:induction false} AscendingReaches(s: seq<nat>, i: nat)
    requires StrictlyAscending(s) && i < |s|
    ensures s[i] >= i
  {
    if i > 0 {
      AscendingReaches(s, i - 1);
    }
  }

  /** Exactly the even sizes up to the number of edges have proofs: no graph has
      a proof of another size, although odd and larger sizes are accepted in a
      configuration. */
  lemma ProofSizes(c: Config, seed: Seed)
    requires Normalize(c) == Ok(c)
    ensures (exists hash, nonces :: ValidProof(c, hash, seed, nonces)) <==>
      c.proofSize % 2 == 0 && c.proofSize <= Exp2(c.edgeBits)
  {
    if exists hash, nonces :: ValidProof(c, hash, seed, nonces) {
      var hash, nonces :| ValidProof(c, hash, seed, nonces);
      CycleIsEven(Endpoints(c, hash, seed, nonces));
      AscendingReaches(nonces, |nonces| - 1);
    }
    if c.proofSize % 2 == 0 && c.proofSize <= Exp2(c.edgeBits) {
      var size: nat := c.proofSize;
      var hash := HashOf(n => RingU(n), n => RingV(size, n));
      forall n: nat | n < size
        ensures RingAt(c, hash, seed, size, n)
      {
        AnyGraph(c, n => RingU(n), n => RingV(size, n), seed, n);
        Small(RingU(n), Exp2(c.edgeBits));
        Small(RingV(size, n), Exp2(c.edgeBits));
      }
      RingIsProof(c, hash, seed);
    }
  }

  lemma Small(x: nat, n: nat)
    requires x < n
    ensures x % n == x
  {
  }
}
