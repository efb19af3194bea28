/** The search finds any cycle: walking around a cycle from one of its edges is
    a path that the pruning rules never cut. */
module Completeness {
  import opened Cuckoo
  import opened Cycle
  import opened Lists
  import opened Trim
  import opened Peel
  import opened Search
  import opened Prover

  /** A proof N, a tour of its edges from the second end of the first edge, and
      where its edges are among the survivors. */
  datatype Trip = Trip(I: Instance, N: seq<nat>, xs: seq<nat>, idx: seq<nat>)

  function Uvs(T: Trip): seq<nat> { Endpoints(T.I.c, T.I.hash, T.I.seed, T.N) }

  predicate PlacedAt(T: Trip, e: nat)
    requires e < |T.N| == |T.idx| && |T.I.removed| == |T.I.survivors|
  {
    && T.idx[e] < |T.I.survivors| && !T.I.removed[T.idx[e]]
    && T.I.survivors[T.idx[e]] == LabeledEdge(T.N[e], Uvs(T)[2 * e], Uvs(T)[2 * e + 1])
  }

  ghost predicate Ready(T: Trip) {
    && WellFormed(T.I) && ValidProof(T.I.c, T.I.hash, T.I.seed, T.N)
    && Tour(Uvs(T), T.xs) && T.xs[0] == 1 && |T.xs| == |T.N| == |T.idx|
    && EdgesOf(T.xs) == Below(|T.N|)
    && forall e: nat :: e < |T.N| ==> PlacedAt(T, e)
  }

  /** The edge reached after a steps, and the node reached with it. */
  function EdgeAt(T: Trip, a: nat): nat
    requires a < |T.xs|
  {
    T.xs[a] / 2
  }

  ghost function NodeAt(T: Trip, a: nat): nat
    requires Ready(T) && a < |T.xs|
  {
    Uvs(T)[T.xs[a]]
  }

  ghost function IndexAt(T: Trip, a: nat): (i: nat)
    requires Ready(T) && a < |T.xs|
    ensures i < |T.I.survivors|
  {
    assert PlacedAt(T, EdgeAt(T, a));
    T.idx[EdgeAt(T, a)]
  }

  ghost function NonceAt(T: Trip, a: nat): nat
    requires Ready(T) && a < |T.xs|
  {
    T.N[EdgeAt(T, a)]
  }

  ghost function Visited(T: Trip): (r: seq<nat>)
    requires Ready(T)
    ensures |r| == |T.xs|
  {
    seq(|T.xs|, b requires 0 <= b < |T.xs| => NonceAt(T, b))
  }

  ghost function PathTo(T: Trip, a: nat): (r: seq<nat>)
    requires Ready(T) && a < |T.xs|
    ensures |r| == a + 1
  {
    Visited(T)[..a + 1]
  }

  ghost function UsedTo(T: Trip, a: nat): (r: seq<bool>)
    requires Ready(T) && a < |T.xs|
    ensures |r| == |T.I.survivors|
  {
    if a == 0 then seq(|T.I.survivors|, i => false)[IndexAt(T, 0) := true] else UsedTo(T, a - 1)[IndexAt(T, a) := true]
  }

  ghost function SeenTo(T: Trip, a: nat): set<nat>
    requires Ready(T) && a < |T.xs|
  {
    if a == 0 then {} else SeenTo(T, a - 1) + {NodeAt(T, a)}
  }

  ghost function Rest(T: Trip, a: nat): seq<nat>
    requires Ready(T) && a < |T.xs|
    decreases |T.xs| - a
  {
    if a == |T.xs| - 1 then [] else [IndexAt(T, a + 1)] + Rest(T, a + 1)
  }

  // ---- no pruning rule applies

  lemma IndexInjective(T: Trip, a: nat, b: nat)
    requires Ready(T) && a < b < |T.xs|
    ensures IndexAt(T, a) != IndexAt(T, b)
  {
    assert EdgeAt(T, a) != EdgeAt(T, b);
    assert PlacedAt(T, EdgeAt(T, a)) && PlacedAt(T, EdgeAt(T, b));
    assert T.N[EdgeAt(T, a)] != T.N[EdgeAt(T, b)];
  }

  lemma {:induction false} NotUsed(T: Trip, a: nat, b: nat)
    requires Ready(T) && a < b < |T.xs|
    ensures !UsedTo(T, a)[IndexAt(T, b)]
  {
    IndexInjective(T, a, b);
    if a > 0 {
      NotUsed(T, a - 1, b);
    }
  }

  /** A position that holds the endpoint reached after b steps is that of the next edge. */
  lemma Meeting(T: Trip, b: nat, i: nat)
    requires Ready(T) && b + 1 < |T.xs| && i < |Uvs(T)| && Uvs(T)[i] == NodeAt(T, b) && i != T.xs[b]
    ensures i == Flip(T.xs[b + 1])
  {
    EndpointAt(T.I.c, T.I.hash, T.I.seed, T.N, i);
    EndpointAt(T.I.c, T.I.hash, T.I.seed, T.N, T.xs[b]);
    assert Follows(Uvs(T), T.xs[b], T.xs[b + 1]);
    assert Meets(Uvs(T), T.xs[b], i);
  }

  lemma NodesDistinct(T: Trip, b: nat, c: nat)
    requires Ready(T) && b < c < |T.xs|
    ensures NodeAt(T, b) != NodeAt(T, c)
  {
    if NodeAt(T, b) == NodeAt(T, c) {
      assert T.xs[b] / 2 != T.xs[c] / 2;
      Meeting(T, b, T.xs[c]);
    }
  }

  /** The start node is only reached at the end. */
  lemma StartLast(T: Trip, b: nat)
    requires Ready(T) && 0 < b < |T.xs| - 1
    ensures NodeAt(T, b) != Uvs(T)[0]
  {
    if NodeAt(T, b) == Uvs(T)[0] {
      assert T.xs[0] / 2 != T.xs[b] / 2;
      Meeting(T, b, 0);
    }
  }

  lemma {:induction false} NotSeen(T: Trip, a: nat, b: nat)
    requires Ready(T) && a < b < |T.xs|
    ensures NodeAt(T, b) !in SeenTo(T, a)
  {
    if a > 0 {
      NodesDistinct(T, a, b);
      NotSeen(T, a - 1, b);
    }
  }

  lemma NextEdge(T: Trip, a: nat)
    requires Ready(T) && a + 1 < |T.xs|
    ensures var e := T.I.survivors[IndexAt(T, a + 1)];
      Touches(Edge(e.u, e.v), NodeAt(T, a)) && Other(e, NodeAt(T, a)) == NodeAt(T, a + 1)
      && e.nonce == T.N[EdgeAt(T, a + 1)]
  {
    var y := T.xs[a + 1];
    assert Follows(Uvs(T), T.xs[a], y);
    assert Meets(Uvs(T), T.xs[a], Flip(y));
    assert PlacedAt(T, EdgeAt(T, a + 1));
    EndpointAt(T.I.c, T.I.hash, T.I.seed, T.N, y);
    EndpointAt(T.I.c, T.I.hash, T.I.seed, T.N, Flip(y));
    OtherEnd(Uvs(T), y, T.I.survivors[IndexAt(T, a + 1)]);
  }

  lemma OtherEnd(uvs: seq<nat>, y: nat, e: LabeledEdge)
    requires |uvs| % 2 == 0 && y < |uvs| && e.u == uvs[2 * (y / 2)] && e.v == uvs[2 * (y / 2) + 1]
    requires Flip(y) < |uvs| && uvs[y] % 2 == y % 2 && uvs[Flip(y)] % 2 == Flip(y) % 2
    ensures Touches(Edge(e.u, e.v), uvs[Flip(y)]) && Other(e, uvs[Flip(y)]) == uvs[y]
  {
    if y % 2 == 0 {
      assert y == 2 * (y / 2) && Flip(y) == 2 * (y / 2) + 1;
    } else {
      assert y == 2 * (y / 2) + 1 && Flip(y) == 2 * (y / 2);
    }
  }

  lemma NextUsable(T: Trip, a: nat)
    requires Ready(T) && a + 1 < |T.xs|
    ensures CanUse(T.I, Uvs(T)[0], NodeAt(T, a), a + 1, UsedTo(T, a), SeenTo(T, a), IndexAt(T, a + 1))
  {
    NextEdge(T, a);
    NotUsed(T, a, a + 1);
    NotSeen(T, a, a + 1);
    assert PlacedAt(T, EdgeAt(T, a + 1));
    if a + 2 < |T.xs| {
      StartLast(T, a + 1);
    }
  }

  // ---- the end of the path

  lemma SortedFirst(s: seq<nat>, y: nat)
    requires Sorted(s) && s != [] && y in s
    ensures s[0] <= y
  {
    var k :| 0 <= k < |s| && s[k] == y;
    assert k > 0 ==> s[0] <= s[k];
  }

  lemma SortedTails(a: seq<nat>, b: seq<nat>)
    requires Sorted(a) && Sorted(b) && multiset(a) == multiset(b) && a != []
    ensures b != [] && a[0] == b[0] && multiset(a[1..]) == multiset(b[1..])
  {
    assert |a| == |multiset(a)| == |multiset(b)| == |b|;
    assert a[0] in multiset(b) && b[0] in multiset(a);
    SortedFirst(a, b[0]);
    SortedFirst(b, a[0]);
    RemoveOne(a, 0);
    RemoveOne(b, 0);
    assert Without(a, 0) == a[1..] && Without(b, 0) == b[1..];
    assert multiset(a[1..]) == multiset(a) - multiset{a[0]} && multiset(b[1..]) == multiset(b) - multiset{b[0]};
  }

  lemma {:induction false} SortedUnique(a: seq<nat>, b: seq<nat>)
    requires Sorted(a) && Sorted(b) && multiset(a) == multiset(b)
    ensures a == b
    decreases |a|
  {
    if a == [] {
      assert |multiset(b)| == 0;
    } else {
      SortedTails(a, b);
      SortedUnique(a[1..], b[1..]);
      assert a == [a[0]] + a[1..] && b == [b[0]] + b[1..];
    }
  }

  lemma PathVisits(T: Trip, e: nat)
    requires Ready(T) && e < |T.N|
    ensures T.N[e] in PathTo(T, |T.xs| - 1)
  {
    assert e in EdgesOf(T.xs);
    var b :| 0 <= b < |T.xs| && T.xs[b] / 2 == e;
    assert Visited(T)[b] == NonceAt(T, b);
  }

  lemma SortIs(path: seq<nat>, N: seq<nat>)
    requires StrictlyAscending(N) && |path| == |N| && forall n: nat :: n in N ==> n in path
    ensures Sort(path) == N
  {
    SameMembersSameMultiset(N, path);
    SortSorts(path);
    SortedUnique(Sort(path), N);
  }

  /** The finished path, sorted, is the proof. */
  lemma PathIsProof(T: Trip)
    requires Ready(T)
    ensures Sort(PathTo(T, |T.xs| - 1)) == T.N
  {
    forall n: nat | n in T.N
      ensures n in PathTo(T, |T.xs| - 1)
    {
      var e :| 0 <= e < |T.N| && T.N[e] == n;
      PathVisits(T, e);
    }
    SortIs(PathTo(T, |T.xs| - 1), T.N);
  }

  lemma ExtendsBy(I: Instance, startNode: nat, node: nat, path: seq<nat>, used: seq<bool>, seen: set<nat>, i: nat,
      rest: seq<nat>)
    requires |I.removed| == |I.survivors| == |used| && 0 <= |path| < I.c.proofSize
    requires CanUse(I, startNode, node, |path|, used, seen, i)
    requires var next := Other(I.survivors[i], node);
      Extends(I, startNode, next, path + [I.survivors[i].nonce], used[i := true], seen + {next}, rest)
    ensures Extends(I, startNode, node, path, used, seen, [i] + rest)
  {
    assert ([i] + rest)[1..] == rest;
  }

  lemma Longer(s: seq<nat>, a: nat)
    requires a < |s|
    ensures s[..a + 1] == s[..a] + [s[a]]
  {
  }

  lemma TripEnds(T: Trip)
    requires Ready(T)
    ensures NodeAt(T, |T.xs| - 1) == Uvs(T)[0]
    ensures ValidProof(T.I.c, T.I.hash, T.I.seed, Sort(PathTo(T, |T.xs| - 1))) && |T.xs| == T.I.c.proofSize
  {
    assert Follows(Uvs(T), T.xs[|T.xs| - 1], T.xs[0]);
    PathIsProof(T);
  }

  ghost predicate Continues(T: Trip, a: nat)
    requires Ready(T) && a < |T.xs|
  {
    Extends(T.I, Uvs(T)[0], NodeAt(T, a), PathTo(T, a), UsedTo(T, a), SeenTo(T, a), Rest(T, a))
  }

  lemma LastContinues(T: Trip)
    requires Ready(T)
    ensures Continues(T, |T.xs| - 1)
  {
    TripEnds(T);
  }

  lemma StepContinues(T: Trip, a: nat)
    requires Ready(T) && a + 1 < |T.xs| && Continues(T, a + 1)
    ensures Continues(T, a)
  {
    NextUsable(T, a);
    NextEdge(T, a);
    Longer(Visited(T), a + 1);
    TourLength(T);
    ExtendsBy(T.I, Uvs(T)[0], NodeAt(T, a), PathTo(T, a), UsedTo(T, a), SeenTo(T, a), IndexAt(T, a + 1),
      Rest(T, a + 1));
  }

  lemma TourLength(T: Trip)
    requires Ready(T)
    ensures |T.xs| == T.I.c.proofSize
  {
  }

  /** From any point of the tour the rest of it completes the path. */
  lemma {:induction false} RestExtends(T: Trip, a: nat)
    requires Ready(T) && a < |T.xs|
    ensures Continues(T, a)
    decreases |T.xs| - a
  {
    if a + 1 < |T.xs| {
      RestExtends(T, a + 1);
      StepContinues(T, a);
    } else {
      LastContinues(T);
    }
  }

  ghost predicate Placed(I: Instance, N: seq<nat>, idx: seq<nat>) {
    && |idx| == |N| && |I.removed| == |I.survivors|
    && forall e: nat :: e < |N| ==> PlacedAt(Trip(I, N, [], idx), e)
  }

  lemma TripFor(I: Instance, N: seq<nat>, idx: seq<nat>) returns (T: Trip)
    requires WellFormed(I) && ValidProof(I.c, I.hash, I.seed, N) && Placed(I, N, idx)
    ensures Ready(T) && T.I == I && T.N == N && T.idx == idx
  {
    var xs := TourFrom(Endpoints(I.c, I.hash, I.seed, N), 1);
    T := Trip(I, N, xs, idx);
    forall e: nat | e < |N|
      ensures PlacedAt(T, e)
    {
      assert PlacedAt(Trip(I, N, [], idx), e);
    }
  }

  lemma FirstPosition(T: Trip)
    requires Ready(T)
    ensures PlacedAt(T, 0) && |T.N| > 0 && T.xs[0] == 1 && EdgeAt(T, 0) == 0
  {
    assert PlacedAt(T, EdgeAt(T, 0));
  }

  lemma TripStarts(T: Trip)
    requires Ready(T)
    ensures PlacedAt(T, 0) && IndexAt(T, 0) == T.idx[0]
    ensures var start := T.I.survivors[T.idx[0]];
      Uvs(T)[0] == start.u && NodeAt(T, 0) == start.v && NonceAt(T, 0) == start.nonce
  {
    FirstPosition(T);
  }

  lemma PathStarts(T: Trip)
    requires Ready(T)
    ensures PathTo(T, 0) == [NonceAt(T, 0)] && SeenTo(T, 0) == {}
  {
    Longer(Visited(T), 0);
    assert Visited(T)[..0] + [Visited(T)[0]] == [Visited(T)[0]];
  }

  /** The state of the search when it starts from an edge. */
  ghost predicate FailsFrom(I: Instance, i: nat)
    requires i < |I.survivors| == |I.removed| && I.c.proofSize >= 0
  {
    NoProof(I, I.survivors[i].u, I.survivors[i].v, [I.survivors[i].nonce], seq(|I.survivors|, k => false)[i := true],
      {})
  }

  /** Whenever the edges of a proof are all among those searched, the search
      from its first edge cannot fail. */
  lemma ProofIsFound(I: Instance, N: seq<nat>, idx: seq<nat>)
    requires WellFormed(I) && ValidProof(I.c, I.hash, I.seed, N) && Placed(I, N, idx)
    ensures PlacedAt(Trip(I, N, [], idx), 0) && !I.removed[idx[0]] && !FailsFrom(I, idx[0])
  {
    var T := TripFor(I, N, idx);
    TripStarts(T);
    RestExtends(T, 0);
    PathStarts(T);
    assert UsedTo(T, 0) == seq(|I.survivors|, k => false)[idx[0] := true];
  }
}
