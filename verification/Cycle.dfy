/** Lists of edges given by their endpoints, and when they form one cycle.
    Position 2e holds the first endpoint of edge e and position 2e + 1 the second. */
module Cycle {
  import opened XorSum

  predicate EdgeList(uvs: seq<nat>) { |uvs| % 2 == 0 }

  /** The other endpoint of the same edge. */
  function Flip(i: nat): (j: nat)
    ensures j != i && j / 2 == i / 2 && j % 2 != i % 2
  {
    if i % 2 == 0 then i + 1 else i - 1
  }

  /** Positions i and k are on the same side and hold the same endpoint. */
  predicate Meets(uvs: seq<nat>, i: nat, k: nat) {
    i < |uvs| && k < |uvs| && i != k && i % 2 == k % 2 && uvs[i] == uvs[k]
  }

  /** j is the only position that meets i. */
  ghost predicate IsPartner(uvs: seq<nat>, i: nat, j: nat) {
    Meets(uvs, i, j) && forall k: nat :: Meets(uvs, i, k) ==> k == j
  }

  /** Every endpoint is shared by exactly two edges on its side. */
  ghost predicate TwoRegular(uvs: seq<nat>) {
    forall i: nat :: i < |uvs| ==> HasPartner(uvs, i)
  }

  ghost predicate HasPartner(uvs: seq<nat>, i: nat) { exists j: nat :: IsPartner(uvs, i, j) }

  predicate Adjacent(uvs: seq<nat>, e: nat, f: nat)
    requires EdgeList(uvs) && e < |uvs| / 2 && f < |uvs| / 2
  {
    uvs[2 * e] == uvs[2 * f] || uvs[2 * e + 1] == uvs[2 * f + 1]
  }

  /** A set of edges that shares no endpoint with the other edges. */
  ghost predicate Closed(uvs: seq<nat>, S: set<nat>)
    requires EdgeList(uvs)
  {
    forall e: nat, f: nat :: e in S && e < |uvs| / 2 && f < |uvs| / 2 && Adjacent(uvs, e, f) ==> f in S
  }

  ghost predicate Connected(uvs: seq<nat>)
    requires EdgeList(uvs)
  {
    forall S: set<nat> :: Closed(uvs, S) && (exists e: nat :: e in S && e < |uvs| / 2) ==> Covers(uvs, S)
  }

  ghost predicate Covers(uvs: seq<nat>, S: set<nat>) {
    forall e: nat :: e < |uvs| / 2 ==> e in S
  }

  /** One single cycle through all the edges. */
  ghost predicate SingleCycle(uvs: seq<nat>) {
    EdgeList(uvs) && uvs != [] && TwoRegular(uvs) && Connected(uvs)
  }

  // ---- partners

  lemma PartnerSymmetric(uvs: seq<nat>, i: nat, j: nat)
    requires IsPartner(uvs, i, j)
    ensures IsPartner(uvs, j, i)
  {
    forall k: nat | Meets(uvs, j, k)
      ensures k == i
    {
      if k != i {
        assert Meets(uvs, i, k);
      }
    }
  }

  // ---- walks

  /** Each position is the other end of the edge that meets the one before. */
  ghost predicate Walk(uvs: seq<nat>, xs: seq<nat>) {
    && (forall a :: 0 <= a < |xs| ==> xs[a] < |uvs|)
    && (forall a :: 0 <= a < |xs| - 1 ==> Follows(uvs, xs[a], xs[a + 1]))
    && forall a, b :: 0 <= a < b < |xs| ==> xs[a] / 2 != xs[b] / 2
  }

  ghost predicate Follows(uvs: seq<nat>, x: nat, y: nat) { IsPartner(uvs, x, Flip(y)) }

  lemma NotEntered(uvs: seq<nat>, xs: seq<nat>, x: nat, a: nat)
    requires Walk(uvs, xs) && 0 < a < |xs| && Follows(uvs, xs[|xs| - 1], x)
    ensures xs[a] != x
  {
    var last := xs[|xs| - 1];
    assert Follows(uvs, xs[a - 1], xs[a]);
    PartnerSymmetric(uvs, last, Flip(x));
    PartnerSymmetric(uvs, xs[a - 1], Flip(xs[a]));
  }

  lemma NotReversed(uvs: seq<nat>, xs: seq<nat>, x: nat, a: nat)
    requires Walk(uvs, xs) && a < |xs| && Follows(uvs, xs[|xs| - 1], x)
    ensures xs[a] != Flip(x)
  {
    PartnerSymmetric(uvs, xs[|xs| - 1], Flip(x));
    if a < |xs| - 1 {
      assert Follows(uvs, xs[a], xs[a + 1]);
    }
  }

  /** A walk cannot enter a loop that misses its first position: the next
      position is the first one, or on an edge not yet visited. */
  lemma WalkFresh(uvs: seq<nat>, xs: seq<nat>, x: nat)
    requires EdgeList(uvs) && xs != [] && Walk(uvs, xs) && Follows(uvs, xs[|xs| - 1], x)
    ensures x < |uvs|
    ensures x == xs[0] || Walk(uvs, xs + [x])
  {
    var n := |xs| - 1;
    if x != xs[0] {
      forall a | 0 <= a <= n
        ensures xs[a] / 2 != x / 2
      {
        NotReversed(uvs, xs, x, a);
        if a > 0 {
          NotEntered(uvs, xs, x, a);
        }
      }
      var ys := xs + [x];
      forall a | 0 <= a < |ys| - 1
        ensures Follows(uvs, ys[a], ys[a + 1])
      {
        if a < n {
          assert Follows(uvs, xs[a], xs[a + 1]);
        }
      }
    }
  }

  ghost function EdgesOf(xs: seq<nat>): set<nat> {
    set a | 0 <= a < |xs| :: xs[a] / 2
  }

  lemma {:induction false} EdgesCount(xs: seq<nat>)
    requires forall a, b :: 0 <= a < b < |xs| ==> xs[a] / 2 != xs[b] / 2
    ensures |EdgesOf(xs)| == |xs|
  {
    if xs != [] {
      var n := |xs| - 1;
      EdgesCount(xs[..n]);
      assert EdgesOf(xs) == EdgesOf(xs[..n]) + {xs[n] / 2};
    }
  }

  ghost function Below(n: nat): (r: set<nat>)
    ensures |r| == n && forall e: nat :: e in r <==> e < n
  {
    if n == 0 then {} else Below(n - 1) + {n - 1}
  }

  lemma SubsetCount(A: set<nat>, B: set<nat>)
    requires A <= B
    ensures |A| <= |B| && (|A| == |B| ==> A == B)
  {
    assert B == A + (B - A);
  }

  /** A walk has no more steps than there are edges, and visits all of them when it has as many. */
  lemma WalkLength(uvs: seq<nat>, xs: seq<nat>)
    requires EdgeList(uvs) && Walk(uvs, xs)
    ensures |xs| <= |uvs| / 2
    ensures |xs| == |uvs| / 2 ==> EdgesOf(xs) == Below(|uvs| / 2)
  {
    EdgesCount(xs);
    SubsetCount(EdgesOf(xs), Below(|uvs| / 2));
  }

  /** A walk that returns to its first position. */
  ghost predicate Tour(uvs: seq<nat>, xs: seq<nat>) {
    xs != [] && Walk(uvs, xs) && Follows(uvs, xs[|xs| - 1], xs[0])
  }

  /** The position after the a-th, around the tour. */
  function After(xs: seq<nat>, a: nat): nat
    requires a < |xs|
  {
    if a + 1 < |xs| then xs[a + 1] else xs[0]
  }

  function Previous(xs: seq<nat>, a: nat): nat
    requires a < |xs|
  {
    if a > 0 then xs[a - 1] else xs[|xs| - 1]
  }

  /** Both ends of every visited edge have their partner on the tour. */
  lemma TourPartners(uvs: seq<nat>, xs: seq<nat>, a: nat)
    requires Tour(uvs, xs) && a < |xs|
    ensures IsPartner(uvs, xs[a], Flip(After(xs, a)))
    ensures IsPartner(uvs, Flip(xs[a]), Previous(xs, a))
  {
    assert Follows(uvs, xs[a], After(xs, a));
    assert Follows(uvs, Previous(xs, a), xs[a]);
    PartnerSymmetric(uvs, Previous(xs, a), Flip(xs[a]));
  }

  lemma TourClosed(uvs: seq<nat>, xs: seq<nat>)
    requires EdgeList(uvs) && Tour(uvs, xs)
    ensures Closed(uvs, EdgesOf(xs))
  {
    forall e: nat, f: nat | e in EdgesOf(xs) && e < |uvs| / 2 && f < |uvs| / 2 && Adjacent(uvs, e, f)
      ensures f in EdgesOf(xs)
    {
      var a :| 0 <= a < |xs| && xs[a] / 2 == e;
      TourNeighbour(uvs, xs, a, f);
    }
  }

  lemma TourNeighbour(uvs: seq<nat>, xs: seq<nat>, a: nat, f: nat)
    requires EdgeList(uvs) && Tour(uvs, xs) && a < |xs| && f < |uvs| / 2 && Adjacent(uvs, xs[a] / 2, f)
    ensures f in EdgesOf(xs)
  {
    TourPartners(uvs, xs, a);
    TourMember(xs, a);
    if f == xs[a] / 2 {
      assert f in EdgesOf(xs);
    } else {
      AdjacentMeets(uvs, xs[a], f);
    }
  }

  lemma AdjacentMeets(uvs: seq<nat>, i: nat, f: nat)
    requires EdgeList(uvs) && i < |uvs| && f < |uvs| / 2 && f != i / 2 && Adjacent(uvs, i / 2, f)
    ensures Meets(uvs, i, 2 * f + i % 2) || Meets(uvs, Flip(i), 2 * f + 1 - i % 2)
  {
    assert i == 2 * (i / 2) + i % 2;
  }

  lemma TourMember(xs: seq<nat>, a: nat)
    requires a < |xs|
    ensures After(xs, a) / 2 in EdgesOf(xs) && Previous(xs, a) / 2 in EdgesOf(xs)
  {
  }

  lemma StepAdjacent(uvs: seq<nat>, xs: seq<nat>, a: nat)
    requires EdgeList(uvs) && Tour(uvs, xs) && a < |xs|
    ensures After(xs, a) < |uvs| && Adjacent(uvs, xs[a] / 2, After(xs, a) / 2)
  {
    TourPartners(uvs, xs, a);
  }

  /** Any closed set that meets a tour contains it. */
  lemma TourInside(uvs: seq<nat>, xs: seq<nat>, S: set<nat>, a: nat, b: nat)
    requires EdgeList(uvs) && Tour(uvs, xs) && Closed(uvs, S)
    requires a <= b < |xs| && xs[a] / 2 in S
    ensures xs[b] / 2 in S
    decreases b - a
  {
    if a < b {
      StepAdjacent(uvs, xs, a);
      TourInside(uvs, xs, S, a + 1, b);
    }
  }

  lemma TourAround(uvs: seq<nat>, xs: seq<nat>, S: set<nat>, a: nat, b: nat)
    requires EdgeList(uvs) && Tour(uvs, xs) && Closed(uvs, S)
    requires a < |xs| && b < |xs| && xs[a] / 2 in S
    ensures xs[b] / 2 in S
  {
    var n := |xs| - 1;
    TourInside(uvs, xs, S, a, n);
    StepAdjacent(uvs, xs, n);
    TourInside(uvs, xs, S, 0, b);
  }

  lemma FullTourRegular(uvs: seq<nat>, xs: seq<nat>, i: nat)
    requires EdgeList(uvs) && Tour(uvs, xs) && EdgesOf(xs) == Below(|uvs| / 2) && i < |uvs|
    ensures HasPartner(uvs, i)
  {
    assert i / 2 in EdgesOf(xs);
    var a :| 0 <= a < |xs| && xs[a] / 2 == i / 2;
    TourPartners(uvs, xs, a);
    assert i == xs[a] || i == Flip(xs[a]);
  }

  /** A tour of all the edges is a single cycle. */
  lemma FullTour(uvs: seq<nat>, xs: seq<nat>)
    requires EdgeList(uvs) && Tour(uvs, xs) && |xs| == |uvs| / 2
    ensures SingleCycle(uvs)
  {
    WalkLength(uvs, xs);
    forall i: nat | i < |uvs|
      ensures HasPartner(uvs, i)
    {
      FullTourRegular(uvs, xs, i);
    }
    forall S: set<nat> | Closed(uvs, S) && exists e: nat :: e in S && e < |uvs| / 2
      ensures Covers(uvs, S)
    {
      FullTourInside(uvs, xs, S);
    }
  }

  lemma FullTourInside(uvs: seq<nat>, xs: seq<nat>, S: set<nat>)
    requires EdgeList(uvs) && Tour(uvs, xs) && EdgesOf(xs) == Below(|uvs| / 2)
    requires Closed(uvs, S) && exists e: nat :: e in S && e < |uvs| / 2
    ensures Covers(uvs, S)
  {
    var e: nat :| e in S && e < |uvs| / 2;
    assert e in EdgesOf(xs);
    var a :| 0 <= a < |xs| && xs[a] / 2 == e;
    forall f: nat | f < |uvs| / 2
      ensures f in S
    {
      assert f in EdgesOf(xs);
      var b :| 0 <= b < |xs| && xs[b] / 2 == f;
      TourAround(uvs, xs, S, a, b);
    }
  }

  /** In a single cycle every tour is of all the edges. */
  lemma TourIsFull(uvs: seq<nat>, xs: seq<nat>)
    requires SingleCycle(uvs) && Tour(uvs, xs)
    ensures |xs| == |uvs| / 2 && EdgesOf(xs) == Below(|uvs| / 2)
  {
    TourClosed(uvs, xs);
    WalkLength(uvs, xs);
    assert xs[0] / 2 in EdgesOf(xs);
    assert Covers(uvs, EdgesOf(xs));
    assert EdgesOf(xs) == Below(|uvs| / 2);
    EdgesCount(xs);
  }

  // ---- the sum over all endpoints

  /** The endpoints of one side. */
  ghost function Side(uvs: seq<nat>, side: nat): (r: seq<nat>)
    requires EdgeList(uvs) && side < 2
    ensures |r| == |uvs| / 2
  {
    seq(|uvs| / 2, e requires 0 <= e < |uvs| / 2 => uvs[2 * e + side])
  }

  lemma SideSnoc(uvs: seq<nat>, side: nat, n: nat)
    requires EdgeList(uvs) && side < 2 && n == |uvs| - 2 >= 0
    ensures XorAll(Side(uvs, side)) == Xor(XorAll(Side(uvs[..n], side)), uvs[n + side])
  {
    var s := Side(uvs, side);
    assert s[..|s| - 1] == Side(uvs[..n], side);
  }

  lemma LastTwo(uvs: seq<nat>, n: nat)
    requires n == |uvs| - 2 >= 0
    ensures XorAll(uvs) == Xor(Xor(XorAll(uvs[..n]), uvs[n]), uvs[n + 1])
  {
    assert uvs[..n + 1][..n] == uvs[..n];
  }

  lemma {:induction false} SidesSum(uvs: seq<nat>)
    requires EdgeList(uvs)
    ensures XorAll(uvs) == Xor(XorAll(Side(uvs, 0)), XorAll(Side(uvs, 1)))
  {
    if uvs != [] {
      var n := |uvs| - 2;
      SidesSum(uvs[..n]);
      LastTwo(uvs, n);
      SideSnoc(uvs, 0, n);
      SideSnoc(uvs, 1, n);
      XorShuffle(XorAll(Side(uvs[..n], 0)), XorAll(Side(uvs[..n], 1)), uvs[n], uvs[n + 1]);
    }
  }

  lemma XorShuffle(a: nat, b: nat, u: nat, v: nat)
    ensures Xor(Xor(Xor(a, b), u), v) == Xor(Xor(a, u), Xor(b, v))
  {
    XorAssoc(a, b, u);
    XorComm(b, u);
    XorAssoc(a, u, b);
    XorAssoc(Xor(a, u), b, v);
  }

  /** Among the endpoints of one side every value occurs twice or not at all. */
  lemma SideCounts(uvs: seq<nat>, side: nat)
    requires EdgeList(uvs) && side < 2 && TwoRegular(uvs)
    ensures EvenCounts(Side(uvs, side))
  {
    var s := Side(uvs, side);
    forall x: nat
      ensures EvenAt(s, x)
    {
      if x in s {
        var e :| 0 <= e < |s| && s[e] == x;
        assert HasPartner(uvs, 2 * e + side);
        var j: nat :| IsPartner(uvs, 2 * e + side, j);
        var f := j / 2;
        assert j == 2 * f + side;
        forall g | 0 <= g < |s| && s[g] == x
          ensures g == e || g == f
        {
          assert g != e ==> Meets(uvs, 2 * e + side, 2 * g + side);
        }
        ExactlyTwo(s, e, f);
      }
    }
  }

  lemma ExactlyTwo(s: seq<nat>, e: nat, f: nat)
    requires e < |s| && f < |s| && e != f && s[e] == s[f]
    requires forall g :: 0 <= g < |s| && s[g] == s[e] ==> g == e || g == f
    ensures Count(s, s[e]) == 2
  {
    var a, b := if e < f then e else f, if e < f then f else e;
    var t := s[..b] + s[b + 1..];
    CountWithout(s, b, s[e]);
    CountWithout(t, a, s[e]);
    assert s[e] !in t[..a] + t[a + 1..];
  }

  /** The quick check never rejects a cycle: the endpoints of two-regular edges sum to zero. */
  lemma RegularSumsToZero(uvs: seq<nat>)
    requires EdgeList(uvs) && TwoRegular(uvs)
    ensures XorAll(uvs) == 0
  {
    SidesSum(uvs);
    SideCounts(uvs, 0);
    SideCounts(uvs, 1);
    EvenIsZero(Side(uvs, 0));
    EvenIsZero(Side(uvs, 1));
    XorZero(0);
  }

  // ---- the verifier

  /** The search for the other position with the same endpoint. */
  method FindPartner(uvs: seq<nat>, i: nat) returns (ok: bool, j: nat)
    requires EdgeList(uvs) && i < |uvs|
    ensures ok <==> HasPartner(uvs, i)
    ensures ok ==> IsPartner(uvs, i, j)
  {
    j := i;
    var k := i % 2;
    while k < |uvs|
      invariant k % 2 == i % 2
      invariant j == i ==> forall m: nat :: Meets(uvs, i, m) ==> m >= k
      invariant j != i ==> j < k && Meets(uvs, i, j) && forall m: nat :: Meets(uvs, i, m) ==> m == j || m >= k
    {
      if k != i && uvs[k] == uvs[i] {
        assert Meets(uvs, i, k);
        if j != i {
          assert Meets(uvs, i, j) && j != k;
          return false, j;
        }
        j := k;
      }
      k := k + 2;
    }
    ok := j != i;
    if ok {
      assert IsPartner(uvs, i, j);
    } else {
      assert forall m: nat :: !Meets(uvs, i, m);
    }
  }

  /** Accepts exactly the lists that form one single cycle, and always stops. */
  method VerifyCycle(uvs: seq<nat>) returns (ok: bool)
    requires EdgeList(uvs)
    ensures ok <==> SingleCycle(uvs)
  {
    var xor := 0;
    for k := 0 to |uvs|
      invariant xor == XorAll(uvs[..k])
    {
      assert uvs[..k + 1][..k] == uvs[..k];
      xor := Xor(xor, uvs[k]);
    }
    assert uvs[..|uvs|] == uvs;
    if xor != 0 {
      if TwoRegular(uvs) {
        RegularSumsToZero(uvs);
      }
      return false;
    }
    if |uvs| == 0 {
      return false;
    }
    var n, i: nat := 0, 0;
    ghost var xs := [0];
    while true
      invariant |xs| == n + 1 && xs[0] == 0 && xs[n] == i && i % 2 == 0
      invariant Walk(uvs, xs) && n < |uvs| / 2
      decreases |uvs| / 2 - n
    {
      var found, j := FindPartner(uvs, i);
      if !found {
        return false;
      }
      i := Flip(j);
      n := n + 1;
      WalkOn(uvs, xs, i);
      xs := xs + [i];
      found, j := FindPartner(uvs, i);
      if !found {
        return false;
      }
      i := Flip(j);
      n := n + 1;
      if i == 0 {
        break;
      }
      WalkOn(uvs, xs, i);
      xs := xs + [i];
    }
    TourDecides(uvs, xs);
    return n == |uvs| / 2;
  }

  lemma WalkOn(uvs: seq<nat>, xs: seq<nat>, x: nat)
    requires EdgeList(uvs) && xs != [] && Walk(uvs, xs) && IsPartner(uvs, xs[|xs| - 1], Flip(x)) && x != xs[0]
    ensures Walk(uvs, xs + [x]) && |xs| < |uvs| / 2
  {
    WalkFresh(uvs, xs, x);
    WalkLength(uvs, xs + [x]);
  }

  lemma TourDecides(uvs: seq<nat>, xs: seq<nat>)
    requires EdgeList(uvs) && Tour(uvs, xs)
    ensures |xs| == |uvs| / 2 <==> SingleCycle(uvs)
  {
    if |xs| == |uvs| / 2 {
      FullTour(uvs, xs);
    }
    if SingleCycle(uvs) {
      TourIsFull(uvs, xs);
    }
  }

  /** A single cycle can be toured from any position. */
  lemma TourFrom(uvs: seq<nat>, p: nat) returns (xs: seq<nat>)
    requires SingleCycle(uvs) && p < |uvs|
    ensures Tour(uvs, xs) && xs[0] == p && |xs| == |uvs| / 2 && EdgesOf(xs) == Below(|uvs| / 2)
  {
    xs := [p];
    WalkLength(uvs, xs);
    while true
      invariant xs != [] && xs[0] == p && Walk(uvs, xs) && |xs| <= |uvs| / 2
      decreases |uvs| / 2 - |xs|
    {
      assert HasPartner(uvs, xs[|xs| - 1]);
      var j: nat :| IsPartner(uvs, xs[|xs| - 1], j);
      assert Flip(Flip(j)) == j;
      if Flip(j) == p {
        break;
      }
      WalkOn(uvs, xs, Flip(j));
      WalkLength(uvs, xs + [Flip(j)]);
      xs := xs + [Flip(j)];
    }
    TourIsFull(uvs, xs);
  }
}
