/** The survivors of bulk trimming, and the exact peel that leaves their core. */
module Peel {
  import opened Cuckoo
  import opened Bitsets
  import opened Trim

  datatype LabeledEdge = LabeledEdge(nonce: nat, u: nat, v: nat)

  /** The survivors as a graph of their own, with their positions as edge indices. */
  function Indexed(survivors: seq<LabeledEdge>): Ends {
    i => if 0 <= i < |survivors| then Edge(survivors[i].u, survivors[i].v) else Edge(0, 1)
  }

  ghost predicate HasNonce(survivors: seq<LabeledEdge>, n: nat) {
    exists i :: 0 <= i < |survivors| && survivors[i].nonce == n
  }

  /** The live edges in order, with their endpoints. */
  ghost predicate Collected(survivors: seq<LabeledEdge>, alive: seq<bool>, n: nat, ends: Ends) {
    && n <= |alive|
    && (forall i :: 0 <= i < |survivors| ==> CollectedAt(survivors[i], alive, n, ends))
    && (forall i, j :: 0 <= i < j < |survivors| ==> survivors[i].nonce < survivors[j].nonce)
    && forall m: nat :: m < n && alive[m] ==> HasNonce(survivors, m)
  }

  predicate CollectedAt(e: LabeledEdge, alive: seq<bool>, n: nat, ends: Ends)
    requires n <= |alive|
  {
    e.nonce < n && alive[e.nonce] && ends(e.nonce) == Edge(e.u, e.v)
  }

  method CollectSurvivors(alive: Bitset, maxNonce: nat, ends: Ends) returns (survivors: seq<LabeledEdge>)
    requires alive.Valid() && maxNonce <= |alive.bits|
    ensures Collected(survivors, alive.bits, maxNonce, ends)
  {
    survivors := [];
    for nonce := 0 to maxNonce
      invariant Collected(survivors, alive.bits, nonce, ends)
    {
      ghost var before := survivors;
      var live := alive.Get(nonce);
      if live {
        var e := ends(nonce);
        survivors := survivors + [LabeledEdge(nonce, e.u, e.v)];
        assert survivors[|before|].nonce == nonce;
      }
      forall m: nat | m < nonce + 1 && alive.bits[m]
        ensures HasNonce(survivors, m)
      {
        if m < nonce {
          var i :| 0 <= i < |before| && before[i].nonce == m;
          assert survivors[i].nonce == m;
        }
      }
    }
  }

  // ---- degrees under removal

  function Live(removed: seq<bool>): (r: seq<bool>)
    ensures |r| == |removed| && forall i :: 0 <= i < |r| ==> r[i] == !removed[i]
  {
    seq(|removed|, i requires 0 <= i < |removed| => !removed[i])
  }

  lemma {:induction false} DegreePrefix(a: seq<bool>, b: seq<bool>, n: nat, ends: Ends, x: nat)
    requires n <= |a| && n <= |b| && forall i :: 0 <= i < n ==> a[i] == b[i]
    ensures Degree(a, n, ends, x) == Degree(b, n, ends, x)
  {
    if n > 0 {
      DegreePrefix(a, b, n - 1, ends, x);
    }
  }

  lemma {:induction false} DegreeRemove(live: seq<bool>, n: nat, ends: Ends, k: nat, x: nat)
    requires k < n <= |live| && live[k]
    ensures Degree(live[k := false], n, ends, x) == Degree(live, n, ends, x) - if Touches(ends(k), x) then 1 else 0
    decreases n
  {
    if k < n - 1 {
      DegreeRemove(live, n - 1, ends, k, x);
    } else {
      DegreePrefix(live, live[k := false], n - 1, ends, x);
    }
  }

  /** A node of positive degree has a live edge. */
  lemma {:induction false} DegreeWitness(live: seq<bool>, n: nat, ends: Ends, x: nat) returns (k: nat)
    requires n <= |live| && Degree(live, n, ends, x) >= 1
    ensures k < n && live[k] && Touches(ends(k), x)
    decreases n
  {
    if live[n - 1] && Touches(ends(n - 1), x) {
      k := n - 1;
    } else {
      k := DegreeWitness(live, n - 1, ends, x);
    }
  }

  /** A node of degree two has, next to any live edge, another one. */
  lemma DegreeOther(live: seq<bool>, n: nat, ends: Ends, x: nat, e: nat) returns (f: nat)
    requires e < n <= |live| && live[e] && Touches(ends(e), x) && Degree(live, n, ends, x) >= 2
    ensures f < n && f != e && live[f] && Touches(ends(f), x)
  {
    DegreeRemove(live, n, ends, e, x);
    f := DegreeWitness(live[e := false], n, ends, x);
  }

  ghost function LiveSet(live: seq<bool>): set<nat> {
    set i | 0 <= i < |live| && live[i]
  }

  /** Without leaves, the live edges are a core. */
  lemma NoLeavesIsCore(live: seq<bool>, ends: Ends)
    requires forall x: nat :: Degree(live, |live|, ends, x) != 1
    ensures Core(LiveSet(live), ends)
  {
    var S := LiveSet(live);
    forall n: nat
      ensures CoreAt(S, ends, n)
    {
      if n in S {
        LiveShared(live, ends, n, ends(n).u);
        LiveShared(live, ends, n, ends(n).v);
      }
    }
  }

  lemma LiveShared(live: seq<bool>, ends: Ends, n: nat, x: nat)
    requires n < |live| && live[n] && Touches(ends(n), x) && Degree(live, |live|, ends, x) != 1
    ensures Shared(LiveSet(live), ends, n, x)
  {
    DegreeOne(live, |live|, ends, x, n);
    var f := DegreeOther(live, |live|, ends, x, n);
    assert f in LiveSet(live);
  }

  // ---- the tables

  function DegreeIn(degrees: map<nat, int>, x: nat): int { if x in degrees then degrees[x] else 0 }

  function IncidentTo(incident: map<nat, seq<nat>>, x: nat): seq<nat> { if x in incident then incident[x] else [] }

  ghost predicate DegreesAt(degrees: map<nat, int>, live: seq<bool>, n: nat, ends: Ends, x: nat)
    requires n <= |live|
  {
    DegreeIn(degrees, x) == Degree(live, n, ends, x)
  }

  ghost predicate Degrees(degrees: map<nat, int>, live: seq<bool>, n: nat, ends: Ends)
    requires n <= |live|
  {
    forall x: nat :: DegreesAt(degrees, live, n, ends, x)
  }

  ghost predicate IncidentAt(incident: map<nat, seq<nat>>, n: nat, ends: Ends, x: nat) {
    && (forall i: nat :: i in IncidentTo(incident, x) ==> i < n && Touches(ends(i), x))
    && forall i: nat :: i < n && Touches(ends(i), x) ==> i in IncidentTo(incident, x)
  }

  ghost predicate Incidents(incident: map<nat, seq<nat>>, n: nat, ends: Ends) {
    forall x: nat :: IncidentAt(incident, n, ends, x)
  }

  lemma DegreesNext(degrees: map<nat, int>, live: seq<bool>, k: nat, ends: Ends, degrees': map<nat, int>)
    requires k < |live| && live[k] && Degrees(degrees, live, k, ends)
    requires forall x: nat :: DegreeIn(degrees', x) == DegreeIn(degrees, x) + if Touches(ends(k), x) then 1 else 0
    ensures Degrees(degrees', live, k + 1, ends)
  {
    var next := k + 1;
    forall x: nat
      ensures DegreesAt(degrees', live, next, ends, x)
    {
      assert DegreesAt(degrees, live, k, ends, x);
    }
  }

  lemma IncidentsNext(incident: map<nat, seq<nat>>, k: nat, ends: Ends, incident': map<nat, seq<nat>>)
    requires Incidents(incident, k, ends)
    requires forall x: nat :: IncidentTo(incident', x) == IncidentTo(incident, x) + if Touches(ends(k), x) then [k]
      else []
    ensures Incidents(incident', k + 1, ends)
  {
    var next := k + 1;
    forall x: nat
      ensures IncidentAt(incident', next, ends, x)
    {
      assert IncidentAt(incident, k, ends, x);
    }
  }

  method BuildTables(survivors: seq<LabeledEdge>) returns (degrees: map<nat, int>, incident: map<nat, seq<nat>>)
    requires forall i :: 0 <= i < |survivors| ==> survivors[i].u != survivors[i].v
    ensures Degrees(degrees, Live(seq(|survivors|, i => false)), |survivors|, Indexed(survivors))
    ensures Incidents(incident, |survivors|, Indexed(survivors))
  {
    degrees, incident := map[], map[];
    ghost var live, ends := Live(seq(|survivors|, i => false)), Indexed(survivors);
    for idx := 0 to |survivors|
      invariant Degrees(degrees, live, idx, ends) && Incidents(incident, idx, ends)
    {
      var e := survivors[idx];
      ghost var degrees0, incident0 := degrees, incident;
      assert ends(idx) == Edge(e.u, e.v);
      degrees := degrees[e.u := DegreeIn(degrees, e.u) + 1];
      degrees := degrees[e.v := DegreeIn(degrees, e.v) + 1];
      DegreesNext(degrees0, live, idx, ends, degrees);
      incident := incident[e.u := IncidentTo(incident, e.u) + [idx]];
      incident := incident[e.v := IncidentTo(incident, e.v) + [idx]];
      IncidentsNext(incident0, idx, ends, incident);
    }
  }

  // ---- the peel

  /** The nodes of degree one, in whatever order the map yields them. */
  method InitialQueue(degrees: map<nat, int>) returns (queue: seq<nat>)
    ensures forall x: nat :: DegreeIn(degrees, x) == 1 ==> x in queue
  {
    queue := [];
    var nodes := degrees.Keys;
    while nodes != {}
      invariant forall x: nat :: DegreeIn(degrees, x) == 1 ==> x in queue || x in nodes
      invariant nodes <= degrees.Keys
      decreases |nodes|
    {
      var node :| node in nodes;
      nodes := nodes - {node};
      if degrees[node] == 1 {
        queue := queue + [node];
      }
    }
  }

  /** The first edge at a node that is still there. */
  method FindUnremoved(list: seq<nat>, removed: seq<bool>) returns (edgeIdx: int)
    requires forall i :: i in list ==> i < |removed|
    ensures edgeIdx == -1 ==> forall i :: i in list ==> removed[i]
    ensures edgeIdx != -1 ==> edgeIdx in list && !removed[edgeIdx]
  {
    for k := 0 to |list|
      invariant forall m :: 0 <= m < k ==> list[m] in list && removed[list[m]]
    {
      assert list[k] in list;
      if !removed[list[k]] {
        return list[k];
      }
    }
    return -1;
  }

  function Decrease(e: LabeledEdge, x: nat, k: nat): nat {
    (if k > 0 && x == e.u then 1 else 0) + (if k > 1 && x == e.v then 1 else 0)
  }

  /** Takes an edge out of the degrees and queues its endpoints that become leaves. */
  method DropEdge(degrees0: map<nat, int>, queue0: seq<nat>, e: LabeledEdge)
      returns (degrees: map<nat, int>, queue: seq<nat>)
    requires e.u != e.v
    ensures forall x: nat :: DegreeIn(degrees, x) == DegreeIn(degrees0, x) - Decrease(e, x, 2)
    ensures |queue0| <= |queue| <= |queue0| + 2 && queue[..|queue0|] == queue0
    ensures forall x: nat :: Decrease(e, x, 2) > 0 && DegreeIn(degrees, x) == 1 ==> x in queue[|queue0|..]
  {
    degrees, queue := degrees0, queue0;
    var endpoints := [e.u, e.v];
    for k := 0 to 2
      invariant forall x: nat :: DegreeIn(degrees, x) == DegreeIn(degrees0, x) - Decrease(e, x, k)
      invariant |queue0| <= |queue| <= |queue0| + k && queue[..|queue0|] == queue0
      invariant forall x: nat :: Decrease(e, x, k) > 0 && DegreeIn(degrees, x) == 1 ==> x in queue[|queue0|..]
    {
      var endpoint := endpoints[k];
      ghost var queue1 := queue;
      degrees := degrees[endpoint := DegreeIn(degrees, endpoint) - 1];
      if degrees[endpoint] == 1 {
        queue := queue + [endpoint];
        assert queue[|queue0|..] == queue1[|queue0|..] + [endpoint];
      }
    }
  }

  /** Every leaf is still to be taken from the queue. */
  ghost predicate Pending(live: seq<bool>, ends: Ends, queue: seq<nat>, head: nat)
    requires head <= |queue|
  {
    forall x: nat :: PendingAt(live, ends, queue, head, x)
  }

  ghost predicate PendingAt(live: seq<bool>, ends: Ends, queue: seq<nat>, head: nat, x: nat)
    requires head <= |queue|
  {
    Degree(live, |live|, ends, x) == 1 ==> x in queue[head..]
  }

  /** No core loses an edge. */
  ghost predicate KeepsCores(live: seq<bool>, ends: Ends) {
    forall S: set<nat> :: KeepsCore(live, ends, S)
  }

  ghost predicate KeepsCore(live: seq<bool>, ends: Ends, S: set<nat>) {
    Core(S, ends) && (forall e: nat :: e in S ==> e < |live|) ==> Alive(live, |live|, S)
  }

  lemma PeelKeepsCores(live: seq<bool>, ends: Ends, x: nat, k: nat)
    requires KeepsCores(live, ends) && k < |live| && live[k] && Touches(ends(k), x) &&
      Degree(live, |live|, ends, x) == 1
    ensures KeepsCores(live[k := false], ends)
  {
    var next := live[k := false];
    forall S: set<nat>
      ensures KeepsCore(next, ends, S)
    {
      assert KeepsCore(live, ends, S);
      if Core(S, ends) && Alive(live, |live|, S) {
        assert CoreAt(S, ends, k);
        if k in S {
          SharedDegree(live, |live|, ends, S, k, x);
        }
      }
    }
  }

  /** What the peel has established so far. */
  ghost predicate Peeling(degrees: map<nat, int>, removed: seq<bool>, ends: Ends, queue: seq<nat>, head: nat)
    requires head <= |queue|
  {
    && Degrees(degrees, Live(removed), |removed|, ends)
    && Pending(Live(removed), ends, queue, head)
    && KeepsCores(Live(removed), ends)
  }

  lemma PeelStart(degrees: map<nat, int>, removed: seq<bool>, ends: Ends, queue: seq<nat>)
    requires removed == seq(|removed|, i => false) && Degrees(degrees, Live(removed), |removed|, ends)
    requires forall x: nat :: DegreeIn(degrees, x) == 1 ==> x in queue
    ensures Peeling(degrees, removed, ends, queue, 0)
  {
    assert queue[0..] == queue;
    forall x: nat
      ensures PendingAt(Live(removed), ends, queue, 0, x)
    {
      assert DegreesAt(degrees, Live(removed), |removed|, ends, x);
    }
  }

  /** A queued node that is not a leaf any more is passed over. */
  lemma PeelSkip(degrees: map<nat, int>, removed: seq<bool>, ends: Ends, queue: seq<nat>, head: nat)
    requires head < |queue| && Peeling(degrees, removed, ends, queue, head) && DegreeIn(degrees, queue[head]) != 1
    ensures Peeling(degrees, removed, ends, queue, head + 1)
  {
    var next := head + 1;
    assert DegreesAt(degrees, Live(removed), |removed|, ends, queue[head]);
    assert queue[head..] == [queue[head]] + queue[next..];
    forall x: nat
      ensures PendingAt(Live(removed), ends, queue, next, x)
    {
      assert PendingAt(Live(removed), ends, queue, head, x);
    }
  }

  lemma PeelDegree(removed: seq<bool>, ends: Ends, k: nat, x: nat)
    requires k < |removed| && !removed[k]
    ensures Live(removed[k := true]) == Live(removed)[k := false]
    ensures Degree(Live(removed[k := true]), |removed|, ends, x) ==
      Degree(Live(removed), |removed|, ends, x) - if Touches(ends(k), x) then 1 else 0
  {
    assert Live(removed[k := true]) == Live(removed)[k := false];
    DegreeRemove(Live(removed), |removed|, ends, k, x);
  }

  /** Removing the edge of a leaf. */
  lemma PeelEdge(degrees: map<nat, int>, removed: seq<bool>, ends: Ends, queue: seq<nat>, head: nat,
      k: nat, e: LabeledEdge, degrees': map<nat, int>, queue': seq<nat>)
    requires head < |queue| && Peeling(degrees, removed, ends, queue, head) && DegreeIn(degrees, queue[head]) == 1
    requires k < |removed| && !removed[k] && Touches(ends(k), queue[head]) && ends(k) == Edge(e.u, e.v) && e.u != e.v
    requires forall x: nat :: DegreeIn(degrees', x) == DegreeIn(degrees, x) - Decrease(e, x, 2)
    requires |queue| <= |queue'| && queue'[..|queue|] == queue
    requires forall x: nat :: Decrease(e, x, 2) > 0 && DegreeIn(degrees', x) == 1 ==> x in queue'[|queue|..]
    ensures Peeling(degrees', removed[k := true], ends, queue', head + 1)
  {
    var live, next := Live(removed[k := true]), head + 1;
    assert DegreesAt(degrees, Live(removed), |removed|, ends, queue[head]);
    assert live == Live(removed)[k := false] by {
      PeelDegree(removed, ends, k, 0);
    }
    PeelKeepsCores(Live(removed), ends, queue[head], k);
    forall x: nat
      ensures DegreesAt(degrees', live, |removed|, ends, x) && PendingAt(live, ends, queue', next, x)
    {
      PeelDegree(removed, ends, k, x);
      assert DegreesAt(degrees, Live(removed), |removed|, ends, x);
      assert PendingAt(Live(removed), ends, queue, head, x);
      PeelPending(queue, queue', head, x);
    }
  }

  lemma PeelPending(queue: seq<nat>, queue': seq<nat>, head: nat, x: nat)
    requires head < |queue| <= |queue'| && queue'[..|queue|] == queue
    ensures x in queue[head..] && x != queue[head] ==> x in queue'[head + 1..]
    ensures x in queue'[|queue|..] ==> x in queue'[head + 1..]
  {
    assert queue[head..] == [queue[head]] + queue[head + 1..];
    assert queue'[head + 1..] == queue[head + 1..] + queue'[|queue|..];
  }

  lemma LiveDrop(removed: seq<bool>, k: nat)
    requires k < |removed| && !removed[k]
    ensures LiveCount(Live(removed[k := true]), |removed|) + 1 == LiveCount(Live(removed), |removed|)
  {
    assert Live(removed[k := true]) == Live(removed)[k := false];
    LiveUpdate(Live(removed), k, false, |removed|);
  }

  /** The edges left are a core, and contain every core. */
  ghost predicate GreatestCore(removed: seq<bool>, ends: Ends) {
    Core(LiveSet(Live(removed)), ends) && KeepsCores(Live(removed), ends)
  }

  method PeelLeaves(survivors: seq<LabeledEdge>, degrees0: map<nat, int>, incident: map<nat, seq<nat>>)
      returns (removed: seq<bool>)
    requires forall i :: 0 <= i < |survivors| ==> survivors[i].u != survivors[i].v
    requires Degrees(degrees0, Live(seq(|survivors|, i => false)), |survivors|, Indexed(survivors))
    requires Incidents(incident, |survivors|, Indexed(survivors))
    ensures |removed| == |survivors| && GreatestCore(removed, Indexed(survivors))
  {
    ghost var ends := Indexed(survivors);
    removed := seq(|survivors|, i => false);
    var degrees := degrees0;
    var queue := InitialQueue(degrees);
    PeelStart(degrees, removed, ends, queue);
    var head := 0;
    while head < |queue|
      invariant head <= |queue| && |removed| == |survivors| && Peeling(degrees, removed, ends, queue, head)
      decreases 3 * LiveCount(Live(removed), |removed|) + |queue| - head
    {
      var node := queue[head];
      if DegreeIn(degrees, node) != 1 {
        PeelSkip(degrees, removed, ends, queue, head);
        head := head + 1;
        continue;
      }
      assert DegreesAt(degrees, Live(removed), |removed|, ends, node) && IncidentAt(incident, |survivors|, ends, node);
      ghost var w := DegreeWitness(Live(removed), |removed|, ends, node);
      var edgeIdx := FindUnremoved(IncidentTo(incident, node), removed);
      assert edgeIdx != -1;
      var edge := survivors[edgeIdx];
      ghost var removed0, degrees1, queue0 := removed, degrees, queue;
      LiveDrop(removed, edgeIdx);
      removed := removed[edgeIdx := true];
      degrees, queue := DropEdge(degrees, queue, edge);
      PeelEdge(degrees1, removed0, ends, queue0, head, edgeIdx, edge, degrees, queue);
      head := head + 1;
    }
    forall x: nat
      ensures Degree(Live(removed), |removed|, ends, x) != 1
    {
      assert PendingAt(Live(removed), ends, queue, head, x);
    }
    NoLeavesIsCore(Live(removed), ends);
  }
}
