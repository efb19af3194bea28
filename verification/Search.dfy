/** The depth-first search for a cycle among the surviving edges. */
module Search {
  import opened Wrappers
  import opened Cuckoo
  import opened Trim
  import opened Peel
  import Sorting

  // ---- sorting

  function Sort(s: seq<nat>): seq<nat> { Sorting.Sort((a, b) => a < b, s) }

  predicate Sorted(s: seq<nat>) {
    forall i, j :: 0 <= i < j < |s| ==> s[i] <= s[j]
  }

  lemma SortSorts(s: seq<nat>)
    ensures Sorted(Sort(s)) && multiset(Sort(s)) == multiset(s)
  {
    var less := (a, b) => a < b;
    assert Sorting.IsOrder(less);
    Sorting.SortSorts(less, s);
  }

  // ---- paths

  /** What stays fixed during a search. */
  datatype Instance = Instance(c: Config, hash: Hash, seed: Seed, survivors: seq<LabeledEdge>, removed: seq<bool>)

  ghost predicate WellFormed(I: Instance) {
    && Normalize(I.c) == Ok(I.c) && |I.seed| == SEED_LENGTH && |I.removed| == |I.survivors|
  }

  function Other(e: LabeledEdge, node: nat): nat { if e.u == node then e.v else e.u }

  predicate CanTraverse(nextNode: nat, startNode: nat, depth: nat, proofSize: nat, seenNodes: set<nat>) {
    if nextNode == startNode then depth + 1 == proofSize else nextNode !in seenNodes
  }

  predicate CanUse(I: Instance, startNode: nat, node: nat, depth: nat, used: seq<bool>, seen: set<nat>, i: nat)
    requires |I.removed| == |I.survivors| == |used| && I.c.proofSize >= 0
  {
    && i < |I.survivors| && !I.removed[i] && !used[i] && Touches(Edge(I.survivors[i].u, I.survivors[i].v), node)
    && CanTraverse(Other(I.survivors[i], node), startNode, depth, I.c.proofSize, seen)
  }

  /** The edges ext lead the current path on to a proof that ends at the start node. */
  ghost predicate Extends(I: Instance, startNode: nat, node: nat, path: seq<nat>, used: seq<bool>, seen: set<nat>,
      ext: seq<nat>)
    requires |I.removed| == |I.survivors| == |used| && I.c.proofSize >= 0
    decreases |ext|
  {
    if |path| == I.c.proofSize then
      ext == [] && node == startNode && ValidProof(I.c, I.hash, I.seed, Sort(path))
    else
      ext != [] && CanUse(I, startNode, node, |path|, used, seen, ext[0]) &&
      var next := Other(I.survivors[ext[0]], node);
      Extends(I, startNode, next, path + [I.survivors[ext[0]].nonce], used[ext[0] := true], seen + {next}, ext[1..])
  }

  /** No continuation of the path through this edge is a proof. */
  ghost predicate DeadEnd(I: Instance, startNode: nat, node: nat, path: seq<nat>, used: seq<bool>, seen: set<nat>,
      i: nat)
    requires |I.removed| == |I.survivors| == |used| && I.c.proofSize >= 0
  {
    forall ext: seq<nat> :: ext != [] && ext[0] == i ==> !Extends(I, startNode, node, path, used, seen, ext)
  }

  ghost predicate NoProof(I: Instance, startNode: nat, node: nat, path: seq<nat>, used: seq<bool>, seen: set<nat>)
    requires |I.removed| == |I.survivors| == |used| && I.c.proofSize >= 0
  {
    forall ext: seq<nat> :: !Extends(I, startNode, node, path, used, seen, ext)
  }

  ghost predicate FromSurvivors(survivors: seq<LabeledEdge>, nonces: seq<nat>) {
    forall p: nat :: p in nonces ==> HasNonce(survivors, p)
  }

  lemma DeadEndUnusable(I: Instance, startNode: nat, node: nat, path: seq<nat>, used: seq<bool>, seen: set<nat>, i: nat)
    requires |I.removed| == |I.survivors| == |used| && I.c.proofSize >= 0 && |path| < I.c.proofSize
    requires !CanUse(I, startNode, node, |path|, used, seen, i)
    ensures DeadEnd(I, startNode, node, path, used, seen, i)
  {
  }

  lemma DeadEndSearched(I: Instance, startNode: nat, node: nat, path: seq<nat>, used: seq<bool>, seen: set<nat>, i: nat)
    requires |I.removed| == |I.survivors| == |used| && I.c.proofSize >= 0 && |path| < I.c.proofSize
    requires CanUse(I, startNode, node, |path|, used, seen, i)
    requires var next := Other(I.survivors[i], node);
      NoProof(I, startNode, next, path + [I.survivors[i].nonce], used[i := true], seen + {next})
    ensures DeadEnd(I, startNode, node, path, used, seen, i)
  {
  }

  lemma AllDeadEnds(I: Instance, startNode: nat, node: nat, path: seq<nat>, used: seq<bool>, seen: set<nat>,
      list: seq<nat>)
    requires |I.removed| == |I.survivors| == |used| && I.c.proofSize >= 0 && |path| < I.c.proofSize
    requires forall i: nat :: i < |I.survivors| && Touches(Indexed(I.survivors)(i), node) ==> i in list
    requires forall m :: 0 <= m < |list| ==> DeadEnd(I, startNode, node, path, used, seen, list[m])
    ensures NoProof(I, startNode, node, path, used, seen)
  {
    forall ext: seq<nat>
      ensures !Extends(I, startNode, node, path, used, seen, ext)
    {
      if ext != [] && ext[0] in list {
        var m :| 0 <= m < |list| && list[m] == ext[0];
        assert DeadEnd(I, startNode, node, path, used, seen, list[m]);
      }
    }
  }

  class Searcher {
    const I: Instance
    const incident: map<nat, seq<nat>>
    var path: seq<nat>
    var usedEdges: seq<bool>
    var seenNodes: set<nat>

    ghost predicate Valid()
      reads this
    {
      && WellFormed(I) && Incidents(incident, |I.survivors|, Indexed(I.survivors))
      && |usedEdges| == |I.survivors| && FromSurvivors(I.survivors, path)
    }

    constructor (I: Instance, incident: map<nat, seq<nat>>)
      requires WellFormed(I) && Incidents(incident, |I.survivors|, Indexed(I.survivors))
      ensures Valid() && this.I == I && this.incident == incident
      ensures path == [] && usedEdges == seq(|I.survivors|, i => false) && seenNodes == {}
    {
      this.I, this.incident := I, incident;
      path, usedEdges, seenNodes := [], seq(|I.survivors|, i => false), {};
    }

    /** Either a proof, or nothing that continues the path is one and the
        state is as before. */
    method Dfs(startNode: nat, currentNode: nat, depth: nat) returns (proof: seq<nat>, ok: bool)
      requires Valid() && depth == |path| <= I.c.proofSize && (startNode in seenNodes ==> depth == I.c.proofSize)
      modifies this
      ensures Valid()
      ensures ok ==> ValidProof(I.c, I.hash, I.seed, proof) && FromSurvivors(I.survivors, proof)
      ensures !ok ==> path == old(path) && usedEdges == old(usedEdges) && seenNodes == old(seenNodes)
      ensures !ok ==> NoProof(I, startNode, currentNode, path, usedEdges, seenNodes)
      decreases I.c.proofSize - depth
    {
      if depth == I.c.proofSize {
        if currentNode == startNode {
          proof := Sort(path);
          SortSorts(path);
          var verified := Verify(I.c, I.hash, I.seed, proof);
          if verified.Ok? {
            SortedFromSurvivors(I.survivors, path, proof);
            return proof, true;
          }
        }
        return [], false;
      }
      var list := IncidentTo(incident, currentNode);
      assert IncidentAt(incident, |I.survivors|, Indexed(I.survivors), currentNode);
      for k := 0 to |list|
        invariant Valid() && path == old(path) && usedEdges == old(usedEdges) && seenNodes == old(seenNodes)
        invariant forall m :: 0 <= m < k ==> DeadEnd(I, startNode, currentNode, path, usedEdges, seenNodes, list[m])
      {
        assert list[k] in list;
        ok, proof := TryEdge(startNode, currentNode, depth, list[k]);
        if ok {
          return proof, true;
        }
      }
      AllDeadEnds(I, startNode, currentNode, path, usedEdges, seenNodes, list);
      return [], false;
    }

    /** One edge of the loop: taken if it may be, and taken back if it leads nowhere. */
    method TryEdge(startNode: nat, currentNode: nat, depth: nat, nextIdx: nat) returns (ok: bool, proof: seq<nat>)
      requires Valid() && depth == |path| < I.c.proofSize && startNode !in seenNodes
      requires nextIdx < |I.survivors| && Touches(Indexed(I.survivors)(nextIdx), currentNode)
      modifies this
      ensures Valid()
      ensures ok ==> ValidProof(I.c, I.hash, I.seed, proof) && FromSurvivors(I.survivors, proof)
      ensures !ok ==> path == old(path) && usedEdges == old(usedEdges) && seenNodes == old(seenNodes)
      ensures !ok ==> DeadEnd(I, startNode, currentNode, path, usedEdges, seenNodes, nextIdx)
      decreases I.c.proofSize - depth, 0
    {
      ghost var path0, used0, seen0 := path, usedEdges, seenNodes;
      proof := [];
      if I.removed[nextIdx] || usedEdges[nextIdx] {
        DeadEndUnusable(I, startNode, currentNode, path, usedEdges, seenNodes, nextIdx);
        return false, proof;
      }
      var next := I.survivors[nextIdx];
      var nextNode := Other(next, currentNode);
      if !CanTraverse(nextNode, startNode, depth, I.c.proofSize, seenNodes) {
        DeadEndUnusable(I, startNode, currentNode, path, usedEdges, seenNodes, nextIdx);
        return false, proof;
      }
      usedEdges := usedEdges[nextIdx := true];
      seenNodes := seenNodes + {nextNode};
      path := path + [next.nonce];
      proof, ok := Dfs(startNode, nextNode, depth + 1);
      if ok {
        return ok, proof;
      }
      DeadEndSearched(I, startNode, currentNode, path0, used0, seen0, nextIdx);
      path := path[..|path| - 1];
      seenNodes := seenNodes - {nextNode};
      usedEdges := usedEdges[nextIdx := false];
      assert path == path0 && usedEdges == used0 && seenNodes == seen0;
    }
  }

  lemma SortedFromSurvivors(survivors: seq<LabeledEdge>, path: seq<nat>, proof: seq<nat>)
    requires FromSurvivors(survivors, path) && multiset(proof) == multiset(path)
    ensures FromSurvivors(survivors, proof)
  {
    forall p: nat | p in proof
      ensures HasNonce(survivors, p)
    {
      assert p in multiset(proof);
    }
  }
}
