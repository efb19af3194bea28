/** Bulk trimming: rounds that drop the edges at leaf nodes, with a two-bit
    saturating counter per node. */
module Trim {
  import opened Cuckoo
  import opened Bitsets

  /** The tagged endpoints of every edge. */
  type Ends = nat -> Edge

  predicate GraphAt(ends: Ends, nodes: nat, n: nat) {
    ends(n).u % 2 == 0 && ends(n).v % 2 == 1 && ends(n).u < nodes && ends(n).v < nodes
  }

  ghost predicate Graph(ends: Ends, nodes: nat) {
    forall n: nat :: GraphAt(ends, nodes, n)
  }

  predicate Touches(e: Edge, x: nat) { e.u == x || e.v == x }

  /** The number of live edges below n at a node. */
  function Degree(alive: seq<bool>, n: nat, ends: Ends, x: nat): nat
    requires n <= |alive|
  {
    if n == 0 then 0 else Degree(alive, n - 1, ends, x) + if alive[n - 1] && Touches(ends(n - 1), x) then 1 else 0
  }

  function LiveCount(alive: seq<bool>, n: nat): nat
    requires n <= |alive|
  {
    if n == 0 then 0 else LiveCount(alive, n - 1) + if alive[n - 1] then 1 else 0
  }

  predicate AtLeaf(alive: seq<bool>, n: nat, ends: Ends, e: Edge)
    requires n <= |alive|
  {
    Degree(alive, n, ends, e.u) == 1 || Degree(alive, n, ends, e.v) == 1
  }

  /** The live edges after a round: those not at a leaf of the live edges before it. */
  function Trimmed(alive: seq<bool>, n: nat, ends: Ends): (r: seq<bool>)
    requires n <= |alive|
    ensures |r| == |alive|
  {
    seq(|alive|, i requires 0 <= i < |alive| => alive[i] && (i < n ==> !AtLeaf(alive, n, ends, ends(i))))
  }

  // ---- what trimming keeps

  /** Another edge of S ends at the same node. */
  ghost predicate Shared(S: set<nat>, ends: Ends, n: nat, x: nat) {
    exists f: nat :: f in S && f != n && Touches(ends(f), x)
  }

  /** Every node touched by S has degree at least two in S. */
  ghost predicate Core(S: set<nat>, ends: Ends) {
    forall n: nat :: CoreAt(S, ends, n)
  }

  ghost predicate CoreAt(S: set<nat>, ends: Ends, n: nat) {
    n in S ==> Shared(S, ends, n, ends(n).u) && Shared(S, ends, n, ends(n).v)
  }

  ghost predicate Alive(alive: seq<bool>, n: nat, S: set<nat>) {
    forall e: nat :: e in S ==> e < n && e < |alive| && alive[e]
  }

  lemma {:induction false} DegreeOne(alive: seq<bool>, n: nat, ends: Ends, x: nat, e: nat)
    requires e < n <= |alive| && alive[e] && Touches(ends(e), x)
    ensures Degree(alive, n, ends, x) >= 1
    decreases n
  {
    if e < n - 1 {
      DegreeOne(alive, n - 1, ends, x, e);
    }
  }

  lemma {:induction false} DegreeTwo(alive: seq<bool>, n: nat, ends: Ends, x: nat, e: nat, f: nat)
    requires e < f < n <= |alive| && alive[e] && alive[f] && Touches(ends(e), x) && Touches(ends(f), x)
    ensures Degree(alive, n, ends, x) >= 2
    decreases n
  {
    if f < n - 1 {
      DegreeTwo(alive, n - 1, ends, x, e, f);
    } else {
      DegreeOne(alive, n - 1, ends, x, e);
    }
  }

  lemma SharedDegree(alive: seq<bool>, n: nat, ends: Ends, S: set<nat>, e: nat, x: nat)
    requires n <= |alive| && Alive(alive, n, S) && e in S && Touches(ends(e), x) && Shared(S, ends, e, x)
    ensures Degree(alive, n, ends, x) >= 2
  {
    var f: nat :| f in S && f != e && Touches(ends(f), x);
    DegreeTwo(alive, n, ends, x, if e < f then e else f, if e < f then f else e);
  }

  lemma NotAtLeaf(alive: seq<bool>, n: nat, ends: Ends, S: set<nat>, e: nat)
    requires n <= |alive| && Alive(alive, n, S) && Core(S, ends) && e in S
    ensures !AtLeaf(alive, n, ends, ends(e))
  {
    assert CoreAt(S, ends, e);
    SharedDegree(alive, n, ends, S, e, ends(e).u);
    SharedDegree(alive, n, ends, S, e, ends(e).v);
  }

  /** A round never drops an edge of a core, in particular never one of a cycle. */
  lemma TrimKeepsCore(alive: seq<bool>, n: nat, ends: Ends, S: set<nat>)
    requires n <= |alive| && Alive(alive, n, S) && Core(S, ends)
    ensures Alive(Trimmed(alive, n, ends), n, S)
  {
    forall e: nat | e in S
      ensures e < n && Trimmed(alive, n, ends)[e]
    {
      NotAtLeaf(alive, n, ends, S, e);
    }
  }

  // ---- the counters

  /** One step of the counter 0, 1, 2 or more, with hi set for the last. */
  method BumpLeafCounter(lo: Bitset, hi: Bitset, node: nat)
    requires Apart(lo, hi) && node < |lo.bits| && (hi.bits[node] ==> lo.bits[node])
    modifies lo, lo.words, hi, hi.words
    ensures Apart(lo, hi)
    ensures lo.bits == old(lo.bits)[node := true] && hi.bits == old(hi.bits)[node := old(lo.bits[node])]
  {
    var high := hi.Get(node);
    if high {
      return;
    }
    var low := lo.Get(node);
    if low {
      hi.Set(node);
      return;
    }
    lo.Set(node);
  }

  method IsLeafCounter(lo: Bitset, hi: Bitset, node: nat) returns (r: bool)
    requires Apart(lo, hi) && node < |lo.bits|
    ensures r == (lo.bits[node] && !hi.bits[node])
  {
    r := lo.Get(node);
    if r {
      r := hi.Get(node);
      r := !r;
    }
  }

  ghost predicate Apart(a: Bitset, b: Bitset)
    reads a, a.words, b, b.words
  {
    a.Valid() && b.Valid() && a != b && a.words != b.words && |a.bits| == |b.bits|
  }

  /** The counters hold the degrees up to two. */
  ghost predicate Counting(lo: seq<bool>, hi: seq<bool>, alive: seq<bool>, k: nat, ends: Ends)
    requires k <= |alive|
  {
    |lo| == |hi| && forall x: nat :: x < |lo| ==> CountingAt(lo, hi, alive, k, ends, x)
  }

  predicate CountingAt(lo: seq<bool>, hi: seq<bool>, alive: seq<bool>, k: nat, ends: Ends, x: nat)
    requires k <= |alive| && x < |lo| == |hi|
  {
    lo[x] == (Degree(alive, k, ends, x) >= 1) && hi[x] == (Degree(alive, k, ends, x) >= 2)
  }

  lemma CountingNext(lo: seq<bool>, hi: seq<bool>, alive: seq<bool>, k: nat, ends: Ends, nodes: nat, lo': seq<bool>,
      hi': seq<bool>)
    requires k < |alive| && Counting(lo, hi, alive, k, ends) && GraphAt(ends, nodes, k) && nodes <= |lo|
    requires var e := ends(k);
      if alive[k] then lo' == lo[e.u := true][e.v := true] && hi' == hi[e.u := lo[e.u]][e.v := lo[e.v]]
        else lo' == lo && hi' == hi
    ensures Counting(lo', hi', alive, k + 1, ends)
  {
    var next := k + 1;
    forall x: nat | x < |lo'|
      ensures CountingAt(lo', hi', alive, next, ends, x)
    {
      assert CountingAt(lo, hi, alive, k, ends, x);
    }
  }

  method CountDegrees(alive: Bitset, lo: Bitset, hi: Bitset, maxNonce: nat, ends: Ends, nodes: nat)
    requires Three(alive, lo, hi) && maxNonce <= |alive.bits| && nodes <= |lo.bits| && Graph(ends, nodes)
    requires forall x :: 0 <= x < |lo.bits| ==> !lo.bits[x] && !hi.bits[x]
    modifies lo, lo.words, hi, hi.words
    ensures Three(alive, lo, hi) && alive.bits == old(alive.bits) && |lo.bits| == old(|lo.bits|)
    ensures Counting(lo.bits, hi.bits, alive.bits, maxNonce, ends)
  {
    for nonce := 0 to maxNonce
      invariant Three(alive, lo, hi) && alive.bits == old(alive.bits) && |lo.bits| == old(|lo.bits|)
      invariant Counting(lo.bits, hi.bits, alive.bits, nonce, ends)
    {
      ghost var low, high := lo.bits, hi.bits;
      assert GraphAt(ends, nodes, nonce);
      var live := alive.Get(nonce);
      if !live {
        CountingNext(low, high, alive.bits, nonce, ends, nodes, lo.bits, hi.bits);
        continue;
      }
      var e := ends(nonce);
      assert CountingAt(low, high, alive.bits, nonce, ends, e.u) && CountingAt(low, high, alive.bits, nonce, ends, e.v);
      BumpLeafCounter(lo, hi, e.u);
      BumpLeafCounter(lo, hi, e.v);
      CountingNext(low, high, alive.bits, nonce, ends, nodes, lo.bits, hi.bits);
    }
  }

  ghost predicate Three(alive: Bitset, lo: Bitset, hi: Bitset)
    reads alive, alive.words, lo, lo.words, hi, hi.words
  {
    && Apart(lo, hi) && alive.Valid()
    && alive != lo && alive != hi && alive.words != lo.words && alive.words != hi.words
  }

  /** Some edges dropped below k, as the round says, the rest untouched. */
  ghost predicate Dropped(before: seq<bool>, now: seq<bool>, n: nat, ends: Ends, k: nat)
    requires k <= n <= |before|
  {
    |now| == |before| && forall i :: 0 <= i < |before| ==>
      now[i] == if i < k then Trimmed(before, n, ends)[i] else before[i]
  }

  lemma DroppedCount(before: seq<bool>, now: seq<bool>, n: nat, ends: Ends, k: nat, removed: nat)
    requires k < n <= |before| && Dropped(before, now, n, ends, k)
    requires LiveCount(before, n) == LiveCount(now, n) + removed
    ensures var next := now[k := Trimmed(before, n, ends)[k]];
      Dropped(before, next, n, ends, k + 1)
      && LiveCount(before, n) == LiveCount(next, n) + removed + if before[k] && !Trimmed(before, n, ends)[k] then 1
        else 0
  {
    LiveUpdate(now, k, Trimmed(before, n, ends)[k], n);
  }

  lemma {:induction false} LiveUpdate(alive: seq<bool>, k: nat, b: bool, n: nat)
    requires k < n <= |alive|
    ensures LiveCount(alive[k := b], n) == LiveCount(alive, n) + (if b then 1 else 0) - (if alive[k] then 1 else 0)
    decreases n
  {
    if k < n - 1 {
      LiveUpdate(alive, k, b, n - 1);
    } else {
      LivePrefix(alive, alive[k := b], n - 1);
    }
  }

  lemma {:induction false} LivePrefix(a: seq<bool>, b: seq<bool>, n: nat)
    requires n <= |a| == |b| && forall i :: 0 <= i < n ==> a[i] == b[i]
    ensures LiveCount(a, n) == LiveCount(b, n)
  {
    if n > 0 {
      LivePrefix(a, b, n - 1);
    }
  }

  method EdgeAtLeaf(lo: Bitset, hi: Bitset, e: Edge, ghost alive: seq<bool>, ghost n: nat, ghost ends: Ends)
      returns (r: bool)
    requires Apart(lo, hi) && e.u < |lo.bits| && e.v < |lo.bits| && n <= |alive| &&
      Counting(lo.bits, hi.bits, alive, n, ends)
    ensures r == AtLeaf(alive, n, ends, e)
  {
    assert CountingAt(lo.bits, hi.bits, alive, n, ends, e.u) && CountingAt(lo.bits, hi.bits, alive, n, ends, e.v);
    r := IsLeafCounter(lo, hi, e.u);
    if !r {
      r := IsLeafCounter(lo, hi, e.v);
    }
  }

  method DropLeaves(alive: Bitset, lo: Bitset, hi: Bitset, maxNonce: nat, ends: Ends, nodes: nat)
      returns (removedThisRound: nat)
    requires Three(alive, lo, hi) && maxNonce <= |alive.bits| && nodes <= |lo.bits| && Graph(ends, nodes)
    requires Counting(lo.bits, hi.bits, alive.bits, maxNonce, ends)
    modifies alive, alive.words
    ensures Three(alive, lo, hi)
    ensures alive.bits == Trimmed(old(alive.bits), maxNonce, ends)
    ensures LiveCount(old(alive.bits), maxNonce) == LiveCount(alive.bits, maxNonce) + removedThisRound
  {
    ghost var before := alive.bits;
    removedThisRound := 0;
    for nonce := 0 to maxNonce
      invariant Three(alive, lo, hi)
      invariant Dropped(before, alive.bits, maxNonce, ends, nonce)
      invariant LiveCount(before, maxNonce) == LiveCount(alive.bits, maxNonce) + removedThisRound
    {
      ghost var now := alive.bits;
      DroppedCount(before, now, maxNonce, ends, nonce, removedThisRound);
      assert GraphAt(ends, nodes, nonce);
      var live := alive.Get(nonce);
      if !live {
        assert now[nonce := false] == now;
        continue;
      }
      var leaf := EdgeAtLeaf(lo, hi, ends(nonce), before, maxNonce, ends);
      if leaf {
        alive.Clear(nonce);
        removedThisRound := removedThisRound + 1;
      } else {
        assert now[nonce := true] == now;
      }
    }
  }

  /** One bulk round. */
  method TrimAliveEdges(alive: Bitset, lo: Bitset, hi: Bitset, maxNonce: nat, ends: Ends, nodes: nat)
      returns (removedThisRound: nat)
    requires Three(alive, lo, hi) && maxNonce <= |alive.bits| && nodes <= |lo.bits| && Graph(ends, nodes)
    modifies alive, alive.words, lo, lo.words, hi, hi.words
    ensures Three(alive, lo, hi) && |lo.bits| == old(|lo.bits|)
    ensures alive.bits == Trimmed(old(alive.bits), maxNonce, ends)
    ensures LiveCount(old(alive.bits), maxNonce) == LiveCount(alive.bits, maxNonce) + removedThisRound
  {
    lo.Fill(false);
    hi.Fill(false);
    CountDegrees(alive, lo, hi, maxNonce, ends, nodes);
    removedThisRound := DropLeaves(alive, lo, hi, maxNonce, ends, nodes);
  }
}
