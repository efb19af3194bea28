/** Inclusion and non-inclusion proofs of the causal trie. */
module CausalProof {
  import opened Integers
  import opened MerkleHash
  import opened Causal

  datatype CausalProofStep<K> = CausalProofStep(side: Side, hash: TrieHash<K>, count: uint64)

  datatype Terminal = LeafTerminal | EmptyTerminal

  datatype Descent<K> = Descent(hash: TrieHash<K>, count: uint64, path: seq<CausalProofStep<K>>, kind: Terminal,
    terminalDepth: nat)

  /** The descent along the bits of the target. */
  function Descend<K(!new)>(T: KeyBits<K>, keys: seq<K>, depth: nat, target: K): Descent<K>
    requires depth <= T.depth
    decreases T.depth - depth
  {
    if |keys| == 0 then Descent(Empty(T, depth), 0, [], EmptyTerminal, depth)
    else if depth == T.depth then Descent(CausalLeaf(keys[0]), 1, [], LeafTerminal, depth)
    else
      var bit := T.bit(target, depth);
      var below := Descend(T, WithBit(T, keys, depth, bit), depth + 1, target);
      var sibling := Subtree(T, WithBit(T, keys, depth, !bit), depth + 1);
      Extend(depth, bit, below, sibling)
  }

  /** A descent continued upwards by one level, past a sibling subtree. */
  function Extend<K>(depth: nat, bit: bool, below: Descent<K>, sibling: (TrieHash<K>, uint64)): Descent<K> {
    var node := if bit then Node(depth, sibling, (below.hash, below.count))
      else Node(depth, (below.hash, below.count), sibling);
    Descent(node.0, node.1, below.path + [CausalProofStep(if bit then Left else Right, sibling.0, sibling.1)],
            below.kind, below.terminalDepth)
  }

  method SubtreeRootCount<K(!new)>(T: KeyBits<K>, empty: seq<TrieHash<K>>, keys: seq<K>, depth: nat)
      returns (hash: TrieHash<K>, count: uint64)
    requires IsTable(T, empty) && depth <= T.depth
    ensures (hash, count) == Subtree(T, keys, depth)
  {
    if |keys| == 0 {
      return empty[depth], 0;
    }
    hash, count := CausalSubtreeRoot(T, empty, keys, depth);
  }

  method CausalDescend<K(!new)>(T: KeyBits<K>, empty: seq<TrieHash<K>>, keys: seq<K>, depth: nat, target: K)
      returns (d: Descent<K>)
    requires IsTable(T, empty) && depth <= T.depth
    ensures d == Descend(T, keys, depth, target)
    decreases T.depth - depth
  {
    if |keys| == 0 {
      return Descent(empty[depth], 0, [], EmptyTerminal, depth);
    }
    if depth == T.depth {
      return Descent(CausalLeaf(keys[0]), 1, [], LeafTerminal, depth);
    }
    var left, right := SplitByBit(T, keys, depth);
    var below, hash, count;
    if !T.bit(target, depth) {
      below := CausalDescend(T, empty, left, depth + 1, target);
      hash, count := SubtreeRootCount(T, empty, right, depth + 1);
    } else {
      below := CausalDescend(T, empty, right, depth + 1, target);
      hash, count := SubtreeRootCount(T, empty, left, depth + 1);
    }
    d := Extend(depth, T.bit(target, depth), below, (hash, count));
  }

  // ---- verification

  predicate WellFormed<K>(path: seq<CausalProofStep<K>>) {
    forall i :: 0 <= i < |path| ==> !path[i].side.Malformed?
  }

  /** What the path makes of a terminal; its last step is at depth `base`. */
  function Recompute<K>(terminal: (TrieHash<K>, uint64), base: nat, path: seq<CausalProofStep<K>>): (TrieHash<K>,
      uint64)
    decreases |path|
  {
    if path == [] then terminal else
      var step := path[|path| - 1];
      var below := Recompute(terminal, base + 1, path[..|path| - 1]);
      if step.side.Left? then Node(base, (step.hash, step.count), below) else Node(base, below, (step.hash, step.count))
  }

  /** The path leads from the terminal to the root and its count. */
  predicate Accepts<K(==)>(terminal: (TrieHash<K>, uint64), path: seq<CausalProofStep<K>>, commitment: (TrieHash<K>,
      uint64)) {
    WellFormed(path) && Recompute(terminal, 0, path) == commitment
  }

  method VerifyCausalPath<K(==)>(terminalHash: TrieHash<K>, terminalCount: uint64, terminalDepth: nat,
      path: seq<CausalProofStep<K>>, root: TrieHash<K>, count: uint64) returns (ok: bool)
    ensures ok <==> |path| == terminalDepth && Accepts((terminalHash, terminalCount), path, (root, count))
  {
    if |path| != terminalDepth {
      return false;
    }
    var curHash, curCount := terminalHash, terminalCount;
    var depth := terminalDepth - 1;
    for i := 0 to |path|
      invariant depth == terminalDepth - 1 - i && WellFormed(path[..i])
      invariant (curHash, curCount) == Recompute((terminalHash, terminalCount), depth + 1, path[..i])
    {
      assert path[..i + 1][..i] == path[..i];
      var step := path[i];
      match step.side {
        case Left => curHash := CausalNode(depth, step.hash, step.count, curHash, curCount);
        case Right => curHash := CausalNode(depth, curHash, curCount, step.hash, step.count);
        case Malformed => return false;
      }
      curCount := Add(curCount, step.count);
      depth := depth - 1;
    }
    assert path[..|path|] == path;
    ok := curHash == root && curCount == count;
  }

  method VerifyCausalInclusion<K(==)>(T: KeyBits<K>, key: K, path: seq<CausalProofStep<K>>, root: TrieHash<K>,
      count: uint64) returns (ok: bool)
    ensures ok <==> |path| == T.depth && Accepts((CausalLeaf(key), 1), path, (root, count))
  {
    ok := VerifyCausalPath(CausalLeaf(key), 1, T.depth, path, root, count);
  }

  method VerifyCausalNonInclusion<K(==,!new)>(T: KeyBits<K>, empty: seq<TrieHash<K>>, terminalDepth: int,
      path: seq<CausalProofStep<K>>, root: TrieHash<K>, count: uint64) returns (ok: bool)
    requires IsTable(T, empty)
    ensures ok <==> |path| == terminalDepth <= T.depth && Accepts((Empty(T, |path|), 0), path, (root, count))
  {
    if terminalDepth < 0 || terminalDepth > T.depth {
      return false;
    }
    ok := VerifyCausalPath(empty[terminalDepth], 0, terminalDepth, path, root, count);
  }

  // ---- what an accepted path shows

  /** A key lies on the path: its bits from depth `base` on are the sides of the
      path, read from the root down. */
  ghost predicate OnPath<K>(T: KeyBits<K>, key: K, base: nat, path: seq<CausalProofStep<K>>)
    decreases |path|
  {
    path == [] ||
      (T.bit(key, base) == path[|path| - 1].side.Left? && OnPath(T, key, base + 1, path[..|path| - 1]))
  }

  /** The sides of a path, which starts at the leaf, spell the bits of a key: a
      sibling is on the left exactly where the key goes right. */
  ghost predicate Spells<K>(T: KeyBits<K>, key: K, path: seq<CausalProofStep<K>>) {
    forall d: nat :: d < |path| ==> SpellsAt(T, key, 0, path, d)
  }

  ghost predicate SpellsAt<K>(T: KeyBits<K>, key: K, base: nat, path: seq<CausalProofStep<K>>, d: nat)
    requires d < |path|
  {
    path[|path| - 1 - d].side == if T.bit(key, base + d) then Left else Right
  }

  lemma {:induction false} OnPathSpells<K>(T: KeyBits<K>, key: K, base: nat, path: seq<CausalProofStep<K>>)
    requires WellFormed(path)
    ensures OnPath(T, key, base, path) <==> forall d: nat :: d < |path| ==> SpellsAt(T, key, base, path, d)
    decreases |path|
  {
    if path != [] {
      var rest, next := path[..|path| - 1], base + 1;
      OnPathSpells(T, key, next, rest);
      forall d: nat | d < |rest|
        ensures SpellsAt(T, key, next, rest, d) == SpellsAt(T, key, base, path, d + 1)
      {
      }
      assert SpellsAt(T, key, base, path, 0) == (T.bit(key, base) == path[|path| - 1].side.Left?);
      if forall d: nat :: d < |rest| ==> SpellsAt(T, key, next, rest, d) {
        forall d: nat | 0 < d < |path|
          ensures SpellsAt(T, key, base, path, d)
        {
          assert SpellsAt(T, key, next, rest, d - 1);
        }
      }
      if forall d: nat :: d < |path| ==> SpellsAt(T, key, base, path, d) {
        forall d: nat | d < |rest|
          ensures SpellsAt(T, key, next, rest, d)
        {
          assert SpellsAt(T, key, base, path, d + 1);
        }
      }
    }
  }

  /** The keys on the path are those of the subtree it ends in. */
  ghost function EndOf<K(!new)>(T: KeyBits<K>, keys: seq<K>, base: nat, path: seq<CausalProofStep<K>>): (r: seq<K>)
    ensures forall k :: k in r <==> k in keys && OnPath(T, k, base, path)
    decreases |path|
  {
    if path == [] then keys else
      WithBitMembers(T, keys, base, path[|path| - 1].side.Left?);
      EndOf(T, WithBit(T, keys, base, path[|path| - 1].side.Left?), base + 1, path[..|path| - 1])
  }

  /** A path that recomputes the hash of a subtree ends in the subtree of the
      keys on it, with the same hash. */
  lemma {:induction false} PathBinds<K(!new)>(T: KeyBits<K>, keys: seq<K>, base: nat, path: seq<CausalProofStep<K>>,
      terminal: (TrieHash<K>, uint64))
    requires base + |path| <= T.depth
    requires Recompute(terminal, base, path).0 == Subtree(T, keys, base).0
    ensures Subtree(T, EndOf(T, keys, base, path), base + |path|).0 == terminal.0
    decreases |path|
  {
    if path != [] {
      SubtreeNode(T, keys, base);
      PathBinds(T, WithBit(T, keys, base, path[|path| - 1].side.Left?), base + 1, path[..|path| - 1], terminal);
    }
  }

  /** A path accepted for the inclusion of a key against the root of some keys
      shows that the key is one of them. */
  lemma InclusionSound<K(!new)>(T: KeyBits<K>, keys: seq<K>, key: K, path: seq<CausalProofStep<K>>)
    requires |path| == T.depth
    requires Recompute((CausalLeaf(key), 1), 0, path).0 == Subtree(T, keys, 0).0
    ensures key in keys && OnPath(T, key, 0, path)
  {
    PathBinds(T, keys, 0, path, (CausalLeaf(key), 1));
    var end := EndOf(T, keys, 0, path);
    assert key == end[0] && end[0] in end;
  }

  /** A path accepted for non-inclusion shows that no member has the bits
      spelled by its sides. */
  lemma NonInclusionSound<K(!new)>(T: KeyBits<K>, keys: seq<K>, path: seq<CausalProofStep<K>>)
    requires |path| <= T.depth
    requires Recompute((Empty(T, |path|), 0), 0, path).0 == Subtree(T, keys, 0).0
    ensures forall k :: k in keys ==> !OnPath(T, k, 0, path)
  {
    PathBinds(T, keys, 0, path, (Empty(T, |path|), 0));
    EmptyIsEmpty(T, EndOf(T, keys, 0, path), |path|);
    forall k | k in keys
      ensures !OnPath(T, k, 0, path)
    {
      assert k !in EndOf(T, keys, 0, path);
    }
  }

  // ---- what a descent yields

  function TerminalOf<K(!new)>(T: KeyBits<K>, d: Descent<K>, target: K): (TrieHash<K>, uint64)
    requires d.terminalDepth <= T.depth
  {
    if d.kind.LeafTerminal? then (CausalLeaf(target), 1) else (Empty(T, d.terminalDepth), 0)
  }

  lemma ExtendShape<K(!new)>(T: KeyBits<K>, depth: nat, target: K, below: Descent<K>, sibling: (TrieHash<K>, uint64))
    requires WellFormed(below.path) && OnPath(T, target, depth + 1, below.path)
    ensures var d := Extend(depth, T.bit(target, depth), below, sibling);
      |d.path| == |below.path| + 1 && WellFormed(d.path) && OnPath(T, target, depth, d.path)
  {
    var bit := T.bit(target, depth);
    var step := CausalProofStep(if bit then Left else Right, sibling.0, sibling.1);
    Snoc(below.path, step);
    assert Extend(depth, bit, below, sibling).path == below.path + [step];
  }

  lemma Snoc<S>(a: seq<S>, x: S)
    ensures |a + [x]| == |a| + 1 && (a + [x])[..|a|] == a && (a + [x])[|a|] == x
  {
  }

  /** The shape of a descent, whatever the keys. */
  lemma {:induction false} DescentShape<K(!new)>(T: KeyBits<K>, keys: seq<K>, depth: nat, target: K)
    requires depth <= T.depth
    ensures var d := Descend(T, keys, depth, target);
      && (d.hash, d.count) == Subtree(T, keys, depth)
      && depth <= d.terminalDepth <= T.depth && |d.path| == d.terminalDepth - depth
      && (d.kind.LeafTerminal? ==> d.terminalDepth == T.depth)
      && WellFormed(d.path) && OnPath(T, target, depth, d.path)
    decreases T.depth - depth
  {
    if |keys| > 0 && depth < T.depth {
      var bit := T.bit(target, depth);
      DescentShape(T, WithBit(T, keys, depth, bit), depth + 1, target);
      ExtendShape(T, depth, target, Descend(T, WithBit(T, keys, depth, bit), depth + 1, target),
        Subtree(T, WithBit(T, keys, depth, !bit), depth + 1));
    }
  }

  /** The descent ends in a leaf exactly for the members. */
  lemma {:induction false} DescentKind<K(!new)>(T: KeyBits<K>, keys: seq<K>, depth: nat, target: K)
    requires Identifies(T) && depth <= T.depth && forall k :: k in keys ==> Agree(T, k, target, depth)
    ensures Descend(T, keys, depth, target).kind.LeafTerminal? <==> target in keys
    decreases T.depth - depth
  {
    if |keys| > 0 {
      if depth == T.depth {
        assert keys[0] in keys;
        assert IdentifiedAt(T, keys[0], target);
      } else {
        var half := WithBit(T, keys, depth, T.bit(target, depth));
        WithBitMembers(T, keys, depth, T.bit(target, depth));
        forall k | k in half
          ensures Agree(T, k, target, depth + 1)
        {
          assert Agree(T, k, target, depth);
        }
        DescentKind(T, half, depth + 1, target);
      }
    }
  }

  /** The path of a descent verifies. */
  lemma {:induction false} DescentVerifies<K(!new)>(T: KeyBits<K>, keys: seq<K>, depth: nat, target: K)
    requires Identifies(T) && depth <= T.depth && forall k :: k in keys ==> Agree(T, k, target, depth)
    ensures var d := Descend(T, keys, depth, target);
      d.terminalDepth <= T.depth && Recompute(TerminalOf(T, d, target), depth, d.path) == (d.hash, d.count)
    decreases T.depth - depth
  {
    DescentShape(T, keys, depth, target);
    if |keys| > 0 {
      if depth == T.depth {
        assert keys[0] in keys;
        assert IdentifiedAt(T, keys[0], target);
      } else {
        var bit := T.bit(target, depth);
        var half := WithBit(T, keys, depth, bit);
        WithBitMembers(T, keys, depth, bit);
        forall k | k in half
          ensures Agree(T, k, target, depth + 1)
        {
          assert Agree(T, k, target, depth);
        }
        DescentVerifies(T, half, depth + 1, target);
        var below, d := Descend(T, half, depth + 1, target), Descend(T, keys, depth, target);
        assert d.path[..|d.path| - 1] == below.path;
      }
    }
  }

  // ---- causal sets

  /** An immutable population of keys. */
  datatype CausalSet<!K> = CausalSet(keys: set<K>) {
    function Insert(key: K): CausalSet<K> { CausalSet(keys + {key}) }

    function Union(other: CausalSet<K>): CausalSet<K> { CausalSet(keys + other.keys) }
  }

  /** The members in whatever order the map yields them. */
  method KeySlice<K(==)>(s: CausalSet<K>) returns (keys: seq<K>)
    ensures SetOf(keys) == s.keys && |keys| == |s.keys|
  {
    keys := [];
    var rest := s.keys;
    while rest != {}
      invariant rest !! SetOf(keys) && SetOf(keys) + rest == s.keys && |keys| + |rest| == |s.keys|
      decreases |rest|
    {
      var k :| k in rest;
      rest := rest - {k};
      keys := keys + [k];
      assert SetOf(keys) == SetOf(keys[..|keys| - 1]) + {k};
    }
  }

  /** The root and count that a set commits to. */
  ghost function Commitment<K(!new)>(T: KeyBits<K>, s: CausalSet<K>): (TrieHash<K>, uint64) { SetTree(T, s.keys, 0) }

  lemma CommitmentOfKeys<K(!new)>(T: KeyBits<K>, s: CausalSet<K>, keys: seq<K>)
    requires Identifies(T) && SetOf(keys) == s.keys
    ensures Subtree(T, keys, 0) == Commitment(T, s)
  {
    SubtreeOfSet(T, keys, 0);
  }

  method Root<K(==,!new)>(T: KeyBits<K>, empty: seq<TrieHash<K>>, s: CausalSet<K>) returns (root: TrieHash<K>)
    requires Identifies(T) && IsTable(T, empty)
    ensures root == Commitment(T, s).0
  {
    var keys := KeySlice(s);
    CommitmentOfKeys(T, s, keys);
    if |keys| == 0 {
      return empty[0];
    }
    var count;
    root, count := CausalSubtreeRoot(T, empty, keys, 0);
  }

  lemma InKeys<K>(keys: seq<K>, key: K)
    ensures key in keys <==> key in SetOf(keys)
  {
  }

  /** A proof exactly for the members, which verifies against the commitment of the set. */
  method InclusionProof<K(==,!new)>(T: KeyBits<K>, empty: seq<TrieHash<K>>, s: CausalSet<K>, key: K)
      returns (path: seq<CausalProofStep<K>>, root: TrieHash<K>, count: uint64, ok: bool)
    requires Identifies(T) && IsTable(T, empty)
    ensures ok <==> key in s.keys
    ensures (root, count) == Commitment(T, s)
    ensures ok ==> |path| == T.depth && Accepts((CausalLeaf(key), 1), path, (root, count)) && OnPath(T, key, 0, path)
    ensures ok ==> Spells(T, key, path)
  {
    var keys := KeySlice(s);
    CommitmentOfKeys(T, s, keys);
    InKeys(keys, key);
    if |keys| == 0 {
      return [], empty[0], 0, false;
    }
    var d := CausalDescend(T, empty, keys, 0, key);
    DescentShape(T, keys, 0, key);
    DescentKind(T, keys, 0, key);
    DescentVerifies(T, keys, 0, key);
    OnPathSpells(T, key, 0, d.path);
    if d.kind != LeafTerminal {
      return [], d.hash, d.count, false;
    }
    return d.path, d.hash, d.count, true;
  }

  /** A proof exactly for the keys that are not members. */
  method NonInclusionProof<K(==,!new)>(T: KeyBits<K>, empty: seq<TrieHash<K>>, s: CausalSet<K>, key: K)
      returns (path: seq<CausalProofStep<K>>, terminalDepth: nat, root: TrieHash<K>, count: uint64, ok: bool)
    requires Identifies(T) && IsTable(T, empty)
    ensures ok <==> key !in s.keys
    ensures (root, count) == Commitment(T, s)
    ensures ok ==> |path| == terminalDepth <= T.depth && OnPath(T, key, 0, path) && Spells(T, key, path)
    ensures ok ==> |path| <= T.depth && Accepts((Empty(T, |path|), 0), path, (root, count))
  {
    var keys := KeySlice(s);
    CommitmentOfKeys(T, s, keys);
    InKeys(keys, key);
    if |keys| == 0 {
      return [], 0, empty[0], 0, true;
    }
    var d := CausalDescend(T, empty, keys, 0, key);
    DescentShape(T, keys, 0, key);
    DescentKind(T, keys, 0, key);
    DescentVerifies(T, keys, 0, key);
    OnPathSpells(T, key, 0, d.path);
    if d.kind != EmptyTerminal {
      return [], 0, d.hash, d.count, false;
    }
    return d.path, d.terminalDepth, d.hash, d.count, true;
  }

  /** Against the commitment of a set, an accepted inclusion path shows
      membership, and an accepted non-inclusion path that no member has the bits
      of its sides. */
  lemma AcceptedAgainstSet<K(!new)>(T: KeyBits<K>, s: CausalSet<K>, keys: seq<K>, key: K, path: seq<CausalProofStep<K>>)
    requires Identifies(T) && SetOf(keys) == s.keys
    ensures |path| == T.depth && Accepts((CausalLeaf(key), 1), path, Commitment(T, s)) ==> key in s.keys
    ensures |path| <= T.depth && Accepts((Empty(T, |path|), 0), path, Commitment(T, s)) ==>
      forall k :: k in s.keys ==> !OnPath(T, k, 0, path)
  {
    CommitmentOfKeys(T, s, keys);
    InKeys(keys, key);
    if |path| == T.depth && Accepts((CausalLeaf(key), 1), path, Commitment(T, s)) {
      InclusionSound(T, keys, key, path);
    }
    if |path| <= T.depth && Accepts((Empty(T, |path|), 0), path, Commitment(T, s)) {
      NonInclusionSound(T, keys, path);
    }
  }

  // ---- what the root says about the set

  lemma Listed<K>(S: set<K>) returns (keys: seq<K>)
    ensures SetOf(keys) == S
    decreases |S|
  {
    keys := [];
    if S != {} {
      var k :| k in S;
      var rest := Listed(S - {k});
      keys := [k] + rest;
      assert SetOf(keys) == {k} + SetOf(rest);
    }
  }

  lemma RootBindsMember<K(!new)>(T: KeyBits<K>, s: CausalSet<K>, other: CausalSet<K>, key: K)
    requires Identifies(T) && Commitment(T, s).0 == Commitment(T, other).0 && key in s.keys
    ensures key in other.keys
  {
    var keys := Listed(s.keys);
    var others := Listed(other.keys);
    CommitmentOfKeys(T, s, keys);
    CommitmentOfKeys(T, other, others);
    InKeys(keys, key);
    InKeys(others, key);
    DescentShape(T, keys, 0, key);
    DescentKind(T, keys, 0, key);
    DescentVerifies(T, keys, 0, key);
    InclusionSound(T, others, key, Descend(T, keys, 0, key).path);
  }

  /** The root alone identifies the set. */
  lemma RootIdentifies<K(!new)>(T: KeyBits<K>, s: CausalSet<K>, other: CausalSet<K>)
    requires Identifies(T)
    ensures Commitment(T, s).0 == Commitment(T, other).0 <==> s.keys == other.keys
  {
    if Commitment(T, s).0 == Commitment(T, other).0 {
      forall key
        ensures key in s.keys <==> key in other.keys
      {
        if key in s.keys {
          RootBindsMember(T, s, other, key);
        }
        if key in other.keys {
          RootBindsMember(T, other, s, key);
        }
      }
    }
  }

  /** Inserting keeps the root exactly for a key that is there already. */
  lemma InsertCommits<K(!new)>(T: KeyBits<K>, s: CausalSet<K>, key: K)
    requires Identifies(T)
    ensures Commitment(T, s.Insert(key)).0 == Commitment(T, s).0 <==> key in s.keys
  {
    RootIdentifies(T, s.Insert(key), s);
  }

  /** A union has the root of its first part exactly when the other adds nothing,
      and it does not matter which comes first. */
  lemma UnionCommits<K(!new)>(T: KeyBits<K>, s: CausalSet<K>, other: CausalSet<K>)
    requires Identifies(T)
    ensures Commitment(T, s.Union(other)).0 == Commitment(T, s).0 <==> other.keys <= s.keys
    ensures Commitment(T, s.Union(other)) == Commitment(T, other.Union(s))
  {
    RootIdentifies(T, s.Union(other), s);
    assert s.keys + other.keys == other.keys + s.keys;
  }
}
