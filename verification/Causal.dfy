/** The causal sparse Merkle sum trie over a set of keys, one level per bit. The
    depth and the bits of a key are parameters; the code has 256 levels over
    32-byte keys. */
module Causal {
  import opened Integers
  import opened MerkleHash

  /** Keys of a number of bits. */
  datatype KeyBits<!K> = KeyBits(depth: nat, bit: (K, nat) -> bool)

  predicate SameBit<K>(T: KeyBits<K>, a: K, b: K, d: nat) { T.bit(a, d) == T.bit(b, d) }

  /** Two keys agree on their first bits. */
  ghost predicate Agree<K>(T: KeyBits<K>, a: K, b: K, depth: nat) {
    forall d: nat :: d < depth ==> SameBit(T, a, b, d)
  }

  ghost predicate IdentifiedAt<K>(T: KeyBits<K>, a: K, b: K) { Agree(T, a, b, T.depth) ==> a == b }

  /** All its bits identify a key. */
  ghost predicate Identifies<K(!new)>(T: KeyBits<K>) {
    forall a, b :: IdentifiedAt(T, a, b)
  }

  // ---- the trie

  /** The root of an empty subtree at each depth. */
  function Empty<K>(T: KeyBits<K>, d: nat): TrieHash<K>
    requires d <= T.depth
    decreases T.depth - d
  {
    if d == T.depth then CausalEmptyLeaf else CausalNode(d, Empty(T, d + 1), 0, Empty(T, d + 1), 0)
  }

  ghost predicate IsTable<K>(T: KeyBits<K>, empty: seq<TrieHash<K>>) {
    |empty| == T.depth + 1 && forall d: nat :: d <= T.depth ==> empty[d] == Empty(T, d)
  }

  method BuildCausalEmpty<K>(T: KeyBits<K>) returns (empty: array<TrieHash<K>>)
    ensures fresh(empty) && IsTable(T, empty[..])
  {
    empty := new TrieHash<K>[T.depth + 1](i => CausalEmptyLeaf);
    var d := T.depth;
    while d > 0
      invariant d <= T.depth && forall e: nat :: d <= e <= T.depth ==> empty[e] == Empty(T, e)
    {
      d := d - 1;
      empty[d] := CausalNode(d, empty[d + 1], 0, empty[d + 1], 0);
    }
  }

  function Add(a: uint64, b: uint64): uint64 { (a + b) % 0x1_0000_0000_0000_0000 }

  /** The keys with a given bit, in order. */
  function WithBit<K>(T: KeyBits<K>, keys: seq<K>, depth: nat, bit: bool): seq<K> {
    if keys == [] then [] else
      var rest := WithBit(T, keys[..|keys| - 1], depth, bit);
      if T.bit(keys[|keys| - 1], depth) == bit then rest + [keys[|keys| - 1]] else rest
  }

  lemma {:induction false} WithBitMembers<K(!new)>(T: KeyBits<K>, keys: seq<K>, depth: nat, bit: bool)
    ensures forall k :: k in WithBit(T, keys, depth, bit) <==> k in keys && T.bit(k, depth) == bit
  {
    if keys != [] {
      WithBitMembers(T, keys[..|keys| - 1], depth, bit);
    }
  }

  method SplitByBit<K(!new)>(T: KeyBits<K>, keys: seq<K>, depth: nat) returns (left: seq<K>, right: seq<K>)
    ensures left == WithBit(T, keys, depth, false) && right == WithBit(T, keys, depth, true)
  {
    left, right := [], [];
    for i := 0 to |keys|
      invariant left == WithBit(T, keys[..i], depth, false) && right == WithBit(T, keys[..i], depth, true)
    {
      assert keys[..i + 1][..i] == keys[..i];
      if !T.bit(keys[i], depth) {
        left := left + [keys[i]];
      } else {
        right := right + [keys[i]];
      }
    }
    assert keys[..|keys|] == keys;
  }

  /** Root and count of the subtree that holds the keys. */
  function Subtree<K(!new)>(T: KeyBits<K>, keys: seq<K>, depth: nat): (TrieHash<K>, uint64)
    requires depth <= T.depth
    decreases T.depth - depth
  {
    if |keys| == 0 then (Empty(T, depth), 0)
    else if depth == T.depth then (CausalLeaf(keys[0]), 1)
    else Node(depth, Subtree(T, WithBit(T, keys, depth, false), depth + 1),
      Subtree(T, WithBit(T, keys, depth, true), depth + 1))
  }

  /** A node over two subtrees. */
  function Node<K>(depth: nat, l: (TrieHash<K>, uint64), r: (TrieHash<K>, uint64)): (TrieHash<K>, uint64) {
    (CausalNode(depth, l.0, l.1, r.0, r.1), Add(l.1, r.1))
  }

  method CausalSubtreeRoot<K(!new)>(T: KeyBits<K>, empty: seq<TrieHash<K>>, keys: seq<K>, depth: nat)
      returns (hash: TrieHash<K>, count: uint64)
    requires IsTable(T, empty) && keys != [] && depth <= T.depth
    ensures (hash, count) == Subtree(T, keys, depth)
    decreases T.depth - depth
  {
    if depth == T.depth {
      return CausalLeaf(keys[0]), 1;
    }
    var left, right := SplitByBit(T, keys, depth);
    var leftHash, leftCount := empty[depth + 1], 0;
    if |left| > 0 {
      leftHash, leftCount := CausalSubtreeRoot(T, empty, left, depth + 1);
    }
    var rightHash, rightCount := empty[depth + 1], 0;
    if |right| > 0 {
      rightHash, rightCount := CausalSubtreeRoot(T, empty, right, depth + 1);
    }
    return CausalNode(depth, leftHash, leftCount, rightHash, rightCount), Add(leftCount, rightCount);
  }

  // ---- the trie of a set

  ghost predicate AllAgree<K(!new)>(T: KeyBits<K>, S: set<K>, depth: nat) {
    forall a, b :: a in S && b in S ==> Agree(T, a, b, depth)
  }

  ghost function HalfOf<K>(T: KeyBits<K>, S: set<K>, depth: nat, bit: bool): set<K> {
    set k | k in S && T.bit(k, depth) == bit
  }

  lemma HalfAgrees<K(!new)>(T: KeyBits<K>, S: set<K>, depth: nat, bit: bool)
    requires AllAgree(T, S, depth)
    ensures AllAgree(T, HalfOf(T, S, depth, bit), depth + 1)
  {
    forall a, b | a in HalfOf(T, S, depth, bit) && b in HalfOf(T, S, depth, bit)
      ensures Agree(T, a, b, depth + 1)
    {
      assert Agree(T, a, b, depth);
    }
  }

  /** At full depth at most one key is left. */
  lemma OneLeft<K(!new)>(T: KeyBits<K>, S: set<K>, k: K)
    requires Identifies(T) && AllAgree(T, S, T.depth) && k in S
    ensures S == {k}
  {
    forall j | j in S
      ensures j == k
    {
      assert IdentifiedAt(T, j, k);
    }
  }

  /** The trie as a function of the set alone. */
  ghost function SetTree<K(!new)>(T: KeyBits<K>, S: set<K>, depth: nat): (TrieHash<K>, uint64)
    requires depth <= T.depth
    decreases T.depth - depth
  {
    if S == {} then (Empty(T, depth), 0)
    else if depth == T.depth then (var k :| k in S; CausalLeaf(k), 1)
    else Node(depth, SetTree(T, HalfOf(T, S, depth, false), depth + 1),
      SetTree(T, HalfOf(T, S, depth, true), depth + 1))
  }

  ghost function SetOf<K>(keys: seq<K>): set<K> { set k | k in keys }

  lemma HalfOfKeys<K(!new)>(T: KeyBits<K>, keys: seq<K>, depth: nat, bit: bool)
    ensures SetOf(WithBit(T, keys, depth, bit)) == HalfOf(T, SetOf(keys), depth, bit)
  {
    WithBitMembers(T, keys, depth, bit);
  }

  /** Whatever the order of the keys, the subtree is that of their set. */
  lemma {:induction false} SubtreeOfSet<K(!new)>(T: KeyBits<K>, keys: seq<K>, depth: nat)
    requires Identifies(T) && depth <= T.depth && AllAgree(T, SetOf(keys), depth)
    ensures Subtree(T, keys, depth) == SetTree(T, SetOf(keys), depth)
    decreases T.depth - depth
  {
    if |keys| == 0 {
      assert SetOf(keys) == {};
    } else {
      assert keys[0] in SetOf(keys);
      if depth == T.depth {
        OneLeft(T, SetOf(keys), keys[0]);
      } else {
        forall bit: bool
          ensures Subtree(T, WithBit(T, keys, depth, bit), depth + 1) ==
            SetTree(T, HalfOf(T, SetOf(keys), depth, bit), depth + 1)
        {
          HalfAgrees(T, SetOf(keys), depth, bit);
          HalfOfKeys(T, keys, depth, bit);
          SubtreeOfSet(T, WithBit(T, keys, depth, bit), depth + 1);
        }
      }
    }
  }

  /** The count of the trie is the size of the set. */
  lemma {:induction false} TreeCount<K(!new)>(T: KeyBits<K>, S: set<K>, depth: nat)
    requires Identifies(T) && depth <= T.depth && AllAgree(T, S, depth) && |S| < 0x1_0000_0000_0000_0000
    ensures SetTree(T, S, depth).1 == |S|
    decreases T.depth - depth
  {
    if S != {} {
      if depth == T.depth {
        var k :| k in S;
        OneLeft(T, S, k);
      } else {
        HalvesCount(T, S, depth);
        HalfAgrees(T, S, depth, false);
        HalfAgrees(T, S, depth, true);
        TreeCount(T, HalfOf(T, S, depth, false), depth + 1);
        TreeCount(T, HalfOf(T, S, depth, true), depth + 1);
      }
    }
  }

  lemma HalvesCount<K(!new)>(T: KeyBits<K>, S: set<K>, depth: nat)
    ensures |S| == |HalfOf(T, S, depth, false)| + |HalfOf(T, S, depth, true)|
  {
    var L, R := HalfOf(T, S, depth, false), HalfOf(T, S, depth, true);
    assert S == L + R && L !! R;
  }

  // ---- the laws of the trie

  /** The subtree of some keys that agree so far is the node of those with a clear
      bit, on the left, and those with a set bit, on the right. */
  ghost predicate JoinsAt<K(!new)>(T: KeyBits<K>, tree: (set<K>, nat) -> (TrieHash<K>, uint64), S: set<K>, d: nat) {
    d < T.depth && AllAgree(T, S, d) ==>
      var l := tree((set k | k in S && !T.bit(k, d)), d + 1);
      var r := tree((set k | k in S && T.bit(k, d)), d + 1);
      tree(S, d) == (CausalNode(d, l.0, l.1, r.0, r.1), (l.1 + r.1) % 0x1_0000_0000_0000_0000)
  }

  ghost predicate IsTrie<K(!new)>(T: KeyBits<K>, tree: (set<K>, nat) -> (TrieHash<K>, uint64)) {
    && tree({}, T.depth) == (CausalEmptyLeaf, 0)
    && (forall k :: tree({k}, T.depth) == (CausalLeaf(k), 1))
    && forall S, d :: JoinsAt(T, tree, S, d)
  }

  lemma HalvesAre<K(!new)>(T: KeyBits<K>, S: set<K>, d: nat)
    ensures HalfOf(T, S, d, false) == set k | k in S && !T.bit(k, d)
    ensures HalfOf(T, S, d, true) == set k | k in S && T.bit(k, d)
  {
  }

  lemma SetTreeJoins<K(!new)>(T: KeyBits<K>, S: set<K>, d: nat)
    requires d < T.depth
    ensures SetTree(T, S, d) == Node(d, SetTree(T, HalfOf(T, S, d, false), d + 1),
      SetTree(T, HalfOf(T, S, d, true), d + 1))
  {
    if S == {} {
      assert HalfOf(T, S, d, false) == {} && HalfOf(T, S, d, true) == {};
    }
  }

  ghost predicate IsSetTree<K(!new)>(T: KeyBits<K>, tree: (set<K>, nat) -> (TrieHash<K>, uint64)) {
    forall S, d: nat :: d <= T.depth && AllAgree(T, S, d) ==> tree(S, d) == SetTree(T, S, d)
  }

  lemma SetTreeObeys<K(!new)>(T: KeyBits<K>, tree: (set<K>, nat) -> (TrieHash<K>, uint64), S: set<K>, d: nat)
    requires IsSetTree(T, tree)
    ensures JoinsAt(T, tree, S, d)
  {
    if d < T.depth && AllAgree(T, S, d) {
      SetTreeJoins(T, S, d);
      HalvesAre(T, S, d);
      HalfAgrees(T, S, d, false);
      HalfAgrees(T, S, d, true);
    }
  }

  lemma SetTreeLeaf<K(!new)>(T: KeyBits<K>, tree: (set<K>, nat) -> (TrieHash<K>, uint64), k: K)
    requires IsSetTree(T, tree)
    ensures tree({k}, T.depth) == (CausalLeaf(k), 1)
  {
    assert AllAgree(T, {k}, T.depth);
  }

  /** The laws leave no choice: they hold of the trie computed here, and of
      nothing that differs from it on some set of keys that agree so far. */
  lemma TrieIsTree<K(!new)>(T: KeyBits<K>, tree: (set<K>, nat) -> (TrieHash<K>, uint64))
    requires Identifies(T)
    ensures IsTrie(T, tree) <==> IsSetTree(T, tree)
  {
    if IsTrie(T, tree) {
      forall S, d: nat | d <= T.depth && AllAgree(T, S, d)
        ensures tree(S, d) == SetTree(T, S, d)
      {
        LawsDecide(T, tree, S, d);
      }
    }
    if IsSetTree(T, tree) {
      assert AllAgree(T, {}, T.depth);
      forall k { SetTreeLeaf(T, tree, k); }
      forall S, d: nat { SetTreeObeys(T, tree, S, d); }
    }
  }

  lemma {:induction false} LawsDecide<K(!new)>(T: KeyBits<K>, tree: (set<K>, nat) -> (TrieHash<K>, uint64), S: set<K>,
      d: nat)
    requires Identifies(T) && IsTrie(T, tree) && d <= T.depth && AllAgree(T, S, d)
    ensures tree(S, d) == SetTree(T, S, d)
    decreases T.depth - d
  {
    if d == T.depth {
      if S != {} {
        var k :| k in S;
        OneLeft(T, S, k);
      }
    } else {
      assert JoinsAt(T, tree, S, d);
      SetTreeJoins(T, S, d);
      HalvesAre(T, S, d);
      HalfAgrees(T, S, d, false);
      HalfAgrees(T, S, d, true);
      LawsDecide(T, tree, HalfOf(T, S, d, false), d + 1);
      LawsDecide(T, tree, HalfOf(T, S, d, true), d + 1);
    }
  }

  /** A subtree with the hash of an empty one is empty. */
  lemma {:induction false} EmptyIsEmpty<K(!new)>(T: KeyBits<K>, keys: seq<K>, depth: nat)
    requires depth <= T.depth && Subtree(T, keys, depth).0 == Empty(T, depth)
    ensures keys == []
    decreases T.depth - depth
  {
    if |keys| > 0 && depth < T.depth {
      var half := WithBit(T, keys, depth, T.bit(keys[0], depth));
      WithBitMembers(T, keys, depth, T.bit(keys[0], depth));
      assert keys[0] in half;
      EmptyIsEmpty(T, half, depth + 1);
    }
  }

  /** Also an empty subtree is the node of its halves. */
  lemma SubtreeNode<K(!new)>(T: KeyBits<K>, keys: seq<K>, depth: nat)
    requires depth < T.depth
    ensures Subtree(T, keys, depth) ==
      Node(depth, Subtree(T, WithBit(T, keys, depth, false), depth + 1),
        Subtree(T, WithBit(T, keys, depth, true), depth + 1))
  {
  }
}
