/** The field tree, shaped as in section 2.1 of RFC 6962, and its sibling paths. */
module FieldTree {
  import opened FieldTheory
  import opened MerkleHash

  datatype ProofStep = ProofStep(side: Side, hash: Hash)

  // ---- the shape

  /** k is the largest power of two below n. */
  ghost predicate IsSplit(n: nat, k: nat, m: nat) { k == Exp2(m) && k < n <= 2 * k }

  method LargestPowerOfTwoLessThan(n: nat) returns (k: nat, ghost m: nat)
    requires n >= 2
    ensures IsSplit(n, k, m) && k == Split(n)
  {
    k, m := 1, 0;
    while 2 * k < n
      invariant k == Exp2(m) && k < n
      decreases n - k
    {
      k, m := 2 * k, m + 1;
    }
    SplitUnique(n, k, m);
  }

  /** The split as a function: double while it stays below n. */
  function Split(n: nat): (k: nat)
    requires n >= 2
    ensures 1 <= k < n
    decreases n
  {
    if n == 2 then 1 else 2 * Split((n + 1) / 2)
  }

  lemma {:induction false} SplitIsSplit(n: nat) returns (m: nat)
    requires n >= 2
    ensures IsSplit(n, Split(n), m)
    decreases n
  {
    if n == 2 {
      m := 0;
    } else {
      m := SplitIsSplit((n + 1) / 2);
      m := m + 1;
    }
  }

  lemma PowersApart(a: nat, b: nat)
    requires a < b
    ensures 2 * Exp2(a) <= Exp2(b)
  {
    Exp2Order(a + 1, b);
  }

  lemma SplitUnique(n: nat, k: nat, m: nat)
    requires n >= 2 && IsSplit(n, k, m)
    ensures k == Split(n)
  {
    var m' := SplitIsSplit(n);
    if m < m' {
      PowersApart(m, m');
    } else if m' < m {
      PowersApart(m', m);
    }
  }

  function InnerHash(left: Hash, right: Hash): Hash { FieldNode(left, right) }

  function MerkleRoot(hashes: seq<Hash>): Hash
    decreases |hashes|
  {
    if |hashes| == 0 then ZeroHash
    else if |hashes| == 1 then hashes[0]
    else if |hashes| == 2 then InnerHash(hashes[0], hashes[1])
    else
      var k := Split(|hashes|);
      InnerHash(MerkleRoot(hashes[..k]), MerkleRoot(hashes[k..]))
  }

  function MerkleRootAndPath(hashes: seq<Hash>, target: nat): (Hash, seq<ProofStep>)
    requires target < |hashes|
    decreases |hashes|
  {
    if |hashes| == 1 then (hashes[0], [])
    else if |hashes| == 2 then
      if target == 0 then (InnerHash(hashes[0], hashes[1]), [ProofStep(Right, hashes[1])])
      else (InnerHash(hashes[0], hashes[1]), [ProofStep(Left, hashes[0])])
    else
      var k := Split(|hashes|);
      var left, right := hashes[..k], hashes[k..];
      if target < k then
        var (leftRoot, path) := MerkleRootAndPath(left, target);
        var rightRoot := MerkleRoot(right);
        (InnerHash(leftRoot, rightRoot), path + [ProofStep(Right, rightRoot)])
      else
        var (rightRoot, path) := MerkleRootAndPath(right, target - k);
        var leftRoot := MerkleRoot(left);
        (InnerHash(leftRoot, rightRoot), path + [ProofStep(Left, leftRoot)])
  }

  /** A full left part, and a right part that is no larger. */
  ghost predicate SplitsAs(left: seq<Hash>, right: seq<Hash>, m: nat) {
    |left| == Exp2(m) && 1 <= |right| <= Exp2(m)
  }

  lemma SplitSizes(left: seq<Hash>, right: seq<Hash>, m: nat)
    requires SplitsAs(left, right, m)
    ensures |left + right| == 2 ==> left == [(left + right)[0]] && right == [(left + right)[1]]
    ensures |left + right| >= 2 && Split(|left + right|) == |left|
    ensures (left + right)[..|left|] == left && (left + right)[|left|..] == right
  {
    SplitUnique(|left + right|, |left|, m);
  }

  /** The shape of the tree: one leaf is its own root, and a full left part is
      joined with the rest. */
  lemma MerkleShape(left: seq<Hash>, right: seq<Hash>, m: nat)
    requires SplitsAs(left, right, m)
    ensures MerkleRoot(left + right) == FieldNode(MerkleRoot(left), MerkleRoot(right))
  {
    SplitSizes(left, right, m);
  }

  ghost predicate JoinsAt(root: seq<Hash> -> Hash, left: seq<Hash>, right: seq<Hash>, m: nat) {
    SplitsAs(left, right, m) ==> root(left + right) == FieldNode(root(left), root(right))
  }

  /** The two laws of the tree hash of section 2.1 of RFC 6962, over leaves that
      are hashed already. */
  ghost predicate IsTreeHash(root: seq<Hash> -> Hash) {
    (forall hash :: root([hash]) == hash) && forall left, right, m :: JoinsAt(root, left, right, m)
  }

  /** The laws leave no choice: they hold of the root computed here, and of
      nothing that differs from it on some list of leaves. */
  lemma TreeHashIsRoot(root: seq<Hash> -> Hash)
    ensures IsTreeHash(root) <==> forall hashes :: hashes != [] ==> root(hashes) == MerkleRoot(hashes)
  {
    if IsTreeHash(root) {
      forall hashes: seq<Hash> | hashes != []
        ensures root(hashes) == MerkleRoot(hashes)
      {
        LawsDecide(root, hashes);
      }
    }
    if forall hashes :: hashes != [] ==> root(hashes) == MerkleRoot(hashes) {
      forall left: seq<Hash>, right: seq<Hash>, m: nat
        ensures JoinsAt(root, left, right, m)
      {
        if SplitsAs(left, right, m) {
          MerkleShape(left, right, m);
        }
      }
      forall hash
        ensures root([hash]) == hash
      {
        assert MerkleRoot([hash]) == hash;
      }
    }
  }

  lemma {:induction false} LawsDecide(root: seq<Hash> -> Hash, hashes: seq<Hash>)
    requires IsTreeHash(root) && hashes != []
    ensures root(hashes) == MerkleRoot(hashes)
    decreases |hashes|
  {
    if |hashes| == 1 {
      assert hashes == [hashes[0]];
    } else {
      var k := Split(|hashes|);
      var m := SplitIsSplit(|hashes|);
      var left, right := hashes[..k], hashes[k..];
      assert hashes == left + right;
      LawsDecide(root, left);
      LawsDecide(root, right);
      MerkleShape(left, right, m);
      assert JoinsAt(root, left, right, m);
    }
  }

  /** The path of a leaf: its path in its own part, and the root of the other
      part, on the side where that part is. */
  lemma PathShape(left: seq<Hash>, right: seq<Hash>, m: nat, target: nat)
    requires SplitsAs(left, right, m) && target < |left + right|
    ensures MerkleRootAndPath(left + right, target).1 ==
      if target < |left| then MerkleRootAndPath(left, target).1 + [ProofStep(Right, MerkleRoot(right))]
      else MerkleRootAndPath(right, target - |left|).1 + [ProofStep(Left, MerkleRoot(left))]
  {
    SplitSizes(left, right, m);
  }

  // ---- paths

  /** The running hash after the steps of a path. */
  function Climb(leaf: Hash, path: seq<ProofStep>): (h: Hash)
    requires WellFormed(path)
  {
    if path == [] then leaf else
      var below, step := Climb(leaf, path[..|path| - 1]), path[|path| - 1];
      if step.side.Left? then InnerHash(step.hash, below) else InnerHash(below, step.hash)
  }

  predicate WellFormed(path: seq<ProofStep>) {
    forall i :: 0 <= i < |path| ==> !path[i].side.Malformed?
  }

  method VerifyLeafPath(leafHash: Hash, path: seq<ProofStep>, root: Hash) returns (ok: bool)
    ensures ok <==> WellFormed(path) && Climb(leafHash, path) == root
  {
    var cur := leafHash;
    for i := 0 to |path|
      invariant WellFormed(path[..i]) && cur == Climb(leafHash, path[..i])
    {
      assert path[..i + 1][..i] == path[..i];
      match path[i].side
      case Left => cur := InnerHash(path[i].hash, cur);
      case Right => cur := InnerHash(cur, path[i].hash);
      case Malformed => return false;
    }
    assert path[..|path|] == path;
    ok := cur == root;
  }

  /** The path of a leaf leads from it to the root of the tree, and is no longer
      than the tree is high. */
  lemma {:induction false} PathVerifies(hashes: seq<Hash>, target: nat)
    requires target < |hashes|
    ensures var (root, path) := MerkleRootAndPath(hashes, target);
      root == MerkleRoot(hashes) && WellFormed(path) && Climb(hashes[target], path) == root
    decreases |hashes|
  {
    if |hashes| == 2 {
      ClimbOne(hashes[target], MerkleRootAndPath(hashes, target).1[0]);
    } else if |hashes| > 2 {
      var k := Split(|hashes|);
      var inner := if target < k then hashes[..k] else hashes[k..];
      var at := if target < k then target else target - k;
      PathVerifies(inner, at);
      var (_, path) := MerkleRootAndPath(inner, at);
      var whole := MerkleRootAndPath(hashes, target).1;
      assert whole[..|whole| - 1] == path && inner[at] == hashes[target];
    }
  }

  lemma ClimbOne(leaf: Hash, step: ProofStep)
    requires !step.side.Malformed?
    ensures Climb(leaf, [step]) == if step.side.Left? then InnerHash(step.hash, leaf) else InnerHash(leaf, step.hash)
  {
    assert [step][..0] == [];
  }

  /** A path has at most as many steps as it takes doublings from one to reach
      the number of leaves. */
  lemma {:induction false} PathLength(hashes: seq<Hash>, target: nat, height: nat)
    requires target < |hashes| <= Exp2(height)
    ensures |MerkleRootAndPath(hashes, target).1| <= height
    decreases |hashes|
  {
    if |hashes| >= 2 {
      assert height > 0;
      if |hashes| > 2 {
        var k := Split(|hashes|);
        var m := SplitIsSplit(|hashes|);
        if height <= m {
          if height < m {
            PowersApart(height, m);
          }
        } else {
          if m < height - 1 {
            PowersApart(m, height - 1);
          }
          if target < k {
            PathLength(hashes[..k], target, height - 1);
          } else {
            PathLength(hashes[k..], target - k, height - 1);
          }
        }
      }
    }
  }

  /** With leaves and nodes hashed apart, a path accepted for a leaf shows that
      the leaf is in the tree. */
  lemma {:induction false} AcceptedLeafIsInTree(hashes: seq<Hash>, leaf: Hash, path: seq<ProofStep>)
    requires hashes != [] && forall h :: h in hashes ==> h.FieldLeaf?
    requires leaf.FieldLeaf? && WellFormed(path) && Climb(leaf, path) == MerkleRoot(hashes)
    ensures leaf in hashes
    decreases |path|
  {
    if |hashes| == 1 {
      assert hashes[0] in hashes;
    } else {
      var n := |path| - 1;
      var k := if |hashes| == 2 then 1 else Split(|hashes|);
      var left, right := hashes[..k], hashes[k..];
      assert MerkleRoot(hashes) == InnerHash(MerkleRoot(left), MerkleRoot(right));
      AcceptedLeafIsInTree(if path[n].side.Left? then right else left, leaf, path[..n]);
    }
  }
}
