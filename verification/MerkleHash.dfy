/** Digests as terms: one constructor for each domain-separation tag, so that
    equal digests have equal preimages. */
module MerkleHash {
  import opened Integers

  type Bytes = seq<bv8>

  datatype Hash =
    | FieldLeaf(preimage: Bytes)
    | FieldNode(left: Hash, right: Hash)
    | ZeroHash

  /** The digests of a trie over keys of type K. */
  datatype TrieHash<K> =
    | CausalLeaf(key: K)
    | CausalNode(depth: nat, leftHash: TrieHash<K>, leftCount: uint64, rightHash: TrieHash<K>, rightCount: uint64)
    | CausalEmptyLeaf

  /** Which side of the running hash a sibling is on; anything else is malformed. */
  datatype Side = Left | Right | Malformed
}
