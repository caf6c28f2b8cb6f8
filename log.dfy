/** The log store: an append-only list of entries kept index-aligned with the
    leaf list of a Merkle tree, whose hashing and proofs are left abstract. */
module MerkleLog {
  import opened Crypto
  import opened Js

  /** Which side of the path a sibling hash is on. */
  datatype Side = Left | Right

  /** One element of a membership proof: a sibling hash and its side. */
  datatype ProofStep = ProofStep(position: Side, data: string)

  type Proof = seq<ProofStep>

  /** The Merkle tree operations the log calls, uninterpreted: `root(leaves)`
      is `getRoot()` of a tree over `leaves`, and `proof(leaves, leaf, index)`
      is `getProof(leaf, index)` on it (the leaf as `getLeaf` returned it, the
      index `undefined` when the caller gives none). */
  datatype MerkleTree = MerkleTree(
    root: seq<string> -> string,
    proof: (seq<string>, Option<string>, Option<int>) -> Proof)

  /** The leaf list of a tree built by adding `SHA256(e)` for each entry `e`, in order. */
  function LeafHashes(h: Hashes, entries: seq<string>): (leaves: seq<string>)
    ensures |leaves| == |entries|
    decreases |entries|
  {
    if entries == [] then []
    else LeafHashes(h, entries[..|entries| - 1]) + [h.sha256(entries[|entries| - 1])]
  }

  /** The leaves are index-aligned with the entries: leaf `i` is the hash of entry `i`. */
  lemma {:induction false} LeafHashesAt(h: Hashes, entries: seq<string>)
    ensures forall i :: 0 <= i < |entries| ==> LeafHashes(h, entries)[i] == h.sha256(entries[i])
    decreases |entries|
  {
    if entries != [] {
      var prefix := entries[..|entries| - 1];
      LeafHashesAt(h, prefix);
      assert forall i :: 0 <= i < |prefix| ==> entries[i] == prefix[i];
    }
  }

  /** An entry stored twice has the same leaf at both indices, so a lookup by
      leaf hash cannot tell the two apart. */
  lemma RepeatedEntrySharesLeaf(h: Hashes, entries: seq<string>, i: nat, j: nat)
    requires i < |entries| && j < |entries| && entries[i] == entries[j]
    ensures LeafHashes(h, entries)[i] == LeafHashes(h, entries)[j]
  {
    LeafHashesAt(h, entries);
  }

  /** `class Log`: the tree, as its leaf list, and the entry storage. */
  class Log {
    const h: Hashes
    const tree: MerkleTree
    var leaves: seq<string>
    var dataStorage: seq<string>

    ghost predicate Valid()
      reads this
    {
      leaves == LeafHashes(h, dataStorage)
    }

    /** `new Log()`: an empty tree and no entries. */
    constructor (h: Hashes, tree: MerkleTree)
      ensures Valid()
      ensures this.h == h && this.tree == tree
      ensures leaves == [] && dataStorage == []
    {
      this.h := h;
      this.tree := tree;
      leaves := [];
      dataStorage := [];
    }

    /** `addEntry(entry)`: appends `SHA256(entry)` as the rightmost leaf and
        `entry` as the last stored entry; returns the new root. */
    method AddEntry(entry: string) returns (root: string)
      requires Valid()
      modifies this
      ensures Valid()
      ensures dataStorage == old(dataStorage) + [entry]
      ensures leaves == old(leaves) + [h.sha256(entry)]
      ensures root == tree.root(leaves)
      ensures root == GetRoot()
    {
      leaves := leaves + [h.sha256(entry)];
      dataStorage := dataStorage + [entry];
      assert dataStorage[..|dataStorage| - 1] == old(dataStorage);
      root := tree.root(leaves);
    }

    /** `getProofByEntry(entry)`: the proof is requested by the leaf hash of
        `entry` alone, which is the leaf of every stored copy of `entry`. */
    function GetProofByEntry(entry: string): (proof: Proof)
      reads this
      requires Valid()
      ensures proof == tree.proof(LeafHashes(h, dataStorage), Some(h.sha256(entry)), None)
      ensures forall i :: 0 <= i < |dataStorage| && dataStorage[i] == entry ==> leaves[i] == h.sha256(entry)
    {
      LeafHashesAt(h, dataStorage);
      var leaf := h.sha256(entry);
      tree.proof(leaves, Some(leaf), None)
    }

    /** `getProofByIndex(index)`: the proof is requested for the leaf at
        `index`, which is the hash of entry `index`, and for `index` itself. */
    function GetProofByIndex(index: int): (proof: Proof)
      reads this
      requires Valid()
      ensures proof == tree.proof(LeafHashes(h, dataStorage),
                                  if 0 <= index < |dataStorage| then Some(h.sha256(dataStorage[index])) else None,
                                  Some(index))
    {
      var leaf := GetLeaf(index);
      tree.proof(leaves, leaf, Some(index))
    }

    /** `getEntry(index)`: the entry at `index`, or `undefined` outside the
        storage; a present entry hashes to the leaf at the same index. */
    function GetEntry(index: int): (entry: Option<string>)
      reads this
      ensures entry.Some? <==> 0 <= index < |dataStorage|
      ensures entry.Some? ==> entry.value == dataStorage[index]
      ensures Valid() ==> GetLeaf(index) == if entry.Some? then Some(h.sha256(entry.value)) else None
    {
      if 0 <= index < |dataStorage| then Some(dataStorage[index]) else None
    }

    /** `getEntries(startIndex, endIndex)`: `dataStorage.slice(startIndex, endIndex)`;
        for non-negative bounds the end-exclusive range, clamped to the length. */
    function GetEntries(startIndex: int, endIndex: Option<int>): (entries: seq<string>)
      reads this
      ensures entries == Slice(dataStorage, startIndex, endIndex)
      ensures 0 <= startIndex <= |dataStorage| && endIndex.None? ==> entries == dataStorage[startIndex..]
      ensures endIndex.Some? && 0 <= startIndex <= endIndex.value <= |dataStorage|
              ==> entries == dataStorage[startIndex..endIndex.value]
    {
      Slice(dataStorage, startIndex, endIndex)
    }

    /** `getLeaf(index)`: the leaf at `index`, the hash of entry `index`;
        `undefined` outside the tree. */
    function GetLeaf(index: int): (leaf: Option<string>)
      reads this
      requires Valid()
      ensures leaf.Some? <==> 0 <= index < |dataStorage|
      ensures leaf.Some? ==> leaf.value == h.sha256(dataStorage[index])
    {
      LeafHashesAt(h, dataStorage);
      if 0 <= index < |leaves| then Some(leaves[index]) else None
    }

    /** `getRoot()`: the root of the tree, a function of the stored entries alone. */
    function GetRoot(): (root: string)
      reads this
      requires Valid()
      ensures root == tree.root(LeafHashes(h, dataStorage))
    {
      tree.root(leaves)
    }

    /** `addEntryAndGetProof(entry)`: `addEntry(entry)`, then the proof looked up
        by the new entry's leaf hash; returns the root `addEntry` returned. */
    method AddEntryAndGetProof(entry: string) returns (root: string, proof: Proof)
      requires Valid()
      modifies this
      ensures Valid()
      ensures dataStorage == old(dataStorage) + [entry]
      ensures leaves == old(leaves) + [h.sha256(entry)]
      ensures root == tree.root(leaves) && root == GetRoot()
      ensures proof == GetProofByEntry(entry)
      ensures proof == tree.proof(leaves, Some(leaves[|leaves| - 1]), None)
    {
      root := AddEntry(entry);
      proof := GetProofByEntry(entry);
    }
  }
}
