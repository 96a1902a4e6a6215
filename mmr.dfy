/** The Merkle Mountain Range library the repository calls into,
    abstracted: its state is the sequence of leaves pushed so far, and what
    push, get_root, gen_proof and verify compute from that state is left
    uninterpreted (a `Library` value supplies it). The merge the library is
    instantiated with is modelled around an uninterpreted hash. */
module Mmr {
  import opened Types

  /** A 64-byte Blake2b digest. */
  type Bytes64 = s: seq<u8> | |s| == 64 witness seq(64, _ => 0)

  /** The 64-byte hash input of a merge: left child, then right child. */
  function MergeInput(lhs: Bytes32, rhs: Bytes32): (input: Bytes64)
  {
    lhs + rhs
  }

  /** `Blake2bMerge::merge`: the first 32 bytes of the hash of `lhs ++ rhs`. */
  function Blake2bMerge(blake2b: seq<u8> -> Bytes64, lhs: Bytes32, rhs: Bytes32): (r: Result<Bytes32>)
    ensures r.Ok?
  {
    Ok(blake2b(MergeInput(lhs, rhs))[..32])
  }

  /** The hash input determines the ordered pair of children: two merges of
      different pairs hash different inputs, and swapping operands changes the
      input unless both are equal. */
  lemma MergeInputInjective(l1: Bytes32, r1: Bytes32, l2: Bytes32, r2: Bytes32)
    ensures MergeInput(l1, r1) == MergeInput(l2, r2) <==> l1 == l2 && r1 == r2
  {
    if MergeInput(l1, r1) == MergeInput(l2, r2) {
      assert l1 == MergeInput(l1, r1)[..32] && l2 == MergeInput(l2, r2)[..32];
      assert r1 == MergeInput(l1, r1)[32..] && r2 == MergeInput(l2, r2)[32..];
    }
  }

  /** A `MerkleProof`: the size it was made at and its `proof_items()`. */
  datatype MerkleProof = MerkleProof(mmrSize: u64, items: seq<Bytes32>)

  /** What the library computes, as functions of the leaves pushed so far. */
  datatype Library = Library(
    push: (seq<Bytes32>, Bytes32) -> Result<u64>,
    getRoot: seq<Bytes32> -> Result<Bytes32>,
    genProof: (seq<Bytes32>, seq<u64>) -> Result<MerkleProof>,
    verify: (MerkleProof, Bytes32, seq<(u64, Bytes32)>) -> Result<bool>)

  /** An `MMR` over a `MemStore`, created empty (`MMR::new(0, &store)`). */
  class MerkleMountainRange {
    const lib: Library
    /** The leaves pushed so far, in order. */
    var leaves: seq<Bytes32>

    constructor (lib: Library)
      ensures this.lib == lib && leaves == []
    {
      this.lib := lib;
      leaves := [];
    }

    /** `mmr.push(leaf)`: the position comes from the library; a successful
        push appends the leaf, a failed one leaves the range as it was. */
    method Push(leaf: Bytes32) returns (r: Result<u64>)
      modifies this
      ensures r == lib.push(old(leaves), leaf)
      ensures leaves == if r.Ok? then old(leaves) + [leaf] else old(leaves)
    {
      r := lib.push(leaves, leaf);
      if r.Ok? {
        leaves := leaves + [leaf];
      }
    }

    /** `mmr.get_root()`, for the leaves pushed so far. */
    method GetRoot() returns (r: Result<Bytes32>)
      ensures r == lib.getRoot(leaves)
    {
      r := lib.getRoot(leaves);
    }

    /** `mmr.gen_proof(positions)`, for the leaves pushed so far. */
    method GenProof(positions: seq<u64>) returns (r: Result<MerkleProof>)
      ensures r == lib.genProof(leaves, positions)
    {
      r := lib.genProof(leaves, positions);
    }
  }
}
