/** The append-only audit log: a mutable list of leaf hashes, with everything ever appended as ghost history. */
module MerkleAuditLog {
  import opened Common
  import opened MerkleTree
  import opened MerkleSoundness
  import opened MerkleBounds

  class MerkleAuditLog {
    const sha256: Hash
    var leaves: seq<Digest>
    ghost var history: seq<Bytes>

    ghost predicate Valid()
      reads this
    {
      leaves == LeafHashes(sha256, history)
    }

    constructor (sha256: Hash)
      ensures Valid() && history == [] && this.sha256 == sha256
    {
      this.sha256 := sha256;
      leaves := [];
      history := [];
    }

    function Size(): (n: nat)
      reads this
      ensures Valid() ==> n == |history|
    {
      |leaves|
    }

    /** Hashes the bytes as a new last leaf. Earlier leaves keep their place and value. */
    method Append(canonicalBytes: Bytes) returns (index: nat)
      requires Valid()
      modifies this
      ensures Valid()
      ensures history == old(history) + [canonicalBytes]
      ensures index == |old(history)|
      ensures leaves == old(leaves) + [sha256([0] + canonicalBytes)]
    {
      index := |leaves|;
      leaves := leaves + [HashLeaf(sha256, canonicalBytes)];
      history := history + [canonicalBytes];
    }

    /** The root commits to the history: any history with the same root is this one, or a collision is found. */
    method RootHash() returns (root: Digest)
      requires Valid()
      ensures root == Root(sha256, history)
      ensures history == [] ==> root == sha256([])
      ensures |history| == 1 ==> root == sha256([0] + history[0])
      ensures forall e: nat :: Pow2(e) < |history| <= 2 * Pow2(e) ==>
                root == sha256([1] + Root(sha256, history[..Pow2(e)]) + Root(sha256, history[Pow2(e)..]))
      ensures forall other: seq<Bytes> :: Root(sha256, other) == root ==>
                match RootCollision(sha256, history, other)
                case Some(c) => Collides(sha256, c)
                case None => history == other
    {
      root := MerkleTreeHash(sha256, leaves);
      forall other: seq<Bytes> | Root(sha256, other) == root
        ensures match RootCollision(sha256, history, other)
                case Some(c) => Collides(sha256, c)
                case None => history == other
      {
        RootBindsHistory(sha256, history, other);
      }
      RootOnBytes(sha256, history, 0);
      forall e: nat | Pow2(e) < |history| <= 2 * Pow2(e)
        ensures root == sha256([1] + Root(sha256, history[..Pow2(e)]) + Root(sha256, history[Pow2(e)..]))
      {
        RootOnBytes(sha256, history, e);
      }
    }

    /** An index error outside the log; inside it, the proof, which verifies against the current root. */
    method Proof(leafIndex: int) returns (r: Result<MerkleProof, string>)
      requires Valid()
      ensures r.Success? <==> 0 <= leafIndex < |history|
      ensures r.Success? ==>
                && r.value.leafIndex == leafIndex && r.value.treeSize == |history|
                && r.value.leafHash == sha256([0] + history[leafIndex])
                && Genuine(sha256, history, r.value)
                && VerifyProof(sha256, r.value, Root(sha256, history))
    {
      var n := |leaves|;
      if leafIndex < 0 || leafIndex >= n {
        return Failure("leaf_index out of range");
      }
      var proof := MerkleProof(leafIndex, leaves[leafIndex], Path(sha256, leaves, leafIndex), n);
      GenuineProofAccepted(sha256, history, proof);
      return Success(proof);
    }
  }
}
