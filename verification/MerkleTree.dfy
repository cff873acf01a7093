/**
 The Merkle tree of RFC 6962, sections 2.1 and 2.1.1, as the audit log computes it: the split
 point, the root hash, the audit path and the recursive path verifier.

 SHA-256 is an arbitrary function from byte strings to 32-byte strings, passed to every function
 that hashes.
 */
module MerkleTree {
  import opened Common

  type Digest = d: Bytes | |d| == 32 witness seq(32, _ => 0 as byte)

  type Hash = Bytes -> Digest

  datatype MerkleProof = MerkleProof(leafIndex: int, leafHash: Bytes, auditPath: seq<Bytes>, treeSize: int)

  // ----- hashing

  const LEAF_PREFIX: Bytes := [0]
  const NODE_PREFIX: Bytes := [1]

  function HashLeaf(h: Hash, data: Bytes): Digest {
    h(LEAF_PREFIX + data)
  }

  function HashNode(h: Hash, left: Bytes, right: Bytes): Digest {
    h(NODE_PREFIX + left + right)
  }

  // ----- the split point

  function Pow2(e: nat): nat {
    if e == 0 then 1 else 2 * Pow2(e - 1)
  }

  /** The number of binary digits of n, with none for zero. */
  function BitLength(n: nat): nat {
    if n == 0 then 0 else 1 + BitLength(n / 2)
  }

  lemma {:induction false} BitLengthBounds(n: nat)
    requires n > 0
    ensures BitLength(n) > 0 && Pow2(BitLength(n) - 1) <= n < Pow2(BitLength(n))
  {
    if n > 1 {
      BitLengthBounds(n / 2);
    }
  }

  ghost predicate IsPow2(k: nat) {
    exists e: nat :: k == Pow2(e)
  }

  /** The split point of a tree of n leaves. */
  function Split(n: int): (k: nat)
    requires n >= 2
    ensures 1 <= k < n <= 2 * k && IsPow2(k)
  {
    BitLengthBounds(n);
    var k := Pow2(BitLength(n) - 1);
    if k == n then
      assert k / 2 == Pow2(BitLength(n) - 2);
      k / 2
    else
      k
  }

  /** The largest power of two below n; an error when there is none. */
  function LargestPowerOfTwoLessThan(n: int): (r: Result<nat, string>)
    ensures r.Failure? <==> n < 2
    ensures r.Success? ==> r.value < n <= 2 * r.value && IsPow2(r.value)
  {
    if n < 2 then Failure("n must be >= 2") else Success(Split(n))
  }

  // ----- root hash and audit path

  function MerkleTreeHash(h: Hash, leaves: seq<Digest>): Digest {
    var n := |leaves|;
    if n == 0 then
      h([])
    else if n == 1 then
      leaves[0]
    else
      var k := Split(n);
      HashNode(h, MerkleTreeHash(h, leaves[..k]), MerkleTreeHash(h, leaves[k..]))
  }

  function Path(h: Hash, leaves: seq<Digest>, index: int): seq<Digest> {
    var n := |leaves|;
    if n <= 1 then
      []
    else
      var k := Split(n);
      if index < k then
        Path(h, leaves[..k], index) + [MerkleTreeHash(h, leaves[k..])]
      else
        Path(h, leaves[k..], index - k) + [MerkleTreeHash(h, leaves[..k])]
  }

  // ----- the verifier

  /** Returns the rebuilt root, or None when the path runs out, and the next unread path position. */
  function Verify(h: Hash, leafHash: Bytes, index: int, size: int, path: seq<Bytes>, pathIdx: nat)
    : (Option<Bytes>, nat)
    decreases size
  {
    if size <= 1 then
      (Some(leafHash), pathIdx)
    else
      var k := Split(size);
      if index < k then
        var (left, next) := Verify(h, leafHash, index, k, path, pathIdx);
        if left.None? || next >= |path| then
          (None, next)
        else
          (Some(HashNode(h, left.value, path[next])), next + 1)
      else
        var (right, next) := Verify(h, leafHash, index - k, size - k, path, pathIdx);
        if right.None? || next >= |path| then
          (None, next)
        else
          (Some(HashNode(h, path[next], right.value)), next + 1)
  }

  predicate VerifyProof(h: Hash, proof: MerkleProof, root: Bytes) {
    if proof.treeSize <= 0 || proof.leafIndex < 0 || proof.leafIndex >= proof.treeSize then
      false
    else
      var (computed, pathIdx) := Verify(h, proof.leafHash, proof.leafIndex, proof.treeSize, proof.auditPath, 0);
      computed.Some? && pathIdx == |proof.auditPath| && computed.value == root
  }

  // ----- the root of a list of appended byte strings

  function LeafHashes(h: Hash, data: seq<Bytes>): (leaves: seq<Digest>)
    ensures |leaves| == |data|
    ensures forall i :: 0 <= i < |data| ==> leaves[i] == HashLeaf(h, data[i])
  {
    seq(|data|, i requires 0 <= i < |data| => HashLeaf(h, data[i]))
  }

  function Root(h: Hash, data: seq<Bytes>): Digest {
    MerkleTreeHash(h, LeafHashes(h, data))
  }
}
