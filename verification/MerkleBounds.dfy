/**
 Sizes, stability and work: how long audit paths are, how a path at a larger size starts, and how
 many inner nodes are hashed to prove, verify and compute a root.
 */
module MerkleBounds {
  import opened Common
  import opened MerkleTree
  import opened MerkleShape
  import opened MerkleSoundness

  // ----- the split point

  lemma {:induction false} Pow2Monotonic(a: nat, b: nat)
    requires a <= b
    ensures Pow2(a) <= Pow2(b)
    decreases b
  {
    if a < b {
      Pow2Monotonic(a, b - 1);
    }
  }

  /** The split is a power of two below n, and no power of two between it and n exists. */
  lemma SplitIsLargest(n: int, a: nat)
    requires n >= 2
    ensures IsPow2(Split(n))
    ensures Pow2(a) < n ==> Pow2(a) <= Split(n)
  {
    hide Split;
    var e: nat :| Split(n) == Pow2(e);
    if a > e {
      Pow2Monotonic(e + 1, a);
      assert Pow2(e + 1) == 2 * Pow2(e);
    } else {
      Pow2Monotonic(a, e);
    }
  }

  lemma SplitIsOnly(n: int, e: nat)
    requires Pow2(e) < n <= 2 * Pow2(e)
    ensures n >= 2 && Split(n) == Pow2(e)
  {
    hide Split;
    Pow2Monotonic(0, e);
    var a: nat :| Split(n) == Pow2(a);
    SplitIsLargest(n, e);
    Pow2Doubles(a, e);
    Pow2Doubles(e, a);
    hide Pow2;
    assert a >= e && a <= e;
  }

  lemma Pow2Doubles(a: nat, b: nat)
    ensures a < b ==> 2 * Pow2(a) <= Pow2(b)
    ensures Pow2(a) > 0
  {
    Pow2Monotonic(0, a);
    if a < b {
      Pow2Monotonic(a + 1, b);
    }
  }

  /**
   The root on bytes, as section 2.1 of RFC 6962 has it: the hash of nothing, of a zero byte and the
   data, or of a one byte and the roots of the two parts, split at the largest power of two below.
   */
  lemma RootOnBytes(h: Hash, data: seq<Bytes>, e: nat)
    ensures data == [] ==> Root(h, data) == h([])
    ensures |data| == 1 ==> Root(h, data) == h([0] + data[0])
    ensures var k := Pow2(e);
            k < |data| <= 2 * k ==> Root(h, data) == h([1] + Root(h, data[..k]) + Root(h, data[k..]))
  {
    var k := Pow2(e);
    if k < |data| <= 2 * k {
      SplitIsOnly(|data|, e);
      hide Split, Pow2;
      LeafHashesSlice(h, data, k);
      assert MerkleTreeHash(h, LeafHashes(h, data)) ==
             HashNode(h, MerkleTreeHash(h, LeafHashes(h, data)[..k]), MerkleTreeHash(h, LeafHashes(h, data)[k..]));
    }
  }

  lemma SplitOfPow2(e: nat)
    requires e > 0
    ensures Pow2(e) >= 2 && Split(Pow2(e)) == Pow2(e - 1)
  {
    hide Split;
    Pow2Monotonic(0, e - 1);
    var a: nat :| Split(Pow2(e)) == Pow2(a);
    if a < e - 1 {
      Pow2Monotonic(a, e - 2);
    } else if a > e - 1 {
      Pow2Monotonic(e, a);
    }
  }

  // ----- path length

  lemma {:induction false} BitLengthBelowPow2(n: nat, e: nat)
    requires n < Pow2(e)
    ensures BitLength(n) <= e
    decreases e
  {
    if n > 0 {
      BitLengthBelowPow2(n / 2, e - 1);
    }
  }

  lemma SplitBitLength(n: int)
    requires n >= 2
    ensures Split(n) == Pow2(BitLength(n - 1) - 1)
  {
    hide Split, BitLength;
    var e: nat :| Split(n) == Pow2(e);
    assert n <= 2 * Split(n);
    assert 2 * Pow2(e) == Pow2(e + 1);
    BitLengthBelowPow2(n - 1, e + 1);
    BitLengthBounds(n - 1);
    if BitLength(n - 1) <= e {
      Pow2Monotonic(BitLength(n - 1), e);
    }
  }

  /** In a full tree every leaf has the same depth. */
  lemma {:induction false} FullTreeDepth(index: int, e: nat)
    ensures Depth(RouteTo(index, Pow2(e))) == e
    decreases e
  {
    hide Split, IsPow2;
    if e > 0 {
      SplitOfPow2(e);
      FullTreeDepth(if index < Pow2(e - 1) then index else index - Pow2(e - 1), e - 1);
    }
  }

  lemma {:induction false} RouteDepth(index: nat, size: nat)
    requires index < size
    ensures Depth(RouteTo(index, size)) <= BitLength(size - 1)
    ensures size >= 2 && index < Split(size) ==> Depth(RouteTo(index, size)) == BitLength(size - 1)
    decreases size
  {
    hide Split, IsPow2;
    if size >= 2 {
      var e := BitLength(size - 1) - 1;
      SplitBitLength(size);
      if index < Split(size) {
        FullTreeDepth(index, e);
      } else {
        RouteDepth(index - Split(size), size - Split(size));
        BitLengthBelowPow2(size - Split(size) - 1, e);
      }
    }
  }

  /** Audit paths have at most bit_length(n - 1) entries, and exactly so many below the split. */
  lemma PathLength(h: Hash, data: seq<Bytes>, index: nat)
    requires index < |data|
    ensures var length := |Path(h, LeafHashes(h, data), index)|;
            && length <= BitLength(|data| - 1)
            && (|data| >= 2 && index < Split(|data|) ==> length == BitLength(|data| - 1))
  {
    hide Split, IsPow2;
    RouteLeadsToLeaf(data, index);
    PathIsSiblings(h, data, index);
    RouteDepth(index, |data|);
  }

  // ----- stability

  /** At a larger size the path of a leaf begins with its path at any full size that contains it. */
  lemma {:induction false} PathBeginsWithFullPath(h: Hash, leaves: seq<Digest>, index: nat, e: nat)
    requires index < Pow2(e) <= |leaves|
    ensures Path(h, leaves[..Pow2(e)], index) <= Path(h, leaves, index)
    decreases |leaves|
  {
    hide Split, IsPow2;
    var k := Pow2(e);
    if k == |leaves| {
      assert leaves[..k] == leaves;
    } else {
      SplitIsLargest(|leaves|, e);
      var s := Split(|leaves|);
      assert leaves[..s][..k] == leaves[..k];
      PathBeginsWithFullPath(h, leaves[..s], index, e);
    }
  }

  /** Later appends keep a leaf hash, and a proof issued before them stands against the root of its time. */
  lemma ProofSurvivesAppends(h: Hash, before: seq<Bytes>, later: seq<Bytes>, proof: MerkleProof)
    requires Genuine(h, before, proof)
    ensures LeafHashes(h, before + later)[proof.leafIndex] == proof.leafHash
    ensures VerifyProof(h, proof, Root(h, (before + later)[..proof.treeSize]))
  {
    GenuineProofAccepted(h, before, proof);
    assert (before + later)[..|before|] == before;
  }

  // ----- work: the same three recursions, counting calls of HashNode

  function CountedRoot(h: Hash, leaves: seq<Digest>): (Digest, nat) {
    var n := |leaves|;
    if n == 0 then
      (h([]), 0)
    else if n == 1 then
      (leaves[0], 0)
    else
      var (left, a) := CountedRoot(h, leaves[..Split(n)]);
      var (right, b) := CountedRoot(h, leaves[Split(n)..]);
      (HashNode(h, left, right), a + b + 1)
  }

  function CountedPath(h: Hash, leaves: seq<Digest>, index: int): (seq<Digest>, nat) {
    var n := |leaves|;
    if n <= 1 then
      ([], 0)
    else
      var k := Split(n);
      var (near, far, i) :=
        if index < k then (leaves[..k], leaves[k..], index) else (leaves[k..], leaves[..k], index - k);
      var (path, a) := CountedPath(h, near, i);
      var (sibling, b) := CountedRoot(h, far);
      (path + [sibling], a + b)
  }

  function CountedVerify(h: Hash, v: Bytes, index: int, size: int, path: seq<Bytes>, from: nat)
    : (Option<Bytes>, nat, nat)
    decreases size
  {
    if size <= 1 then
      (Some(v), from, 0)
    else
      var k := Split(size);
      var (i, n) := if index < k then (index, k) else (index - k, size - k);
      var (running, next, count) := CountedVerify(h, v, i, n, path, from);
      if running.None? || next >= |path| then
        (None, next, count)
      else if index < k then
        (Some(HashNode(h, running.value, path[next])), next + 1, count + 1)
      else
        (Some(HashNode(h, path[next], running.value)), next + 1, count + 1)
  }

  /** A root over n >= 1 leaves takes n - 1 node hashes. */
  lemma {:induction false} RootWork(h: Hash, leaves: seq<Digest>)
    ensures CountedRoot(h, leaves) == (MerkleTreeHash(h, leaves), if leaves == [] then 0 else |leaves| - 1)
  {
    hide Split, IsPow2;
    if |leaves| > 1 {
      RootWork(h, leaves[..Split(|leaves|)]);
      RootWork(h, leaves[Split(|leaves|)..]);
    }
  }

  lemma {:induction false} PathWork(h: Hash, leaves: seq<Digest>, index: nat)
    requires index < |leaves|
    ensures CountedPath(h, leaves, index).0 == Path(h, leaves, index)
    ensures CountedPath(h, leaves, index).1 + |Path(h, leaves, index)| == |leaves| - 1
    decreases |leaves|
  {
    hide Split, IsPow2;
    if |leaves| > 1 {
      var k := Split(|leaves|);
      if index < k {
        PathWork(h, leaves[..k], index);
        RootWork(h, leaves[k..]);
      } else {
        PathWork(h, leaves[k..], index - k);
        RootWork(h, leaves[..k]);
      }
    }
  }

  lemma {:induction false} VerifyWork(h: Hash, v: Bytes, index: int, size: int, path: seq<Bytes>, from: nat)
    ensures var counted := CountedVerify(h, v, index, size, path, from);
            && (counted.0, counted.1) == Verify(h, v, index, size, path, from)
            && counted.2 + from == counted.1
    decreases size
  {
    hide Split, IsPow2;
    if size > 1 {
      var k := Split(size);
      if index < k {
        VerifyWork(h, v, index, k, path, from);
      } else {
        VerifyWork(h, v, index - k, size - k, path, from);
      }
    }
  }

  /** Issuing a proof and verifying it hash n - 1 nodes together, as many as the root alone. */
  lemma ProveAndVerifyWork(h: Hash, data: seq<Bytes>, index: nat)
    requires index < |data|
    ensures var leaves := LeafHashes(h, data);
            var (path, proving) := CountedPath(h, leaves, index);
            var (_, _, verifying) := CountedVerify(h, leaves[index], index, |data|, path, 0);
            && proving + verifying == |data| - 1
            && CountedRoot(h, leaves).1 == |data| - 1
  {
    var leaves := LeafHashes(h, data);
    var path := Path(h, leaves, index);
    PathWork(h, leaves, index);
    RootWork(h, leaves);
    VerifyWork(h, leaves[index], index, |data|, path, 0);
    VerifyConsumesPath(h, data, index, [], []);
    assert [] + path + [] == path;
  }
}
