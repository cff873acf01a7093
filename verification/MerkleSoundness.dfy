/**
 What the root hash and an accepted proof commit to.

 A hash into 32 bytes is never injective, so each theorem has the form "the conclusion holds, or
 these two byte strings are different and have the same hash". The two byte strings are computed
 from the inputs by the `...Collision` functions; "some collision exists" would say nothing.
 */
module MerkleSoundness {
  import opened Common
  import opened MerkleTree
  import opened MerkleShape

  type Pair = (Bytes, Bytes)

  predicate Collides(h: Hash, c: Pair) {
    c.0 != c.1 && h(c.0) == h(c.1)
  }

  // ----- hash inputs

  /** Two node inputs coincide only when their children do, given the length of one child. */
  lemma NodeInputInjective(a: Bytes, b: Bytes, left: Bytes, right: Bytes)
    requires NODE_PREFIX + a + b == NODE_PREFIX + left + right
    requires |a| == |left| || |b| == |right|
    ensures a == left && b == right
  {
    var (x, y) := (NODE_PREFIX + a + b, NODE_PREFIX + left + right);
    assert |x| == |y|;
    assert x[1..][..|a|] == a && x[1..][|a|..] == b;
    assert y[1..][..|a|] == left && y[1..][|a|..] == right;
  }

  lemma LeafInputInjective(a: Bytes, b: Bytes)
    requires LEAF_PREFIX + a == LEAF_PREFIX + b
    ensures a == b
  {
    assert (LEAF_PREFIX + a)[1..] == a;
    assert (LEAF_PREFIX + b)[1..] == b;
  }

  /** The first byte of a hash input tells the kind of tree. */
  lemma RootInputKind(h: Hash, t: Tree)
    ensures t.Empty? <==> RootInput(h, t) == []
    ensures t.Leaf? ==> RootInput(h, t)[0] == 0
    ensures t.Node? ==> RootInput(h, t)[0] == 1
  {
  }

  // ----- the root binds the history

  function TreeCollision(h: Hash, a: Tree, b: Tree): Option<Pair> {
    if RootInput(h, a) != RootInput(h, b) then
      Some((RootInput(h, a), RootInput(h, b)))
    else if a.Node? && b.Node? then
      var left := TreeCollision(h, a.left, b.left);
      if left.Some? then left else TreeCollision(h, a.right, b.right)
    else
      None
  }

  lemma {:induction false} TreeRootBinds(h: Hash, a: Tree, b: Tree)
    requires TreeRoot(h, a) == TreeRoot(h, b)
    ensures match TreeCollision(h, a, b)
            case Some(c) => Collides(h, c) && a != b
            case None => a == b
  {
    RootInputKind(h, a);
    RootInputKind(h, b);
    if RootInput(h, a) == RootInput(h, b) {
      if a.Node? && b.Node? {
        NodeInputInjective(TreeRoot(h, a.left), TreeRoot(h, a.right), TreeRoot(h, b.left), TreeRoot(h, b.right));
        TreeRootBinds(h, a.left, b.left);
        TreeRootBinds(h, a.right, b.right);
      } else if a.Leaf? && b.Leaf? {
        LeafInputInjective(a.data, b.data);
      }
    }
  }

  function RootCollision(h: Hash, a: seq<Bytes>, b: seq<Bytes>): Option<Pair> {
    TreeCollision(h, Build(a), Build(b))
  }

  /** Equal roots, at any two sizes: the same history, or the pair found collides. */
  lemma RootBindsHistory(h: Hash, a: seq<Bytes>, b: seq<Bytes>)
    requires Root(h, a) == Root(h, b)
    ensures match RootCollision(h, a, b)
            case Some(c) => Collides(h, c) && a != b
            case None => a == b
  {
    RootIsTreeRoot(h, a);
    RootIsTreeRoot(h, b);
    TreeRootBinds(h, Build(a), Build(b));
    FrontierOfBuild(a);
    FrontierOfBuild(b);
  }

  /** Appending changes the root, or yields a collision. */
  lemma AppendChangesRoot(h: Hash, data: seq<Bytes>, extra: seq<Bytes>)
    requires extra != []
    requires Root(h, data + extra) == Root(h, data)
    ensures var c := RootCollision(h, data + extra, data); c.Some? && Collides(h, c.value)
  {
    RootBindsHistory(h, data + extra, data);
  }

  // ----- an accepted climb, whatever its shape

  function ClimbCollision(h: Hash, t: Tree, v: Bytes, route: Route, path: seq<Bytes>): Option<Pair>
    requires Depth(route) <= |path|
    decreases route
  {
    match route
    case Here => None
    case Turn(side, rest) =>
      var running := Climb(h, v, rest, path, 0);
      var sibling := path[Depth(rest)];
      var input := NODE_PREFIX + (if side == OnLeft then running + sibling else sibling + running);
      if input != RootInput(h, t) then
        Some((input, RootInput(h, t)))
      else if t.Node? then
        ClimbCollision(h, if side == OnLeft then t.left else t.right, v, rest, path)
      else
        None
  }

  /**
   A climb of a 32-byte value along any route with any siblings that ends in the root of a tree
   started at the root of a subtree and met that subtree's own siblings, or the pair found collides.
   */
  lemma {:induction false} ClimbSound(h: Hash, t: Tree, v: Bytes, route: Route, path: seq<Bytes>)
    requires Depth(route) <= |path| && |v| == 32
    requires Climb(h, v, route, path, 0) == TreeRoot(h, t)
    ensures match ClimbCollision(h, t, v, route, path)
            case Some(c) => Collides(h, c)
            case None =>
              && Locate(t, route).Some?
              && v == TreeRoot(h, Locate(t, route).value)
              && path[..Depth(route)] == Siblings(h, t, route)
    decreases route
  {
    match route
    case Here =>
    case Turn(side, rest) =>
      var running := Climb(h, v, rest, path, 0);
      var sibling := path[Depth(rest)];
      var (left, right) := if side == OnLeft then (running, sibling) else (sibling, running);
      assert NODE_PREFIX + left + right == NODE_PREFIX + (left + right);
      if NODE_PREFIX + left + right == RootInput(h, t) {
        assert (NODE_PREFIX + left + right)[0] == 1;
        RootInputKind(h, t);
        NodeInputInjective(left, right, TreeRoot(h, t.left), TreeRoot(h, t.right));
        ClimbSound(h, if side == OnLeft then t.left else t.right, v, rest, path);
        assert path[..Depth(rest) + 1] == path[..Depth(rest)] + [sibling];
      }
  }

  // ----- completeness of verify_proof

  /** The proof the log itself gives for that position. */
  predicate Genuine(h: Hash, data: seq<Bytes>, proof: MerkleProof) {
    && proof.treeSize == |data|
    && 0 <= proof.leafIndex < |data|
    && proof.leafHash == HashLeaf(h, data[proof.leafIndex])
    && proof.auditPath == Path(h, LeafHashes(h, data), proof.leafIndex)
  }

  lemma PathClimbsToRoot(h: Hash, data: seq<Bytes>, index: nat, path: seq<Bytes>, from: nat)
    requires index < |data|
    requires from + |Path(h, LeafHashes(h, data), index)| <= |path|
    requires path[from..from + |Path(h, LeafHashes(h, data), index)|] == Path(h, LeafHashes(h, data), index)
    ensures Depth(RouteTo(index, |data|)) == |Path(h, LeafHashes(h, data), index)|
    ensures Climb(h, HashLeaf(h, data[index]), RouteTo(index, |data|), path, from) == Root(h, data)
  {
    RouteLeadsToLeaf(data, index);
    PathIsSiblings(h, data, index);
    ClimbOfSiblings(h, Build(data), RouteTo(index, |data|), path, from);
    RootIsTreeRoot(h, data);
  }

  /**
   Completeness of the recursion at any cursor: exactly the entries `Path` produced are consumed,
   whatever stands around them, and the root is returned.
   */
  lemma VerifyConsumesPath(h: Hash, data: seq<Bytes>, index: nat, before: seq<Bytes>, after: seq<Bytes>)
    requires index < |data|
    ensures var path := Path(h, LeafHashes(h, data), index);
            Verify(h, HashLeaf(h, data[index]), index, |data|, before + path + after, |before|)
            == (Some(Root(h, data)), |before| + |path|)
  {
    hide *;
    var path := Path(h, LeafHashes(h, data), index);
    var whole := before + path + after;
    var route := RouteTo(index, |data|);
    assert Depth(route) == |path| && Climb(h, HashLeaf(h, data[index]), route, whole, |before|) == Root(h, data) by {
      assert whole[|before|..|before| + |path|] == path;
      PathClimbsToRoot(h, data, index, whole, |before|);
    }
    VerifyIsClimb(h, HashLeaf(h, data[index]), index, |data|, whole, |before|);
  }

  /** Completeness: the log's own proofs are accepted. */
  lemma GenuineProofAccepted(h: Hash, data: seq<Bytes>, proof: MerkleProof)
    requires Genuine(h, data, proof)
    ensures VerifyProof(h, proof, Root(h, data))
  {
    VerifyConsumesPath(h, data, proof.leafIndex, [], []);
    assert [] + proof.auditPath + [] == proof.auditPath;
  }

  // ----- soundness of verify_proof

  function ProofCollision(h: Hash, data: seq<Bytes>, proof: MerkleProof): Option<Pair> {
    var route := RouteTo(proof.leafIndex, proof.treeSize);
    if Depth(route) == |proof.auditPath| then
      ClimbCollision(h, Build(data), proof.leafHash, route, proof.auditPath)
    else
      None
  }

  lemma AcceptedClimb(h: Hash, data: seq<Bytes>, proof: MerkleProof)
    requires |proof.leafHash| == 32
    requires VerifyProof(h, proof, Root(h, data))
    ensures match ProofCollision(h, data, proof)
            case Some(c) => Collides(h, c)
            case None =>
              var place := Locate(Build(data), RouteTo(proof.leafIndex, proof.treeSize));
              && place.Some?
              && proof.leafHash == TreeRoot(h, place.value)
              && proof.auditPath == Siblings(h, Build(data), RouteTo(proof.leafIndex, proof.treeSize))
  {
    var route := RouteTo(proof.leafIndex, proof.treeSize);
    VerifyProofIsClimb(h, proof, Root(h, data));
    RootIsTreeRoot(h, data);
    ClimbSound(h, Build(data), proof.leafHash, route, proof.auditPath);
    assert proof.auditPath[..Depth(route)] == proof.auditPath;
  }

  /**
   Positional soundness and uniqueness: with the log's own size and a 32-byte leaf hash, only the
   genuine proof is accepted.
   */
  lemma PositionalSoundness(h: Hash, data: seq<Bytes>, proof: MerkleProof)
    requires proof.treeSize == |data| && |proof.leafHash| == 32
    requires VerifyProof(h, proof, Root(h, data))
    ensures match ProofCollision(h, data, proof)
            case Some(c) => Collides(h, c)
            case None => Genuine(h, data, proof)
  {
    AcceptedClimb(h, data, proof);
    RouteLeadsToLeaf(data, proof.leafIndex);
    PathIsSiblings(h, data, proof.leafIndex);
  }

  /**
   The verifier checks no lengths. For an accepted proof at the log's size, and unless the pair
   found collides, being genuine is the same as carrying a 32-byte leaf hash.
   */
  lemma AcceptedIsGenuineIffDigest(h: Hash, data: seq<Bytes>, proof: MerkleProof)
    requires proof.treeSize == |data|
    requires VerifyProof(h, proof, Root(h, data))
    requires match ProofCollision(h, data, proof) case Some(c) => !Collides(h, c) case None => true
    ensures Genuine(h, data, proof) <==> |proof.leafHash| == 32
  {
    if |proof.leafHash| == 32 {
      PositionalSoundness(h, data, proof);
    }
  }

  /** In every two-leaf log a proof whose leaf hash is cut one byte short is accepted. */
  lemma CutLeafHashAccepted(h: Hash, d0: Bytes, d1: Bytes) returns (proof: MerkleProof)
    ensures proof.treeSize == 2 && proof.leafIndex == 0 && |proof.leafHash| == 31
    ensures VerifyProof(h, proof, Root(h, [d0, d1]))
    ensures !Genuine(h, [d0, d1], proof)
  {
    var (l0, l1) := (HashLeaf(h, d0), HashLeaf(h, d1));
    proof := MerkleProof(0, l0[..31], [l0[31..] + l1], 2);
    assert NODE_PREFIX + l0[..31] + (l0[31..] + l1) == NODE_PREFIX + l0 + l1;
    assert Verify(h, l0[..31], 0, 2, proof.auditPath, 0) == (Some(HashNode(h, l0, l1)), 1) by {
      assert Verify(h, l0[..31], 0, 1, proof.auditPath, 0) == (Some(l0[..31]), 0);
    }
    RootIsTreeRoot(h, [d0, d1]);
    assert Build([d0, d1]) == Node(Leaf(d0), Leaf(d1)) by {
      assert [d0, d1][..1] == [d0] && [d0, d1][1..] == [d1];
    }
    assert TreeRoot(h, Leaf(d0)) == l0 && TreeRoot(h, Leaf(d1)) == l1;
  }

  function MembershipCollision(h: Hash, data: seq<Bytes>, d: Bytes, proof: MerkleProof): Pair {
    match ProofCollision(h, data, proof)
    case Some(c) => c
    case None =>
      match Locate(Build(data), RouteTo(proof.leafIndex, proof.treeSize))
      case Some(t) => (LEAF_PREFIX + d, RootInput(h, t))
      case None => ([], [])
  }

  lemma {:induction false} LocatedLeafHasIndex(data: seq<Bytes>, route: Route, d: Bytes) returns (j: nat)
    requires Locate(Build(data), route) == Some(Leaf(d))
    ensures j < |data| && data[j] == d && RouteTo(j, |data|) == route
    decreases |data|
  {
    hide Split, IsPow2;
    match route
    case Here =>
      j := 0;
    case Turn(OnLeft, rest) =>
      j := LocatedLeafHasIndex(data[..Split(|data|)], rest, d);
    case Turn(OnRight, rest) =>
      j := LocatedLeafHasIndex(data[Split(|data|)..], rest, d);
      j := j + Split(|data|);
  }

  /**
   The proof is the log's own for leaf j, which is `d`, except that it may claim another index and
   size with the same route.
   */
  predicate ProvesLeaf(h: Hash, data: seq<Bytes>, d: Bytes, proof: MerkleProof, j: nat) {
    && j < |data| && data[j] == d
    && RouteTo(j, |data|) == RouteTo(proof.leafIndex, proof.treeSize)
    && proof.auditPath == Path(h, LeafHashes(h, data), j)
  }

  /**
   Membership: if a proof for the leaf hash of `d` is accepted against the root of a log, then `d`
   was appended to that log, at an index with the same route as the claimed one in the claimed size,
   and the audit path is the log's own for it, or the pair found collides.
   */
  lemma MembershipSoundness(h: Hash, data: seq<Bytes>, d: Bytes, proof: MerkleProof)
    requires proof.leafHash == HashLeaf(h, d)
    requires VerifyProof(h, proof, Root(h, data))
    ensures (exists j: nat :: ProvesLeaf(h, data, d, proof, j)) || Collides(h, MembershipCollision(h, data, d, proof))
  {
    AcceptedClimb(h, data, proof);
    if ProofCollision(h, data, proof).None? {
      var route := RouteTo(proof.leafIndex, proof.treeSize);
      var t := Locate(Build(data), route).value;
      if RootInput(h, t) == LEAF_PREFIX + d {
        RootInputKind(h, t);
        assert RootInput(h, t)[0] == 0;
        LeafInputInjective(t.data, d);
        var j := LocatedLeafHasIndex(data, route, d);
        PathIsSiblings(h, data, j);
        assert ProvesLeaf(h, data, d, proof, j);
      }
    }
  }

  lemma ProvenLeafAccepted(h: Hash, data: seq<Bytes>, d: Bytes, proof: MerkleProof, j: nat)
    requires proof.leafHash == HashLeaf(h, d) && 0 <= proof.leafIndex < proof.treeSize
    requires ProvesLeaf(h, data, d, proof, j)
    ensures VerifyProof(h, proof, Root(h, data))
  {
    hide Climb, Verify, RouteTo, Path, LeafHashes;
    assert proof.auditPath[0..|proof.auditPath|] == proof.auditPath;
    PathClimbsToRoot(h, data, j, proof.auditPath, 0);
    VerifyProofIsClimb(h, proof, Root(h, data));
  }

  /**
   Which proofs of a leaf hash are accepted: unless the pair found collides, exactly those in range
   that are the log's own for some leaf with that data and that route.
   */
  lemma AcceptedIffProvesLeaf(h: Hash, data: seq<Bytes>, d: Bytes, proof: MerkleProof)
    requires proof.leafHash == HashLeaf(h, d)
    ensures || Collides(h, MembershipCollision(h, data, d, proof))
            || (VerifyProof(h, proof, Root(h, data)) <==>
                  && 0 <= proof.leafIndex < proof.treeSize
                  && exists j: nat :: ProvesLeaf(h, data, d, proof, j))
  {
    hide Verify, RouteTo, ProvesLeaf, MembershipCollision;
    if VerifyProof(h, proof, Root(h, data)) {
      MembershipSoundness(h, data, d, proof);
    } else if 0 <= proof.leafIndex < proof.treeSize && exists j: nat :: ProvesLeaf(h, data, d, proof, j) {
      var j: nat :| ProvesLeaf(h, data, d, proof, j);
      ProvenLeafAccepted(h, data, d, proof, j);
    }
  }
}
