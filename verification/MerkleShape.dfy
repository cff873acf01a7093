/**
 The tree behind the recursion on slices. `Build` makes the split points visible as a binary tree,
 on which hashing, locating a leaf and collecting siblings are structural. The lemmas here tie it
 to `Root`, `Path` and `Verify`; what follows is proved on trees.
 */
module MerkleShape {
  import opened Common
  import opened MerkleTree

  datatype Tree = Empty | Leaf(data: Bytes) | Node(left: Tree, right: Tree)

  function Build(data: seq<Bytes>): Tree {
    if |data| == 0 then
      Empty
    else if |data| == 1 then
      Leaf(data[0])
    else
      Node(Build(data[..Split(|data|)]), Build(data[Split(|data|)..]))
  }

  /** The leaves of a tree, left to right. */
  function Frontier(t: Tree): seq<Bytes> {
    match t
    case Empty => []
    case Leaf(data) => [data]
    case Node(left, right) => Frontier(left) + Frontier(right)
  }

  /** The byte string whose hash is the root of the tree. */
  function RootInput(h: Hash, t: Tree): Bytes
    decreases t, 0
  {
    match t
    case Empty => []
    case Leaf(data) => LEAF_PREFIX + data
    case Node(left, right) => NODE_PREFIX + TreeRoot(h, left) + TreeRoot(h, right)
  }

  function TreeRoot(h: Hash, t: Tree): Digest
    decreases t, 1
  {
    h(RootInput(h, t))
  }

  lemma {:induction false} FrontierOfBuild(data: seq<Bytes>)
    ensures Frontier(Build(data)) == data
  {
    hide Split, IsPow2;
    if |data| > 1 {
      var k := Split(|data|);
      FrontierOfBuild(data[..k]);
      FrontierOfBuild(data[k..]);
      assert data == data[..k] + data[k..];
    }
  }

  lemma LeafHashesSlice(h: Hash, data: seq<Bytes>, k: nat)
    requires k <= |data|
    ensures LeafHashes(h, data)[..k] == LeafHashes(h, data[..k])
    ensures LeafHashes(h, data)[k..] == LeafHashes(h, data[k..])
  {
  }

  /** The root the log computes on its list of leaf hashes is the root of the tree. */
  lemma {:induction false} RootIsTreeRoot(h: Hash, data: seq<Bytes>)
    ensures Root(h, data) == TreeRoot(h, Build(data))
  {
    hide Split, IsPow2;
    if |data| > 1 {
      var k := Split(|data|);
      LeafHashesSlice(h, data, k);
      RootIsTreeRoot(h, data[..k]);
      RootIsTreeRoot(h, data[k..]);
    }
  }

  // ----- routes

  /** The side of its parent on which the running hash stands. */
  datatype Side = OnLeft | OnRight

  /** Turns from the root down. */
  datatype Route = Here | Turn(side: Side, rest: Route)

  function Depth(route: Route): nat {
    match route
    case Here => 0
    case Turn(_, rest) => 1 + Depth(rest)
  }

  function RouteTo(index: int, size: int): Route
    decreases size
  {
    if size <= 1 then
      Here
    else
      var k := Split(size);
      if index < k then Turn(OnLeft, RouteTo(index, k)) else Turn(OnRight, RouteTo(index - k, size - k))
  }

  function Locate(t: Tree, route: Route): Option<Tree>
    decreases route
  {
    match route
    case Here => Some(t)
    case Turn(side, rest) => if t.Node? then Locate(if side == OnLeft then t.left else t.right, rest) else None
  }

  /** Sibling hashes along a route, the deepest first. */
  function Siblings(h: Hash, t: Tree, route: Route): (path: seq<Bytes>)
    requires Locate(t, route).Some?
    ensures |path| == Depth(route)
    decreases route
  {
    match route
    case Here => []
    case Turn(OnLeft, rest) => Siblings(h, t.left, rest) + [TreeRoot(h, t.right)]
    case Turn(OnRight, rest) => Siblings(h, t.right, rest) + [TreeRoot(h, t.left)]
  }

  lemma {:induction false} RouteLeadsToLeaf(data: seq<Bytes>, index: nat)
    requires index < |data|
    ensures Locate(Build(data), RouteTo(index, |data|)) == Some(Leaf(data[index]))
    decreases |data|
  {
    hide Split, IsPow2;
    if |data| > 1 {
      var k := Split(|data|);
      if index < k {
        RouteLeadsToLeaf(data[..k], index);
      } else {
        RouteLeadsToLeaf(data[k..], index - k);
      }
    }
  }

  lemma HalvesOfLeafHashes(h: Hash, data: seq<Bytes>, k: nat)
    requires k <= |data|
    ensures LeafHashes(h, data)[..k] == LeafHashes(h, data[..k])
    ensures LeafHashes(h, data)[k..] == LeafHashes(h, data[k..])
    ensures MerkleTreeHash(h, LeafHashes(h, data)[..k]) == TreeRoot(h, Build(data[..k]))
    ensures MerkleTreeHash(h, LeafHashes(h, data)[k..]) == TreeRoot(h, Build(data[k..]))
  {
    LeafHashesSlice(h, data, k);
    RootIsTreeRoot(h, data[..k]);
    RootIsTreeRoot(h, data[k..]);
  }

  lemma PathOfHalf(h: Hash, data: seq<Bytes>, index: int)
    requires |data| > 1
    ensures var k := Split(|data|);
            Path(h, LeafHashes(h, data), index) ==
            if index < k then
              Path(h, LeafHashes(h, data[..k]), index) + [TreeRoot(h, Build(data[k..]))]
            else
              Path(h, LeafHashes(h, data[k..]), index - k) + [TreeRoot(h, Build(data[..k]))]
  {
    hide Split, IsPow2;
    HalvesOfLeafHashes(h, data, Split(|data|));
  }

  /** The siblings met on the route to a leaf are its audit path. */
  lemma {:induction false} PathIsSiblings(h: Hash, data: seq<Bytes>, index: nat)
    requires index < |data|
    requires Locate(Build(data), RouteTo(index, |data|)).Some?
    ensures Path(h, LeafHashes(h, data), index) == Siblings(h, Build(data), RouteTo(index, |data|))
    decreases |data|
  {
    hide Split, IsPow2, MerkleTreeHash, TreeRoot, LeafHashes;
    if |data| > 1 {
      PathOfHalf(h, data, index);
      if index < Split(|data|) {
        PathIsSiblings(h, data[..Split(|data|)], index);
      } else {
        PathIsSiblings(h, data[Split(|data|)..], index - Split(|data|));
      }
    }
  }

  // ----- climbing back up

  function Join(h: Hash, side: Side, running: Bytes, sibling: Bytes): Digest {
    match side
    case OnLeft => HashNode(h, running, sibling)
    case OnRight => HashNode(h, sibling, running)
  }

  /** Climbs from `v` at the end of the route, taking the siblings from `path` starting at `from`. */
  function Climb(h: Hash, v: Bytes, route: Route, path: seq<Bytes>, from: nat): (r: Bytes)
    requires from + Depth(route) <= |path|
    ensures |v| == 32 ==> |r| == 32
  {
    match route
    case Here => v
    case Turn(side, rest) => Join(h, side, Climb(h, v, rest, path, from), path[from + Depth(rest)])
  }

  /** The verifier is the climb, and it reads exactly as many path entries as there are levels. */
  lemma {:induction false} VerifyIsClimb(h: Hash, v: Bytes, index: int, size: int, path: seq<Bytes>, from: nat)
    requires from <= |path|
    ensures var route := RouteTo(index, size);
            if from + Depth(route) <= |path| then
              Verify(h, v, index, size, path, from) == (Some(Climb(h, v, route, path, from)), from + Depth(route))
            else
              Verify(h, v, index, size, path, from).0 == None
    decreases size
  {
    hide Split, IsPow2, HashNode;
    if size > 1 {
      var k := Split(size);
      if index < k {
        assert RouteTo(index, size) == Turn(OnLeft, RouteTo(index, k));
        VerifyIsClimb(h, v, index, k, path, from);
      } else {
        assert RouteTo(index, size) == Turn(OnRight, RouteTo(index - k, size - k));
        VerifyIsClimb(h, v, index - k, size - k, path, from);
      }
    }
  }

  lemma VerifyProofIsClimb(h: Hash, proof: MerkleProof, root: Bytes)
    requires 0 <= proof.leafIndex < proof.treeSize
    ensures var route := RouteTo(proof.leafIndex, proof.treeSize);
            VerifyProof(h, proof, root) <==>
              |proof.auditPath| == Depth(route) && Climb(h, proof.leafHash, route, proof.auditPath, 0) == root
  {
    VerifyIsClimb(h, proof.leafHash, proof.leafIndex, proof.treeSize, proof.auditPath, 0);
  }

  lemma SliceSplits(path: seq<Bytes>, from: nat, n: nat, init: seq<Bytes>, last: Bytes)
    requires from + n < |path| && |init| == n
    requires path[from..from + n + 1] == init + [last]
    ensures path[from..from + n] == init && path[from + n] == last
  {
    var met := path[from..from + n + 1];
    assert met[..n] == path[from..from + n] && met[n] == path[from + n];
    assert (init + [last])[..n] == init && (init + [last])[n] == last;
  }

  lemma {:induction false} ClimbOfSiblings(h: Hash, t: Tree, route: Route, path: seq<Bytes>, from: nat)
    requires Locate(t, route).Some?
    requires from + Depth(route) <= |path|
    requires path[from..from + Depth(route)] == Siblings(h, t, route)
    ensures Climb(h, TreeRoot(h, Locate(t, route).value), route, path, from) == TreeRoot(h, t)
    decreases route
  {
    match route
    case Here =>
    case Turn(side, rest) =>
      var (near, far) := if side == OnLeft then (t.left, t.right) else (t.right, t.left);
      SliceSplits(path, from, Depth(rest), Siblings(h, near, rest), TreeRoot(h, far));
      ClimbOfSiblings(h, near, rest, path, from);
  }
}
