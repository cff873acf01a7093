/**
 Section 2.1.3.2 of RFC 9162 verifies an inclusion proof with a loop that walks the bits of the
 leaf index from the leaf up. The recursive verifier comes down from the root. They accept the
 same proofs.
 */
module MerkleRfc9162 {
  import opened Common
  import opened MerkleTree
  import opened MerkleShape

  /** Right-shifts both numbers until the first is odd or zero. */
  function ShiftWhileEven(fn: nat, sn: nat): (r: (nat, nat))
    ensures fn <= sn ==> r.0 <= r.1 <= sn
    ensures fn == sn ==> r.0 == r.1
  {
    if fn == 0 || fn % 2 == 1 then (fn, sn) else ShiftWhileEven(fn / 2, sn / 2)
  }

  /** The loop over the inclusion path: the computed root, or None on failure. */
  function ShiftingLoop(h: Hash, fn: nat, sn: nat, r: Bytes, path: seq<Bytes>, from: nat): Option<Bytes>
    requires from <= |path|
    decreases |path| - from
  {
    if from == |path| then
      if sn == 0 then Some(r) else None
    else if sn == 0 then
      None
    else if fn % 2 == 1 || fn == sn then
      var (f, s) := if fn % 2 == 0 then ShiftWhileEven(fn, sn) else (fn, sn);
      ShiftingLoop(h, f / 2, s / 2, HashNode(h, path[from], r), path, from + 1)
    else
      ShiftingLoop(h, fn / 2, sn / 2, HashNode(h, r, path[from]), path, from + 1)
  }

  predicate VerifyInclusion(h: Hash, proof: MerkleProof, root: Bytes)
    requires proof.leafIndex >= 0 && proof.treeSize >= 0
  {
    && proof.leafIndex < proof.treeSize
    && ShiftingLoop(h, proof.leafIndex, proof.treeSize - 1, proof.leafHash, proof.auditPath, 0) == Some(root)
  }

  // ----- the loop as a climb

  /** Extends a route at its leaf end. */
  function Extend(route: Route, side: Side): Route {
    match route
    case Here => Turn(side, Here)
    case Turn(s, rest) => Turn(s, Extend(rest, side))
  }

  /** One round of the loop: the side on which the running hash stands, and the numbers for the next round. */
  function Step(fn: nat, sn: nat): (r: (Side, nat, nat))
    requires fn <= sn && sn > 0
    ensures r.1 <= r.2 < sn
  {
    if fn % 2 == 1 || fn == sn then
      var (f, s) := if fn % 2 == 0 then ShiftWhileEven(fn, sn) else (fn, sn);
      (OnRight, f / 2, s / 2)
    else
      (OnLeft, fn / 2, sn / 2)
  }

  function WalkRoute(fn: nat, sn: nat): Route
    requires fn <= sn
    decreases sn
  {
    if sn == 0 then
      Here
    else
      var (side, f, s) := Step(fn, sn);
      Extend(WalkRoute(f, s), side)
  }

  lemma {:induction false} ClimbExtended(h: Hash, v: Bytes, route: Route, side: Side, path: seq<Bytes>, from: nat)
    ensures Depth(Extend(route, side)) == Depth(route) + 1
    ensures from + 1 + Depth(route) <= |path| ==>
              Climb(h, v, Extend(route, side), path, from) ==
              Climb(h, Join(h, side, v, path[from]), route, path, from + 1)
  {
    match route
    case Here =>
    case Turn(_, rest) => ClimbExtended(h, v, rest, side, path, from);
  }

  lemma LoopTakesStep(h: Hash, fn: nat, sn: nat, r: Bytes, path: seq<Bytes>, from: nat)
    requires fn <= sn && sn > 0 && from < |path|
    ensures var (side, f, s) := Step(fn, sn);
            ShiftingLoop(h, fn, sn, r, path, from) ==
            ShiftingLoop(h, f, s, Join(h, side, r, path[from]), path, from + 1)
  {
    hide ShiftWhileEven;
  }

  lemma {:induction false} LoopIsClimb(h: Hash, fn: nat, sn: nat, r: Bytes, path: seq<Bytes>, from: nat)
    requires fn <= sn && from <= |path|
    ensures var route := WalkRoute(fn, sn);
            ShiftingLoop(h, fn, sn, r, path, from) ==
            if from + Depth(route) == |path| then Some(Climb(h, r, route, path, from)) else None
    decreases |path| - from
  {
    hide Step, Extend, Join;
    if sn > 0 {
      var (side, f, s) := Step(fn, sn);
      ClimbExtended(h, r, WalkRoute(f, s), side, path, from);
      if from < |path| {
        LoopTakesStep(h, fn, sn, r, path, from);
        LoopIsClimb(h, f, s, Join(h, side, r, path[from]), path, from + 1);
      }
    }
  }

  // ----- the two routes are the same

  /** The walk of the last leaf, where both numbers are equal. */
  function Diagonal(x: nat): Route {
    if x == 0 then Here else if x % 2 == 1 then Extend(Diagonal(x / 2), OnRight) else Diagonal(x / 2)
  }

  lemma {:induction false} ShiftToOdd(x: nat)
    requires x > 0
    ensures var s := ShiftWhileEven(x, x).0; s % 2 == 1 && Diagonal(s) == Diagonal(x)
  {
    if x % 2 == 0 {
      ShiftToOdd(x / 2);
    }
  }

  lemma {:induction false} WalkIsDiagonal(x: nat)
    ensures WalkRoute(x, x) == Diagonal(x)
  {
    if x > 0 {
      var s := if x % 2 == 0 then ShiftWhileEven(x, x).0 else x;
      ShiftToOdd(x);
      WalkIsDiagonal(s / 2);
    }
  }

  /** A step without the inner shifting. */
  lemma PlainStep(fn: nat, sn: nat)
    requires fn < sn || (fn == sn && fn % 2 == 1)
    ensures Step(fn, sn) == (if fn % 2 == 1 then OnRight else OnLeft, fn / 2, sn / 2)
  {
  }

  lemma {:induction false} WalkLeft(e: nat, fn: nat, sn: nat)
    requires fn < Pow2(e) <= sn < 2 * Pow2(e)
    ensures WalkRoute(fn, sn) == Turn(OnLeft, WalkRoute(fn, Pow2(e) - 1))
    decreases e
  {
    PlainStep(fn, sn);
    hide Step;
    if e > 0 {
      WalkLeft(e - 1, fn / 2, sn / 2);
      assert (Pow2(e) - 1) / 2 == Pow2(e - 1) - 1;
      PlainStep(fn, Pow2(e) - 1);
    }
  }

  lemma {:induction false} DiagonalSplits(e: nat, x: nat)
    requires Pow2(e) <= x < 2 * Pow2(e)
    ensures Diagonal(x) == Turn(OnRight, Diagonal(x - Pow2(e)))
    decreases e
  {
    if e > 0 {
      DiagonalSplits(e - 1, x / 2);
      assert (x - 2 * Pow2(e - 1)) / 2 == x / 2 - Pow2(e - 1);
    }
  }

  lemma {:induction false} WalkRight(e: nat, fn: nat, sn: nat)
    requires Pow2(e) <= fn <= sn < 2 * Pow2(e)
    ensures WalkRoute(fn, sn) == Turn(OnRight, WalkRoute(fn - Pow2(e), sn - Pow2(e)))
    decreases e
  {
    hide Step, Diagonal;
    if fn == sn {
      DiagonalSplits(e, fn);
      WalkIsDiagonal(fn);
      WalkIsDiagonal(fn - Pow2(e));
    } else {
      var half := Pow2(e - 1);
      WalkRight(e - 1, fn / 2, sn / 2);
      assert (fn - 2 * half) / 2 == fn / 2 - half && (sn - 2 * half) / 2 == sn / 2 - half;
      PlainStep(fn, sn);
      PlainStep(fn - Pow2(e), sn - Pow2(e));
    }
  }

  lemma WalkSplits(index: nat, size: nat)
    requires index < size && size > 1
    ensures var k := Split(size);
            WalkRoute(index, size - 1) ==
            if index < k then
              Turn(OnLeft, WalkRoute(index, k - 1))
            else
              Turn(OnRight, WalkRoute(index - k, size - k - 1))
  {
    hide Split, WalkRoute, Step;
    var e: nat :| Split(size) == Pow2(e);
    if index < Split(size) {
      WalkLeft(e, index, size - 1);
    } else {
      WalkRight(e, index, size - 1);
    }
  }

  lemma {:induction false} RoutesAgree(index: nat, size: nat)
    requires index < size
    ensures RouteTo(index, size) == WalkRoute(index, size - 1)
    decreases size
  {
    hide Split, IsPow2;
    if size > 1 {
      WalkSplits(index, size);
      if index < Split(size) {
        RoutesAgree(index, Split(size));
      } else {
        RoutesAgree(index - Split(size), size - Split(size));
      }
    }
  }

  /** The recursive verifier accepts exactly the proofs that the loop of RFC 9162 accepts. */
  lemma RecursionAgreesWithLoop(h: Hash, proof: MerkleProof, root: Bytes)
    requires proof.leafIndex >= 0 && proof.treeSize >= 0
    ensures VerifyProof(h, proof, root) <==> VerifyInclusion(h, proof, root)
  {
    hide Verify, ShiftingLoop, Climb, RouteTo, WalkRoute, Depth;
    if proof.leafIndex < proof.treeSize {
      VerifyProofIsClimb(h, proof, root);
      RoutesAgree(proof.leafIndex, proof.treeSize);
      LoopIsClimb(h, proof.leafIndex, proof.treeSize - 1, proof.leafHash, proof.auditPath, 0);
    }
  }
}
