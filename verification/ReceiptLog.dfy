/** Receipt logs: Merkle logs of the canonical bytes of receipts. */
module ReceiptLog {
  import opened Common
  import opened MerkleTree
  import opened MerkleSoundness
  import opened Receipts

  ghost function CanonicalHistory(receipts: seq<Receipt>): (data: seq<Bytes>)
    ensures |data| == |receipts|
    ensures forall i :: 0 <= i < |data| ==> data[i] == FullBytes(receipts[i])
  {
    seq(|receipts|, i requires 0 <= i < |receipts| => FullBytes(receipts[i]))
  }

  /**
   Two receipt logs with equal roots hold, in order, receipts that agree on every field but the
   signature and the public key, or the pair found collides.
   */
  lemma RootBindsReceipts(h: Hash, a: seq<Receipt>, b: seq<Receipt>)
    requires Root(h, CanonicalHistory(a)) == Root(h, CanonicalHistory(b))
    ensures match RootCollision(h, CanonicalHistory(a), CanonicalHistory(b))
            case Some(c) => Collides(h, c)
            case None =>
              |a| == |b| && forall i :: 0 <= i < |a| ==> SignedPart(a[i]) == SignedPart(b[i])
  {
    var (x, y) := (CanonicalHistory(a), CanonicalHistory(b));
    RootBindsHistory(h, x, y);
    if RootCollision(h, x, y).None? {
      forall i | 0 <= i < |a| ensures SignedPart(a[i]) == SignedPart(b[i]) {
        assert x[i] == y[i];
        FullBytesInjective(a[i], b[i]);
      }
    }
  }

  /**
   An accepted proof for a receipt's canonical bytes means the log holds, where the proof points, a
   receipt with the same signed part, or the pair found collides.
   */
  lemma ProofBindsReceipt(h: Hash, receipts: seq<Receipt>, r: Receipt, proof: MerkleProof)
    requires proof.leafHash == HashLeaf(h, FullBytes(r))
    ensures var data := CanonicalHistory(receipts);
            || !VerifyProof(h, proof, Root(h, data))
            || Collides(h, MembershipCollision(h, data, FullBytes(r), proof))
            || exists i: nat :: ProvesLeaf(h, data, FullBytes(r), proof, i) && SignedPart(receipts[i]) == SignedPart(r)
  {
    hide VerifyProof, MembershipCollision, Path;
    var data := CanonicalHistory(receipts);
    if VerifyProof(h, proof, Root(h, data)) && !Collides(h, MembershipCollision(h, data, FullBytes(r), proof)) {
      MembershipSoundness(h, data, FullBytes(r), proof);
      var i: nat :| ProvesLeaf(h, data, FullBytes(r), proof, i);
      FullBytesInjective(receipts[i], r);
    }
  }
}
