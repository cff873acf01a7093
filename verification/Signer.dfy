/** Signing and verifying receipts over their canonical bytes, with an ideal signature. */
module Signer {
  import opened Common
  import opened Json
  import opened CanonicalJson
  import opened Dict
  import opened FieldNames
  import opened Receipts

  /** What can be signed or checked: a receipt, or a plain dict. */
  datatype Payload = FromReceipt(receipt: Receipt) | FromDict(data: Dict)

  datatype VerifyError = NoPublicKey | Tampered | Undecodable

  const SIGNATURE_BYTES := 64

  /** The library's check of one message: a signature of another length cannot be decoded. */
  function CheckMessage(key: Key, message: Bytes, signature: Signature): (r: Result<bool, VerifyError>)
    ensures r.Success? <==> signature == Genuine(key, message)
  {
    match signature
    case Genuine(k, m) => if k == key && m == message then Success(true) else Failure(Tampered)
    case Other(raw) => Failure(if |raw| == SIGNATURE_BYTES then Tampered else Undecodable)
  }

  /** The messages a verifier tries, in order. */
  ghost function Candidates(payload: Payload): seq<Bytes> {
    match payload
    case FromReceipt(r) => [FullBytes(r), LegacyBytes(r)]
    case FromDict(data) => [CanonicalBytes(Object(data))]
  }

  /** Whether a signature stands for the payload under a key. */
  ghost predicate Accepts(key: Key, payload: Payload, signature: Signature) {
    exists i :: 0 <= i < |Candidates(payload)| && signature == Genuine(key, Candidates(payload)[i])
  }

  /** Builds the messages a verifier tries. */
  method BuildCandidates(payload: Payload) returns (messages: seq<Bytes>)
    ensures messages == Candidates(payload) && messages != []
  {
    match payload {
      case FromReceipt(r) =>
        var full := BuildCanonicalDict(r);
        SpelledContent(full);
        FullBytesFromContent(Content(Spelled(full)), r);
        BytesOfAnyOrder(Spelled(full));
        var legacy := BuildLegacyCanonicalDict(r);
        SpelledContent(legacy);
        LegacyBytesFromContent(Content(Spelled(legacy)), r);
        BytesOfAnyOrder(Spelled(legacy));
        messages := [CanonicalBytes(Object(Spelled(full))), CanonicalBytes(Object(Spelled(legacy)))];
      case FromDict(data) =>
        messages := [CanonicalBytes(Object(data))];
    }
  }

  /** A receipt is accepted by either of its two forms, a dict as it is. */
  lemma AcceptsMeaning(key: Key, payload: Payload, signature: Signature)
    ensures Accepts(key, payload, signature) <==>
              match payload
              case FromReceipt(r) => signature in {Genuine(key, FullBytes(r)), Genuine(key, LegacyBytes(r))}
              case FromDict(data) => signature == Genuine(key, CanonicalBytes(Object(data)))
  {
    match payload
    case FromReceipt(r) =>
      assert Candidates(payload)[0] == FullBytes(r) && Candidates(payload)[1] == LegacyBytes(r);
    case FromDict(data) =>
      assert Candidates(payload)[0] == CanonicalBytes(Object(data));
  }

  class ReceiptSigner {
    const key: Key

    constructor (key: Key)
      ensures this.key == key
    {
      this.key := key;
    }

    /** Signs the full canonical form. */
    method Sign(r: Receipt) returns (signature: Signature)
      ensures signature == Genuine(key, FullBytes(r))
      ensures forall d: Dict :: IsFullDict(Content(d), r) ==> signature == Genuine(key, CanonicalBytes(Object(d)))
    {
      hide IsFullDict;
      var data := BuildCanonicalDict(r);
      SpelledContent(data);
      FullBytesFromContent(Content(Spelled(data)), r);
      BytesOfAnyOrder(Spelled(data));
      forall d: Dict | IsFullDict(Content(d), r) ensures CanonicalBytes(Object(d)) == FullBytes(r) {
        FullBytesFromContent(Content(d), r);
        BytesOfAnyOrder(d);
      }
      signature := Genuine(key, CanonicalBytes(Object(Spelled(data))));
    }

    /** Signs the first message a verifier would try: the full form of a receipt, or a dict as it is. */
    method SignReceipt(payload: Payload) returns (signature: Signature)
      ensures signature == Genuine(
                key,
                match payload case FromReceipt(r) => FullBytes(r) case FromDict(data) => CanonicalBytes(Object(data)))
    {
      match payload {
        case FromReceipt(r) => signature := Sign(r);
        case FromDict(data) => signature := Genuine(key, CanonicalBytes(Object(data)));
      }
    }

    method Verify(payload: Payload, signature: Signature) returns (ok: bool)
      ensures ok <==> Accepts(key, payload, signature)
      ensures ok <==> match payload
                      case FromReceipt(r) => signature in {Genuine(key, FullBytes(r)), Genuine(key, LegacyBytes(r))}
                      case FromDict(data) => signature == Genuine(key, CanonicalBytes(Object(data)))
    {
      AcceptsMeaning(key, payload, signature);
      var messages := BuildCandidates(payload);
      var i := 0;
      while i < |messages|
        invariant 0 <= i <= |messages|
        invariant forall j :: 0 <= j < i ==> signature != Genuine(key, messages[j])
      {
        if CheckMessage(key, messages[i], signature).Success? {
          return true;
        }
        i := i + 1;
      }
      return false;
    }
  }

  class ReceiptVerifier {
    var verifyKey: Option<Key>

    constructor (key: Option<Key>)
      ensures verifyKey == key
    {
      verifyKey := key;
    }

    method SetPublicKey(key: Key)
      modifies this
      ensures verifyKey == Some(key)
    {
      verifyKey := Some(key);
    }

    /** Accepts exactly a signature over some candidate under the configured key; otherwise says why not. */
    method Verify(payload: Payload, signature: Signature) returns (ok: bool, error: Option<VerifyError>)
      ensures ok <==> verifyKey.Some? && Accepts(verifyKey.value, payload, signature)
      ensures ok <==> match (verifyKey, payload)
                      case (Some(k), FromReceipt(r)) =>
                        signature in {Genuine(k, FullBytes(r)), Genuine(k, LegacyBytes(r))}
                      case (Some(k), FromDict(data)) => signature == Genuine(k, CanonicalBytes(Object(data)))
                      case (None, _) => false
      ensures error ==
              if ok then None
              else if verifyKey == None then Some(NoPublicKey)
              else if signature.Other? && |signature.raw| != 64 then Some(Undecodable)
              else Some(Tampered)
    {
      if verifyKey.Some? {
        AcceptsMeaning(verifyKey.value, payload, signature);
      }
      if verifyKey.None? {
        return false, Some(NoPublicKey);
      }
      var messages := BuildCandidates(payload);
      var lastError := None;
      var i := 0;
      while i < |messages|
        invariant 0 <= i <= |messages|
        invariant forall j :: 0 <= j < i ==> signature != Genuine(verifyKey.value, messages[j])
        invariant i > 0 ==> lastError == Some(FailureReason(verifyKey, signature))
      {
        match CheckMessage(verifyKey.value, messages[i], signature) {
          case Success(_) => return true, None;
          case Failure(e) => lastError := Some(e);
        }
        i := i + 1;
      }
      return false, lastError;
    }
  }

  /** Why a signature is refused. */
  function FailureReason(key: Option<Key>, signature: Signature): VerifyError {
    if key.None? then NoPublicKey
    else if signature.Other? && |signature.raw| != SIGNATURE_BYTES then Undecodable
    else Tampered
  }

  // ----- the scope of a signature

  /**
   A signature made by `Sign` verifies a receipt exactly when the receipt agrees on every field but
   the signature and the public key, under the same key, and never by way of the legacy form.
   */
  lemma FullSignatureScope(signer: Key, key: Key, signed: Receipt, checked: Receipt)
    ensures var signature := Genuine(signer, FullBytes(signed));
            && (Accepts(key, FromReceipt(checked), signature) <==>
                  signer == key && SignedPart(signed) == SignedPart(checked))
            && signature != Genuine(key, LegacyBytes(checked))
  {
    AcceptsMeaning(key, FromReceipt(checked), Genuine(signer, FullBytes(signed)));
    FullBytesInjective(signed, checked);
    FormsNeverCoincide(signed, checked);
  }

  /**
   A signature over the legacy form verifies exactly the receipts with the same seven fields and the
   same non-empty hashes: every other field can differ.
   */
  lemma LegacySignatureScope(signer: Key, key: Key, signed: Receipt, checked: Receipt)
    ensures Accepts(key, FromReceipt(checked), Genuine(signer, LegacyBytes(signed))) <==>
              signer == key && SameLegacyPart(signed, checked)
  {
    AcceptsMeaning(key, FromReceipt(checked), Genuine(signer, LegacyBytes(signed)));
    LegacyBytesInjective(signed, checked);
    FormsNeverCoincide(checked, signed);
  }

  /** A signature over a dict verifies exactly the dicts equal to it as values, in any key order. */
  lemma DictSignatureScope(signer: Key, key: Key, signed: Dict, checked: Dict)
    requires WellFormed(Object(signed)) && WellFormed(Object(checked))
    ensures Accepts(key, FromDict(checked), Genuine(signer, CanonicalBytes(Object(signed)))) <==>
              signer == key && SameValue(Object(signed), Object(checked))
  {
    CanonicalBytesInjective(Object(signed), Object(checked));
    AcceptsMeaning(key, FromDict(checked), Genuine(signer, CanonicalBytes(Object(signed))));
  }
}
