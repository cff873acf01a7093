# Verification model of the Inference Receipt Protocol library

A Dafny model of the core of the IRP Python library: the Merkle audit log, canonical JSON and what
receipt signatures cover, the frame codec, the handshake and version negotiation, and the client's
receipt validator, with proofs of the properties these parts exist for.

`dafny verify dfyconfig.toml` checks the whole project.

## What is modelled

**Audit log** (`Merkle*.dfy`). `MerkleTree` has the split point, the root hash, the audit path and
the recursive path verifier with its cursor, on the real byte strings `0x00 || data` and
`0x01 || left || right`. SHA-256 is any function from byte strings to 32-byte strings. Since such a
function always has collisions, "a collision exists" says nothing; every binding theorem instead
names a pair of byte strings computed from its inputs and says that either the conclusion holds or
that pair collides. `MerkleShape` exposes the tree behind the recursion on slices, on which
`MerkleSoundness`, `MerkleBounds` and `MerkleRfc9162` prove their results. `MerkleAuditLog` is the
mutable log with a ghost history of everything appended.

**Canonical JSON** (`Decimal`, `Utf8`, `Json*`, `KeyOrder`, `CanonicalJson`, `Dict`). JSON values
with insertion-ordered objects, the compact printer with ASCII escaping (surrogate pairs above
U+FFFF), a parser for sections 2 to 7 of RFC 8259 as Python reads them, and UTF-8. Integers are
printed and parsed as numbers; a float is its printed token. `SameValue` is equality of values with
object keys in any order. `JsonGrammar` states the grammar of the RFC as a relation between texts and
values, without the parser, and `JsonRecognizer` proves that the parser reads exactly that relation.

**Receipts and signatures** (`FieldNames`, `Receipts`, `Signer`, `ReceiptLog`). The full and the
legacy canonical dict, built step by step and described key by key, and signer and verifier objects
over an ideal signature: a signature is either made with a key over a message, or some other byte
string, which never verifies.

**Frames** (`Frame`, `FrameCodec`). Request and response frames as canonical JSON behind a four-byte
big-endian length prefix, and their decoder with its error cases.

**Handshake and versions** (`Text`, `Version`, `Handshake`, `HandshakeHeaders`). Version text, both
version readers, both negotiators, capability selection, and the comma-separated headers.

**Validator** (`Billing`, `Validator`). The comparison of reported and local token counts in exact
arithmetic, the validator object and its log, and the summary. A ghost list of calls ties the log to
the run that produced it.

## Where code and documents differ

The model follows the code.

- `irp/README.md:201` encodes the canonical dict itself as text; a dict has no such method. Receipt
  logs here append the canonical JSON bytes, as the signer produces them.
- `irp/irp/frame.py:159-160` promises a value error for a frame of the wrong class; the code reports
  a missing key instead (`FrameCodec.WrongKindMissesKey`).
- `docs/spec/irp-core.md:1876-1882` makes every receipt without a valid signature an error; the code
  does so only when a signature is present (`Validator.ExpectedIsCoherent`).
- `docs/spec/irp-metering.md:581-600` uses up a path entry when a node is promoted, and
  `docs/spec/irp-conformance.md:436-437` hashes without prefixes. The code does neither, and agrees
  with section 2.1.3.2 of RFC 9162 (`MerkleRfc9162.RecursionAgreesWithLoop`).

## Three properties with conditions

- `verify_proof` checks no lengths, so a proof with a leaf hash that is not 32 bytes can be accepted:
  `MerkleSoundness.CutLeafHashAccepted` gives one for every two-leaf log.
  `MerkleSoundness.AcceptedIsGenuineIffDigest` shows that 32 bytes is the exact condition.
- A handshake request survives its headers exactly when the listed items are trimmed, non-empty and
  free of commas (`HandshakeHeaders.RequestRoundTrip`).
- The handshake negotiation raises exactly when some common version string has no version tuple
  (`Handshake.NegotiationRaisesIffMalformed`).

## Model

| member | source | states |
|---|---|---|
| MerkleTree.Split | irp/irp/audit.py:53-69 | the split k is a power of two with 1 <= k < n <= 2k |
| MerkleTree.LargestPowerOfTwoLessThan | irp/irp/audit.py:53-69 | an error exactly below 2; otherwise a power of two k with k < n <= 2k |
| MerkleBounds.SplitIsLargest | irp/irp/audit.py:53-69 | the split is a power of two below n, and at least every power of two below n |
| MerkleBounds.RootOnBytes | irp/irp/audit.py:71-82 | the root of nothing is the hash of the empty string, of one leaf that of a zero byte and the data, of more that of a one byte and the roots of the two parts, split at the power of two k with k < n <= 2k |
| MerkleShape.RootIsTreeRoot | irp/irp/audit.py:71-82 | the root computed over leaf hashes is the root of the binary tree of the split points |
| MerkleShape.PathIsSiblings | irp/irp/audit.py:94-105 | the audit path lists the sibling roots met on the route to the leaf, deepest first |
| MerkleShape.VerifyIsClimb | irp/irp/audit.py:124-151 | the recursive verifier started at any cursor reads one path entry per level and folds it in on the side of the route, and fails exactly when entries run out |
| MerkleSoundness.RootBindsHistory | irp/irp/audit.py:71-92 | logs of any two sizes with equal roots have the same appended data in order, or the computed pair of byte strings collides |
| MerkleSoundness.AppendChangesRoot | irp/irp/audit.py:84-92 | if appending leaves the root unchanged, the computed pair collides |
| MerkleSoundness.ClimbSound | irp/irp/audit.py:124-151 | a 32-byte value climbed along any route with any siblings to the root of a tree is the root of a subtree at that route, with that subtree's siblings, or the computed pair collides |
| MerkleSoundness.VerifyConsumesPath | irp/irp/audit.py:94-151 | started at any cursor, the verifier consumes exactly the entries of the audit path and returns the root |
| MerkleSoundness.GenuineProofAccepted | irp/irp/audit.py:107-171 | completeness: the log's own proof of every index verifies against its root |
| MerkleSoundness.PositionalSoundness | irp/irp/audit.py:153-171 | with the log's size and a 32-byte leaf hash, an accepted proof has the stored leaf and exactly the log's path, or the computed pair collides |
| MerkleSoundness.AcceptedIsGenuineIffDigest | irp/irp/audit.py:153-171 | for accepted proofs at the log's size without the computed collision, being the log's own proof is the same as a 32-byte leaf hash |
| MerkleSoundness.CutLeafHashAccepted | irp/irp/audit.py:153-171 | in every two-leaf log a proof with a 31-byte leaf hash is accepted and is not the log's own |
| MerkleSoundness.MembershipSoundness | irp/irp/audit.py:153-171 | an accepted proof for the leaf hash of d means, whatever index and size it claims, that d was appended at an index with the claimed route, whose audit path is the one in the proof, or the computed pair collides |
| MerkleSoundness.AcceptedIffProvesLeaf | irp/irp/audit.py:153-171 | unless the computed pair collides, the proofs accepted for the leaf hash of d are exactly those in range that carry the log's own path of some appended d with the claimed route |
| MerkleRfc9162.RecursionAgreesWithLoop | irp/irp/audit.py:124-171 | for every proof with non-negative index and size, the recursive verifier accepts exactly when the bit-shifting loop of section 2.1.3.2 of RFC 9162 does |
| MerkleBounds.PathLength | irp/irp/audit.py:94-105 | paths have at most bit_length(n-1) entries, and exactly so many for every index below the split |
| MerkleBounds.PathBeginsWithFullPath | irp/irp/audit.py:94-105 | the path of a leaf begins with its path at any power-of-two size that contains it |
| MerkleBounds.ProofSurvivesAppends | irp/irp/audit.py:84-122 | later appends keep a leaf hash at its index, and an earlier proof verifies against the root of its own size |
| MerkleBounds.RootWork | irp/irp/audit.py:71-82 | counting node hashes does not change the root, and a root over n >= 1 leaves takes n-1 |
| MerkleBounds.ProveAndVerifyWork | irp/irp/audit.py:94-151 | issuing a proof and verifying it together hash n-1 nodes, as many as the root |
| MerkleAuditLog.MerkleAuditLog.constructor | irp/irp/audit.py:36-40 | a new log has an empty history |
| MerkleAuditLog.MerkleAuditLog.Size | irp/irp/audit.py:42-43 | the number of byte strings ever appended |
| MerkleAuditLog.MerkleAuditLog.Append | irp/irp/audit.py:84-88 | appends the hash of a zero byte and the bytes after all earlier leaf hashes, which are kept, and returns its index |
| MerkleAuditLog.MerkleAuditLog.RootHash | irp/irp/audit.py:90-92 | the root of the history on bytes, which no other history shares unless the computed pair collides |
| MerkleAuditLog.MerkleAuditLog.Proof | irp/irp/audit.py:107-122 | an error exactly outside the log; otherwise the proof of that leaf, with the hash of a zero byte and its data, which verifies against the current root |
| Utf8.DecodeOfEncode | irp/irp/frame.py:142-145 | UTF-8 decoding undoes encoding for every string |
| Utf8.EncodeOfDecode | irp/irp/frame.py:174-177 | whatever decodes is the encoding of its text: no overlong forms, no surrogates |
| Utf8.EncodingByValue | irp/irp/frame.py:142-145 | the leading byte tells the length, the others carry six bits each, and the code point is their sum |
| JsonRoundTrip.ScanOfEscapeAll | irp/irp/signer.py:12-14 | scanning a string literal undoes ASCII escaping, whatever follows |
| JsonString.UnicodeEscapes | irp/irp/signer.py:12-14 | characters outside printable ASCII without a short escape print as one lower-case four-digit escape, above U+FFFF as a high and a low surrogate whose combination is the code point |
| Decimal.ValueByPlace | irp/irp/signer.py:12-14 | decimal digits count by their place |
| JsonRoundTrip.IntTextIsNumber | irp/irp/signer.py:12-14 | a printed integer is a number of the JSON grammar with its value |
| JsonRoundTrip.RenderDenotes | irp/irp/signer.py:12-14 | what is printed for a value is a text of the JSON grammar for it |
| JsonRoundTrip.ParseOfRender | irp/irp/signer.py:12-14 | parsing a printed value gives it back and leaves what follows untouched |
| JsonParsed.LoadedIsWellFormed | irp/irp/frame.py:174-177 | every text that loads gives a value with distinct keys at every level and proper float tokens |
| JsonParsed.RepeatedKeyKeepsLast | irp/irp/frame.py:174-177 | a repeated key in a parsed object keeps its last value |
| JsonRecognizer.NumberParsed | irp/irp/frame.py:174-177 | a number of the grammar is read as a whole: an integer without fraction and exponent, otherwise a float with its token |
| JsonRecognizer.StringFound | irp/irp/frame.py:174-177 | whatever is read as a string literal is made of the characters and escapes of the grammar |
| JsonRecognizer.LoadsIffDenotes | irp/irp/frame.py:174-177 | a text loads as a value exactly when it is a text of the JSON grammar for that value, with whitespace around it |
| CanonicalJson.LoadsOfCanonical | irp/irp/signer.py:12-14 | loading canonical text gives the value back with keys sorted by code point, which equals it |
| CanonicalJson.CanonicalBytesInjective | irp/irp/signer.py:12-14 | canonical bytes agree exactly when the values are equal, keys in any order |
| CanonicalJson.CanonicalObject | docs/spec/irp-core.md:1890-1901 | an object prints as its "key":value entries in code point order of the keys, joined by commas between braces |
| CanonicalJson.CanonicalArray | docs/spec/irp-core.md:1890-1912 | an array prints as its items in order, joined by commas between brackets |
| KeyOrder.KeyOrderIsByCodePoint | irp/irp/signer.py:12-14 | one key is below another exactly when they agree up to some place where the first ends or goes on with the smaller code point |
| CanonicalJson.CanonicalBytesAreTheText | irp/irp/signer.py:12-14 | canonical text is ASCII and its bytes are its character codes |
| Dict.BytesOfAnyOrder | irp/irp/signer.py:12-14 | dicts of the same content have the same canonical bytes, in whatever order they were built |
| Receipts.BuildCanonicalDict | irp/irp/signer.py:35-73 | the dict built holds, under each literal key, the receipt field it stands for, the optional keys exactly when present, and no other key |
| Receipts.BuildLegacyCanonicalDict | irp/irp/signer.py:17-32 | the dict built holds the seven fields under their literal keys, the hashes exactly when not empty, and no other key |
| Receipts.FullBytesFromContent | irp/irp/signer.py:35-73 | content that is right key by key has the full canonical bytes |
| Receipts.LegacyBytesFromContent | irp/irp/signer.py:17-32 | content that is right key by key has the legacy canonical bytes |
| Receipts.FullBytesInjective | irp/irp/signer.py:35-73 | full canonical bytes agree exactly when the receipts agree on every field but signature and public_key |
| Receipts.LegacyBytesInjective | irp/irp/signer.py:17-32 | legacy canonical bytes agree exactly when the seven fields and the non-empty hashes agree |
| Receipts.FormsNeverCoincide | irp/irp/signer.py:17-73 | no receipt's full canonical bytes are any receipt's legacy canonical bytes |
| Signer.ReceiptSigner.Sign | irp/irp/signer.py:96-99 | signs with the signer's key the canonical bytes of any dict that is right key by key |
| Signer.ReceiptSigner.SignReceipt | irp/irp/signer.py:101-112 | signs the full form of a receipt, or a dict as it is |
| Signer.ReceiptSigner.Verify | irp/irp/signer.py:114-135 | accepts exactly a signature by this key over the full or the legacy form of a receipt, or over the dict |
| Signer.ReceiptVerifier.SetPublicKey | irp/irp/signer.py:146-149 | replaces the configured key |
| Signer.ReceiptVerifier.Verify | irp/irp/signer.py:151-188 | accepts exactly a signature by the configured key over the full or the legacy form of a receipt, or over the dict; otherwise reports a missing key, a signature of other than 64 bytes, or a wrong one |
| Signer.FullSignatureScope | irp/irp/signer.py:96-188 | a signature made by sign verifies a receipt exactly when it agrees on all full fields under the same key, and never by the legacy form |
| Signer.LegacySignatureScope | irp/irp/signer.py:17-188 | a legacy signature verifies exactly the receipts with the same seven fields and non-empty hashes |
| Signer.DictSignatureScope | irp/irp/signer.py:101-188 | a signature over a dict verifies exactly the equal dicts, keys in any order |
| ReceiptLog.RootBindsReceipts | irp/irp/signer.py:35-73 | receipt logs with equal roots hold in order receipts that agree on every field but signature and public_key, or the computed pair collides |
| ReceiptLog.ProofBindsReceipt | irp/irp/audit.py:153-171 | an accepted proof for a receipt's canonical bytes means the log holds, at the leaf the proof points to, a receipt with the same signed fields, or the computed pair collides |
| FrameCodec.DecodeOfEncodeFrame | irp/irp/frame.py:148-186 | decoding an encoded frame followed by any bytes gives an equal frame |
| FrameCodec.FrameLayout | irp/irp/frame.py:142-151 | an encoded frame is four bytes for the length, most significant first, and the character codes of the canonical text; encoding fails exactly from 2^32 on |
| FrameCodec.RequestByKey | irp/irp/frame.py:46-93 | a request as JSON holds its fields and those of its header under their literal keys, and no others |
| FrameCodec.ResponseByKey | irp/irp/frame.py:120-128 | a response as JSON holds its fields and those of its header under their literal keys, and no others |
| FrameCodec.BodyByGrammar | irp/irp/frame.py:174-186 | a body that is the UTF-8 form of a text of the JSON grammar is read as the object it stands for, or refused as no object |
| FrameCodec.OtherBodyRefused | irp/irp/frame.py:174-177 | any other body is refused as invalid JSON |
| FrameCodec.LooseCapabilities | irp/irp/frame.py:95-107 | capabilities that count as false are none, a text gives its characters, and values that cannot be listed are refused |
| FrameCodec.WrongKindMissesKey | irp/irp/frame.py:154-186 | an encoded frame read as the other class is refused for its missing method or request_id |
| FrameCodec.DecodeOfMinimalRequest | irp/irp/frame.py:95-107 | a framed request with only header, method and model, whose header has no flags or length, decodes, whatever follows it, with zeros, empty messages and capabilities, the standard class and no client id or nonce |
| FrameCodec.DecodeOfMinimalResponse | irp/irp/frame.py:130-139 | a framed response with only header, request id and status decodes, whatever follows it, with an empty body and no receipt |
| FrameCodec.StrictPrefixRefused | irp/irp/frame.py:165-173 | every strict prefix of an encoded frame is refused, as too short or as truncated |
| FrameCodec.PrefixFree | irp/irp/frame.py:148-151 | if two encoded frames with tails are the same bytes, the encodings and the tails are equal |
| FrameCodec.EncodingIffSame | irp/irp/frame.py:142-151 | encodings are equal exactly when the frames are |
| FrameCodec.StreamsSplitUniquely | irp/irp/frame.py:148-151 | equal concatenations of encoded frames have equally many frames, equal one by one |
| FrameCodec.BigEndianUnique | irp/irp/frame.py:21-23 | the length prefix is the only four bytes that stand for the length in base 256, most significant first |
| FrameCodec.DecodedIsWellFormed | irp/irp/frame.py:154-186 | every frame that decoding accepts is of the expected class with well-formed payloads |
| FrameCodec.DecodedIsStable | irp/irp/frame.py:142-186 | any bytes that decode give a frame that encodes and decodes again to an equal frame |
| Version.ParseOfText | irp/irp/version.py:40-73 | a printed version parses back, by parse and by the handshake's version tuple |
| Version.TextOfParse | irp/irp/version.py:40-73 | every string that parses is reproduced by printing |
| Version.ReadersDifferOnLeadingZeros | irp/irp/handshake.py:41-65 | of the strings with a version tuple, parse accepts exactly those that print back, with the same components, and refuses the others for a leading zero; it accepts no other string |
| Version.VersionErrors | irp/irp/version.py:40-73 | which texts fail for being empty, for not having three parts, for a leading zero (by parse only) and for a part that is no number |
| Version.VersionTextIsDotted | irp/irp/version.py:72-73 | a version prints as its three numbers between dots |
| Version.NegotiateVersion | irp/irp/version.py:140-157 | None exactly when no version is common; otherwise the common version that none exceeds by major, then minor, then patch number |
| Handshake.FirstMax | irp/irp/handshake.py:96-96 | fails exactly when some item has no key; otherwise an item of the list that none exceeds, in the order that NegotiateVersion pins down |
| Handshake.FirstMaxIsFirst | irp/irp/handshake.py:96-96 | all items before the selected one are smaller |
| Handshake.Negotiate | irp/irp/handshake.py:68-112 | a refusal without a common version, with all desired capabilities rejected; an error on a malformed one; otherwise the first of the highest common versions with the desired capabilities split into offered and not offered |
| Handshake.NegotiatedIsFirstHighest | irp/irp/handshake.py:82-96 | the version settled on is common and, by major, minor and patch number, the highest of the common ones, the first such in the server's order |
| Handshake.CapabilitiesPartition | irp/irp/handshake.py:98-104 | accepted and rejected are picked in order from complementary positions of the desired list |
| Handshake.NegotiationRaisesIffMalformed | irp/irp/handshake.py:82-96 | negotiation raises exactly when a common version string has no version tuple, with the error of the first such string in the server's order |
| Handshake.NegotiatorsAgree | irp/irp/handshake.py:82-96 | on printed versions the handshake selects the printed form of what version.negotiate selects, or nothing exactly when that selects None |
| Text.StripRemovesOnlyWhitespace | irp/irp/handshake.py:153-157 | trimming removes whitespace at the two ends and nothing else |
| HandshakeHeaders.EncodeHeaders | irp/irp/handshake.py:115-128 | the three headers under their literal names with the lists joined by commas, and the client id only when present |
| HandshakeHeaders.DecodeHeaders | irp/irp/handshake.py:131-150 | succeeds exactly when the three required headers are present, with the fields read from them, and otherwise names exactly the missing ones |
| HandshakeHeaders.SplitCsvOfJoin | irp/irp/handshake.py:153-157 | a list survives joining and splitting exactly when its items are trimmed, non-empty and comma-free |
| HandshakeHeaders.SplitCsvOfPadded | irp/irp/handshake.py:153-157 | whitespace around the items of a list is dropped |
| HandshakeHeaders.BlankItemDropped | irp/irp/handshake.py:153-157 | a blank item is dropped wherever it stands |
| HandshakeHeaders.RequestRoundTrip | irp/irp/handshake.py:115-150 | decoding the encoded request gives it back exactly when all its listed items are clean |
| HandshakeHeaders.DecodedRequestIsStable | irp/irp/handshake.py:131-157 | decode, encode, decode equals decode |
| Billing.JudgeIsCoherent | irp/irp/receipt.py:66-115 | is_valid, the valid status and no errors coincide; error exactly when a present signature did not verify; warning exactly when otherwise beyond the threshold, noting exactly the counts beyond it |
| Billing.WithinFromBothSides | irp/irp/receipt.py:66-83 | a reported count s > 0 is within the threshold t exactly when s(100-t) <= 100 times the local count <= s(100+t); one that is not positive exactly when t >= 0 |
| Billing.OverbillingBound | irp/irp/receipt.py:66-83 | over any coherent log with threshold t at most 100, reported tokens within the threshold times (100-t) are at most 100 times their local counts, for input and output |
| Billing.TotalAddsUp | irp/irp/receipt.py:66-83 | the totals of the bound count every outcome within the threshold once and no other |
| Billing.BoundIsTight | irp/irp/receipt.py:66-83 | at every whole threshold from 0 to 100 the bound is reached |
| Billing.SummaryAddsUp | irp/irp/receipt.py:126-147 | valid, warnings and errors are how often each status was logged and add up to the total; the rate is 100 exactly when only valid entries were logged |
| Billing.AveragesAreOfSums | irp/irp/receipt.py:126-147 | the rate and the two averages, times the total, are the valid share and the sums of input and output percentages |
| Validator.ExpectedIsCoherent | irp/irp/receipt.py:96-115 | every outcome is coherent, and an error exactly when a non-empty signature did not verify |
| Validator.ExpectedIsOutcome | irp/irp/receipt.py:50-115 | the outcome of one call from the receipt, the texts, the threshold and the key alone: counts, distances, verdict from both sides, standing of the signature, status and notes |
| Validator.RunsAreNotOverbilled | irp/irp/receipt.py:27-120 | the over-billing bound over every run of calls, with any token counters and keys |
| Validator.VerificationResult.RecordCounts | irp/irp/receipt.py:50-64 | records the reported and the local counts and changes nothing else |
| Validator.VerificationResult.CompareCounts | irp/irp/receipt.py:66-83 | sets differences, percentages and the threshold verdict and changes nothing else |
| Validator.VerificationResult.Conclude | irp/irp/receipt.py:96-115 | settles status, errors and validity |
| Validator.ReceiptValidator.CheckSignature | irp/irp/receipt.py:85-94 | verifies only a signature that comes with a public key, under the configured key |
| Validator.ReceiptValidator.Verify | irp/irp/receipt.py:27-120 | appends a fresh result whose counts, differences, verdict, status and notes are those the receipt, the texts, the threshold and the key call for, stated without the functions that compute them; earlier entries keep their place and value; the log stays the log of the run |
| Validator.ReceiptValidator.GetAuditLog | irp/irp/receipt.py:122-124 | the logged results, in order |
| Validator.ReceiptValidator.GetSummary | irp/irp/receipt.py:126-147 | the summary of the logged outcomes: how often each status was logged, which adds up to the total |

## Left out

- SHA-256, Ed25519 and base64: the hash is a parameter, the signature is ideal, and signature text is not decoded, so malformed base64 is not modelled.
- ReceiptVerifier.SetPublicKey: keys are given decoded, so the refusal of a malformed key is not modelled.
- Floats: a float is its printed token. Two tokens of one value count as different, reading a non-canonical token does not renormalise it, and NaN and the infinities are refused.
- Equality of an int with a float or a bool of the same value, which Python grants: `SameValue` compares printed forms.
- Lone surrogates: strings are Unicode scalar values, and an escape that would give a lone surrogate is refused.
- Python's limits on recursion depth and on the number of digits of an integer text.
- DecodeFrame: fields are read at their declared types, because the model's frames are typed. Where Python would keep a value of another type, or convert text or floats by int(), or build a dict from pairs, the model reports a type error.
- TextOfParse: version components are ASCII digits. Python's int also accepts signs, spaces, underscores and other digits, and such components do not print back.
- VersionTuple: the same restriction to ASCII digits.
- HTTP header maps of frames (`irp/irp/frame.py:189-224`), the report text and the formatted messages: they copy fields into text or a map, and nothing reads them back.
- Version compatibility, the version registry, quality-of-service classes, error tables, the nonce generator and the default total of a receipt: single comparisons, lookups in fixed tables or sums, whose statements would repeat their bodies.
- The HTTP client, discovery and the reference server. The server's log endpoints do not use the Merkle log.
- Token counting: any pair of functions from texts to natural numbers.
- Aliasing of logged results: the caller holds the same result object as the log and could change it afterwards; the validator's invariant speaks of the state between its own calls.
- Rounding of percentages and averages: exact real arithmetic.
- Consistency proofs, the 13-byte frame header and the connection state machine, which only the documents have.
