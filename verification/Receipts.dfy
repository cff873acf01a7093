/** The receipt record and its two canonical forms: the full one and the legacy one of seven fields. */
module Receipts {
  import opened Common
  import opened JsonNumber
  import opened Json
  import opened CanonicalJson
  import opened Dict
  import opened FieldNames

  type FloatToken = t: string | IsFloatToken(t) witness "0.0"

  /** A Python number as it prints: an int, or a float by its printed token. */
  datatype Number = Whole(n: int) | Float(token: FloatToken)

  datatype Latency = Latency(
    queueMs: Number,
    timeToFirstTokenMs: Number,
    timePerOutputTokenMs: Number,
    totalMs: Number
  )

  type Key = nat

  /**
   An ideal signature: one made with a key over a message, or any other byte string. The empty byte
   string is the receipt's default, an absent signature.
   */
  datatype Signature = Genuine(key: Key, message: Bytes) | Other(raw: Bytes)

  datatype Receipt = Receipt(
    requestId: string,
    timestamp: string,
    provider: string,
    model: string,
    modelVersion: Option<string>,
    inputTokens: int,
    outputTokens: int,
    reasoningTokens: Option<int>,
    cachedTokens: Option<int>,
    totalTokens: int,
    latency: Latency,
    costCurrency: string,
    costInput: Number,
    costOutput: Number,
    costTotal: Number,
    signature: Signature,
    publicKey: string,
    inputHash: Option<string>,
    outputHash: Option<string>,
    nonce: string,
    version: string,
    policyId: Option<string>
  )

  // ----- the canonical dicts, built step by step

  function NumberValue(x: Number): Json {
    match x
    case Whole(n) => Int(n)
    case Float(token) => Real(token)
  }

  function LatencyEntries(l: Latency): Record {
    [
      Entry(QueueMs, NumberValue(l.queueMs)),
      Entry(TimeToFirstTokenMs, NumberValue(l.timeToFirstTokenMs)),
      Entry(TimePerOutputTokenMs, NumberValue(l.timePerOutputTokenMs)),
      Entry(TotalMs, NumberValue(l.totalMs))
    ]
  }

  function LatencyDict(l: Latency): seq<Member> {
    Spelled(LatencyEntries(l))
  }

  /** The dict literal the full form starts from. */
  function FullStart(r: Receipt): Record {
    [
      Entry(RequestId, Str(r.requestId)),
      Entry(Timestamp, Str(r.timestamp)),
      Entry(Version, Str(r.version)),
      Entry(Provider, Str(r.provider)),
      Entry(Model, Str(r.model)),
      Entry(InputTokens, Int(r.inputTokens)),
      Entry(OutputTokens, Int(r.outputTokens)),
      Entry(TotalTokens, Int(r.totalTokens)),
      Entry(CostCurrency, Str(r.costCurrency)),
      Entry(CostInput, NumberValue(r.costInput)),
      Entry(CostOutput, NumberValue(r.costOutput)),
      Entry(CostTotal, NumberValue(r.costTotal)),
      Entry(LatencyMetrics, Object(LatencyDict(r.latency)))
    ]
  }

  /** The dict literal the legacy form starts from. */
  function LegacyStart(r: Receipt): Record {
    [
      Entry(RequestId, Str(r.requestId)),
      Entry(Timestamp, Str(r.timestamp)),
      Entry(Provider, Str(r.provider)),
      Entry(Model, Str(r.model)),
      Entry(InputTokens, Int(r.inputTokens)),
      Entry(OutputTokens, Int(r.outputTokens)),
      Entry(TotalTokens, Int(r.totalTokens))
    ]
  }

  predicate IsOptional(f: Field) {
    f in {Nonce, ModelVersion, PolicyId, ReasoningTokens, CachedTokens, InputHash, OutputHash}
  }

  method StartFullDict(r: Receipt) returns (data: Record)
    ensures forall f: Field :: Lookup(data, f) == if IsOptional(f) then None else FullField(r, f)
  {
    data := FullStart(r);
    forall f: Field ensures Lookup(data, f) == if IsOptional(f) then None else FullField(r, f) {
      FullStartLookup(r, f);
    }
  }

  method StartLegacyDict(r: Receipt) returns (data: Record)
    ensures forall f: Field :: Lookup(data, f) == if IsOptional(f) then None else LegacyField(r, f)
  {
    data := LegacyStart(r);
    forall f: Field ensures Lookup(data, f) == if IsOptional(f) then None else LegacyField(r, f) {
      LegacyStartLookup(r, f);
    }
  }

  method BuildCanonicalDict(r: Receipt) returns (data: Record)
    ensures forall f: Field :: Lookup(data, f) == FullField(r, f)
    ensures IsFullDict(Content(Spelled(data)), r)
  {
    hide IsFullDict;
    data := StartFullDict(r);
    data := SetIfPresent(data, Nonce, OptionalText(NonEmpty(Some(r.nonce))));
    data := SetIfPresent(data, ModelVersion, OptionalText(r.modelVersion));
    data := SetIfPresent(data, PolicyId, OptionalText(r.policyId));
    data := AddTokensAndHashes(data, r);
    ContentOfFullRecord(data, r);
  }

  method AddTokensAndHashes(d: Record, r: Receipt) returns (data: Record)
    requires forall f: Field :: f in {ReasoningTokens, CachedTokens, InputHash, OutputHash} ==> Lookup(d, f) == None
    ensures forall f: Field :: Lookup(data, f) ==
              if f in {ReasoningTokens, CachedTokens, InputHash, OutputHash} then FullField(r, f) else Lookup(d, f)
  {
    data := SetIfPresent(d, ReasoningTokens, OptionalInt(r.reasoningTokens));
    data := SetIfPresent(data, CachedTokens, OptionalInt(r.cachedTokens));
    data := SetIfPresent(data, InputHash, OptionalText(r.inputHash));
    data := SetIfPresent(data, OutputHash, OptionalText(r.outputHash));
  }

  method BuildLegacyCanonicalDict(r: Receipt) returns (data: Record)
    ensures forall f: Field :: Lookup(data, f) == LegacyField(r, f)
    ensures IsLegacyDict(Content(Spelled(data)), r)
  {
    hide IsLegacyDict;
    data := StartLegacyDict(r);
    data := SetIfPresent(data, InputHash, OptionalText(NonEmpty(r.inputHash)));
    data := SetIfPresent(data, OutputHash, OptionalText(NonEmpty(r.outputHash)));
    ContentOfLegacyRecord(data, r);
  }

  lemma FullStartLookup(r: Receipt, f: Field)
    ensures Lookup(FullStart(r), f) == if IsOptional(f) then None else FullField(r, f)
  {
    if !IsOptional(f) && FullField(r, f).Some? {
      var i := FullStartPosition(r, f);
      FullStartEntry(r, i);
      LookupOfEntry(FullStart(r), i);
    } else {
      forall i | 0 <= i < |FullStart(r)| ensures FullStart(r)[i].field != f {
        FullStartEntry(r, i);
      }
      AbsentField(FullStart(r), f);
    }
  }

  lemma FullStartEntry(r: Receipt, i: nat)
    requires i < 13
    ensures |FullStart(r)| == 13
    ensures !IsOptional(FullStart(r)[i].field) && FullField(r, FullStart(r)[i].field) == Some(FullStart(r)[i].value)
  {
  }

  lemma FullStartPosition(r: Receipt, f: Field) returns (i: nat)
    requires !IsOptional(f) && FullField(r, f).Some?
    ensures i < |FullStart(r)| && FullStart(r)[i].field == f
  {
    match f
    case RequestId => i := 0;
    case Timestamp => i := 1;
    case Version => i := 2;
    case Provider => i := 3;
    case Model => i := 4;
    case InputTokens => i := 5;
    case OutputTokens => i := 6;
    case TotalTokens => i := 7;
    case CostCurrency => i := 8;
    case CostInput => i := 9;
    case CostOutput => i := 10;
    case CostTotal => i := 11;
    case LatencyMetrics => i := 12;
  }

  lemma LegacyStartLookup(r: Receipt, f: Field)
    ensures Lookup(LegacyStart(r), f) == if IsOptional(f) then None else LegacyField(r, f)
  {
    if !IsOptional(f) && LegacyField(r, f).Some? {
      var i := LegacyStartPosition(r, f);
      LegacyStartEntry(r, i);
      LookupOfEntry(LegacyStart(r), i);
    } else {
      forall i | 0 <= i < |LegacyStart(r)| ensures LegacyStart(r)[i].field != f {
        LegacyStartEntry(r, i);
      }
      AbsentField(LegacyStart(r), f);
    }
  }

  lemma LegacyStartEntry(r: Receipt, i: nat)
    requires i < 7
    ensures |LegacyStart(r)| == 7
    ensures !IsOptional(LegacyStart(r)[i].field)
    ensures LegacyField(r, LegacyStart(r)[i].field) == Some(LegacyStart(r)[i].value)
  {
  }

  lemma LegacyStartPosition(r: Receipt, f: Field) returns (i: nat)
    requires !IsOptional(f) && LegacyField(r, f).Some?
    ensures i < |LegacyStart(r)| && LegacyStart(r)[i].field == f
  {
    match f
    case RequestId => i := 0;
    case Timestamp => i := 1;
    case Provider => i := 2;
    case Model => i := 3;
    case InputTokens => i := 4;
    case OutputTokens => i := 5;
    case TotalTokens => i := 6;
  }

  // ----- what the dicts hold

  function OptionalText(value: Option<string>): Option<Json> {
    match value case Some(s) => Some(Str(s)) case None => None
  }

  function OptionalInt(value: Option<int>): Option<Json> {
    match value case Some(n) => Some(Int(n)) case None => None
  }

  /** None for the empty text, as Python's truth test has it. */
  function NonEmpty(value: Option<string>): Option<string> {
    if value == Some("") then None else value
  }

  function FullField(r: Receipt, f: Field): Option<Json> {
    match f
    case RequestId => Some(Str(r.requestId))
    case Timestamp => Some(Str(r.timestamp))
    case Version => Some(Str(r.version))
    case Provider => Some(Str(r.provider))
    case Model => Some(Str(r.model))
    case InputTokens => Some(Int(r.inputTokens))
    case OutputTokens => Some(Int(r.outputTokens))
    case TotalTokens => Some(Int(r.totalTokens))
    case CostCurrency => Some(Str(r.costCurrency))
    case CostInput => Some(NumberValue(r.costInput))
    case CostOutput => Some(NumberValue(r.costOutput))
    case CostTotal => Some(NumberValue(r.costTotal))
    case LatencyMetrics => Some(Object(LatencyDict(r.latency)))
    case Nonce => OptionalText(NonEmpty(Some(r.nonce)))
    case ModelVersion => OptionalText(r.modelVersion)
    case PolicyId => OptionalText(r.policyId)
    case ReasoningTokens => OptionalInt(r.reasoningTokens)
    case CachedTokens => OptionalInt(r.cachedTokens)
    case InputHash => OptionalText(r.inputHash)
    case OutputHash => OptionalText(r.outputHash)
    case _ => None
  }

  function LegacyField(r: Receipt, f: Field): Option<Json> {
    match f
    case RequestId => Some(Str(r.requestId))
    case Timestamp => Some(Str(r.timestamp))
    case Provider => Some(Str(r.provider))
    case Model => Some(Str(r.model))
    case InputTokens => Some(Int(r.inputTokens))
    case OutputTokens => Some(Int(r.outputTokens))
    case TotalTokens => Some(Int(r.totalTokens))
    case InputHash => OptionalText(NonEmpty(r.inputHash))
    case OutputHash => OptionalText(NonEmpty(r.outputHash))
    case _ => None
  }

  ghost function FullFields(r: Receipt): map<Field, Json> {
    map f: Field | FullField(r, f).Some? :: FullField(r, f).value
  }

  ghost function LegacyFields(r: Receipt): map<Field, Json> {
    map f: Field | LegacyField(r, f).Some? :: LegacyField(r, f).value
  }

  /** The canonical bytes of the two dicts, whatever the order they were built in. */
  ghost function FullBytes(r: Receipt): Bytes {
    BytesOf(Named(FullFields(r)))
  }

  ghost function LegacyBytes(r: Receipt): Bytes {
    BytesOf(Named(LegacyFields(r)))
  }

  // ----- the canonical dicts by key

  /** What a number is as JSON. */
  ghost predicate Shows(v: Json, x: Number) {
    match x
    case Whole(n) => v == Int(n)
    case Float(token) => v == Real(token)
  }

  ghost predicate HoldsNumber(m: map<string, Json>, key: string, x: Number) {
    key in m && Shows(m[key], x)
  }

  /** The four keys of the latency dict, and no others. */
  ghost predicate IsLatencyDict(m: map<string, Json>, l: Latency) {
    && HoldsNumber(m, "queue_ms", l.queueMs)
    && HoldsNumber(m, "time_to_first_token_ms", l.timeToFirstTokenMs)
    && HoldsNumber(m, "time_per_output_token_ms", l.timePerOutputTokenMs)
    && HoldsNumber(m, "total_ms", l.totalMs)
    && forall key :: key in m ==> IsLatencyKey(key)
  }

  ghost predicate IsLatencyKey(key: string) {
    || key == "queue_ms" || key == "time_to_first_token_ms" || key == "time_per_output_token_ms" || key == "total_ms"
  }

  /** The keys that both forms always have. */
  ghost predicate HasSharedKeys(m: map<string, Json>, r: Receipt) {
    && Holds(m, "request_id", Some(Str(r.requestId)))
    && Holds(m, "timestamp", Some(Str(r.timestamp)))
    && Holds(m, "provider", Some(Str(r.provider)))
    && Holds(m, "model", Some(Str(r.model)))
    && Holds(m, "input_tokens", Some(Int(r.inputTokens)))
    && Holds(m, "output_tokens", Some(Int(r.outputTokens)))
    && Holds(m, "total_tokens", Some(Int(r.totalTokens)))
  }

  /** The other keys that the full form always has. */
  ghost predicate HasFullKeys(m: map<string, Json>, r: Receipt) {
    && Holds(m, "version", Some(Str(r.version)))
    && Holds(m, "cost_currency", Some(Str(r.costCurrency)))
    && HoldsNumber(m, "cost_input", r.costInput)
    && HoldsNumber(m, "cost_output", r.costOutput)
    && HoldsNumber(m, "cost_total", r.costTotal)
    && "latency" in m && m["latency"].Object?
    && DistinctKeys(m["latency"].members) && IsLatencyDict(Content(m["latency"].members), r.latency)
  }

  /** The keys that the full form has when the receipt has the field. */
  ghost predicate HasOptionalKeys(m: map<string, Json>, r: Receipt) {
    && Holds(m, "nonce", if r.nonce == "" then None else Some(Str(r.nonce)))
    && Holds(m, "model_version", if r.modelVersion.Some? then Some(Str(r.modelVersion.value)) else None)
    && Holds(m, "policy_id", if r.policyId.Some? then Some(Str(r.policyId.value)) else None)
    && Holds(m, "reasoning_tokens", if r.reasoningTokens.Some? then Some(Int(r.reasoningTokens.value)) else None)
    && Holds(m, "cached_tokens", if r.cachedTokens.Some? then Some(Int(r.cachedTokens.value)) else None)
    && Holds(m, "input_hash", if r.inputHash.Some? then Some(Str(r.inputHash.value)) else None)
    && Holds(m, "output_hash", if r.outputHash.Some? then Some(Str(r.outputHash.value)) else None)
  }

  ghost predicate IsFullKey(key: string) {
    || IsLegacyKey(key)
    || key == "version" || key == "cost_currency" || key == "cost_input" || key == "cost_output" || key == "cost_total"
    || key == "latency" || key == "nonce" || key == "model_version" || key == "policy_id"
    || key == "reasoning_tokens" || key == "cached_tokens"
  }

  ghost predicate IsLegacyKey(key: string) {
    || key == "request_id" || key == "timestamp" || key == "provider" || key == "model"
    || key == "input_tokens" || key == "output_tokens" || key == "total_tokens"
    || key == "input_hash" || key == "output_hash"
  }

  /** The content of the full canonical dict, key by key. */
  ghost predicate IsFullDict(m: map<string, Json>, r: Receipt) {
    && HasSharedKeys(m, r) && HasFullKeys(m, r) && HasOptionalKeys(m, r)
    && forall key :: key in m ==> IsFullKey(key)
  }

  ghost function NonEmptyStr(value: Option<string>): Option<Json> {
    if value.Some? && value.value != "" then Some(Str(value.value)) else None
  }

  /** The content of the legacy canonical dict, key by key: empty hashes are left out. */
  ghost predicate IsLegacyDict(m: map<string, Json>, r: Receipt) {
    && HasSharedKeys(m, r)
    && Holds(m, "input_hash", NonEmptyStr(r.inputHash))
    && Holds(m, "output_hash", NonEmptyStr(r.outputHash))
    && forall key :: key in m ==> IsLegacyKey(key)
  }

  lemma FullKeysKnown(r: Receipt, f: Field)
    ensures FullField(r, f).Some? ==> IsFullKey(Name(f))
  {
  }

  lemma LegacyKeysKnown(r: Receipt, f: Field)
    ensures LegacyField(r, f).Some? ==> IsLegacyKey(Name(f))
  {
  }

  lemma SharedKeys(m: map<Field, Json>, r: Receipt)
    requires m == FullFields(r) || m == LegacyFields(r)
    ensures HasSharedKeys(Named(m), r)
  {
    hide Named, Holds;
    NamedValue(m, RequestId);
    NamedValue(m, Timestamp);
    NamedValue(m, Provider);
    NamedValue(m, Model);
    NamedValue(m, InputTokens);
    NamedValue(m, OutputTokens);
    NamedValue(m, TotalTokens);
  }

  lemma OptionalKeys(r: Receipt)
    ensures HasOptionalKeys(Named(FullFields(r)), r)
  {
    hide Named, Holds;
    var m := FullFields(r);
    NamedValue(m, Nonce);
    NamedValue(m, ModelVersion);
    NamedValue(m, PolicyId);
    NamedValue(m, ReasoningTokens);
    NamedValue(m, CachedTokens);
    NamedValue(m, InputHash);
    NamedValue(m, OutputHash);
  }

  lemma FullKeys(r: Receipt)
    ensures HasFullKeys(Named(FullFields(r)), r)
  {
    hide Named, IsLatencyDict, Content;
    var m := FullFields(r);
    NamedValue(m, Version);
    NamedValue(m, CostCurrency);
    NamedValue(m, CostInput);
    NamedValue(m, CostOutput);
    NamedValue(m, CostTotal);
    NamedValue(m, LatencyMetrics);
    SpelledContent(LatencyEntries(r.latency));
    LatencyKeys(r.latency);
  }

  lemma LatencyKeys(l: Latency)
    ensures IsLatencyDict(Named(Fields(LatencyEntries(l))), l)
  {
    hide Named, Holds, IsLatencyKey, LatencyEntries, Fields, Lookup, NumberValue;
    var m := Fields(LatencyEntries(l));
    LatencyValues(l);
    LatencyNumber(m, QueueMs, l.queueMs);
    LatencyNumber(m, TimeToFirstTokenMs, l.timeToFirstTokenMs);
    LatencyNumber(m, TimePerOutputTokenMs, l.timePerOutputTokenMs);
    LatencyNumber(m, TotalMs, l.totalMs);
    forall key | key in Named(m) ensures IsLatencyKey(key) {
      var f := FieldOfKey(m, key);
      LatencyKeysKnown(l, f);
    }
  }

  lemma LatencyValues(l: Latency)
    ensures var m := Fields(LatencyEntries(l));
            && QueueMs in m && m[QueueMs] == NumberValue(l.queueMs)
            && TimeToFirstTokenMs in m && m[TimeToFirstTokenMs] == NumberValue(l.timeToFirstTokenMs)
            && TimePerOutputTokenMs in m && m[TimePerOutputTokenMs] == NumberValue(l.timePerOutputTokenMs)
            && TotalMs in m && m[TotalMs] == NumberValue(l.totalMs)
    ensures forall f :: f in Fields(LatencyEntries(l)) ==> Lookup(LatencyEntries(l), f).Some?
  {
    hide LatencyEntries, NumberValue;
    LatencyLookup(l);
  }

  lemma LatencyNumber(m: map<Field, Json>, f: Field, x: Number)
    ensures f in m && m[f] == NumberValue(x) ==> HoldsNumber(Named(m), Name(f), x)
  {
    hide Named, Name;
    if f in m && m[f] == NumberValue(x) {
      NamedAt(m, f);
    }
  }

  lemma LatencyKeysKnown(l: Latency, f: Field)
    ensures Lookup(LatencyEntries(l), f).Some? ==> IsLatencyKey(Name(f))
  {
    if Lookup(LatencyEntries(l), f).Some? {
      var _ := EntryOf(LatencyEntries(l), f);
    }
  }

  /** The content of the full form is what it should be under every key. */
  lemma FullDictByKey(r: Receipt)
    ensures IsFullDict(Named(FullFields(r)), r)
  {
    hide Named, HasSharedKeys, HasFullKeys, HasOptionalKeys, IsFullKey;
    SharedKeys(FullFields(r), r);
    FullKeys(r);
    OptionalKeys(r);
    forall key | key in Named(FullFields(r)) ensures IsFullKey(key) {
      var f := FieldOfKey(FullFields(r), key);
      FullKeysKnown(r, f);
    }
  }

  lemma LegacyHashes(r: Receipt)
    ensures Holds(Named(LegacyFields(r)), "input_hash", NonEmptyStr(r.inputHash))
    ensures Holds(Named(LegacyFields(r)), "output_hash", NonEmptyStr(r.outputHash))
  {
    hide Named, Holds;
    NamedValue(LegacyFields(r), InputHash);
    NamedValue(LegacyFields(r), OutputHash);
  }

  lemma LegacyDictByKey(r: Receipt)
    ensures IsLegacyDict(Named(LegacyFields(r)), r)
  {
    hide Named, HasSharedKeys, IsLegacyKey, Holds, NonEmptyStr;
    SharedKeys(LegacyFields(r), r);
    LegacyHashes(r);
    forall key | key in Named(LegacyFields(r)) ensures IsLegacyKey(key) {
      var f := FieldOfKey(LegacyFields(r), key);
      LegacyKeysKnown(r, f);
    }
  }

  lemma ContentOfFullRecord(data: Record, r: Receipt)
    ensures (forall f: Field :: Lookup(data, f) == FullField(r, f)) ==> Content(Spelled(data)) == Named(FullFields(r))
    ensures (forall f: Field :: Lookup(data, f) == FullField(r, f)) ==> IsFullDict(Content(Spelled(data)), r)
  {
    hide IsFullDict, FullField;
    if (forall f: Field :: Lookup(data, f) == FullField(r, f)) {
      assert Fields(data) == FullFields(r);
      SpelledContent(data);
      FullDictByKey(r);
    }
  }

  lemma ContentOfLegacyRecord(data: Record, r: Receipt)
    ensures (forall f: Field :: Lookup(data, f) == LegacyField(r, f)) ==>
              Content(Spelled(data)) == Named(LegacyFields(r))
    ensures (forall f: Field :: Lookup(data, f) == LegacyField(r, f)) ==> IsLegacyDict(Content(Spelled(data)), r)
  {
    hide IsLegacyDict, LegacyField;
    if (forall f: Field :: Lookup(data, f) == LegacyField(r, f)) {
      assert Fields(data) == LegacyFields(r);
      SpelledContent(data);
      LegacyDictByKey(r);
    }
  }

  // ----- what the canonical forms determine

  /** The receipt without its signature and public key. */
  function SignedPart(r: Receipt): Receipt {
    r.(signature := Other([]), publicKey := "")
  }

  predicate SameLegacyPart(r: Receipt, s: Receipt) {
    && r.requestId == s.requestId
    && r.timestamp == s.timestamp
    && r.provider == s.provider
    && r.model == s.model
    && r.inputTokens == s.inputTokens
    && r.outputTokens == s.outputTokens
    && r.totalTokens == s.totalTokens
    && NonEmpty(r.inputHash) == NonEmpty(s.inputHash)
    && NonEmpty(r.outputHash) == NonEmpty(s.outputHash)
  }

  lemma LatencyLookup(l: Latency)
    ensures Lookup(LatencyEntries(l), QueueMs) == Some(NumberValue(l.queueMs))
    ensures Lookup(LatencyEntries(l), TimeToFirstTokenMs) == Some(NumberValue(l.timeToFirstTokenMs))
    ensures Lookup(LatencyEntries(l), TimePerOutputTokenMs) == Some(NumberValue(l.timePerOutputTokenMs))
    ensures Lookup(LatencyEntries(l), TotalMs) == Some(NumberValue(l.totalMs))
  {
    LookupOfEntry(LatencyEntries(l), 0);
    LookupOfEntry(LatencyEntries(l), 1);
    LookupOfEntry(LatencyEntries(l), 2);
    LookupOfEntry(LatencyEntries(l), 3);
  }

  lemma NumberWellFormed(x: Number)
    ensures WellFormed(NumberValue(x))
  {
  }

  /** The same value under a key of both, or the key in neither. */
  ghost predicate SameUnder(a: map<string, Json>, b: map<string, Json>, key: string) {
    (key in a <==> key in b) && (key in a ==> SameValue(a[key], b[key]))
  }

  ghost predicate SoundUnder(m: map<string, Json>, key: string) {
    key in m ==> WellFormed(m[key])
  }

  ghost predicate SharedMatch(a: map<string, Json>, b: map<string, Json>) {
    && SameUnder(a, b, "request_id") && SameUnder(a, b, "timestamp") && SameUnder(a, b, "provider")
    && SameUnder(a, b, "model") && SameUnder(a, b, "input_tokens") && SameUnder(a, b, "output_tokens")
    && SameUnder(a, b, "total_tokens")
  }

  ghost predicate FullMatch(a: map<string, Json>, b: map<string, Json>) {
    && SameUnder(a, b, "version") && SameUnder(a, b, "cost_currency") && SameUnder(a, b, "cost_input")
    && SameUnder(a, b, "cost_output") && SameUnder(a, b, "cost_total") && SameUnder(a, b, "latency")
  }

  ghost predicate OptionalMatch(a: map<string, Json>, b: map<string, Json>) {
    && SameUnder(a, b, "nonce") && SameUnder(a, b, "model_version") && SameUnder(a, b, "policy_id")
    && SameUnder(a, b, "reasoning_tokens") && SameUnder(a, b, "cached_tokens") && SameUnder(a, b, "input_hash")
    && SameUnder(a, b, "output_hash")
  }

  ghost predicate SharedSound(m: map<string, Json>) {
    && SoundUnder(m, "request_id") && SoundUnder(m, "timestamp") && SoundUnder(m, "provider")
    && SoundUnder(m, "model") && SoundUnder(m, "input_tokens") && SoundUnder(m, "output_tokens")
    && SoundUnder(m, "total_tokens")
  }

  ghost predicate FullSound(m: map<string, Json>) {
    && SoundUnder(m, "version") && SoundUnder(m, "cost_currency") && SoundUnder(m, "cost_input")
    && SoundUnder(m, "cost_output") && SoundUnder(m, "cost_total") && SoundUnder(m, "latency")
  }

  ghost predicate OptionalSound(m: map<string, Json>) {
    && SoundUnder(m, "nonce") && SoundUnder(m, "model_version") && SoundUnder(m, "policy_id")
    && SoundUnder(m, "reasoning_tokens") && SoundUnder(m, "cached_tokens") && SoundUnder(m, "input_hash")
    && SoundUnder(m, "output_hash")
  }

  ghost predicate IsPlain(v: Option<Json>) {
    v.Some? ==> v.value.Str? || v.value.Int?
  }

  lemma PlainIff(a: map<string, Json>, b: map<string, Json>, key: string, u: Option<Json>, v: Option<Json>)
    requires Holds(a, key, u) && Holds(b, key, v) && IsPlain(u) && IsPlain(v)
    ensures SameUnder(a, b, key) <==> u == v
    ensures SoundUnder(a, key)
  {
  }

  lemma NumberIff(a: map<string, Json>, b: map<string, Json>, key: string, x: Number, y: Number)
    requires HoldsNumber(a, key, x) && HoldsNumber(b, key, y)
    ensures SameUnder(a, b, key) <==> x == y
    ensures SoundUnder(a, key)
  {
    NumberWellFormed(x);
  }

  ghost predicate LatencyMatch(a: map<string, Json>, b: map<string, Json>) {
    && SameUnder(a, b, "queue_ms") && SameUnder(a, b, "time_to_first_token_ms")
    && SameUnder(a, b, "time_per_output_token_ms") && SameUnder(a, b, "total_ms")
  }

  lemma LatencyKeyMatches(a: map<string, Json>, b: map<string, Json>, key: string)
    requires LatencyMatch(a, b) && IsLatencyKey(key)
    ensures SameUnder(a, b, key)
  {
    hide SameUnder;
  }

  lemma LatencyKeySound(m: map<string, Json>, l: Latency, key: string)
    requires IsLatencyDict(m, l) && IsLatencyKey(key)
    ensures SoundUnder(m, key)
  {
    hide HoldsNumber, SoundUnder;
    NumberIff(m, m, "queue_ms", l.queueMs, l.queueMs);
    NumberIff(m, m, "time_to_first_token_ms", l.timeToFirstTokenMs, l.timeToFirstTokenMs);
    NumberIff(m, m, "time_per_output_token_ms", l.timePerOutputTokenMs, l.timePerOutputTokenMs);
    NumberIff(m, m, "total_ms", l.totalMs, l.totalMs);
  }

  lemma LatencyMatchIff(a: map<string, Json>, b: map<string, Json>, l: Latency, k: Latency)
    requires IsLatencyDict(a, l) && IsLatencyDict(b, k)
    ensures LatencyMatch(a, b) <==> l == k
  {
    hide HoldsNumber, SameUnder, SoundUnder;
    NumberIff(a, b, "queue_ms", l.queueMs, k.queueMs);
    NumberIff(a, b, "time_to_first_token_ms", l.timeToFirstTokenMs, k.timeToFirstTokenMs);
    NumberIff(a, b, "time_per_output_token_ms", l.timePerOutputTokenMs, k.timePerOutputTokenMs);
    NumberIff(a, b, "total_ms", l.totalMs, k.totalMs);
  }

  lemma SameContentMatches(a: map<string, Json>, b: map<string, Json>, key: string)
    requires SameContent(a, b)
    ensures SameUnder(a, b, key)
  {
    assert key in a <==> key in a.Keys;
    assert key in b <==> key in b.Keys;
  }

  /** Latency dicts have the same content exactly for the same metrics. */
  lemma LatencyIff(a: Dict, b: Dict, l: Latency, k: Latency)
    requires IsLatencyDict(Content(a), l) && IsLatencyDict(Content(b), k)
    ensures SameValue(Object(a), Object(b)) <==> l == k
    ensures WellFormed(Object(a))
  {
    hide Content, HoldsNumber, SameUnder, SoundUnder, IsLatencyKey, LatencyMatch;
    var (x, y) := (Content(a), Content(b));
    LatencyMatchIff(x, y, l, k);
    LatencyContent(x, y, l, k);
    SameObjectIffSameContent(a, b);
    ObjectWellFormed(a);
  }

  lemma LatencyContent(x: map<string, Json>, y: map<string, Json>, l: Latency, k: Latency)
    requires IsLatencyDict(x, l) && IsLatencyDict(y, k)
    ensures SameContent(x, y) <==> LatencyMatch(x, y)
    ensures WellFormedContent(x)
  {
    hide HoldsNumber, IsLatencyKey;
    forall key | key in x ensures WellFormed(x[key]) {
      LatencyKeySound(x, l, key);
    }
    if LatencyMatch(x, y) {
      forall key | key in x || key in y ensures SameUnder(x, y, key) {
        LatencyKeyMatches(x, y, key);
      }
    }
    if SameContent(x, y) {
      SameContentMatches(x, y, "queue_ms");
      SameContentMatches(x, y, "time_to_first_token_ms");
      SameContentMatches(x, y, "time_per_output_token_ms");
      SameContentMatches(x, y, "total_ms");
    }
  }

  lemma SharedIff(a: map<string, Json>, b: map<string, Json>, r: Receipt, s: Receipt)
    requires HasSharedKeys(a, r) && HasSharedKeys(b, s)
    ensures SharedMatch(a, b) <==>
              && r.requestId == s.requestId && r.timestamp == s.timestamp && r.provider == s.provider
              && r.model == s.model && r.inputTokens == s.inputTokens && r.outputTokens == s.outputTokens
              && r.totalTokens == s.totalTokens
    ensures SharedSound(a)
  {
    hide Holds, SameUnder, SoundUnder;
    PlainIff(a, b, "request_id", Some(Str(r.requestId)), Some(Str(s.requestId)));
    PlainIff(a, b, "timestamp", Some(Str(r.timestamp)), Some(Str(s.timestamp)));
    PlainIff(a, b, "provider", Some(Str(r.provider)), Some(Str(s.provider)));
    PlainIff(a, b, "model", Some(Str(r.model)), Some(Str(s.model)));
    PlainIff(a, b, "input_tokens", Some(Int(r.inputTokens)), Some(Int(s.inputTokens)));
    PlainIff(a, b, "output_tokens", Some(Int(r.outputTokens)), Some(Int(s.outputTokens)));
    PlainIff(a, b, "total_tokens", Some(Int(r.totalTokens)), Some(Int(s.totalTokens)));
  }

  lemma FullIff(a: map<string, Json>, b: map<string, Json>, r: Receipt, s: Receipt)
    requires HasFullKeys(a, r) && HasFullKeys(b, s)
    ensures FullMatch(a, b) <==>
              && r.version == s.version && r.costCurrency == s.costCurrency && r.costInput == s.costInput
              && r.costOutput == s.costOutput && r.costTotal == s.costTotal && r.latency == s.latency
    ensures FullSound(a)
  {
    LatencyIff(a["latency"].members, b["latency"].members, r.latency, s.latency);
    assert SameUnder(a, b, "latency") <==> r.latency == s.latency;
    assert SoundUnder(a, "latency");
    hide Holds, HoldsNumber, SameUnder, SoundUnder, IsLatencyDict;
    PlainIff(a, b, "version", Some(Str(r.version)), Some(Str(s.version)));
    PlainIff(a, b, "cost_currency", Some(Str(r.costCurrency)), Some(Str(s.costCurrency)));
    NumberIff(a, b, "cost_input", r.costInput, s.costInput);
    NumberIff(a, b, "cost_output", r.costOutput, s.costOutput);
    NumberIff(a, b, "cost_total", r.costTotal, s.costTotal);
  }

  ghost function OptStr(value: Option<string>): Option<Json> {
    if value.Some? then Some(Str(value.value)) else None
  }

  ghost function OptInt(value: Option<int>): Option<Json> {
    if value.Some? then Some(Int(value.value)) else None
  }

  ghost function NonceStr(nonce: string): Option<Json> {
    if nonce == "" then None else Some(Str(nonce))
  }

  lemma OptionalIff(a: map<string, Json>, b: map<string, Json>, r: Receipt, s: Receipt)
    requires HasOptionalKeys(a, r) && HasOptionalKeys(b, s)
    ensures OptionalMatch(a, b) <==>
              && r.nonce == s.nonce && r.modelVersion == s.modelVersion && r.policyId == s.policyId
              && r.reasoningTokens == s.reasoningTokens && r.cachedTokens == s.cachedTokens
              && r.inputHash == s.inputHash && r.outputHash == s.outputHash
    ensures OptionalSound(a)
  {
    hide Holds, SameUnder, SoundUnder;
    PlainIff(a, b, "nonce", NonceStr(r.nonce), NonceStr(s.nonce));
    PlainIff(a, b, "model_version", OptStr(r.modelVersion), OptStr(s.modelVersion));
    PlainIff(a, b, "policy_id", OptStr(r.policyId), OptStr(s.policyId));
    PlainIff(a, b, "reasoning_tokens", OptInt(r.reasoningTokens), OptInt(s.reasoningTokens));
    PlainIff(a, b, "cached_tokens", OptInt(r.cachedTokens), OptInt(s.cachedTokens));
    PlainIff(a, b, "input_hash", OptStr(r.inputHash), OptStr(s.inputHash));
    PlainIff(a, b, "output_hash", OptStr(r.outputHash), OptStr(s.outputHash));
  }

  lemma FullKeyMatches(a: map<string, Json>, b: map<string, Json>, key: string)
    requires SharedMatch(a, b) && FullMatch(a, b) && OptionalMatch(a, b) && IsFullKey(key)
    ensures SameUnder(a, b, key)
  {
    hide SameUnder;
  }

  lemma FullKeySound(m: map<string, Json>, key: string)
    requires SharedSound(m) && FullSound(m) && OptionalSound(m) && IsFullKey(key)
    ensures SoundUnder(m, key)
  {
    hide SoundUnder;
  }

  lemma SameContentMatchesAll(a: map<string, Json>, b: map<string, Json>)
    requires SameContent(a, b)
    ensures SharedMatch(a, b) && FullMatch(a, b) && OptionalMatch(a, b)
  {
    hide SameContent, SameUnder;
    forall key ensures SameUnder(a, b, key) {
      SameContentMatches(a, b, key);
    }
  }

  /** Full dicts have the same content exactly for receipts that agree on every field they hold. */
  lemma FullDictsIff(a: map<string, Json>, b: map<string, Json>, r: Receipt, s: Receipt)
    ensures IsFullDict(a, r) && IsFullDict(b, s) ==>
              WellFormedContent(a) && (SameContent(a, b) <==> SignedPart(r) == SignedPart(s))
  {
    hide HasSharedKeys, HasFullKeys, HasOptionalKeys, IsFullKey, SharedMatch, FullMatch, OptionalMatch,
         SharedSound, FullSound, OptionalSound;
    if IsFullDict(a, r) && IsFullDict(b, s) {
      SharedIff(a, b, r, s);
      FullIff(a, b, r, s);
      OptionalIff(a, b, r, s);
      forall key | key in a ensures WellFormed(a[key]) {
        FullKeySound(a, key);
      }
      if SharedMatch(a, b) && FullMatch(a, b) && OptionalMatch(a, b) {
        forall key | key in a || key in b ensures SameUnder(a, b, key) {
          FullKeyMatches(a, b, key);
        }
      }
      if SameContent(a, b) {
        SameContentMatchesAll(a, b);
      }
    }
  }

  /**
   The full form from scratch: content that is right under every key has the full canonical bytes. Any
   dict of that content does, whatever its order: that is `BytesOfAnyOrder`.
   */
  lemma FullBytesFromContent(m: map<string, Json>, r: Receipt)
    ensures IsFullDict(m, r) ==> WellFormedContent(m) && BytesOf(m) == FullBytes(r)
  {
    hide IsFullDict, BytesOf;
    FullDictByKey(r);
    FullDictsIff(m, Named(FullFields(r)), r, r);
    FullDictsIff(Named(FullFields(r)), Named(FullFields(r)), r, r);
    if IsFullDict(m, r) {
      BytesOfInjective(m, Named(FullFields(r)));
    }
  }

  /** The full canonical bytes determine every field but the signature and the public key. */
  lemma FullBytesInjective(r: Receipt, s: Receipt)
    ensures FullBytes(r) == FullBytes(s) <==> SignedPart(r) == SignedPart(s)
  {
    hide IsFullDict;
    var (a, b) := (Named(FullFields(r)), Named(FullFields(s)));
    FullDictByKey(r);
    FullDictByKey(s);
    FullDictsIff(a, b, r, s);
    FullDictsIff(b, b, s, s);
    BytesOfInjective(a, b);
  }

  lemma LegacyHashesIff(a: map<string, Json>, b: map<string, Json>, r: Receipt, s: Receipt)
    requires Holds(a, "input_hash", NonEmptyStr(r.inputHash)) && Holds(b, "input_hash", NonEmptyStr(s.inputHash))
    requires Holds(a, "output_hash", NonEmptyStr(r.outputHash)) && Holds(b, "output_hash", NonEmptyStr(s.outputHash))
    ensures SameUnder(a, b, "input_hash") <==> NonEmpty(r.inputHash) == NonEmpty(s.inputHash)
    ensures SameUnder(a, b, "output_hash") <==> NonEmpty(r.outputHash) == NonEmpty(s.outputHash)
    ensures SoundUnder(a, "input_hash") && SoundUnder(a, "output_hash")
  {
    hide Holds, SameUnder, SoundUnder;
    PlainIff(a, b, "input_hash", NonEmptyStr(r.inputHash), NonEmptyStr(s.inputHash));
    PlainIff(a, b, "output_hash", NonEmptyStr(r.outputHash), NonEmptyStr(s.outputHash));
  }

  lemma LegacyKeyMatches(a: map<string, Json>, b: map<string, Json>, key: string)
    requires SharedMatch(a, b) && SameUnder(a, b, "input_hash") && SameUnder(a, b, "output_hash")
    requires IsLegacyKey(key)
    ensures SameUnder(a, b, key)
  {
    hide SameUnder;
  }

  lemma LegacyKeySound(m: map<string, Json>, key: string)
    requires SharedSound(m) && SoundUnder(m, "input_hash") && SoundUnder(m, "output_hash") && IsLegacyKey(key)
    ensures SoundUnder(m, key)
  {
    hide SoundUnder;
  }

  /** Legacy dicts have the same content exactly for receipts with the same legacy part. */
  lemma LegacyDictsIff(a: map<string, Json>, b: map<string, Json>, r: Receipt, s: Receipt)
    ensures IsLegacyDict(a, r) && IsLegacyDict(b, s) ==>
              WellFormedContent(a) && (SameContent(a, b) <==> SameLegacyPart(r, s))
  {
    hide HasSharedKeys, IsLegacyKey, SharedMatch, SharedSound, Holds;
    if IsLegacyDict(a, r) && IsLegacyDict(b, s) {
      SharedIff(a, b, r, s);
      LegacyHashesIff(a, b, r, s);
      forall key | key in a ensures WellFormed(a[key]) {
        LegacyKeySound(a, key);
      }
      if SharedMatch(a, b) && SameUnder(a, b, "input_hash") && SameUnder(a, b, "output_hash") {
        forall key | key in a || key in b ensures SameUnder(a, b, key) {
          LegacyKeyMatches(a, b, key);
        }
      }
      if SameContent(a, b) {
        SameContentMatchesAll(a, b);
        SameContentMatches(a, b, "input_hash");
        SameContentMatches(a, b, "output_hash");
      }
    }
  }

  /** The legacy form from scratch, in the same way. */
  lemma LegacyBytesFromContent(m: map<string, Json>, r: Receipt)
    ensures IsLegacyDict(m, r) ==> WellFormedContent(m) && BytesOf(m) == LegacyBytes(r)
  {
    hide IsLegacyDict, BytesOf;
    LegacyDictByKey(r);
    LegacyDictsIff(m, Named(LegacyFields(r)), r, r);
    LegacyDictsIff(Named(LegacyFields(r)), Named(LegacyFields(r)), r, r);
    if IsLegacyDict(m, r) {
      BytesOfInjective(m, Named(LegacyFields(r)));
    }
  }

  /** The legacy bytes determine the seven fields and the non-empty hashes. */
  lemma LegacyBytesInjective(r: Receipt, s: Receipt)
    ensures LegacyBytes(r) == LegacyBytes(s) <==> SameLegacyPart(r, s)
  {
    hide IsLegacyDict, SameLegacyPart;
    var (a, b) := (Named(LegacyFields(r)), Named(LegacyFields(s)));
    LegacyDictByKey(r);
    LegacyDictByKey(s);
    LegacyDictsIff(a, b, r, s);
    LegacyDictsIff(b, b, s, s);
    BytesOfInjective(a, b);
  }

  lemma VersionTellsForms(r: Receipt, s: Receipt)
    ensures "version" in Named(FullFields(r)) && "version" !in Named(LegacyFields(s))
  {
    hide Named;
    NamedValue(FullFields(r), Version);
    NamedValue(LegacyFields(s), Version);
  }

  /** No receipt's full form is any receipt's legacy form. */
  lemma FormsNeverCoincide(r: Receipt, s: Receipt)
    ensures FullBytes(r) != LegacyBytes(s)
  {
    hide IsFullDict, IsLegacyDict, Named, SameLegacyPart;
    var (a, b) := (Named(FullFields(r)), Named(LegacyFields(s)));
    FullDictByKey(r);
    LegacyDictByKey(s);
    FullDictsIff(a, a, r, r);
    LegacyDictsIff(b, b, s, s);
    BytesOfInjective(a, b);
    VersionTellsForms(r, s);
    assert SameContent(a, b) ==> ("version" in a.Keys <==> "version" in b.Keys);
  }
}
