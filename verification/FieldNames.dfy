/** The key names of receipts and frames, and dicts that hold no other keys. */
module FieldNames {
  import opened Common
  import opened Json
  import opened CanonicalJson
  import opened Dict

  datatype Field =
    | RequestId | Timestamp | Version | Provider | Model | InputTokens | OutputTokens | TotalTokens
    | CostCurrency | CostInput | CostOutput | CostTotal | LatencyMetrics
    | Nonce | ModelVersion | PolicyId | ReasoningTokens | CachedTokens | InputHash | OutputHash
    | QueueMs | TimeToFirstTokenMs | TimePerOutputTokenMs | TotalMs
    | Header | Method | Messages | QosClass | Capabilities | ClientId
    | TypeCode | StreamId | Flags | Length | Status | Body | AttachedReceipt

  function Name(f: Field): string {
    match f
    case RequestId => "request_id"
    case Timestamp => "timestamp"
    case Version => "version"
    case Provider => "provider"
    case Model => "model"
    case InputTokens => "input_tokens"
    case OutputTokens => "output_tokens"
    case TotalTokens => "total_tokens"
    case CostCurrency => "cost_currency"
    case CostInput => "cost_input"
    case CostOutput => "cost_output"
    case CostTotal => "cost_total"
    case LatencyMetrics => "latency"
    case Nonce => "nonce"
    case ModelVersion => "model_version"
    case PolicyId => "policy_id"
    case ReasoningTokens => "reasoning_tokens"
    case CachedTokens => "cached_tokens"
    case InputHash => "input_hash"
    case OutputHash => "output_hash"
    case QueueMs => "queue_ms"
    case TimeToFirstTokenMs => "time_to_first_token_ms"
    case TimePerOutputTokenMs => "time_per_output_token_ms"
    case TotalMs => "total_ms"
    case Header => "header"
    case Method => "method"
    case Messages => "messages"
    case QosClass => "qos_class"
    case Capabilities => "capabilities"
    case ClientId => "client_id"
    case TypeCode => "frame_type"
    case StreamId => "stream_id"
    case Flags => "flags"
    case Length => "length"
    case Status => "status"
    case Body => "body"
    case AttachedReceipt => "receipt"
  }

  /** The length of a field's name. */
  function NameLength(f: Field): nat {
    match f
    case Body => 4
    case Model | Nonce | Flags => 5
    case Header | Method | Length | Status => 6
    case Version | LatencyMetrics | AttachedReceipt => 7
    case Provider | QueueMs | TotalMs | Messages => 8
    case Timestamp | PolicyId | QosClass | ClientId | StreamId => 9
    case RequestId | CostInput | CostTotal | InputHash | TypeCode => 10
    case CostOutput | OutputHash => 11
    case InputTokens | TotalTokens | Capabilities => 12
    case OutputTokens | CostCurrency | ModelVersion | CachedTokens => 13
    case ReasoningTokens => 16
    case TimeToFirstTokenMs => 22
    case TimePerOutputTokenMs => 24
  }

  /** The first letter of a field's name. */
  function FirstLetter(f: Field): char {
    match f
    case Body => 'b'
    case CostCurrency | CostInput | CostOutput | CostTotal | CachedTokens | Capabilities | ClientId => 'c'
    case TypeCode | Flags => 'f'
    case Header => 'h'
    case InputTokens | InputHash => 'i'
    case LatencyMetrics | Length => 'l'
    case Model | ModelVersion | Method | Messages => 'm'
    case Nonce => 'n'
    case OutputTokens | OutputHash => 'o'
    case Provider | PolicyId => 'p'
    case QueueMs | QosClass => 'q'
    case RequestId | ReasoningTokens | AttachedReceipt => 'r'
    case StreamId | Status => 's'
    case Timestamp | TotalTokens | TimeToFirstTokenMs | TimePerOutputTokenMs | TotalMs => 't'
    case Version => 'v'
  }

  /** The last letter of a field's name. */
  function LastLetter(f: Field): char {
    match f
    case RequestId | PolicyId | Method | ClientId | StreamId => 'd'
    case Nonce | TypeCode => 'e'
    case InputHash | OutputHash | Length => 'h'
    case Model | CostTotal => 'l'
    case Version | ModelVersion => 'n'
    case Timestamp => 'p'
    case Provider | Header => 'r'
    case InputTokens | OutputTokens | TotalTokens | ReasoningTokens | CachedTokens => 's'
    case QueueMs | TimeToFirstTokenMs | TimePerOutputTokenMs | TotalMs => 's'
    case Messages | QosClass | Capabilities | Flags | Status => 's'
    case CostInput | CostOutput | AttachedReceipt => 't'
    case CostCurrency | LatencyMetrics | Body => 'y'
  }

  lemma NameShape(f: Field)
    ensures |Name(f)| == NameLength(f) > 0
    ensures Name(f)[0] == FirstLetter(f)
    ensures Name(f)[|Name(f)| - 1] == LastLetter(f)
  {
  }

  predicate SameShape(f: Field, g: Field) {
    NameLength(f) == NameLength(g) && FirstLetter(f) == FirstLetter(g) && LastLetter(f) == LastLetter(g)
  }

  predicate IsFrameField(f: Field) {
    match f
    case Header | Method | Messages | QosClass | Capabilities | ClientId => true
    case TypeCode | StreamId | Flags | Length | Status | Body | AttachedReceipt => true
    case _ => false
  }

  lemma ReceiptFieldsApart(f: Field, g: Field)
    requires !IsFrameField(f) && !IsFrameField(g)
    ensures SameShape(f, g) ==> f == g
  {
  }

  lemma FrameFieldsApart(f: Field, g: Field)
    requires IsFrameField(f) && IsFrameField(g)
    ensures SameShape(f, g) ==> f == g
  {
  }

  lemma FieldKindsApart(f: Field, g: Field)
    requires IsFrameField(f) && !IsFrameField(g)
    ensures !SameShape(f, g)
  {
  }

  lemma NamesDistinct(f: Field, g: Field)
    ensures Name(f) == Name(g) <==> f == g
  {
    if Name(f) == Name(g) {
      assert SameShape(f, g) by {
        NameShape(f);
        NameShape(g);
      }
      if IsFrameField(f) {
        if IsFrameField(g) {
          FrameFieldsApart(f, g);
        } else {
          FieldKindsApart(f, g);
        }
      } else if IsFrameField(g) {
        FieldKindsApart(g, f);
      } else {
        ReceiptFieldsApart(f, g);
      }
    }
  }

  // ----- dicts over field names

  datatype Entry = Entry(field: Field, value: Json)

  ghost predicate DistinctFields(entries: seq<Entry>) {
    forall i, j :: 0 <= i < j < |entries| ==> entries[i].field != entries[j].field
  }

  /** A dict whose keys are field names, in insertion order. */
  type Record = entries: seq<Entry> | DistinctFields(entries) witness []

  function Lookup(entries: seq<Entry>, f: Field): Option<Json> {
    if entries == [] then None else if entries[0].field == f then Some(entries[0].value) else Lookup(entries[1..], f)
  }

  function PutEntry(entries: seq<Entry>, f: Field, value: Json): seq<Entry> {
    if entries == [] then [Entry(f, value)]
    else if entries[0].field == f then [Entry(f, value)] + entries[1..]
    else [entries[0]] + PutEntry(entries[1..], f, value)
  }

  lemma {:induction false} LookupAfterPut(entries: seq<Entry>, f: Field, value: Json, g: Field)
    ensures Lookup(PutEntry(entries, f, value), g) == if g == f then Some(value) else Lookup(entries, g)
  {
    if entries != [] {
      LookupAfterPut(entries[1..], f, value, g);
    }
  }

  lemma {:induction false} LookupOfEntry(entries: seq<Entry>, i: nat)
    requires i < |entries|
    ensures Lookup(entries, entries[i].field).Some?
    ensures DistinctFields(entries) ==> Lookup(entries, entries[i].field) == Some(entries[i].value)
  {
    if i > 0 {
      LookupOfEntry(entries[1..], i - 1);
    }
  }

  lemma {:induction false} PutKeepsFieldsDistinct(entries: seq<Entry>, f: Field, value: Json)
    requires DistinctFields(entries)
    ensures DistinctFields(PutEntry(entries, f, value))
  {
    if entries != [] && entries[0].field != f {
      PutKeepsFieldsDistinct(entries[1..], f, value);
      var tail := PutEntry(entries[1..], f, value);
      forall j | 0 <= j < |tail| ensures tail[j].field != entries[0].field {
        LookupOfEntry(tail, j);
        LookupAfterPut(entries[1..], f, value, tail[j].field);
        AbsentField(entries[1..], entries[0].field);
      }
    }
  }

  lemma {:induction false} AbsentField(entries: seq<Entry>, f: Field)
    requires forall i :: 0 <= i < |entries| ==> entries[i].field != f
    ensures Lookup(entries, f) == None
  {
    if entries != [] {
      AbsentField(entries[1..], f);
    }
  }

  /** Item assignment. */
  method SetField(d: Record, f: Field, value: Json) returns (r: Record)
    ensures forall g: Field :: Lookup(r, g) == if g == f then Some(value) else Lookup(d, g)
  {
    PutKeepsFieldsDistinct(d, f, value);
    r := PutEntry(d, f, value);
    forall g: Field ensures Lookup(r, g) == if g == f then Some(value) else Lookup(d, g) {
      LookupAfterPut(d, f, value, g);
    }
  }

  /** Assigns only a value that is present. */
  method SetIfPresent(d: Record, f: Field, value: Option<Json>) returns (r: Record)
    ensures forall g: Field :: Lookup(r, g) == if g == f && value.Some? then value else Lookup(d, g)
  {
    r := d;
    if value.Some? {
      r := SetField(d, f, value.value);
    }
  }

  /** The dict with the keys spelled out. */
  function Spelled(entries: seq<Entry>): (r: seq<Member>)
    ensures |r| == |entries|
    ensures forall i :: 0 <= i < |r| ==> r[i] == Member(Name(entries[i].field), entries[i].value)
  {
    seq(|entries|, i requires 0 <= i < |entries| => Member(Name(entries[i].field), entries[i].value))
  }

  /** What a dict holds, as field values. */
  ghost function Fields(entries: seq<Entry>): map<Field, Json> {
    map f: Field | Lookup(entries, f).Some? :: Lookup(entries, f).value
  }

  /** The content that goes with field values. */
  ghost function Named(m: map<Field, Json>): map<string, Json> {
    AllNamesDistinct();
    map f | f in m :: Name(f) := m[f]
  }

  lemma AllNamesDistinct()
    ensures forall f: Field, g: Field :: Name(f) == Name(g) <==> f == g
  {
    forall f: Field, g: Field ensures Name(f) == Name(g) <==> f == g {
      NamesDistinct(f, g);
    }
  }

  lemma SpelledContent(d: Record)
    ensures DistinctKeys(Spelled(d))
    ensures Content(Spelled(d)) == Named(Fields(d))
  {
    hide Name, Content, Lookup;
    AllNamesDistinct();
    var s: Dict := Spelled(d);
    ContentAt(s);
    forall f: Field
      ensures f in Fields(d) ==> Name(f) in Content(s) && Content(s)[Name(f)] == Fields(d)[f]
    {
      if f in Fields(d) {
        var i := EntryOf(d, f);
        assert s[i].key == Name(f);
      }
    }
    forall key | key in Content(s)
      ensures key in Named(Fields(d))
    {
      var i :| 0 <= i < |s| && s[i].key == key;
      LookupOfEntry(d, i);
      assert d[i].field in Fields(d);
    }
  }

  lemma {:induction false} EntryOf(entries: seq<Entry>, f: Field) returns (i: nat)
    requires Lookup(entries, f).Some?
    ensures i < |entries| && entries[i] == Entry(f, Lookup(entries, f).value)
  {
    if entries[0].field == f {
      i := 0;
    } else {
      i := EntryOf(entries[1..], f);
      i := i + 1;
    }
  }

  lemma SpelledWellFormed(d: Record)
    requires forall i :: 0 <= i < |d| ==> WellFormed(d[i].value)
    ensures WellFormed(Object(Spelled(d)))
  {
    SpelledContent(d);
  }

  lemma NamedAt(m: map<Field, Json>, f: Field)
    ensures f in m <==> Name(f) in Named(m)
    ensures f in m ==> Named(m)[Name(f)] == m[f]
  {
    AllNamesDistinct();
  }

  /** The key is there with this value, or is not there. */
  ghost predicate Holds(m: map<string, Json>, key: string, value: Option<Json>) {
    match value
    case Some(v) => key in m && m[key] == v
    case None => key !in m
  }

  lemma NamedValue(m: map<Field, Json>, f: Field)
    ensures Holds(Named(m), Name(f), if f in m then Some(m[f]) else None)
  {
    hide Named, Name;
    NamedAt(m, f);
  }

  lemma FieldOfKey(m: map<Field, Json>, key: string) returns (f: Field)
    requires key in Named(m)
    ensures f in m && Name(f) == key
  {
    f :| f in m && Name(f) == key;
  }

  /** Under the name of its i-th field a dict holds the i-th value. */
  lemma SpelledValue(d: Record, i: nat)
    requires i < |d|
    ensures Holds(Content(Spelled(d)), Name(d[i].field), Some(d[i].value))
  {
    hide Named, Name, Content, Spelled, Lookup;
    LookupOfEntry(d, i);
    SpelledContent(d);
    NamedValue(Fields(d), d[i].field);
  }

  lemma EntryOfKey(d: Record, key: string) returns (i: nat)
    requires key in Content(Spelled(d))
    ensures i < |d| && Name(d[i].field) == key
  {
    hide Name;
    SpelledContent(d);
    var f := FieldOfKey(Fields(d), key);
    i := EntryOf(d, f);
  }
}
