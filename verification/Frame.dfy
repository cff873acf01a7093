/** Wire frames: request and response frames as canonical JSON behind a four-byte length prefix. */
module Frame {
  import opened Common
  import opened Utf8
  import opened JsonString
  import opened Json
  import opened CanonicalJson
  import opened Dict
  import opened FieldNames

  datatype FrameType = REQUEST | RESPONSE | RECEIPT | ERROR | PING | PONG

  datatype FrameHeader = FrameHeader(version: string, frameType: FrameType, streamId: int, flags: int, length: int)

  datatype Frame =
    | RequestFrame(
        header: FrameHeader,
        requestMethod: string,
        model: string,
        messages: seq<Json>,
        qosClass: string,
        capabilities: seq<string>,
        clientId: Option<string>,
        nonce: Option<string>
      )
    | ResponseFrame(
        header: FrameHeader,
        requestId: string,
        status: int,
        body: seq<Member>,
        receipt: Option<seq<Member>>
      )

  datatype FrameKind = RequestKind | ResponseKind

  datatype FrameError =
    | TooShort
    | Truncated
    | BodyTooLong
    | InvalidJson(cause: SyntaxError)
    | NotAnObject
    | MissingKey(key: string)
    | BadFrameType
    | IllTyped

  function Kind(frame: Frame): FrameKind {
    if frame.RequestFrame? then RequestKind else ResponseKind
  }

  // ----- frames as JSON objects

  function TypeNumber(t: FrameType): int {
    match t
    case REQUEST => 1
    case RESPONSE => 2
    case RECEIPT => 3
    case ERROR => 4
    case PING => 5
    case PONG => 6
  }

  function TypeOfNumber(n: int): Result<FrameType, FrameError> {
    match n
    case 1 => Success(REQUEST)
    case 2 => Success(RESPONSE)
    case 3 => Success(RECEIPT)
    case 4 => Success(ERROR)
    case 5 => Success(PING)
    case 6 => Success(PONG)
    case _ => Failure(BadFrameType)
  }

  function OptionalStr(value: Option<string>): Json {
    match value case Some(s) => Str(s) case None => Null
  }

  function OptionalObject(value: Option<seq<Member>>): Json {
    match value case Some(members) => Object(members) case None => Null
  }

  function StrItems(texts: seq<string>): (r: seq<Json>)
    ensures |r| == |texts|
    ensures forall i :: 0 <= i < |r| ==> r[i] == Str(texts[i])
  {
    seq(|texts|, i requires 0 <= i < |texts| => Str(texts[i]))
  }

  function HeaderEntries(h: FrameHeader): Record {
    [
      Entry(Version, Str(h.version)),
      Entry(TypeCode, Int(TypeNumber(h.frameType))),
      Entry(StreamId, Int(h.streamId)),
      Entry(Flags, Int(h.flags)),
      Entry(Length, Int(h.length))
    ]
  }

  function RequestEntries(f: Frame): Record
    requires f.RequestFrame?
  {
    [
      Entry(Header, Object(Spelled(HeaderEntries(f.header)))),
      Entry(Method, Str(f.requestMethod)),
      Entry(Model, Str(f.model)),
      Entry(Messages, Array(f.messages)),
      Entry(QosClass, Str(f.qosClass)),
      Entry(Capabilities, Array(StrItems(f.capabilities))),
      Entry(ClientId, OptionalStr(f.clientId)),
      Entry(Nonce, OptionalStr(f.nonce))
    ]
  }

  function ResponseEntries(f: Frame): Record
    requires f.ResponseFrame?
  {
    [
      Entry(Header, Object(Spelled(HeaderEntries(f.header)))),
      Entry(RequestId, Str(f.requestId)),
      Entry(Status, Int(f.status)),
      Entry(Body, Object(f.body)),
      Entry(AttachedReceipt, OptionalObject(f.receipt))
    ]
  }

  function FrameEntries(f: Frame): Record {
    if f.RequestFrame? then RequestEntries(f) else ResponseEntries(f)
  }

  function ToJson(frame: Frame): Json {
    Object(Spelled(FrameEntries(frame)))
  }

  // ----- frames from JSON objects

  /** A key's value in a parsed object. */
  function Get(members: seq<Member>, f: Field): Option<Json> {
    if Name(f) in Content(members) then Some(Content(members)[Name(f)]) else None
  }

  /** Reading a parsed object by key. */
  type Reader = Field -> Option<Json>

  function ReaderOf(members: seq<Member>): Reader {
    f => Get(members, f)
  }

  function Need(get: Reader, f: Field): Result<Json, FrameError> {
    match get(f) case Some(v) => Success(v) case None => Failure(MissingKey(Name(f)))
  }

  function AsText(v: Json): Result<string, FrameError> {
    if v.Str? then Success(v.s) else Failure(IllTyped)
  }

  /** Python's int() on a JSON value, for integers and booleans. */
  function AsInt(v: Json): Result<int, FrameError> {
    match v
    case Int(n) => Success(n)
    case Bool(b) => Success(if b then 1 else 0)
    case _ => Failure(IllTyped)
  }

  /** Python's list() on a JSON value: items, characters or keys. */
  function AsList(v: Json): Result<seq<Json>, FrameError> {
    match v
    case Array(items) => Success(items)
    case Str(s) => Success(seq(|s|, i requires 0 <= i < |s| => Str([s[i]])))
    case Object(members) => Success(seq(|members|, i requires 0 <= i < |members| => Str(members[i].key)))
    case _ => Failure(IllTyped)
  }

  predicate IsFalsy(v: Json) {
    v == Null || v == Bool(false) || v == Int(0) || v == Str("") || v == Array([]) || v == Object([])
  }

  function AsTexts(items: seq<Json>): Result<seq<string>, FrameError> {
    if forall i :: 0 <= i < |items| ==> items[i].Str? then
      Success(seq(|items|, i requires 0 <= i < |items| => items[i].s))
    else
      Failure(IllTyped)
  }

  function AsOptionalText(v: Option<Json>): Result<Option<string>, FrameError> {
    match v
    case Some(Str(s)) => Success(Some(s))
    case Some(Null) => Success(None)
    case None => Success(None)
    case _ => Failure(IllTyped)
  }

  function NeedText(get: Reader, f: Field): Result<string, FrameError> {
    var v :- Need(get, f);
    AsText(v)
  }

  function NeedInt(get: Reader, f: Field): Result<int, FrameError> {
    var v :- Need(get, f);
    AsInt(v)
  }

  function OrElse(v: Option<Json>, default: Json): Json {
    match v case Some(x) => x case None => default
  }

  function HeaderFromJson(v: Json): Result<FrameHeader, FrameError> {
    if v.Object? then ReadHeader(ReaderOf(v.members)) else Failure(IllTyped)
  }

  function ReadHeader(get: Reader): Result<FrameHeader, FrameError> {
    var version :- NeedText(get, Version);
    var typeNumber :- NeedInt(get, TypeCode);
    var frameType :- TypeOfNumber(typeNumber);
    var streamId :- NeedInt(get, StreamId);
    var flags :- AsInt(OrElse(get(Flags), Int(0)));
    var length :- AsInt(OrElse(get(Length), Int(0)));
    Success(FrameHeader(version, frameType, streamId, flags, length))
  }

  function ReadMessages(get: Reader): Result<seq<Json>, FrameError> {
    AsList(OrElse(get(Messages), Array([])))
  }

  function ReadCapabilities(get: Reader): Result<seq<string>, FrameError> {
    var listed := OrElse(get(Capabilities), Array([]));
    var items :- AsList(if IsFalsy(listed) then Array([]) else listed);
    AsTexts(items)
  }

  function ReadRequest(get: Reader): Result<Frame, FrameError> {
    var headerValue :- Need(get, Header);
    var header :- HeaderFromJson(headerValue);
    var requestMethod :- NeedText(get, Method);
    var model :- NeedText(get, Model);
    var messages :- ReadMessages(get);
    var qosClass :- AsText(OrElse(get(QosClass), Str("standard")));
    var capabilities :- ReadCapabilities(get);
    var clientId :- AsOptionalText(get(ClientId));
    var nonce :- AsOptionalText(get(Nonce));
    Success(RequestFrame(header, requestMethod, model, messages, qosClass, capabilities, clientId, nonce))
  }

  function ReadBody(get: Reader): Result<seq<Member>, FrameError> {
    match OrElse(get(Body), Object([]))
    case Object(members) => Success(members)
    case v => if IsFalsy(v) then Success([]) else Failure(IllTyped)
  }

  function ReadReceipt(get: Reader): Result<Option<seq<Member>>, FrameError> {
    match OrElse(get(AttachedReceipt), Null)
    case Object(members) => Success(Some(members))
    case Null => Success(None)
    case _ => Failure(IllTyped)
  }

  function ReadResponse(get: Reader): Result<Frame, FrameError> {
    var headerValue :- Need(get, Header);
    var header :- HeaderFromJson(headerValue);
    var requestId :- NeedText(get, RequestId);
    var status :- NeedInt(get, Status);
    var body :- ReadBody(get);
    var receipt :- ReadReceipt(get);
    Success(ResponseFrame(header, requestId, status, body, receipt))
  }

  function FromJson(members: seq<Member>, kind: FrameKind): Result<Frame, FrameError> {
    if kind == RequestKind then ReadRequest(ReaderOf(members)) else ReadResponse(ReaderOf(members))
  }

  // ----- bytes

  const PREFIX_SIZE := 4
  const MAX_BODY := 0x1_0000_0000

  function BigEndian(n: nat): (bs: Bytes)
    requires n < MAX_BODY
    ensures |bs| == PREFIX_SIZE
  {
    [(n / 0x100_0000) as byte, (n / 0x1_0000 % 0x100) as byte, (n / 0x100 % 0x100) as byte, (n % 0x100) as byte]
  }

  function FromBigEndian(bs: Bytes): nat
    requires |bs| >= PREFIX_SIZE
  {
    ((bs[0] as int * 0x100 + bs[1] as int) * 0x100 + bs[2] as int) * 0x100 + bs[3] as int
  }

  function BodyBytes(frame: Frame): Bytes {
    CanonicalBytes(ToJson(frame))
  }

  /** An error when the body does not fit the length prefix. */
  function EncodeFrame(frame: Frame): Result<Bytes, FrameError> {
    var body := BodyBytes(frame);
    if |body| >= MAX_BODY then Failure(BodyTooLong) else Success(BigEndian(|body|) + body)
  }

  function DecodeFrame(raw: Bytes, kind: FrameKind): Result<Frame, FrameError> {
    if |raw| < PREFIX_SIZE then
      Failure(TooShort)
    else
      var declared := FromBigEndian(raw);
      if |raw| - PREFIX_SIZE < declared then
        Failure(Truncated)
      else
        DecodeBody(raw[PREFIX_SIZE..PREFIX_SIZE + declared], kind)
  }

  function DecodeBody(body: Bytes, kind: FrameKind): Result<Frame, FrameError> {
    match Decode(body)
    case None => Failure(InvalidJson(BadEncoding))
    case Some(text) =>
      match Loads(text)
      case Failure(e) => Failure(InvalidJson(e))
      case Success(Object(members)) => FromJson(members, kind)
      case Success(_) => Failure(NotAnObject)
  }
}
