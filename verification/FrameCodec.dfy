/**
 The frame codec as a prefix code: decoding undoes encoding, and concatenated frames split in one way.

 The proofs go from keys to bytes. A frame's fields are read back from its dict, key by key, through
 `Reader` functions, so that no proof has to unfold a whole object. From there: an encoded frame read
 as its own kind and as the other one; the length prefix and every strict prefix of a frame; when two
 encodings agree, and streams of frames; what is read from bodies that the encoder did not write, by
 the grammar of JSON; what a frame is as JSON under its literal keys, and its layout in bytes; the values
 of other types that Python converts; and last frames whose optional keys are missing.
 */
module FrameCodec {
  import opened Common
  import opened Utf8
  import opened Json
  import opened JsonParsed
  import opened JsonGrammar
  import opened JsonRecognizer
  import opened CanonicalJson
  import opened Dict
  import opened FieldNames
  import opened Frame

  /** The JSON payloads of the frame have distinct keys and float tokens throughout. */
  ghost predicate WellFormedFrame(frame: Frame) {
    match frame
    case RequestFrame(_, _, _, messages, _, _, _, _) => WellFormed(Array(messages))
    case ResponseFrame(_, _, _, body, receipt) => WellFormed(Object(body)) && WellFormed(OptionalObject(receipt))
  }

  /** The frame with the keys of its payloads sorted: what comes back from the wire. */
  function SortedFrame(frame: Frame): Frame {
    match frame
    case RequestFrame(_, _, _, messages, _, _, _, _) => frame.(messages := SortItems(messages))
    case ResponseFrame(_, _, _, body, receipt) =>
      frame.(body := SortMembers(body), receipt := match receipt case Some(r) => Some(SortMembers(r)) case None => None)
  }

  /** Equality of frames as Python compares them: payload dicts in any key order. */
  ghost predicate SameFrame(f: Frame, g: Frame) {
    match (f, g)
    case (RequestFrame(_, _, _, ms, _, _, _, _), RequestFrame(_, _, _, ns, _, _, _, _)) =>
      f == g.(messages := ms) && SameValue(Array(ms), Array(ns))
    case (ResponseFrame(_, _, _, a, r), ResponseFrame(_, _, _, b, s)) =>
      && f == g.(body := a, receipt := r)
      && SameValue(Object(a), Object(b)) && SameValue(OptionalObject(r), OptionalObject(s))
    case _ => false
  }

  // ----- reading back the fields

  lemma LookupIsNamed(d: Record, f: Field)
    ensures match Lookup(d, f)
            case Some(v) => Name(f) in Content(Spelled(d)) && Content(Spelled(d))[Name(f)] == v
            case None => Name(f) !in Content(Spelled(d))
  {
    SpelledContent(d);
    NamedAt(Fields(d), f);
  }

  lemma GetOfSorted(d: Record, f: Field)
    ensures Get(SortMembers(Spelled(d)), f) ==
            match Lookup(d, f) case Some(v) => Some(SortKeys(v)) case None => None
  {
    LookupIsNamed(d, f);
    SpelledContent(d);
    ContentOfSorted(Spelled(d));
  }

  /** What the i-th field of a dict reads as after the keys are sorted. */
  lemma GetEntry(d: Record, i: nat)
    requires i < |d|
    ensures Get(SortMembers(Spelled(d)), d[i].field) == Some(SortKeys(d[i].value))
  {
    LookupOfEntry(d, i);
    GetOfSorted(d, d[i].field);
  }

  lemma GetAbsent(d: Record, f: Field)
    requires forall i :: 0 <= i < |d| ==> d[i].field != f
    ensures Get(SortMembers(Spelled(d)), f) == None
  {
    AbsentField(d, f);
    GetOfSorted(d, f);
  }

  lemma HeaderFields(h: FrameHeader) returns (m: seq<Member>)
    ensures m == SortMembers(Spelled(HeaderEntries(h)))
    ensures Get(m, Version) == Some(Str(h.version))
    ensures Get(m, TypeCode) == Some(Int(TypeNumber(h.frameType)))
    ensures Get(m, StreamId) == Some(Int(h.streamId))
    ensures Get(m, Flags) == Some(Int(h.flags))
    ensures Get(m, Length) == Some(Int(h.length))
  {
    var d := HeaderEntries(h);
    m := SortMembers(Spelled(d));
    GetEntry(d, 0);
    GetEntry(d, 1);
    GetEntry(d, 2);
    GetEntry(d, 3);
    GetEntry(d, 4);
  }

  lemma HeaderComesBack(h: FrameHeader)
    ensures HeaderFromJson(SortKeys(Object(Spelled(HeaderEntries(h))))) == Success(h)
  {
    var m := HeaderFields(h);
    HeaderFromFields(ReaderOf(m), h);
  }

  lemma HeaderFromFields(get: Reader, h: FrameHeader)
    requires get(Version) == Some(Str(h.version))
    requires get(TypeCode) == Some(Int(TypeNumber(h.frameType)))
    requires get(StreamId) == Some(Int(h.streamId))
    requires get(Flags) == Some(Int(h.flags))
    requires get(Length) == Some(Int(h.length))
    ensures ReadHeader(get) == Success(h)
  {
  }

  lemma RequestFields(f: Frame) returns (m: seq<Member>)
    requires f.RequestFrame?
    ensures m == SortMembers(Spelled(RequestEntries(f)))
    ensures Get(m, Header) == Some(SortKeys(Object(Spelled(HeaderEntries(f.header)))))
    ensures Get(m, Method) == Some(Str(f.requestMethod))
    ensures Get(m, Model) == Some(Str(f.model))
    ensures Get(m, Messages) == Some(Array(SortItems(f.messages)))
    ensures Get(m, QosClass) == Some(Str(f.qosClass))
    ensures Get(m, Capabilities) == Some(Array(SortItems(StrItems(f.capabilities))))
    ensures Get(m, ClientId) == Some(OptionalStr(f.clientId))
    ensures Get(m, Nonce) == Some(OptionalStr(f.nonce))
  {
    var d := RequestEntries(f);
    m := SortMembers(Spelled(d));
    GetEntry(d, 0);
    GetEntry(d, 1);
    GetEntry(d, 2);
    GetEntry(d, 3);
    GetEntry(d, 4);
    GetEntry(d, 5);
    GetEntry(d, 6);
    GetEntry(d, 7);
  }

  lemma TextsComeBack(texts: seq<string>)
    ensures SortItems(StrItems(texts)) == StrItems(texts)
    ensures AsTexts(StrItems(texts)) == Success(texts)
  {
    SortItemsIdentity(StrItems(texts));
    assert seq(|texts|, i requires 0 <= i < |texts| => StrItems(texts)[i].s) == texts;
  }

  lemma OptionalTextComesBack(value: Option<string>)
    ensures AsOptionalText(Some(OptionalStr(value))) == Success(value)
  {
  }

  lemma RequestFromFields(get: Reader, f: Frame, headerValue: Json, texts: seq<Json>)
    requires f.RequestFrame?
    requires get(Header) == Some(headerValue) && HeaderFromJson(headerValue) == Success(f.header)
    requires get(Method) == Some(Str(f.requestMethod))
    requires get(Model) == Some(Str(f.model))
    requires get(Messages) == Some(Array(SortItems(f.messages)))
    requires get(QosClass) == Some(Str(f.qosClass))
    requires get(Capabilities) == Some(Array(texts)) && AsTexts(texts) == Success(f.capabilities)
    requires get(ClientId) == Some(OptionalStr(f.clientId))
    requires get(Nonce) == Some(OptionalStr(f.nonce))
    ensures ReadRequest(get) == Success(SortedFrame(f))
  {
    assert ReadCapabilities(get) == Success(f.capabilities);
    assert ReadMessages(get) == Success(SortItems(f.messages));
    OptionalTextComesBack(f.clientId);
    OptionalTextComesBack(f.nonce);
  }

  lemma RequestComesBack(f: Frame)
    requires f.RequestFrame?
    ensures ReadRequest(ReaderOf(SortMembers(Spelled(RequestEntries(f))))) == Success(SortedFrame(f))
  {
    var m := RequestFields(f);
    HeaderComesBack(f.header);
    TextsComeBack(f.capabilities);
    RequestFromFields(ReaderOf(m), f, SortKeys(Object(Spelled(HeaderEntries(f.header)))), StrItems(f.capabilities));
  }

  lemma ResponseFields(f: Frame) returns (m: seq<Member>)
    requires f.ResponseFrame?
    ensures m == SortMembers(Spelled(ResponseEntries(f)))
    ensures Get(m, Header) == Some(SortKeys(Object(Spelled(HeaderEntries(f.header)))))
    ensures Get(m, RequestId) == Some(Str(f.requestId))
    ensures Get(m, Status) == Some(Int(f.status))
    ensures Get(m, Body) == Some(Object(SortMembers(f.body)))
    ensures Get(m, AttachedReceipt) == Some(SortKeys(OptionalObject(f.receipt)))
  {
    var d := ResponseEntries(f);
    m := SortMembers(Spelled(d));
    GetEntry(d, 0);
    GetEntry(d, 1);
    GetEntry(d, 2);
    GetEntry(d, 3);
    GetEntry(d, 4);
  }

  lemma ResponseFromFields(get: Reader, f: Frame, headerValue: Json)
    requires f.ResponseFrame?
    requires get(Header) == Some(headerValue) && HeaderFromJson(headerValue) == Success(f.header)
    requires get(RequestId) == Some(Str(f.requestId))
    requires get(Status) == Some(Int(f.status))
    requires get(Body) == Some(Object(SortMembers(f.body)))
    requires get(AttachedReceipt) == Some(SortKeys(OptionalObject(f.receipt)))
    ensures ReadResponse(get) == Success(SortedFrame(f))
  {
  }

  lemma ResponseComesBack(f: Frame)
    requires f.ResponseFrame?
    ensures ReadResponse(ReaderOf(SortMembers(Spelled(ResponseEntries(f))))) == Success(SortedFrame(f))
  {
    var m := ResponseFields(f);
    HeaderComesBack(f.header);
    ResponseFromFields(ReaderOf(m), f, SortKeys(Object(Spelled(HeaderEntries(f.header)))));
  }

  lemma MissingRequestId(get: Reader, header: FrameHeader, headerValue: Json)
    requires get(Header) == Some(headerValue) && HeaderFromJson(headerValue) == Success(header)
    requires get(RequestId) == None
    ensures ReadResponse(get) == Failure(MissingKey("request_id"))
  {
  }

  lemma MissingMethod(get: Reader, header: FrameHeader, headerValue: Json)
    requires get(Header) == Some(headerValue) && HeaderFromJson(headerValue) == Success(header)
    requires get(Method) == None
    ensures ReadRequest(get) == Failure(MissingKey("method"))
  {
  }

  lemma RequestMissesRequestId(f: Frame)
    requires f.RequestFrame?
    ensures ReadResponse(ReaderOf(SortMembers(Spelled(RequestEntries(f))))) == Failure(MissingKey("request_id"))
  {
    var m := RequestFields(f);
    HeaderComesBack(f.header);
    GetAbsent(RequestEntries(f), RequestId);
    MissingRequestId(ReaderOf(m), f.header, SortKeys(Object(Spelled(HeaderEntries(f.header)))));
  }

  lemma ResponseMissesMethod(f: Frame)
    requires f.ResponseFrame?
    ensures ReadRequest(ReaderOf(SortMembers(Spelled(ResponseEntries(f))))) == Failure(MissingKey("method"))
  {
    var m := ResponseFields(f);
    HeaderComesBack(f.header);
    GetAbsent(ResponseEntries(f), Method);
    MissingMethod(ReaderOf(m), f.header, SortKeys(Object(Spelled(HeaderEntries(f.header)))));
  }

  // ----- well-formed frames

  lemma StrItemsWellFormed(texts: seq<string>)
    ensures WellFormed(Array(StrItems(texts)))
  {
  }

  lemma HeaderWellFormed(h: FrameHeader)
    ensures WellFormed(Object(Spelled(HeaderEntries(h))))
  {
    forall i | 0 <= i < |HeaderEntries(h)| ensures WellFormed(HeaderEntries(h)[i].value) {
    }
    SpelledWellFormed(HeaderEntries(h));
  }

  lemma ToJsonWellFormed(f: Frame)
    requires WellFormedFrame(f)
    ensures WellFormed(ToJson(f))
  {
    HeaderWellFormed(f.header);
    var d := FrameEntries(f);
    if f.RequestFrame? {
      StrItemsWellFormed(f.capabilities);
    }
    forall i | 0 <= i < |d| ensures WellFormed(d[i].value) {
    }
    SpelledWellFormed(d);
  }

  // ----- the codec

  lemma BigEndianRoundTrip(n: nat, rest: Bytes)
    requires n < MAX_BODY
    ensures FromBigEndian(BigEndian(n) + rest) == n
  {
    assert n / 0x100 == n / 0x1_0000 * 0x100 + n / 0x100 % 0x100;
    assert n / 0x1_0000 == n / 0x100_0000 * 0x100 + n / 0x1_0000 % 0x100;
  }

  /** The number that bytes stand for in base 256, the most significant first. */
  function BaseValue(bs: Bytes): nat {
    if bs == [] then 0 else BaseValue(bs[..|bs| - 1]) * 0x100 + bs[|bs| - 1] as int
  }

  lemma {:induction false} BaseValueInjective(a: Bytes, b: Bytes)
    requires |a| == |b| && BaseValue(a) == BaseValue(b)
    ensures a == b
  {
    if a != [] {
      var n := |a| - 1;
      BaseValueInjective(a[..n], b[..n]);
      assert a == a[..n] + [a[n]] && b == b[..n] + [b[n]];
    }
  }

  lemma BaseValueOfFour(bs: Bytes)
    requires |bs| == PREFIX_SIZE
    ensures BaseValue(bs) == FromBigEndian(bs)
  {
    assert bs[..3][..2] == bs[..2] && bs[..2][..1] == bs[..1] && bs[..1][..0] == [];
    assert BaseValue(bs[..1]) == bs[0] as int;
    assert BaseValue(bs[..2]) == bs[0] as int * 0x100 + bs[1] as int;
    assert BaseValue(bs[..3]) == (bs[0] as int * 0x100 + bs[1] as int) * 0x100 + bs[2] as int;
  }

  /** The length prefix is the only four bytes that stand for the length, most significant first. */
  lemma BigEndianUnique(n: nat, bs: Bytes)
    requires n < MAX_BODY && |bs| == PREFIX_SIZE
    ensures BaseValue(bs) == n <==> bs == BigEndian(n)
  {
    BigEndianRoundTrip(n, []);
    assert BigEndian(n) + [] == BigEndian(n);
    BaseValueOfFour(BigEndian(n));
    if BaseValue(bs) == n {
      BaseValueInjective(bs, BigEndian(n));
    }
  }

  lemma PrefixGone(n: nat, body: Bytes, tail: Bytes)
    requires n == |body| < MAX_BODY
    ensures var raw := BigEndian(n) + body + tail;
            FromBigEndian(raw) == n && raw[PREFIX_SIZE..PREFIX_SIZE + n] == body
  {
    assert BigEndian(n) + body + tail == BigEndian(n) + (body + tail);
    BigEndianRoundTrip(n, body + tail);
  }

  /** What encoding puts on the wire for any object. */
  function Framed(d: Record): Option<Bytes> {
    var body := CanonicalBytes(Object(Spelled(d)));
    if |body| < MAX_BODY then Some(BigEndian(|body|) + body) else None
  }

  /** The body of a framed canonical object reads as the object with its keys sorted. */
  lemma DecodeFramed(d: Record, tail: Bytes, kind: FrameKind)
    ensures WellFormed(Object(Spelled(d))) && Framed(d).Some? ==>
              DecodeFrame(Framed(d).value + tail, kind) == FromJson(SortMembers(Spelled(d)), kind)
  {
    hide FromJson, WellFormed, SortMembers;
    if WellFormed(Object(Spelled(d))) && Framed(d).Some? {
      var body := CanonicalBytes(Object(Spelled(d)));
      PrefixGone(|body|, body, tail);
      LoadsOfCanonical(Object(Spelled(d)));
      DecodeOfEncode(CanonicalText(Object(Spelled(d))));
      SortedObject(Spelled(d));
    }
  }

  lemma SortedObject(members: seq<Member>)
    ensures SortKeys(Object(members)) == Object(SortMembers(members))
  {
  }

  /**
   Round trip: decoding an encoded frame followed by any bytes gives the frame back, with payload
   keys sorted, which compares equal to it.
   */
  lemma DecodeOfEncodeFrame(f: Frame, tail: Bytes)
    requires WellFormedFrame(f) && EncodeFrame(f).Success?
    ensures DecodeFrame(EncodeFrame(f).value + tail, Kind(f)) == Success(SortedFrame(f))
    ensures SameFrame(f, SortedFrame(f))
  {
    hide DecodeFrame, ReadRequest, ReadResponse, SortMembers, HeaderEntries;
    ToJsonWellFormed(f);
    DecodeFramed(FrameEntries(f), tail, Kind(f));
    if f.RequestFrame? {
      RequestComesBack(f);
    } else {
      ResponseComesBack(f);
    }
    SortedIsSame(f);
  }

  lemma SortedIsSame(f: Frame)
    ensures WellFormedFrame(f) ==> SameFrame(f, SortedFrame(f))
  {
    if WellFormedFrame(f) {
      match f
      case RequestFrame(_, _, _, messages, _, _, _, _) =>
        LoadsOfCanonical(Array(messages));
      case ResponseFrame(_, _, _, body, receipt) =>
        LoadsOfCanonical(Object(body));
        LoadsOfCanonical(OptionalObject(receipt));
    }
  }

  /**
   An encoded frame read as the other kind is refused for a missing key. The documentation of the
   decoder speaks of a value error here.
   */
  lemma WrongKindMissesKey(f: Frame, tail: Bytes, kind: FrameKind)
    requires WellFormedFrame(f) && EncodeFrame(f).Success? && kind != Kind(f)
    ensures DecodeFrame(EncodeFrame(f).value + tail, kind) ==
            Failure(MissingKey(if kind == RequestKind then "method" else "request_id"))
  {
    hide DecodeFrame, ReadRequest, ReadResponse, SortMembers, HeaderEntries;
    ToJsonWellFormed(f);
    DecodeFramed(FrameEntries(f), tail, kind);
    if f.RequestFrame? {
      RequestMissesRequestId(f);
    } else {
      ResponseMissesMethod(f);
    }
  }

  /** Every strict prefix of an encoded frame is refused, whichever kind is expected. */
  lemma StrictPrefixRefused(f: Frame, n: nat, kind: FrameKind)
    requires EncodeFrame(f).Success? && n < |EncodeFrame(f).value|
    ensures DecodeFrame(EncodeFrame(f).value[..n], kind) == Failure(if n < PREFIX_SIZE then TooShort else Truncated)
  {
    var body := BodyBytes(f);
    var raw := (BigEndian(|body|) + body)[..n];
    if n >= PREFIX_SIZE {
      assert raw == BigEndian(|body|) + body[..n - PREFIX_SIZE];
      BigEndianRoundTrip(|body|, body[..n - PREFIX_SIZE]);
    }
  }

  /** No encoded frame is a prefix of another: equal encodings and equal tails are all that is left. */
  lemma PrefixFree(f: Frame, g: Frame, a: Bytes, b: Bytes)
    requires EncodeFrame(f).Success? && EncodeFrame(g).Success?
    requires EncodeFrame(f).value + a == EncodeFrame(g).value + b
    ensures EncodeFrame(f).value == EncodeFrame(g).value && a == b
  {
    var (x, y) := (BodyBytes(f), BodyBytes(g));
    PrefixGone(|x|, x, a);
    PrefixGone(|y|, y, b);
    var whole := BigEndian(|x|) + x + a;
    assert a == whole[PREFIX_SIZE + |x|..] && b == whole[PREFIX_SIZE + |y|..];
  }

  /** Encodings agree exactly when the frames are equal. */
  lemma EncodingIffSame(f: Frame, g: Frame)
    requires WellFormedFrame(f) && WellFormedFrame(g)
    requires EncodeFrame(f).Success? && EncodeFrame(g).Success?
    ensures EncodeFrame(f) == EncodeFrame(g) <==> SameFrame(f, g)
  {
    if EncodeFrame(f) == EncodeFrame(g) {
      EqualEncodingsSame(f, g);
    } else if SameFrame(f, g) {
      SameFramesEqualBodies(f, g);
    }
  }

  lemma EqualEncodingsSame(f: Frame, g: Frame)
    ensures WellFormedFrame(f) && WellFormedFrame(g) &&
            EncodeFrame(f).Success? && EncodeFrame(f) == EncodeFrame(g) ==>
              SameFrame(f, g)
  {
    if WellFormedFrame(f) && WellFormedFrame(g) && EncodeFrame(f).Success? && EncodeFrame(f) == EncodeFrame(g) {
      DecodeOfEncodeFrame(f, []);
      DecodeOfEncodeFrame(g, []);
      if Kind(f) != Kind(g) {
        WrongKindMissesKey(f, [], Kind(g));
      }
      SortedAlikeSame(f, g);
    }
  }

  lemma SortedAlikeSame(f: Frame, g: Frame)
    ensures WellFormedFrame(f) && WellFormedFrame(g) && SortedFrame(f) == SortedFrame(g) ==> SameFrame(f, g)
  {
    if WellFormedFrame(f) && WellFormedFrame(g) && SortedFrame(f) == SortedFrame(g) {
      match (f, g)
      case (RequestFrame(_, _, _, ms, _, _, _, _), RequestFrame(_, _, _, ns, _, _, _, _)) =>
        SortsAlikeSameValue(Array(ms), Array(ns));
      case (ResponseFrame(_, _, _, a, r), ResponseFrame(_, _, _, b, s)) =>
        SortsAlikeSameValue(Object(a), Object(b));
        SortsAlikeSameValue(OptionalObject(r), OptionalObject(s));
    }
  }

  lemma {:induction false} PlacewiseSortAlike(a: seq<Member>, b: seq<Member>)
    requires |a| == |b|
    requires forall i :: 0 <= i < |a| ==> SortMember(a[i]) == SortMember(b[i])
    ensures SortMembers(a) == SortMembers(b)
  {
    if a != [] {
      PlacewiseSortAlike(a[1..], b[1..]);
    }
  }

  /** Dicts that list the same fields in the same order, with values that sort alike. */
  ghost predicate EntriesAlike(a: Record, b: Record) {
    && |a| == |b|
    && forall i :: 0 <= i < |a| ==> a[i].field == b[i].field && SortKeys(a[i].value) == SortKeys(b[i].value)
  }

  lemma EntriesAlikeSortAlike(a: Record, b: Record)
    requires EntriesAlike(a, b)
    ensures SortMembers(Spelled(a)) == SortMembers(Spelled(b))
  {
    PlacewiseSortAlike(Spelled(a), Spelled(b));
  }

  lemma AlikeBodies(f: Frame, g: Frame)
    ensures EntriesAlike(FrameEntries(f), FrameEntries(g)) ==> BodyBytes(f) == BodyBytes(g)
  {
    if EntriesAlike(FrameEntries(f), FrameEntries(g)) {
      EntriesAlikeSortAlike(FrameEntries(f), FrameEntries(g));
    }
  }

  lemma RequestsAlike(f: Frame, g: Frame)
    ensures f.RequestFrame? && g.RequestFrame? && f == g.(messages := f.messages) &&
            SortItems(f.messages) == SortItems(g.messages) ==>
              EntriesAlike(RequestEntries(f), RequestEntries(g))
  {
  }

  lemma ResponsesAlike(f: Frame, g: Frame)
    ensures f.ResponseFrame? && g.ResponseFrame? && f == g.(body := f.body, receipt := f.receipt) &&
            SortMembers(f.body) == SortMembers(g.body) &&
            SortKeys(OptionalObject(f.receipt)) == SortKeys(OptionalObject(g.receipt)) ==>
              EntriesAlike(ResponseEntries(f), ResponseEntries(g))
  {
  }

  lemma SameFramesEqualBodies(f: Frame, g: Frame)
    ensures WellFormedFrame(f) && WellFormedFrame(g) && SameFrame(f, g) ==> BodyBytes(f) == BodyBytes(g)
  {
    if WellFormedFrame(f) && WellFormedFrame(g) && SameFrame(f, g) {
      match (f, g)
      case (RequestFrame(_, _, _, ms, _, _, _, _), RequestFrame(_, _, _, ns, _, _, _, _)) =>
        SameValueSortsAlike(Array(ms), Array(ns));
        RequestsAlike(f, g);
        AlikeBodies(f, g);
      case (ResponseFrame(_, _, _, a, r), ResponseFrame(_, _, _, b, s)) =>
        SameValueSortsAlike(Object(a), Object(b));
        SameValueSortsAlike(OptionalObject(r), OptionalObject(s));
        ResponsesAlike(f, g);
        AlikeBodies(f, g);
    }
  }

  // ----- streams of frames

  function EncodeAll(frames: seq<Frame>): Result<Bytes, FrameError> {
    if frames == [] then
      Success([])
    else
      var first :- EncodeFrame(frames[0]);
      var rest :- EncodeAll(frames[1..]);
      Success(first + rest)
  }

  /** Two streams of the same bytes start with equal frames and go on with the same bytes. */
  lemma FirstFramesSame(f: Frame, g: Frame, a: Bytes, b: Bytes)
    ensures WellFormedFrame(f) && WellFormedFrame(g) && EncodeFrame(f).Success? && EncodeFrame(g).Success? ==>
              EncodeFrame(f).value + a == EncodeFrame(g).value + b ==> SameFrame(f, g) && a == b
  {
    if WellFormedFrame(f) && WellFormedFrame(g) && EncodeFrame(f).Success? && EncodeFrame(g).Success? {
      if EncodeFrame(f).value + a == EncodeFrame(g).value + b {
        PrefixFree(f, g, a, b);
        EncodingIffSame(f, g);
      }
    }
  }

  ghost predicate SameFrames(fs: seq<Frame>, gs: seq<Frame>) {
    |fs| == |gs| && forall i :: 0 <= i < |fs| ==> SameFrame(fs[i], gs[i])
  }

  /** A concatenation of encoded frames splits in only one way: as many frames, equal one by one. */
  lemma {:induction false} StreamsSplitUniquely(fs: seq<Frame>, gs: seq<Frame>)
    requires forall f <- fs :: WellFormedFrame(f)
    requires forall g <- gs :: WellFormedFrame(g)
    ensures EncodeAll(fs).Success? && EncodeAll(fs) == EncodeAll(gs) ==> SameFrames(fs, gs)
  {
    if EncodeAll(fs).Success? && EncodeAll(fs) == EncodeAll(gs) && fs != [] && gs != [] {
      FirstFramesSame(fs[0], gs[0], EncodeAll(fs[1..]).value, EncodeAll(gs[1..]).value);
      StreamsSplitUniquely(fs[1..], gs[1..]);
      SameFramesCons(fs, gs);
    }
  }

  lemma SameFramesCons(fs: seq<Frame>, gs: seq<Frame>)
    ensures fs != [] && gs != [] && SameFrame(fs[0], gs[0]) && SameFrames(fs[1..], gs[1..]) ==> SameFrames(fs, gs)
  {
    if fs != [] && gs != [] && SameFrame(fs[0], gs[0]) && SameFrames(fs[1..], gs[1..]) {
      forall i | 0 < i < |fs| ensures SameFrame(fs[i], gs[i]) {
        assert SameFrame(fs[1..][i - 1], gs[1..][i - 1]);
      }
    }
  }

  // ----- frames from the wire

  lemma {:induction false} ContentWellFormed(members: seq<Member>)
    ensures WellFormedValues(members) ==> WellFormedContent(Content(members))
  {
    if WellFormedValues(members) {
      if members != [] {
        ContentWellFormed(members[1..]);
      }
    }
  }

  lemma ReadRequestWellFormed(get: Reader)
    ensures (forall f: Field :: get(f).Some? ==> WellFormed(get(f).value)) && ReadRequest(get).Success? ==>
              ReadRequest(get).value.RequestFrame? && WellFormedFrame(ReadRequest(get).value)
  {
    if ReadRequest(get).Success? {
      assert ReadRequest(get).value.messages == ReadMessages(get).value;
    }
  }

  lemma ReadResponseWellFormed(get: Reader)
    ensures (forall f: Field :: get(f).Some? ==> WellFormed(get(f).value)) && ReadResponse(get).Success? ==>
              ReadResponse(get).value.ResponseFrame? && WellFormedFrame(ReadResponse(get).value)
  {
    if ReadResponse(get).Success? {
      assert ReadResponse(get).value.body == ReadBody(get).value;
      assert ReadResponse(get).value.receipt == ReadReceipt(get).value;
    }
  }

  /** Every frame that decoding accepts is a well-formed frame of the expected kind. */
  lemma DecodedIsWellFormed(raw: Bytes, kind: FrameKind)
    ensures match DecodeFrame(raw, kind)
            case Success(f) => Kind(f) == kind && WellFormedFrame(f)
            case Failure(_) => true
  {
    if DecodeFrame(raw, kind).Success? {
      var body := raw[PREFIX_SIZE..PREFIX_SIZE + FromBigEndian(raw)];
      var text := Decode(body).value;
      LoadedIsWellFormed(text);
      var members := Loads(text).value.members;
      ContentWellFormed(members);
      if kind == RequestKind {
        ReadRequestWellFormed(ReaderOf(members));
      } else {
        ReadResponseWellFormed(ReaderOf(members));
      }
    }
  }

  /**
   Any bytes that decode, canonical or not, give a frame that can be encoded and decoded again to an
   equal frame, as long as its canonical body fits the length prefix.
   */
  lemma DecodedIsStable(raw: Bytes, kind: FrameKind, tail: Bytes)
    ensures match DecodeFrame(raw, kind)
            case Success(f) =>
              EncodeFrame(f).Success? ==>
                && DecodeFrame(EncodeFrame(f).value + tail, kind) == Success(SortedFrame(f))
                && SameFrame(f, SortedFrame(f))
            case Failure(_) => true
  {
    DecodedIsWellFormed(raw, kind);
    match DecodeFrame(raw, kind)
    case Success(f) =>
      if EncodeFrame(f).Success? {
        DecodeOfEncodeFrame(f, tail);
      }
    case Failure(_) =>
  }

  /** A body in UTF-8 of any text of the JSON grammar is read as the object it stands for. */
  lemma BodyByGrammar(text: string, v: Json, kind: FrameKind)
    ensures DenotesPadded(text, v) ==>
              DecodeBody(Encode(text), kind) == if v.Object? then FromJson(v.members, kind) else Failure(NotAnObject)
  {
    hide FromJson, DenotesPadded;
    if DenotesPadded(text, v) {
      DecodeOfEncode(text);
      LoadsIffDenotes(text, v);
    }
  }

  /** Any other body is refused as invalid JSON. */
  lemma OtherBodyRefused(body: Bytes, kind: FrameKind)
    requires forall text: string, v: Json :: DenotesPadded(text, v) ==> Encode(text) != body
    ensures DecodeBody(body, kind).Failure? && DecodeBody(body, kind).error.InvalidJson?
  {
    hide FromJson, DenotesPadded;
    if Decode(body).Some? {
      var text := Decode(body).value;
      EncodeOfDecode(body);
      if Loads(text).Success? {
        LoadsIffDenotes(text, Loads(text).value);
      }
    }
  }

  // ----- frames by key

  ghost predicate IsHeaderKey(key: string) {
    key == "version" || key == "frame_type" || key == "stream_id" || key == "flags" || key == "length"
  }

  ghost predicate IsRequestKey(key: string) {
    || key == "header" || key == "method" || key == "model" || key == "messages"
    || key == "qos_class" || key == "capabilities" || key == "client_id" || key == "nonce"
  }

  ghost predicate IsResponseKey(key: string) {
    key == "header" || key == "request_id" || key == "status" || key == "body" || key == "receipt"
  }

  /** The JSON content of a header, key by key. */
  ghost predicate IsHeaderDict(m: map<string, Json>, h: FrameHeader) {
    && Holds(m, "version", Some(Str(h.version)))
    && (h.frameType == REQUEST ==> Holds(m, "frame_type", Some(Int(1))))
    && (h.frameType == RESPONSE ==> Holds(m, "frame_type", Some(Int(2))))
    && (h.frameType == RECEIPT ==> Holds(m, "frame_type", Some(Int(3))))
    && (h.frameType == ERROR ==> Holds(m, "frame_type", Some(Int(4))))
    && (h.frameType == PING ==> Holds(m, "frame_type", Some(Int(5))))
    && (h.frameType == PONG ==> Holds(m, "frame_type", Some(Int(6))))
    && Holds(m, "stream_id", Some(Int(h.streamId)))
    && Holds(m, "flags", Some(Int(h.flags)))
    && Holds(m, "length", Some(Int(h.length)))
    && forall key :: key in m ==> IsHeaderKey(key)
  }

  ghost predicate HasHeader(m: map<string, Json>, h: FrameHeader) {
    && "header" in m && m["header"].Object?
    && DistinctKeys(m["header"].members) && IsHeaderDict(Content(m["header"].members), h)
  }

  ghost predicate HasTexts(m: map<string, Json>, key: string, texts: seq<string>) {
    && key in m && m[key].Array? && |m[key].items| == |texts|
    && forall i :: 0 <= i < |texts| ==> m[key].items[i] == Str(texts[i])
  }

  /** The JSON content of a request, key by key. */
  ghost predicate IsRequestDict(m: map<string, Json>, f: Frame)
    requires f.RequestFrame?
  {
    && HasHeader(m, f.header)
    && Holds(m, "method", Some(Str(f.requestMethod)))
    && Holds(m, "model", Some(Str(f.model)))
    && Holds(m, "messages", Some(Array(f.messages)))
    && Holds(m, "qos_class", Some(Str(f.qosClass)))
    && HasTexts(m, "capabilities", f.capabilities)
    && Holds(m, "client_id", Some(if f.clientId.Some? then Str(f.clientId.value) else Null))
    && Holds(m, "nonce", Some(if f.nonce.Some? then Str(f.nonce.value) else Null))
    && forall key :: key in m ==> IsRequestKey(key)
  }

  /** The JSON content of a response, key by key. */
  ghost predicate IsResponseDict(m: map<string, Json>, f: Frame)
    requires f.ResponseFrame?
  {
    && HasHeader(m, f.header)
    && Holds(m, "request_id", Some(Str(f.requestId)))
    && Holds(m, "status", Some(Int(f.status)))
    && Holds(m, "body", Some(Object(f.body)))
    && Holds(m, "receipt", Some(if f.receipt.Some? then Object(f.receipt.value) else Null))
    && forall key :: key in m ==> IsResponseKey(key)
  }

  lemma ValueUnder(d: Record, i: nat, f: Field, key: string, v: Json)
    requires i < |d| && d[i] == Entry(f, v) && Name(f) == key
    ensures Holds(Content(Spelled(d)), key, Some(v))
  {
    hide Content, Spelled, Holds, Name;
    SpelledValue(d, i);
  }

  lemma HeaderValues(h: FrameHeader)
    ensures var m := Content(Spelled(HeaderEntries(h)));
            && Holds(m, "version", Some(Str(h.version)))
            && Holds(m, "frame_type", Some(Int(TypeNumber(h.frameType))))
            && Holds(m, "stream_id", Some(Int(h.streamId)))
            && Holds(m, "flags", Some(Int(h.flags)))
            && Holds(m, "length", Some(Int(h.length)))
  {
    hide Content, Spelled, Holds, TypeNumber;
    var d := HeaderEntries(h);
    ValueUnder(d, 0, Version, "version", Str(h.version));
    ValueUnder(d, 1, TypeCode, "frame_type", Int(TypeNumber(h.frameType)));
    ValueUnder(d, 2, StreamId, "stream_id", Int(h.streamId));
    ValueUnder(d, 3, Flags, "flags", Int(h.flags));
    ValueUnder(d, 4, Length, "length", Int(h.length));
  }

  lemma HeaderByKey(h: FrameHeader)
    ensures DistinctKeys(Spelled(HeaderEntries(h))) && IsHeaderDict(Content(Spelled(HeaderEntries(h))), h)
  {
    hide Content, Spelled, Holds, IsHeaderKey, HeaderEntries;
    var d := HeaderEntries(h);
    SpelledContent(d);
    HeaderValues(h);
    forall key | key in Content(Spelled(d)) ensures IsHeaderKey(key) {
      var i := EntryOfKey(d, key);
      HeaderKeyKnown(h, i);
    }
  }

  lemma HeaderKeyKnown(h: FrameHeader, i: nat)
    ensures i < |HeaderEntries(h)| ==> IsHeaderKey(Name(HeaderEntries(h)[i].field))
  {
  }

  lemma RequestKeyKnown(f: Frame, i: nat)
    ensures f.RequestFrame? && i < |RequestEntries(f)| ==> IsRequestKey(Name(RequestEntries(f)[i].field))
  {
  }

  lemma ResponseKeyKnown(f: Frame, i: nat)
    ensures f.ResponseFrame? && i < |ResponseEntries(f)| ==> IsResponseKey(Name(ResponseEntries(f)[i].field))
  {
  }

  lemma HeaderUnderKey(m: map<string, Json>, h: FrameHeader)
    ensures Holds(m, "header", Some(Object(Spelled(HeaderEntries(h))))) ==> HasHeader(m, h)
  {
    hide IsHeaderDict, HeaderEntries;
    if Holds(m, "header", Some(Object(Spelled(HeaderEntries(h))))) {
      HeaderByKey(h);
    }
  }

  lemma RequestValues(f: Frame)
    requires f.RequestFrame?
    ensures var m := Content(Spelled(RequestEntries(f)));
            && Holds(m, "header", Some(Object(Spelled(HeaderEntries(f.header)))))
            && Holds(m, "method", Some(Str(f.requestMethod)))
            && Holds(m, "model", Some(Str(f.model)))
            && Holds(m, "messages", Some(Array(f.messages)))
            && Holds(m, "qos_class", Some(Str(f.qosClass)))
            && Holds(m, "capabilities", Some(Array(StrItems(f.capabilities))))
            && Holds(m, "client_id", Some(OptionalStr(f.clientId)))
            && Holds(m, "nonce", Some(OptionalStr(f.nonce)))
  {
    hide Content, Spelled, Holds, HeaderEntries, OptionalStr, StrItems;
    var d := RequestEntries(f);
    ValueUnder(d, 0, Header, "header", Object(Spelled(HeaderEntries(f.header))));
    ValueUnder(d, 1, Method, "method", Str(f.requestMethod));
    ValueUnder(d, 2, Model, "model", Str(f.model));
    ValueUnder(d, 3, Messages, "messages", Array(f.messages));
    ValueUnder(d, 4, QosClass, "qos_class", Str(f.qosClass));
    ValueUnder(d, 5, Capabilities, "capabilities", Array(StrItems(f.capabilities)));
    ValueUnder(d, 6, ClientId, "client_id", OptionalStr(f.clientId));
    ValueUnder(d, 7, Nonce, "nonce", OptionalStr(f.nonce));
  }

  lemma ResponseValues(f: Frame)
    requires f.ResponseFrame?
    ensures var m := Content(Spelled(ResponseEntries(f)));
            && Holds(m, "header", Some(Object(Spelled(HeaderEntries(f.header)))))
            && Holds(m, "request_id", Some(Str(f.requestId)))
            && Holds(m, "status", Some(Int(f.status)))
            && Holds(m, "body", Some(Object(f.body)))
            && Holds(m, "receipt", Some(OptionalObject(f.receipt)))
  {
    hide Content, Spelled, Holds, HeaderEntries, OptionalObject;
    var d := ResponseEntries(f);
    ValueUnder(d, 0, Header, "header", Object(Spelled(HeaderEntries(f.header))));
    ValueUnder(d, 1, RequestId, "request_id", Str(f.requestId));
    ValueUnder(d, 2, Status, "status", Int(f.status));
    ValueUnder(d, 3, Body, "body", Object(f.body));
    ValueUnder(d, 4, AttachedReceipt, "receipt", OptionalObject(f.receipt));
  }

  lemma TextsUnderKey(m: map<string, Json>, key: string, texts: seq<string>)
    ensures Holds(m, key, Some(Array(StrItems(texts)))) ==> HasTexts(m, key, texts)
  {
  }

  /** What a request is as JSON: its fields under their keys, and no other keys. */
  lemma RequestByKey(f: Frame)
    requires f.RequestFrame?
    ensures ToJson(f).Object? && DistinctKeys(ToJson(f).members)
    ensures IsRequestDict(Content(ToJson(f).members), f)
  {
    hide Content, Spelled, Holds, HasHeader, HasTexts, IsRequestKey, HeaderEntries, RequestEntries;
    var d := RequestEntries(f);
    SpelledContent(d);
    RequestValues(f);
    HeaderUnderKey(Content(Spelled(d)), f.header);
    TextsUnderKey(Content(Spelled(d)), "capabilities", f.capabilities);
    forall key | key in Content(Spelled(d)) ensures IsRequestKey(key) {
      var i := EntryOfKey(d, key);
      RequestKeyKnown(f, i);
    }
  }

  /** What a response is as JSON: its fields under their keys, and no other keys. */
  lemma ResponseByKey(f: Frame)
    requires f.ResponseFrame?
    ensures ToJson(f).Object? && DistinctKeys(ToJson(f).members)
    ensures IsResponseDict(Content(ToJson(f).members), f)
  {
    hide Content, Spelled, Holds, HasHeader, IsResponseKey, HeaderEntries, ResponseEntries;
    var d := ResponseEntries(f);
    SpelledContent(d);
    ResponseValues(f);
    HeaderUnderKey(Content(Spelled(d)), f.header);
    forall key | key in Content(Spelled(d)) ensures IsResponseKey(key) {
      var i := EntryOfKey(d, key);
      ResponseKeyKnown(f, i);
    }
  }

  /**
   The bytes of a frame: four for the length of the canonical text, the most significant first, and
   then the character codes of the text. It is refused exactly when the length does not fit.
   */
  lemma FrameLayout(f: Frame)
    requires WellFormedFrame(f)
    ensures var text := CanonicalText(ToJson(f));
            match EncodeFrame(f)
            case Success(raw) =>
              && |raw| == 4 + |text|
              && BaseValue(raw[..4]) == |text|
              && forall i :: 0 <= i < |text| ==> raw[4 + i] as int == text[i] as int
            case Failure(e) => |text| >= 0x1_0000_0000 && e == BodyTooLong
  {
    var text := CanonicalText(ToJson(f));
    ToJsonWellFormed(f);
    CanonicalBytesAreTheText(ToJson(f));
    if |text| < 0x1_0000_0000 {
      BigEndianUnique(|text|, BigEndian(|text|));
      assert (BigEndian(|text|) + BodyBytes(f))[..4] == BigEndian(|text|);
    }
  }

  // ----- values of other types, and unknown frame types

  lemma CharactersAreTexts(s: string)
    ensures AsList(Str(s)).Success? && AsTexts(AsList(Str(s)).value).Success?
    ensures AsTexts(AsList(Str(s)).value).value == seq(|s|, i requires 0 <= i < |s| => [s[i]])
  {
  }

  /**
   Capabilities that Python counts as false are none at all; a text gives its characters; any other
   value that is not a list or an object cannot be listed.
   */
  lemma LooseCapabilities(get: Reader, v: Json)
    requires get(Capabilities) == Some(v)
    ensures v in {Null, Bool(false), Int(0), Str(""), Array([]), Object([])} ==> ReadCapabilities(get) == Success([])
    ensures v.Str? ==> ReadCapabilities(get) == Success(seq(|v.s|, i requires 0 <= i < |v.s| => [v.s[i]]))
    ensures v == Bool(true) || (v.Int? && v.n != 0) || v.Real? ==> ReadCapabilities(get) == Failure(IllTyped)
  {
    TextsComeBack([]);
    assert StrItems([]) == [];
    if v.Str? {
      CharactersAreTexts(v.s);
      assert v.s == "" ==> seq(|v.s|, i requires 0 <= i < |v.s| => [v.s[i]]) == [];
    }
  }

  /** Null is no list of messages, but it is an empty body and no receipt. */
  lemma NullValues(get: Reader)
    ensures get(Messages) == Some(Null) ==> ReadMessages(get) == Failure(IllTyped)
    ensures get(Body) == Some(Null) ==> ReadBody(get) == Success([])
    ensures get(AttachedReceipt) == Some(Null) ==> ReadReceipt(get) == Success(None)
  {
  }

  lemma KeysAreTexts(members: seq<Member>)
    ensures AsList(Object(members)).Success? && AsTexts(AsList(Object(members)).value).Success?
    ensures AsTexts(AsList(Object(members)).value).value ==
            seq(|members|, i requires 0 <= i < |members| => members[i].key)
  {
  }

  /** Python lists a text as its characters and an object as its keys. */
  lemma ListedValues(get: Reader, s: string, members: seq<Member>)
    ensures get(Messages) == Some(Str(s)) ==>
              ReadMessages(get) == Success(seq(|s|, i requires 0 <= i < |s| => Str([s[i]])))
    ensures get(Messages) == Some(Object(members)) ==>
              ReadMessages(get) == Success(seq(|members|, i requires 0 <= i < |members| => Str(members[i].key)))
    ensures get(Capabilities) == Some(Object(members)) ==>
              ReadCapabilities(get) == Success(seq(|members|, i requires 0 <= i < |members| => members[i].key))
  {
    KeysAreTexts(members);
    if members == [] {
      TextsComeBack([]);
      assert StrItems([]) == [];
      assert seq(|members|, i requires 0 <= i < |members| => members[i].key) == [];
    }
  }

  /** Python's int() takes true for one and false for zero. */
  lemma BooleanNumbers(get: Reader, f: Field)
    ensures get(f) == Some(Bool(true)) ==> NeedInt(get, f) == Success(1)
    ensures get(f) == Some(Bool(false)) ==> NeedInt(get, f) == Success(0)
  {
  }

  /** A frame type outside one to six is refused. */
  lemma UnknownFrameType(get: Reader, n: int)
    ensures get(Version).Some? && get(Version).value.Str? && get(TypeCode) == Some(Int(n)) && !(1 <= n <= 6) ==>
              ReadHeader(get) == Failure(BadFrameType)
  {
  }

  // ----- missing keys

  function MinimalHeader(h: FrameHeader): Record {
    [
      Entry(Version, Str(h.version)),
      Entry(TypeCode, Int(TypeNumber(h.frameType))),
      Entry(StreamId, Int(h.streamId))
    ]
  }

  /** A request with none of its optional keys. */
  function MinimalRequest(h: FrameHeader, requestMethod: string, model: string): Record {
    [
      Entry(Header, Object(Spelled(MinimalHeader(h)))),
      Entry(Method, Str(requestMethod)),
      Entry(Model, Str(model))
    ]
  }

  /** A response with none of its optional keys. */
  function MinimalResponse(h: FrameHeader, requestId: string, status: int): Record {
    [
      Entry(Header, Object(Spelled(MinimalHeader(h)))),
      Entry(RequestId, Str(requestId)),
      Entry(Status, Int(status))
    ]
  }

  /** A header without flags and length. */
  function Plain(h: FrameHeader): FrameHeader {
    h.(flags := 0, length := 0)
  }

  /** Reading a dict of three fields: those fields and nothing else. */
  lemma ThreeFields(d: Record, f: Field)
    requires |d| == 3
    ensures Get(SortMembers(Spelled(d)), f) ==
            if f == d[0].field then Some(SortKeys(d[0].value))
            else if f == d[1].field then Some(SortKeys(d[1].value))
            else if f == d[2].field then Some(SortKeys(d[2].value))
            else None
  {
    hide Get, SortMembers, SortKeys, Spelled;
    GetEntry(d, 0);
    GetEntry(d, 1);
    GetEntry(d, 2);
    if forall i :: 0 <= i < |d| ==> d[i].field != f {
      GetAbsent(d, f);
    }
  }

  lemma MinimalHeaderFields(h: FrameHeader) returns (m: seq<Member>)
    ensures m == SortMembers(Spelled(MinimalHeader(h)))
    ensures Get(m, Version) == Some(Str(h.version))
    ensures Get(m, TypeCode) == Some(Int(TypeNumber(h.frameType)))
    ensures Get(m, StreamId) == Some(Int(h.streamId))
    ensures Get(m, Flags) == None && Get(m, Length) == None
  {
    hide Get, SortMembers, Spelled;
    var d := MinimalHeader(h);
    m := SortMembers(Spelled(d));
    ThreeFields(d, Version);
    ThreeFields(d, TypeCode);
    ThreeFields(d, StreamId);
    ThreeFields(d, Flags);
    ThreeFields(d, Length);
  }

  lemma HeaderDefaults(get: Reader, h: FrameHeader)
    requires get(Version) == Some(Str(h.version)) && get(TypeCode) == Some(Int(TypeNumber(h.frameType)))
    requires get(StreamId) == Some(Int(h.streamId)) && get(Flags) == None && get(Length) == None
    ensures ReadHeader(get) == Success(Plain(h))
  {
  }

  lemma MinimalHeaderComesBack(h: FrameHeader)
    ensures HeaderFromJson(SortKeys(Object(Spelled(MinimalHeader(h))))) == Success(Plain(h))
  {
    hide Get, ReadHeader;
    var m := MinimalHeaderFields(h);
    HeaderDefaults(ReaderOf(m), h);
  }

  lemma MinimalHeaderWellFormed(h: FrameHeader)
    ensures WellFormed(Object(Spelled(MinimalHeader(h))))
  {
    var d := MinimalHeader(h);
    forall i | 0 <= i < |d| ensures WellFormed(d[i].value) {
    }
    SpelledWellFormed(d);
  }

  lemma MissingLists(get: Reader)
    requires get(Messages) == None && get(Capabilities) == None
    ensures ReadMessages(get) == Success([])
    ensures ReadCapabilities(get) == Success([])
  {
    TextsComeBack([]);
    assert StrItems([]) == [];
  }

  lemma RequestDefaults(get: Reader, headerValue: Json, header: FrameHeader, requestMethod: string, model: string)
    requires get(Header) == Some(headerValue) && HeaderFromJson(headerValue) == Success(header)
    requires get(Method) == Some(Str(requestMethod)) && get(Model) == Some(Str(model))
    requires get(Messages) == None && get(QosClass) == None && get(Capabilities) == None
    requires get(ClientId) == None && get(Nonce) == None
    ensures ReadRequest(get) == Success(RequestFrame(header, requestMethod, model, [], "standard", [], None, None))
  {
    MissingLists(get);
  }

  lemma ResponseDefaults(get: Reader, headerValue: Json, header: FrameHeader, requestId: string, status: int)
    requires get(Header) == Some(headerValue) && HeaderFromJson(headerValue) == Success(header)
    requires get(RequestId) == Some(Str(requestId)) && get(Status) == Some(Int(status))
    requires get(Body) == None && get(AttachedReceipt) == None
    ensures ReadResponse(get) == Success(ResponseFrame(header, requestId, status, [], None))
  {
  }

  lemma MinimalRequestFields(h: FrameHeader, requestMethod: string, model: string) returns (m: seq<Member>)
    ensures m == SortMembers(Spelled(MinimalRequest(h, requestMethod, model)))
    ensures Get(m, Header) == Some(SortKeys(Object(Spelled(MinimalHeader(h)))))
    ensures Get(m, Method) == Some(Str(requestMethod)) && Get(m, Model) == Some(Str(model))
    ensures Get(m, Messages) == None && Get(m, QosClass) == None && Get(m, Capabilities) == None
    ensures Get(m, ClientId) == None && Get(m, Nonce) == None
  {
    hide Get, SortMembers, Spelled, MinimalHeader;
    var d := MinimalRequest(h, requestMethod, model);
    m := SortMembers(Spelled(d));
    ThreeFields(d, Header);
    ThreeFields(d, Method);
    ThreeFields(d, Model);
    ThreeFields(d, Messages);
    ThreeFields(d, QosClass);
    ThreeFields(d, Capabilities);
    ThreeFields(d, ClientId);
    ThreeFields(d, Nonce);
  }

  lemma MinimalResponseFields(h: FrameHeader, requestId: string, status: int) returns (m: seq<Member>)
    ensures m == SortMembers(Spelled(MinimalResponse(h, requestId, status)))
    ensures Get(m, Header) == Some(SortKeys(Object(Spelled(MinimalHeader(h)))))
    ensures Get(m, RequestId) == Some(Str(requestId)) && Get(m, Status) == Some(Int(status))
    ensures Get(m, Body) == None && Get(m, AttachedReceipt) == None
  {
    hide Get, SortMembers, Spelled, MinimalHeader;
    var d := MinimalResponse(h, requestId, status);
    m := SortMembers(Spelled(d));
    ThreeFields(d, Header);
    ThreeFields(d, RequestId);
    ThreeFields(d, Status);
    ThreeFields(d, Body);
    ThreeFields(d, AttachedReceipt);
  }

  lemma MinimalRequestReads(h: FrameHeader, requestMethod: string, model: string)
    ensures ReadRequest(ReaderOf(SortMembers(Spelled(MinimalRequest(h, requestMethod, model))))) ==
            Success(RequestFrame(Plain(h), requestMethod, model, [], "standard", [], None, None))
  {
    hide Get, ReadRequest, HeaderFromJson, MinimalRequest, MinimalHeader, SortMembers, SortKeys;
    var m := MinimalRequestFields(h, requestMethod, model);
    MinimalHeaderComesBack(h);
    RequestDefaults(
      ReaderOf(m), SortKeys(Object(Spelled(MinimalHeader(h)))), Plain(h), requestMethod, model);
  }

  lemma MinimalResponseReads(h: FrameHeader, requestId: string, status: int)
    ensures ReadResponse(ReaderOf(SortMembers(Spelled(MinimalResponse(h, requestId, status))))) ==
            Success(ResponseFrame(Plain(h), requestId, status, [], None))
  {
    hide Get, ReadResponse, HeaderFromJson, MinimalResponse, MinimalHeader, SortMembers, SortKeys;
    var m := MinimalResponseFields(h, requestId, status);
    MinimalHeaderComesBack(h);
    ResponseDefaults(
      ReaderOf(m), SortKeys(Object(Spelled(MinimalHeader(h)))), Plain(h), requestId, status);
  }

  lemma MinimalWellFormed(d: Record, h: FrameHeader)
    ensures d != [] && d[0].value == Object(Spelled(MinimalHeader(h))) &&
            (forall i :: 1 <= i < |d| ==> d[i].value.Str? || d[i].value.Int?) ==>
              WellFormed(Object(Spelled(d)))
  {
    if d != [] && d[0].value == Object(Spelled(MinimalHeader(h))) &&
       (forall i :: 1 <= i < |d| ==> d[i].value.Str? || d[i].value.Int?) {
      MinimalHeaderWellFormed(h);
      SpelledWellFormed(d);
    }
  }

  /**
   A framed request with only the header, the method and the model, and a header without flags and
   length, decodes with the defaults for all the rest.
   */
  lemma DecodeOfMinimalRequest(h: FrameHeader, requestMethod: string, model: string, tail: Bytes)
    ensures match Framed(MinimalRequest(h, requestMethod, model))
            case Some(raw) =>
              DecodeFrame(raw + tail, RequestKind) ==
              Success(RequestFrame(Plain(h), requestMethod, model, [], "standard", [], None, None))
            case None => true
  {
    hide DecodeFrame, ReadRequest, ReadResponse, SortMembers, WellFormed, MinimalHeader, Spelled;
    var d := MinimalRequest(h, requestMethod, model);
    if Framed(d).Some? {
      MinimalWellFormed(d, h);
      DecodeFramed(d, tail, RequestKind);
      MinimalRequestReads(h, requestMethod, model);
    }
  }

  /** A framed response with only the header, the request id and the status decodes with the defaults. */
  lemma DecodeOfMinimalResponse(h: FrameHeader, requestId: string, status: int, tail: Bytes)
    ensures match Framed(MinimalResponse(h, requestId, status))
            case Some(raw) =>
              DecodeFrame(raw + tail, ResponseKind) == Success(ResponseFrame(Plain(h), requestId, status, [], None))
            case None => true
  {
    hide DecodeFrame, ReadRequest, ReadResponse, SortMembers, WellFormed, MinimalHeader, Spelled;
    var d := MinimalResponse(h, requestId, status);
    if Framed(d).Some? {
      MinimalWellFormed(d, h);
      DecodeFramed(d, tail, ResponseKind);
      MinimalResponseReads(h, requestId, status);
    }
  }
}
