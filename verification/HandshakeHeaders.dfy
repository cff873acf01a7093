/** The handshake request as HTTP headers: comma-separated lists under four names. */
module HandshakeHeaders {
  import opened Common
  import opened Text
  import opened Handshake

  type Headers = map<string, string>

  const VERSION_HEADER := "X-IRP-Version"
  const VERSIONS_HEADER := "X-IRP-Versions-Supported"
  const CAPABILITIES_HEADER := "X-IRP-Capabilities"
  const CLIENT_ID_HEADER := "X-IRP-Client-Id"

  datatype HeaderError = MissingHeaders(names: seq<string>)

  lemma HeaderNamesDistinct()
    ensures VERSION_HEADER != VERSIONS_HEADER && VERSION_HEADER != CAPABILITIES_HEADER
    ensures VERSION_HEADER != CLIENT_ID_HEADER
    ensures VERSIONS_HEADER != CAPABILITIES_HEADER && VERSIONS_HEADER != CLIENT_ID_HEADER
    ensures CAPABILITIES_HEADER != CLIENT_ID_HEADER
  {
    assert |VERSION_HEADER| == 13 && |VERSIONS_HEADER| == 24 && |CAPABILITIES_HEADER| == 18 && |CLIENT_ID_HEADER| == 15;
  }

  // ----- lists

  function StrippedItem(part: string): seq<string> {
    if Strip(part) != "" then [Strip(part)] else []
  }

  function StrippedItems(parts: seq<string>): seq<string> {
    if parts == [] then [] else StrippedItem(parts[0]) + StrippedItems(parts[1..])
  }

  /** Splits at commas, trims, and drops empty items. */
  function SplitCsv(value: string): seq<string> {
    if value == "" then [] else StrippedItems(SplitOn(value, ','))
  }

  /** Trimmed, not empty, and without a comma. */
  predicate IsClean(item: string) {
    item != "" && Strip(item) == item && Without(item, ',')
  }

  predicate AllClean(items: seq<string>) {
    forall i :: 0 <= i < |items| ==> IsClean(items[i])
  }

  lemma {:induction false} StrippedItemsClean(parts: seq<string>)
    requires forall i :: 0 <= i < |parts| ==> Without(parts[i], ',')
    ensures AllClean(StrippedItems(parts))
  {
    if parts != [] {
      StrippedItemsClean(parts[1..]);
      StripTrimmed(Strip(parts[0]));
    }
  }

  lemma {:induction false} StrippedItemsOfClean(items: seq<string>)
    requires AllClean(items)
    ensures StrippedItems(items) == items
  {
    if items != [] {
      StrippedItemsOfClean(items[1..]);
      assert items == [items[0]] + items[1..];
    }
  }

  lemma SplitCsvClean(value: string)
    ensures AllClean(SplitCsv(value))
  {
    StrippedItemsClean(SplitOn(value, ','));
  }

  /** A list survives joining and splitting exactly when its items are clean. */
  lemma SplitCsvOfJoin(items: seq<string>)
    ensures SplitCsv(JoinWith(items, ',')) == items <==> AllClean(items)
  {
    SplitCsvClean(JoinWith(items, ','));
    if AllClean(items) && items != [] {
      SplitOfJoin(items, ',');
      StrippedItemsOfClean(items);
      assert items[0] != "";
      assert JoinWith(items, ',') != "";
    }
  }

  // ----- lists as others write them

  lemma {:induction false} StrippedOfConcat(a: seq<string>, b: seq<string>)
    ensures StrippedItems(a + b) == StrippedItems(a) + StrippedItems(b)
  {
    hide StrippedItem;
    if a == [] {
      assert a + b == b;
    } else {
      StrippedOfConcat(a[1..], b);
      assert (a + b)[1..] == a[1..] + b && (a + b)[0] == a[0];
    }
  }

  lemma SplitCsvOfParts(parts: seq<string>)
    requires parts != [] && forall i :: 0 <= i < |parts| ==> Without(parts[i], ',')
    ensures SplitCsv(JoinWith(parts, ',')) == StrippedItems(parts)
  {
    SplitOfJoin(parts, ',');
    if JoinWith(parts, ',') == "" {
      assert SplitOn("", ',') == [""];
      assert Strip("") == "";
    }
  }

  lemma BlankIsCommaFree(blank: string)
    requires AllWhitespace(blank)
    ensures Without(blank, ',') && Strip(blank) == ""
  {
    StripPadded(blank, "", "");
    assert blank + "" + "" == blank;
  }

  lemma PaddedItem(left: string, item: string, right: string)
    requires IsClean(item) && AllWhitespace(left) && AllWhitespace(right)
    ensures StrippedItem(left + item + right) == [item] && Without(left + item + right, ',')
  {
    StripPadded(left, item, right);
    BlankIsCommaFree(left);
    BlankIsCommaFree(right);
  }

  /** Items may be padded with whitespace on either side. */
  lemma {:induction false} PaddedItems(lefts: seq<string>, items: seq<string>, rights: seq<string>, parts: seq<string>)
    requires |lefts| == |items| == |rights| == |parts| && AllClean(items)
    requires forall i :: 0 <= i < |items| ==> AllWhitespace(lefts[i]) && AllWhitespace(rights[i])
    requires forall i :: 0 <= i < |items| ==> parts[i] == lefts[i] + items[i] + rights[i]
    ensures StrippedItems(parts) == items
    ensures forall i :: 0 <= i < |parts| ==> Without(parts[i], ',')
  {
    hide StrippedItem, Without, IsClean, AllWhitespace;
    if items != [] {
      PaddedItem(lefts[0], items[0], rights[0]);
      PaddedItems(lefts[1..], items[1..], rights[1..], parts[1..]);
      assert items == [items[0]] + items[1..];
      forall i | 0 <= i < |parts| ensures Without(parts[i], ',') {
        assert i > 0 ==> parts[i] == parts[1..][i - 1];
      }
    }
  }

  /** A list written with whitespace around its items reads as the items. */
  lemma SplitCsvOfPadded(lefts: seq<string>, items: seq<string>, rights: seq<string>, parts: seq<string>)
    requires |lefts| == |items| == |rights| == |parts| && AllClean(items)
    requires forall i :: 0 <= i < |items| ==> AllWhitespace(lefts[i]) && AllWhitespace(rights[i])
    requires forall i :: 0 <= i < |items| ==> parts[i] == lefts[i] + items[i] + rights[i]
    ensures SplitCsv(JoinWith(parts, ',')) == items
  {
    PaddedItems(lefts, items, rights, parts);
    if items != [] {
      SplitCsvOfParts(parts);
    }
  }

  /** A blank item is dropped, wherever it stands among others. */
  lemma BlankItemDropped(a: seq<string>, blank: string, b: seq<string>)
    requires AllWhitespace(blank) && a + b != []
    requires forall part :: part in a || part in b ==> Without(part, ',')
    ensures SplitCsv(JoinWith(a + [blank] + b, ',')) == SplitCsv(JoinWith(a + b, ','))
  {
    BlankIsCommaFree(blank);
    SplitCsvOfParts(a + [blank] + b);
    SplitCsvOfParts(a + b);
    assert StrippedItems([blank]) == [];
    hide SplitCsv, StrippedItems, Strip;
    StrippedOfConcat(a + [blank], b);
    StrippedOfConcat(a, [blank]);
    StrippedOfConcat(a, b);
  }

  // ----- headers

  function HeadersOf(r: HandshakeRequest): Headers {
    map[
      VERSION_HEADER := r.clientVersion,
      VERSIONS_HEADER := JoinWith(r.supportedVersions, ','),
      CAPABILITIES_HEADER := JoinWith(r.desiredCapabilities, ',')
    ] + if r.clientId.Some? then map[CLIENT_ID_HEADER := r.clientId.value] else map[]
  }

  method EncodeHeaders(r: HandshakeRequest) returns (headers: Headers)
    ensures headers == HeadersOf(r)
    ensures "X-IRP-Version" in headers && headers["X-IRP-Version"] == r.clientVersion
    ensures "X-IRP-Versions-Supported" in headers
    ensures headers["X-IRP-Versions-Supported"] == JoinWith(r.supportedVersions, ',')
    ensures "X-IRP-Capabilities" in headers && headers["X-IRP-Capabilities"] == JoinWith(r.desiredCapabilities, ',')
    ensures "X-IRP-Client-Id" in headers <==> r.clientId.Some?
    ensures r.clientId.Some? ==> headers["X-IRP-Client-Id"] == r.clientId.value
  {
    HeaderNamesDistinct();
    headers := map[
      VERSION_HEADER := r.clientVersion,
      VERSIONS_HEADER := JoinWith(r.supportedVersions, ','),
      CAPABILITIES_HEADER := JoinWith(r.desiredCapabilities, ',')
    ];
    if r.clientId.Some? {
      headers := headers[CLIENT_ID_HEADER := r.clientId.value];
    }
  }

  function MissingIn(headers: Headers): seq<string> {
    (if VERSION_HEADER in headers then [] else [VERSION_HEADER])
    + (if VERSIONS_HEADER in headers then [] else [VERSIONS_HEADER])
    + (if CAPABILITIES_HEADER in headers then [] else [CAPABILITIES_HEADER])
  }

  function DecodeHeaders(headers: Headers): (r: Result<HandshakeRequest, HeaderError>)
    ensures r.Success? <==>
              && "X-IRP-Version" in headers && "X-IRP-Versions-Supported" in headers
              && "X-IRP-Capabilities" in headers
    ensures match r
            case Success(q) =>
              && q.clientVersion == headers["X-IRP-Version"]
              && q.supportedVersions == SplitCsv(headers["X-IRP-Versions-Supported"])
              && q.desiredCapabilities == SplitCsv(headers["X-IRP-Capabilities"])
              && (q.clientId.None? <==> "X-IRP-Client-Id" !in headers)
              && (q.clientId.Some? ==> q.clientId.value == headers["X-IRP-Client-Id"])
            case Failure(MissingHeaders(names)) =>
              forall name :: name in names <==>
                name in ["X-IRP-Version", "X-IRP-Versions-Supported", "X-IRP-Capabilities"] && name !in headers
  {
    if MissingIn(headers) != [] then
      Failure(MissingHeaders(MissingIn(headers)))
    else
      Success(HandshakeRequest(
        headers[VERSION_HEADER],
        SplitCsv(headers[VERSIONS_HEADER]),
        SplitCsv(headers[CAPABILITIES_HEADER]),
        if CLIENT_ID_HEADER in headers then Some(headers[CLIENT_ID_HEADER]) else None
      ))
  }

  lemma DecodeOfHeaders(r: HandshakeRequest)
    ensures DecodeHeaders(HeadersOf(r)) == Success(r.(
              supportedVersions := SplitCsv(JoinWith(r.supportedVersions, ',')),
              desiredCapabilities := SplitCsv(JoinWith(r.desiredCapabilities, ','))
            ))
  {
    HeaderNamesDistinct();
  }

  /** A request survives the headers exactly when every listed version and capability is clean. */
  lemma RequestRoundTrip(r: HandshakeRequest)
    ensures DecodeHeaders(HeadersOf(r)) == Success(r) <==>
              AllClean(r.supportedVersions) && AllClean(r.desiredCapabilities)
  {
    DecodeOfHeaders(r);
    SplitCsvOfJoin(r.supportedVersions);
    SplitCsvOfJoin(r.desiredCapabilities);
  }

  /** Decoding any headers gives a request that survives being encoded and decoded again. */
  lemma DecodedRequestIsStable(headers: Headers)
    requires DecodeHeaders(headers).Success?
    ensures DecodeHeaders(HeadersOf(DecodeHeaders(headers).value)) == DecodeHeaders(headers)
  {
    SplitCsvClean(headers[VERSIONS_HEADER]);
    SplitCsvClean(headers[CAPABILITIES_HEADER]);
    RequestRoundTrip(DecodeHeaders(headers).value);
  }
}
