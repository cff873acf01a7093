/** Protocol versions: text form, parsing, order, and the negotiation on parsed versions. */
module Version {
  import opened Common
  import opened Decimal
  import opened Text

  datatype ProtocolVersion = ProtocolVersion(major: nat, minor: nat, patch: nat)

  datatype VersionError = Empty | WrongShape | LeadingZeros | NotNumeric

  // ----- text

  function VersionText(v: ProtocolVersion): string {
    JoinWith([NatText(v.major), NatText(v.minor), NatText(v.patch)], '.')
  }

  /** Python's int() on ASCII digits. */
  function ParseNat(s: string): Option<nat> {
    if s != "" && AllDigits(s) then Some(NatValue(s)) else None
  }

  predicate HasLeadingZero(s: string) {
    |s| > 1 && s[0] == '0'
  }

  function ParseParts(parts: seq<string>): Result<ProtocolVersion, VersionError>
    requires |parts| == 3
  {
    match (ParseNat(parts[0]), ParseNat(parts[1]), ParseNat(parts[2]))
    case (Some(major), Some(minor), Some(patch)) => Success(ProtocolVersion(major, minor, patch))
    case _ => Failure(NotNumeric)
  }

  function Parse(s: string): Result<ProtocolVersion, VersionError> {
    var parts := SplitOn(s, '.');
    if s == "" then Failure(Empty)
    else if |parts| != 3 then Failure(WrongShape)
    else if exists i :: 0 <= i < |parts| && HasLeadingZero(parts[i]) then Failure(LeadingZeros)
    else ParseParts(parts)
  }

  /** The comparison key of the handshake: as `Parse`, but leading zeros are let through. */
  function VersionTuple(s: string): Result<ProtocolVersion, VersionError> {
    var parts := SplitOn(s, '.');
    if s == "" then Failure(Empty) else if |parts| != 3 then Failure(WrongShape) else ParseParts(parts)
  }

  /** The three numbers in decimal, between dots. */
  lemma VersionTextIsDotted(v: ProtocolVersion)
    ensures VersionText(v) == NatText(v.major) + "." + NatText(v.minor) + "." + NatText(v.patch)
  {
    var parts := [NatText(v.major), NatText(v.minor), NatText(v.patch)];
    assert parts == [parts[0]] + ([parts[1]] + [parts[2]]);
    JoinOfConcat([parts[0]], [parts[1]] + [parts[2]], '.');
    JoinOfConcat([parts[1]], [parts[2]], '.');
    JoinOfConcat([parts[2]], [], '.');
  }

  lemma DigitsHoldNoDot(s: string)
    requires AllDigits(s)
    ensures Without(s, '.')
  {
  }

  lemma SplitOfVersionText(v: ProtocolVersion)
    ensures SplitOn(VersionText(v), '.') == [NatText(v.major), NatText(v.minor), NatText(v.patch)]
  {
    DigitsHoldNoDot(NatText(v.major));
    DigitsHoldNoDot(NatText(v.minor));
    DigitsHoldNoDot(NatText(v.patch));
    SplitOfJoin([NatText(v.major), NatText(v.minor), NatText(v.patch)], '.');
  }

  /** Printed versions parse back, by either reader. */
  lemma ParseOfText(v: ProtocolVersion)
    ensures Parse(VersionText(v)) == Success(v)
    ensures VersionTuple(VersionText(v)) == Success(v)
  {
    SplitOfVersionText(v);
    ValueOfNatText(v.major);
    ValueOfNatText(v.minor);
    ValueOfNatText(v.patch);
    assert VersionText(v) != "" by {
      assert SplitOn("", '.') == [""];
    }
  }

  /** Whatever parses is reproduced by printing: parsing accepts exactly the printed versions. */
  lemma TextOfParse(s: string)
    requires Parse(s).Success?
    ensures VersionText(Parse(s).value) == s
  {
    var parts := SplitOn(s, '.');
    JoinOfSplit(s, '.');
    NatTextOfValue(parts[0]);
    NatTextOfValue(parts[1]);
    NatTextOfValue(parts[2]);
    assert parts == [parts[0], parts[1], parts[2]];
  }

  lemma VersionTextInjective(v: ProtocolVersion, w: ProtocolVersion)
    ensures VersionText(v) == VersionText(w) <==> v == w
  {
    ParseOfText(v);
    ParseOfText(w);
  }

  lemma LeadingZerosDecide(s: string)
    ensures Parse(s).Success? <==>
              VersionTuple(s).Success? && forall i :: 0 <= i < |SplitOn(s, '.')| ==> !HasLeadingZero(SplitOn(s, '.')[i])
    ensures VersionTuple(s).Success? ==> Parse(s) == VersionTuple(s) || Parse(s) == Failure(LeadingZeros)
  {
    var parts := SplitOn(s, '.');
    if s != "" && |parts| == 3 {
      if exists i :: 0 <= i < |parts| && HasLeadingZero(parts[i]) {
        var i :| 0 <= i < |parts| && HasLeadingZero(parts[i]);
        assert HasLeadingZero(SplitOn(s, '.')[i]);
      } else {
        assert Parse(s) == ParseParts(parts) == VersionTuple(s);
      }
    }
  }

  /**
   The handshake's reader takes strings that do not print back; of the strings it takes, parsing takes
   exactly those that do, with the same components, and refuses the others for a leading zero.
   */
  lemma ReadersDifferOnLeadingZeros(s: string)
    ensures match VersionTuple(s)
            case Success(v) => Parse(s) == if VersionText(v) == s then Success(v) else Failure(LeadingZeros)
            case Failure(_) => Parse(s).Failure?
  {
    LeadingZerosDecide(s);
    if VersionTuple(s).Success? {
      if Parse(s).Success? {
        TextOfParse(s);
      } else if VersionText(VersionTuple(s).value) == s {
        ParseOfText(VersionTuple(s).value);
      }
    }
  }

  ghost predicate IsNumeral(s: string) {
    s != "" && AllDigits(s)
  }

  lemma NumeralsParse(s: string)
    ensures ParseNat(s).Some? <==> IsNumeral(s)
  {
  }

  /**
   Which error is reported for which text: no text, not three parts, a part with a leading zero (by
   parsing only), and a part that is not a number, in this order.
   */
  lemma VersionErrors(parts: seq<string>)
    requires parts != [] && forall i :: 0 <= i < |parts| ==> Without(parts[i], '.')
    ensures var s := JoinWith(parts, '.');
            && (s == "" ==> Parse(s) == VersionTuple(s) == Failure(Empty))
            && (s != "" && |parts| != 3 ==> Parse(s) == VersionTuple(s) == Failure(WrongShape))
            && (s != "" && |parts| == 3 ==>
                  && (VersionTuple(s) == Failure(NotNumeric) <==> exists i :: 0 <= i < 3 && !IsNumeral(parts[i]))
                  && (Parse(s) == Failure(LeadingZeros) <==>
                        exists i :: 0 <= i < 3 && |parts[i]| > 1 && parts[i][0] == '0')
                  && (VersionTuple(s).Failure? ==> VersionTuple(s) == Failure(NotNumeric))
                  && (Parse(s) != Failure(LeadingZeros) ==> Parse(s) == VersionTuple(s)))
  {
    var s := JoinWith(parts, '.');
    SplitOfJoin(parts, '.');
    if s != "" && |parts| == 3 {
      hide SplitOn, JoinWith, ParseNat, IsNumeral;
      NumeralsParse(parts[0]);
      NumeralsParse(parts[1]);
      NumeralsParse(parts[2]);
      assert HasLeadingZero(parts[0]) <==> |parts[0]| > 1 && parts[0][0] == '0';
      assert HasLeadingZero(parts[1]) <==> |parts[1]| > 1 && parts[1][0] == '0';
      assert HasLeadingZero(parts[2]) <==> |parts[2]| > 1 && parts[2][0] == '0';
    }
  }

  // ----- order

  predicate Less(v: ProtocolVersion, w: ProtocolVersion) {
    || v.major < w.major
    || (v.major == w.major && (v.minor < w.minor || (v.minor == w.minor && v.patch < w.patch)))
  }

  /** The larger of a version and what was best so far. */
  function Better(v: ProtocolVersion, best: Option<ProtocolVersion>): ProtocolVersion {
    if best.Some? && Less(v, best.value) then best.value else v
  }

  /** The highest version present in both lists. */
  function NegotiateVersion(client: seq<ProtocolVersion>, server: seq<ProtocolVersion>): (r: Option<ProtocolVersion>)
    ensures r.None? <==> forall v :: !(v in client && v in server)
    ensures r.Some? ==> r.value in client && r.value in server
    ensures r.Some? ==> forall v :: v in client && v in server ==>
              || v.major < r.value.major
              || (v.major == r.value.major && v.minor < r.value.minor)
              || (v.major == r.value.major && v.minor == r.value.minor && v.patch <= r.value.patch)
  {
    if client == [] then
      None
    else
      var rest := NegotiateVersion(client[1..], server);
      assert forall v :: v in client <==> v == client[0] || v in client[1..];
      if client[0] in server then Some(Better(client[0], rest)) else rest
  }
}
