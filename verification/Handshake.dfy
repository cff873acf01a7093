/** The handshake: negotiation on version strings and capabilities, and its transport in HTTP headers. */
module Handshake {
  import opened Common
  import opened Version

  datatype HandshakeRequest = HandshakeRequest(
    clientVersion: string,
    supportedVersions: seq<string>,
    desiredCapabilities: seq<string>,
    clientId: Option<string>
  )

  datatype HandshakeResponse = HandshakeResponse(
    serverVersion: string,
    accepted: seq<string>,
    rejected: seq<string>,
    publicKeyKid: string,
    error: Option<string>
  )

  const NO_COMPATIBLE_VERSION := "no compatible version"

  // ----- capabilities

  function Kept(desired: seq<string>, offered: seq<string>): seq<string> {
    if desired == [] then []
    else if desired[0] in offered then [desired[0]] + Kept(desired[1..], offered)
    else Kept(desired[1..], offered)
  }

  function Dropped(desired: seq<string>, offered: seq<string>): seq<string> {
    if desired == [] then []
    else if desired[0] in offered then Dropped(desired[1..], offered)
    else [desired[0]] + Dropped(desired[1..], offered)
  }

  lemma {:induction false} KeptOneMore(desired: seq<string>, cap: string, offered: seq<string>)
    ensures Kept(desired + [cap], offered) == Kept(desired, offered) + if cap in offered then [cap] else []
  {
    if desired == [] {
      assert desired + [cap] == [cap];
    } else {
      KeptOneMore(desired[1..], cap, offered);
      assert (desired + [cap])[1..] == desired[1..] + [cap];
    }
  }

  lemma {:induction false} DroppedOneMore(desired: seq<string>, cap: string, offered: seq<string>)
    ensures Dropped(desired + [cap], offered) == Dropped(desired, offered) + if cap in offered then [] else [cap]
  {
    if desired == [] {
      assert desired + [cap] == [cap];
    } else {
      DroppedOneMore(desired[1..], cap, offered);
      assert (desired + [cap])[1..] == desired[1..] + [cap];
    }
  }

  ghost predicate Increasing(positions: seq<nat>) {
    forall i, j :: 0 <= i < j < |positions| ==> positions[i] < positions[j]
  }

  /** The places of a list, in order, that hold the given items. */
  ghost predicate PickedFrom(picked: seq<string>, positions: seq<nat>, whole: seq<string>) {
    && |picked| == |positions|
    && Increasing(positions)
    && forall i :: 0 <= i < |positions| ==> positions[i] < |whole| && picked[i] == whole[positions[i]]
  }

  /** Positions in a list that grew by one at the front. */
  function Shifted(positions: seq<nat>): (r: seq<nat>)
    ensures |r| == |positions|
    ensures forall i :: 0 <= i < |r| ==> r[i] == positions[i] + 1
  {
    seq(|positions|, i requires 0 <= i < |positions| => positions[i] + 1)
  }

  lemma ShiftedMembers(positions: seq<nat>, p: nat)
    ensures p in Shifted(positions) <==> p > 0 && p - 1 in positions
  {
    if p > 0 && p - 1 in positions {
      var i :| 0 <= i < |positions| && positions[i] == p - 1;
      assert Shifted(positions)[i] == p;
    }
  }

  lemma ShiftedPicks(picked: seq<string>, positions: seq<nat>, whole: seq<string>)
    requires whole != [] && PickedFrom(picked, positions, whole[1..])
    ensures PickedFrom(picked, Shifted(positions), whole)
    ensures PickedFrom([whole[0]] + picked, [0] + Shifted(positions), whole)
  {
  }

  /**
   The accepted and the rejected capabilities are picked, in order, from two sets of positions that
   together are all positions of the desired list and have none in common.
   */
  lemma {:induction false} CapabilitiesPartition(desired: seq<string>, offered: seq<string>)
    returns (kept: seq<nat>, dropped: seq<nat>)
    ensures PickedFrom(Kept(desired, offered), kept, desired)
    ensures PickedFrom(Dropped(desired, offered), dropped, desired)
    ensures forall p: nat :: p in kept <==> p < |desired| && desired[p] in offered
    ensures forall p: nat :: p in dropped <==> p < |desired| && desired[p] !in offered
  {
    if desired == [] {
      kept, dropped := [], [];
    } else {
      var k, d := CapabilitiesPartition(desired[1..], offered);
      ShiftedPicks(Kept(desired[1..], offered), k, desired);
      ShiftedPicks(Dropped(desired[1..], offered), d, desired);
      kept, dropped := Shifted(k), Shifted(d);
      if desired[0] in offered {
        kept := [0] + kept;
      } else {
        dropped := [0] + dropped;
      }
      forall p: nat
        ensures p in kept <==> p < |desired| && desired[p] in offered
        ensures p in dropped <==> p < |desired| && desired[p] !in offered
      {
        ShiftedMembers(k, p);
        ShiftedMembers(d, p);
        if p > 0 {
          var q: nat := p - 1;
          assert q in k <==> q < |desired[1..]| && desired[1..][q] in offered;
          assert q in d <==> q < |desired[1..]| && desired[1..][q] !in offered;
        }
      }
    }
  }

  // ----- versions

  /** The server's versions that the client listed, in the server's order. */
  function CommonVersions(server: seq<string>, client: seq<string>): (common: seq<string>)
    ensures forall v :: v in common <==> v in server && v in client
  {
    if server == [] then []
    else (if server[0] in client then [server[0]] else []) + CommonVersions(server[1..], client)
  }

  type KeyOf = string -> Result<ProtocolVersion, VersionError>

  /** max() with a key: the first of the largest; an error when some item has no key. */
  function FirstMax(key: KeyOf, best: string, rest: seq<string>): (r: Result<string, VersionError>)
    ensures r.Success? <==> key(best).Success? && forall v :: v in rest ==> key(v).Success?
    ensures r.Success? ==> r.value == best || r.value in rest
    ensures r.Success? ==> forall v :: v == best || v in rest ==> !Less(key(r.value).value, key(v).value)
    decreases |rest|
  {
    var bestKey :- key(best);
    if rest == [] then
      Success(best)
    else
      var nextKey :- key(rest[0]);
      FirstMax(key, if Less(bestKey, nextKey) then rest[0] else best, rest[1..])
  }

  /** Every item of the list is below the given one. */
  ghost predicate AllBelow(key: KeyOf, items: seq<string>, v: string) {
    && key(v).Success?
    && forall item :: item in items ==> key(item).Success? && Less(key(item).value, key(v).value)
  }

  lemma BelowOneMore(key: KeyOf, items: seq<string>, n: nat, first: string, v: string)
    requires n <= |items| && AllBelow(key, items[..n], v)
    requires key(first).Success? && Less(key(first).value, key(v).value)
    ensures AllBelow(key, ([first] + items)[..n + 1], v)
  {
    assert ([first] + items)[..n + 1] == [first] + items[..n];
  }

  lemma BelowTwoMore(key: KeyOf, first: string, second: string, items: seq<string>, n: nat, v: string)
    requires 0 < n <= |items| + 1 && AllBelow(key, ([first] + items)[..n], v)
    requires key(first).Success? && key(second).Success? && !Less(key(first).value, key(second).value)
    ensures AllBelow(key, ([first] + ([second] + items))[..n + 1], v)
  {
    assert ([first] + items)[..n] == [first] + items[..n - 1];
    assert ([first] + ([second] + items))[..n + 1] == [first, second] + items[..n - 1];
    assert forall item :: item in items[..n - 1] ==> item in ([first] + items)[..n];
    assert first in ([first] + items)[..n];
  }

  /** All items that stand before the selected one are below it. */
  lemma {:induction false} FirstMaxIsFirst(key: KeyOf, best: string, rest: seq<string>) returns (i: nat)
    requires FirstMax(key, best, rest).Success?
    ensures i <= |rest| && ([best] + rest)[i] == FirstMax(key, best, rest).value
    ensures AllBelow(key, ([best] + rest)[..i], FirstMax(key, best, rest).value)
    decreases |rest|
  {
    hide Less, AllBelow;
    if rest == [] {
      i := 0;
      NothingAbove(key, best);
    } else {
      var (next, others) := (rest[0], rest[1..]);
      var v := FirstMax(key, best, rest).value;
      assert rest == [next] + others;
      if Less(key(best).value, key(next).value) {
        i := FirstMaxIsFirst(key, next, others);
        LessThrough(key(best).value, key(next).value, key(v).value);
        BelowOneMore(key, [next] + others, i, best, v);
        i := i + 1;
      } else {
        i := FirstMaxIsFirst(key, best, others);
        if i > 0 {
          BelowTwoMore(key, best, next, others, i, v);
          i := i + 1;
        } else {
          NothingAbove(key, best);
        }
      }
    }
  }

  lemma NothingAbove(key: KeyOf, v: string)
    requires key(v).Success?
    ensures forall items: seq<string> :: AllBelow(key, items[..0], v)
  {
  }

  lemma LessThrough(a: ProtocolVersion, b: ProtocolVersion, c: ProtocolVersion)
    requires Less(a, b) && !Less(c, b)
    ensures Less(a, c)
  {
  }

  /** The error of the first item without a key is the one reported. */
  lemma {:induction false} FirstFailureReported(key: KeyOf, best: string, rest: seq<string>, i: nat)
    requires i <= |rest| && key(([best] + rest)[i]).Failure?
    requires forall j :: 0 <= j < i ==> key(([best] + rest)[j]).Success?
    ensures FirstMax(key, best, rest) == Failure(key(([best] + rest)[i]).error)
    decreases |rest|
  {
    hide Less;
    if i > 1 {
      assert key(([best] + rest)[0]).Success? && key(([best] + rest)[1]).Success?;
      var larger := if Less(key(best).value, key(rest[0]).value) then rest[0] else best;
      forall j | 0 <= j < i - 1 ensures key(([larger] + rest[1..])[j]).Success? {
        assert j > 0 ==> ([larger] + rest[1..])[j] == ([best] + rest)[j + 1];
      }
      FirstFailureReported(key, larger, rest[1..], i - 1);
    } else if i == 1 {
      assert key(([best] + rest)[0]).Success?;
    }
  }

  /** max() of version strings by version tuple. */
  function SelectVersion(best: string, rest: seq<string>): Result<string, VersionError> {
    FirstMax(VersionTuple, best, rest)
  }

  function Refusal(request: HandshakeRequest, kid: string): HandshakeResponse {
    HandshakeResponse("", [], request.desiredCapabilities, kid, Some(NO_COMPATIBLE_VERSION))
  }

  /** The version the handshake settles on: None without a common one, an error when one has no tuple. */
  function NegotiatedVersion(server: seq<string>, client: seq<string>): Result<Option<string>, VersionError> {
    var common := CommonVersions(server, client);
    if common == [] then
      Success(None)
    else
      var selected :- SelectVersion(common[0], common[1..]);
      Success(Some(selected))
  }

  /**
   The i-th server version is listed by the client, and of all that are it is the highest by major,
   then minor, then patch number, and the first of these in the server's order.
   */
  ghost predicate FirstHighest(server: seq<string>, client: seq<string>, i: nat) {
    && i < |server| && server[i] in client && VersionTuple(server[i]).Success?
    && forall j :: 0 <= j < |server| && server[j] in client ==>
         && VersionTuple(server[j]).Success?
         && var (x, y) := (VersionTuple(server[j]).value, VersionTuple(server[i]).value);
            || x.major < y.major
            || (x.major == y.major && x.minor < y.minor)
            || (x.major == y.major && x.minor == y.minor && x.patch < y.patch)
            || (x == y && j >= i)
  }

  lemma {:induction false} CommonPosition(server: seq<string>, client: seq<string>, k: nat) returns (i: nat)
    requires k < |CommonVersions(server, client)|
    ensures i < |server| && server[i] in client && server[i] == CommonVersions(server, client)[k]
    ensures forall j :: 0 <= j < i && server[j] in client ==> server[j] in CommonVersions(server, client)[..k]
  {
    var rest := server[1..];
    if server[0] in client && k == 0 {
      i := 0;
    } else {
      var before := if server[0] in client then k - 1 else k;
      i := CommonPosition(rest, client, before);
      var head := if server[0] in client then [server[0]] else [];
      assert CommonVersions(server, client)[..k] == head + CommonVersions(rest, client)[..before];
      forall j | 0 <= j < i + 1 && server[j] in client ensures server[j] in CommonVersions(server, client)[..k] {
        if j == 0 {
          assert server[0] in head;
        } else {
          assert rest[j - 1] in CommonVersions(rest, client)[..before];
        }
      }
      i := i + 1;
    }
  }

  /** The version settled on is the first of the highest common ones, in the server's order. */
  lemma NegotiatedIsFirstHighest(server: seq<string>, client: seq<string>) returns (i: nat)
    requires NegotiatedVersion(server, client).Success?
    ensures match NegotiatedVersion(server, client).value
            case Some(v) => FirstHighest(server, client, i) && server[i] == v
            case None => forall v :: v in server ==> v !in client
  {
    hide VersionTuple, CommonVersions, FirstMax;
    i := 0;
    var common := CommonVersions(server, client);
    if common != [] {
      var v := NegotiatedVersion(server, client).value.value;
      assert common == [common[0]] + common[1..];
      var k := FirstMaxIsFirst(VersionTuple, common[0], common[1..]);
      i := CommonPosition(server, client, k);
      forall j | 0 <= j < |server| && server[j] in client
        ensures VersionTuple(server[j]).Success? && !Less(VersionTuple(v).value, VersionTuple(server[j]).value)
        ensures j < i ==> Less(VersionTuple(server[j]).value, VersionTuple(v).value)
      {
        assert server[j] in common;
      }
    }
  }

  method Negotiate(
    request: HandshakeRequest,
    serverVersions: seq<string>,
    serverCapabilities: seq<string>,
    kid: string
  ) returns (r: Result<HandshakeResponse, VersionError>)
    ensures r == match NegotiatedVersion(serverVersions, request.supportedVersions)
                 case Failure(e) => Failure(e)
                 case Success(None) =>
                   Success(HandshakeResponse("", [], request.desiredCapabilities, kid, Some("no compatible version")))
                 case Success(Some(v)) =>
                   Success(HandshakeResponse(
                     v,
                     Kept(request.desiredCapabilities, serverCapabilities),
                     Dropped(request.desiredCapabilities, serverCapabilities),
                     kid,
                     None
                   ))
    ensures r.Success? && r.value.error.None? ==>
              exists i: nat :: FirstHighest(serverVersions, request.supportedVersions, i)
                               && r.value.serverVersion == serverVersions[i]
  {
    if NegotiatedVersion(serverVersions, request.supportedVersions).Success? {
      ghost var _ := NegotiatedIsFirstHighest(serverVersions, request.supportedVersions);
    }
    var common := CommonVersions(serverVersions, request.supportedVersions);
    if common == [] {
      return Success(Refusal(request, kid));
    }
    var selected := SelectVersion(common[0], common[1..]);
    if selected.Failure? {
      return Failure(selected.error);
    }
    var desired := request.desiredCapabilities;
    var accepted, rejected := [], [];
    for i := 0 to |desired|
      invariant accepted == Kept(desired[..i], serverCapabilities)
      invariant rejected == Dropped(desired[..i], serverCapabilities)
    {
      KeptOneMore(desired[..i], desired[i], serverCapabilities);
      DroppedOneMore(desired[..i], desired[i], serverCapabilities);
      assert desired[..i + 1] == desired[..i] + [desired[i]];
      if desired[i] in serverCapabilities {
        accepted := accepted + [desired[i]];
      } else {
        rejected := rejected + [desired[i]];
      }
    }
    assert desired[..|desired|] == desired;
    return Success(HandshakeResponse(selected.value, accepted, rejected, kid, None));
  }

  /** A server version that the client lists, without a tuple, and the first such one. */
  ghost predicate FirstMalformed(server: seq<string>, client: seq<string>, i: nat) {
    && i < |server| && server[i] in client && VersionTuple(server[i]).Failure?
    && forall j :: 0 <= j < i && server[j] in client ==> VersionTuple(server[j]).Success?
  }

  lemma {:induction false} FirstMalformedInCommon(server: seq<string>, client: seq<string>, i: nat) returns (n: nat)
    requires FirstMalformed(server, client, i)
    ensures n < |CommonVersions(server, client)| && CommonVersions(server, client)[n] == server[i]
    ensures forall j :: 0 <= j < n ==> VersionTuple(CommonVersions(server, client)[j]).Success?
  {
    hide VersionTuple;
    n := 0;
    if i > 0 {
      var rest := server[1..];
      forall j | 0 <= j < i - 1 && rest[j] in client ensures VersionTuple(rest[j]).Success? {
        assert rest[j] == server[j + 1];
      }
      n := FirstMalformedInCommon(rest, client, i - 1);
      if server[0] in client {
        n := n + 1;
      }
    }
  }

  lemma MalformedIsReported(server: seq<string>, client: seq<string>, i: nat)
    requires FirstMalformed(server, client, i)
    ensures NegotiatedVersion(server, client) == Failure(VersionTuple(server[i]).error)
  {
    hide VersionTuple, CommonVersions, FirstMax;
    var common := CommonVersions(server, client);
    var n := FirstMalformedInCommon(server, client, i);
    assert common == [common[0]] + common[1..];
    FirstFailureReported(VersionTuple, common[0], common[1..], n);
  }

  /**
   The handshake raises a version error exactly when some common version string has no tuple, and it
   is the error of the first such string in the server's order.
   */
  lemma NegotiationRaisesIffMalformed(server: seq<string>, client: seq<string>)
    ensures NegotiatedVersion(server, client).Failure? <==>
              exists v :: v in server && v in client && VersionTuple(v).Failure?
    ensures forall i: nat :: FirstMalformed(server, client, i) ==>
              NegotiatedVersion(server, client) == Failure(VersionTuple(server[i]).error)
  {
    hide VersionTuple;
    var common := CommonVersions(server, client);
    if common != [] {
      assert forall v :: v in common <==> v == common[0] || v in common[1..];
    }
    forall i: nat | FirstMalformed(server, client, i)
      ensures NegotiatedVersion(server, client) == Failure(VersionTuple(server[i]).error)
    {
      MalformedIsReported(server, client, i);
    }
  }

  // ----- the two negotiators

  function Texts(versions: seq<ProtocolVersion>): (r: seq<string>)
    ensures |r| == |versions|
    ensures forall i :: 0 <= i < |r| ==> r[i] == VersionText(versions[i])
  {
    seq(|versions|, i requires 0 <= i < |versions| => VersionText(versions[i]))
  }

  lemma TextsMember(versions: seq<ProtocolVersion>, v: ProtocolVersion)
    ensures VersionText(v) in Texts(versions) <==> v in versions
  {
    if v in versions {
      var i :| 0 <= i < |versions| && versions[i] == v;
      assert Texts(versions)[i] == VersionText(v);
    }
    if VersionText(v) in Texts(versions) {
      var i :| 0 <= i < |versions| && Texts(versions)[i] == VersionText(v);
      VersionTextInjective(versions[i], v);
    }
  }

  lemma HighestIsOne(client: seq<ProtocolVersion>, server: seq<ProtocolVersion>, v: ProtocolVersion)
    requires v in client && v in server
    ensures NegotiateVersion(client, server).Some?
    ensures v == NegotiateVersion(client, server).value || Less(v, NegotiateVersion(client, server).value)
  {
    hide NegotiateVersion;
  }

  /**
   On printed versions the handshake never raises, and settles on the printed form of what the
   version module selects, or on nothing exactly when that selects nothing.
   */
  lemma NegotiatorsAgree(client: seq<ProtocolVersion>, server: seq<ProtocolVersion>)
    ensures NegotiatedVersion(Texts(server), Texts(client)) ==
            Success(match NegotiateVersion(client, server) case Some(v) => Some(VersionText(v)) case None => None)
  {
    hide VersionText, VersionTuple, Less, CommonVersions, FirstMax, NegotiateVersion;
    var common := CommonVersions(Texts(server), Texts(client));
    forall s | s in common
      ensures exists v :: v in client && v in server && s == VersionText(v) && VersionTuple(s) == Success(v)
    {
      var i :| 0 <= i < |server| && Texts(server)[i] == s;
      TextsMember(client, server[i]);
      ParseOfText(server[i]);
      assert server[i] in server && server[i] in client;
    }
    forall v | v in client && v in server ensures VersionText(v) in common {
      TextsMember(client, v);
      TextsMember(server, v);
    }
    if common != [] {
      assert forall s :: s in common <==> s == common[0] || s in common[1..];
      var selected := SelectVersion(common[0], common[1..]).value;
      var w := NegotiateVersion(client, server).value;
      assert VersionText(w) in common && selected in common;
      ParseOfText(w);
      var v :| v in client && v in server && selected == VersionText(v) && VersionTuple(selected) == Success(v);
      assert !Less(v, w);
      HighestIsOne(client, server, v);
    }
  }
}
