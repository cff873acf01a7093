/** UTF-8 as Python's strict codec has it: section 3 of RFC 3629, without overlong forms or surrogates. */
module Utf8 {
  import opened Common

  /** A continuation byte carries the six lowest bits. */
  function Continuation(n: nat): byte {
    (0x80 + n % 64) as byte
  }

  function EncodeChar(c: char): (bs: Bytes)
    ensures 1 <= |bs| <= 4
  {
    var n := c as int;
    if n < 0x80 then
      [n as byte]
    else if n < 0x800 then
      [(0xC0 + n / 64) as byte, Continuation(n)]
    else if n < 0x10000 then
      [(0xE0 + n / 4096) as byte, Continuation(n / 64), Continuation(n)]
    else
      [(0xF0 + n / 262144) as byte, Continuation(n / 4096), Continuation(n / 64), Continuation(n)]
  }

  function Encode(s: string): Bytes {
    if s == "" then [] else EncodeChar(s[0]) + Encode(s[1..])
  }

  /**
   Section 3 of RFC 3629 by value: the leading byte tells the length, each following byte carries six
   bits, and the code point is their sum.
   */
  lemma EncodingByValue(c: char)
    ensures var (n, bs) := (c as int, EncodeChar(c));
            && (n < 0x80 ==> |bs| == 1 && bs[0] as int == n)
            && (0x80 <= n < 0x800 ==>
                  && |bs| == 2 && 0xC0 <= bs[0] as int < 0xE0 && 0x80 <= bs[1] as int < 0xC0
                  && n == (bs[0] as int - 0xC0) * 64 + (bs[1] as int - 0x80))
            && (0x800 <= n < 0x10000 ==>
                  && |bs| == 3 && 0xE0 <= bs[0] as int < 0xF0
                  && 0x80 <= bs[1] as int < 0xC0 && 0x80 <= bs[2] as int < 0xC0
                  && n == (bs[0] as int - 0xE0) * 4096 + (bs[1] as int - 0x80) * 64 + (bs[2] as int - 0x80))
            && (n >= 0x10000 ==>
                  && |bs| == 4 && 0xF0 <= bs[0] as int < 0xF8
                  && 0x80 <= bs[1] as int < 0xC0 && 0x80 <= bs[2] as int < 0xC0 && 0x80 <= bs[3] as int < 0xC0
                  && n == (bs[0] as int - 0xF0) * 262144 + (bs[1] as int - 0x80) * 4096
                          + (bs[2] as int - 0x80) * 64 + (bs[3] as int - 0x80))
  {
    var n := c as int;
    assert n == n / 64 * 64 + n % 64;
    assert n / 64 == n / 4096 * 64 + n / 64 % 64;
    assert n / 4096 == n / 262144 * 64 + n / 4096 % 64;
  }

  predicate IsContinuation(b: byte) {
    0x80 <= b < 0xC0
  }

  /** The first character of a byte string and how many bytes it takes. */
  function DecodeChar(bs: Bytes): (r: Option<(char, nat)>)
    requires |bs| > 0
    ensures r.Some? ==> 1 <= r.value.1 <= |bs|
  {
    var b0 := bs[0] as int;
    if b0 < 0x80 then
      Some((b0 as char, 1))
    else if 0xC2 <= b0 < 0xE0 && |bs| >= 2 && IsContinuation(bs[1]) then
      Some((((b0 - 0xC0) * 64 + (bs[1] as int - 0x80)) as char, 2))
    else if 0xE0 <= b0 < 0xF0 && |bs| >= 3 && IsContinuation(bs[1]) && IsContinuation(bs[2]) then
      var n := (b0 - 0xE0) * 4096 + (bs[1] as int - 0x80) * 64 + (bs[2] as int - 0x80);
      if n < 0x800 || 0xD800 <= n < 0xE000 then None else Some((n as char, 3))
    else if 0xF0 <= b0 < 0xF5 && |bs| >= 4
            && IsContinuation(bs[1]) && IsContinuation(bs[2]) && IsContinuation(bs[3]) then
      var high := (b0 - 0xF0) * 262144 + (bs[1] as int - 0x80) * 4096;
      var n := high + (bs[2] as int - 0x80) * 64 + (bs[3] as int - 0x80);
      if n < 0x10000 || n >= 0x110000 then None else Some((n as char, 4))
    else
      None
  }

  function Decode(bs: Bytes): Option<string> {
    if bs == [] then
      Some("")
    else
      match DecodeChar(bs)
      case None => None
      case Some((c, len)) =>
        match Decode(bs[len..])
        case None => None
        case Some(rest) => Some([c] + rest)
  }

  lemma DecodeOfEncodeChar(c: char, rest: Bytes)
    ensures DecodeChar(EncodeChar(c) + rest) == Some((c, |EncodeChar(c)|))
  {
    var n := c as int;
    assert n == n / 64 * 64 + n % 64;
    assert n / 64 == n / 4096 * 64 + n / 64 % 64;
    assert n / 4096 == n / 262144 * 64 + n / 4096 % 64;
  }

  /** Decoding undoes encoding, for every string. */
  lemma {:induction false} DecodeOfEncode(s: string)
    ensures Decode(Encode(s)) == Some(s)
  {
    if s != "" {
      DecodeOfEncodeChar(s[0], Encode(s[1..]));
      assert Encode(s)[|EncodeChar(s[0])|..] == Encode(s[1..]);
      DecodeOfEncode(s[1..]);
      assert s == [s[0]] + s[1..];
    }
  }

  lemma SextetSplit(high: nat, low: nat)
    requires low < 64
    ensures (high * 64 + low) / 64 == high && (high * 64 + low) % 64 == low
  {
  }

  /** A character code from its leading bits and one, two or three sextets. */
  lemma SextetsSplit(high: nat, x: nat, y: nat, z: nat)
    requires x < 64 && y < 64 && z < 64
    ensures var n := (high * 64 + x) * 64 + y;
            n / 4096 == high && n / 64 % 64 == x && n % 64 == y
    ensures var n := ((high * 64 + x) * 64 + y) * 64 + z;
            n / 262144 == high && n / 4096 % 64 == x && n / 64 % 64 == y && n % 64 == z
  {
    SextetSplit(high, x);
    SextetSplit(high * 64 + x, y);
    SextetSplit((high * 64 + x) * 64 + y, z);
  }

  /** A character is accepted in its shortest form only. */
  lemma EncodeOfDecodedChar(bs: Bytes)
    requires |bs| > 0
    ensures match DecodeChar(bs)
            case Some((c, len)) => EncodeChar(c) == bs[..len]
            case None => true
  {
    if DecodeChar(bs).Some? {
      match DecodeChar(bs).value.1
      case 1 =>
      case 2 => SextetSplit(bs[0] as int - 0xC0, bs[1] as int - 0x80);
      case 3 => SextetsSplit(bs[0] as int - 0xE0, bs[1] as int - 0x80, bs[2] as int - 0x80, 0);
      case 4 => SextetsSplit(bs[0] as int - 0xF0, bs[1] as int - 0x80, bs[2] as int - 0x80, bs[3] as int - 0x80);
    }
  }

  /** Strictness: whatever decodes is the encoding of what it decodes to. */
  lemma {:induction false} EncodeOfDecode(bs: Bytes)
    ensures match Decode(bs) case Some(s) => Encode(s) == bs case None => true
  {
    hide DecodeChar, EncodeChar;
    if bs != [] && Decode(bs).Some? {
      var (c, len) := DecodeChar(bs).value;
      EncodeOfDecodedChar(bs);
      EncodeOfDecode(bs[len..]);
      assert bs == bs[..len] + bs[len..];
      assert Decode(bs).value[1..] == Decode(bs[len..]).value;
    }
  }

  lemma EncodeInjective(a: string, b: string)
    requires Encode(a) == Encode(b)
    ensures a == b
  {
    DecodeOfEncode(a);
    DecodeOfEncode(b);
  }

  predicate IsAscii(s: string) {
    forall i :: 0 <= i < |s| ==> s[i] < 128 as char
  }

  /** On ASCII text the encoding is the identity: one byte a character, with the character's code. */
  lemma {:induction false} EncodeOfAscii(s: string)
    requires IsAscii(s)
    ensures |Encode(s)| == |s|
    ensures forall i :: 0 <= i < |s| ==> Encode(s)[i] as int == s[i] as int
  {
    if s != "" {
      EncodeOfAscii(s[1..]);
    }
  }
}
