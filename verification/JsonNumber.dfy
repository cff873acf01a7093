/** JSON number tokens: section 6 of RFC 8259, scanned greedily from the front of a text. */
module JsonNumber {
  import opened Common
  import opened Decimal
  import opened Utf8

  /** The number of digits a text begins with. */
  function DigitRun(s: string): (r: nat)
    ensures r <= |s|
    ensures forall i :: 0 <= i < r ==> IsDigit(s[i])
  {
    if s != "" && IsDigit(s[0]) then 1 + DigitRun(s[1..]) else 0
  }

  function IntegerPart(s: string): (r: nat)
    ensures r <= |s|
  {
    if s != "" && s[0] == '0' then 1 else DigitRun(s)
  }

  function FractionPart(s: string): (r: nat)
    ensures r <= |s|
  {
    if |s| >= 2 && s[0] == '.' && IsDigit(s[1]) then 1 + DigitRun(s[1..]) else 0
  }

  function ExponentPart(s: string): (r: nat)
    ensures r <= |s|
  {
    if s != "" && s[0] in "eE" then
      var signed := if |s| >= 2 && s[1] in "+-" then 2 else 1;
      var digits := DigitRun(s[signed..]);
      if digits > 0 then signed + digits else 0
    else
      0
  }

  /** The length of a fraction and an exponent at the front of a text. */
  function FloatPart(s: string): (r: nat)
    ensures r <= |s|
  {
    FractionPart(s) + ExponentPart(s[FractionPart(s)..])
  }

  function ScanUnsigned(s: string): (r: Option<(nat, bool)>)
    ensures r.Some? ==> 1 <= r.value.0 <= |s|
  {
    var whole := IntegerPart(s);
    if whole == 0 then None else Some((whole + FloatPart(s[whole..]), FloatPart(s[whole..]) > 0))
  }

  /** The length of the number a text begins with, and whether it has a fraction or an exponent. */
  function ScanNumber(s: string): (r: Option<(nat, bool)>)
    ensures r.Some? ==> 1 <= r.value.0 <= |s|
  {
    if s != "" && s[0] == '-' then AfterMinus(ScanUnsigned(s[1..])) else ScanUnsigned(s)
  }

  function AfterMinus(r: Option<(nat, bool)>): Option<(nat, bool)> {
    if r.None? then None else Some((r.value.0 + 1, r.value.1))
  }

  /** A token with a fraction or an exponent: the printed form of a float. */
  predicate IsFloatToken(t: string) {
    ScanNumber(t) == Some((|t|, true))
  }

  // ----- integers

  function IntText(n: int): (s: string)
    ensures |s| > 0
  {
    if n < 0 then "-" + NatText(-n) else NatText(n)
  }

  predicate IsIntToken(t: string) {
    AllDigits(if t != "" && t[0] == '-' then t[1..] else t)
  }

  function IntValue(t: string): int
    requires IsIntToken(t)
  {
    if t != "" && t[0] == '-' then 0 - NatValue(t[1..]) else NatValue(t)
  }

  lemma ScannedDigits(s: string)
    requires ScanUnsigned(s).Some? && !ScanUnsigned(s).value.1
    ensures AllDigits(s[..ScanUnsigned(s).value.0])
    ensures IsDigit(s[0])
  {
    assert ScanUnsigned(s).value.0 == IntegerPart(s);
    assert s[0] != '0' ==> IntegerPart(s) == DigitRun(s);
  }

  lemma ScannedIntToken(s: string)
    requires ScanNumber(s).Some? && !ScanNumber(s).value.1
    ensures IsIntToken(s[..ScanNumber(s).value.0])
  {
    var t := s[..ScanNumber(s).value.0];
    if s[0] == '-' {
      ScannedDigits(s[1..]);
      assert t[1..] == s[1..][..|t| - 1];
    } else {
      ScannedDigits(s);
    }
  }

  // ----- scanning does not look past the token

  /** What may follow a number without being read as part of it. */
  predicate NumberEnds(rest: string) {
    rest == "" || !(IsDigit(rest[0]) || rest[0] in ".eE+-")
  }

  lemma {:induction false} DigitRunLocal(s: string, rest: string)
    requires NumberEnds(rest)
    ensures DigitRun(s + rest) == DigitRun(s)
  {
    if s == "" {
      assert s + rest == rest;
    } else {
      DigitRunLocal(s[1..], rest);
      assert (s + rest)[1..] == s[1..] + rest;
    }
  }

  lemma FractionPartLocal(s: string, rest: string)
    requires NumberEnds(rest)
    ensures FractionPart(s + rest) == FractionPart(s)
  {
    if s == "" {
      assert s + rest == rest;
    } else {
      DigitRunLocal(s[1..], rest);
      assert (s + rest)[1..] == s[1..] + rest;
    }
  }

  lemma ExponentPartLocal(s: string, rest: string)
    requires NumberEnds(rest)
    ensures ExponentPart(s + rest) == ExponentPart(s)
  {
    if s == "" {
      assert s + rest == rest;
    } else {
      var signed := if |s| >= 2 && s[1] in "+-" then 2 else 1;
      DigitRunLocal(s[signed..], rest);
      assert (s + rest)[signed..] == s[signed..] + rest;
    }
  }

  lemma FloatPartLocal(s: string, rest: string)
    requires NumberEnds(rest)
    ensures FloatPart(s + rest) == FloatPart(s)
  {
    hide FractionPart, ExponentPart;
    var f := FractionPart(s);
    FractionPartLocal(s, rest);
    ExponentPartLocal(s[f..], rest);
    assert (s + rest)[f..] == s[f..] + rest;
  }

  lemma IntegerPartLocal(s: string, rest: string)
    requires NumberEnds(rest)
    ensures IntegerPart(s + rest) == IntegerPart(s)
  {
    hide DigitRun;
    DigitRunLocal(s, rest);
  }

  lemma TailOfConcat(t: string, rest: string, i: nat)
    requires i <= |t|
    ensures (t + rest)[i..] == t[i..] + rest
  {
  }

  lemma ScanUnsignedLocal(t: string, rest: string)
    requires NumberEnds(rest)
    requires ScanUnsigned(t).Some?
    ensures ScanUnsigned(t + rest) == ScanUnsigned(t)
  {
    hide IntegerPart, FloatPart;
    var s := t + rest;
    IntegerPartLocal(t, rest);
    TailOfConcat(t, rest, IntegerPart(t));
    FloatPartLocal(t[IntegerPart(t)..], rest);
  }

  lemma ScanNumberLocal(t: string, rest: string)
    requires NumberEnds(rest)
    requires ScanNumber(t).Some?
    ensures ScanNumber(t + rest) == ScanNumber(t)
  {
    hide ScanUnsigned;
    assert (t + rest)[0] == t[0];
    if t[0] == '-' {
      TailOfConcat(t, rest, 1);
      ScanUnsignedLocal(t[1..], rest);
    } else {
      ScanUnsignedLocal(t, rest);
    }
  }

  // ----- tokens are ASCII

  lemma DigitRunAscii(s: string)
    ensures IsAscii(s[..DigitRun(s)])
  {
  }

  lemma FloatPartAscii(s: string)
    ensures IsAscii(s[..FloatPart(s)])
  {
    var f := FractionPart(s);
    if f > 0 {
      DigitRunAscii(s[1..]);
      assert s[..f] == [s[0]] + s[1..][..f - 1];
    }
    ExponentPartAscii(s[f..]);
    assert s[..FloatPart(s)] == s[..f] + s[f..][..ExponentPart(s[f..])];
  }

  lemma ExponentPartAscii(s: string)
    ensures IsAscii(s[..ExponentPart(s)])
  {
    var e := ExponentPart(s);
    if e > 0 {
      var signed := if |s| >= 2 && s[1] in "+-" then 2 else 1;
      DigitRunAscii(s[signed..]);
      assert s[..e] == s[..signed] + s[signed..][..e - signed];
    }
  }

  lemma ScanUnsignedAscii(s: string)
    requires ScanUnsigned(s).Some?
    ensures IsAscii(s[..ScanUnsigned(s).value.0])
  {
    var whole := IntegerPart(s);
    DigitRunAscii(s);
    FloatPartAscii(s[whole..]);
    assert s[..ScanUnsigned(s).value.0] == s[..whole] + s[whole..][..FloatPart(s[whole..])];
  }

  lemma FloatTokenAscii(t: string)
    requires IsFloatToken(t)
    ensures IsAscii(t)
  {
    if t[0] == '-' {
      ScanUnsignedAscii(t[1..]);
      assert t == [t[0]] + t[1..][..ScanUnsigned(t[1..]).value.0];
    } else {
      ScanUnsignedAscii(t);
      assert t == t[..ScanUnsigned(t).value.0];
    }
  }
}
