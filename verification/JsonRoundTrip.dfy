/** What the compact printer prints is a text of the JSON grammar, so the parser gives the value back. */
module JsonRoundTrip {
  import opened Common
  import opened Decimal
  import opened JsonNumber
  import opened JsonString
  import opened Json
  import opened JsonGrammar
  import opened JsonRecognizer

  // ----- numbers

  lemma NatTextIsUnsigned(n: nat)
    ensures IsUnsigned(NatText(n), NatText(n), "", "") && NatValue(NatText(n)) == n && IsDigit(NatText(n)[0])
  {
    ValueOfNatText(n);
    hide NatText, NatValue;
    assert NatText(n) == NatText(n) + ("" + "");
  }

  /** A printed integer is a number of the grammar. */
  lemma IntTextIsNumber(n: int)
    ensures IsNumber(IntText(n), Int(n))
  {
    hide NatText, NatValue, IsUnsigned;
    var digits := NatText(if n < 0 then 0 - n else n);
    NatTextIsUnsigned(if n < 0 then 0 - n else n);
    if n < 0 {
      assert IntText(n) == "-" + digits && IntText(n)[1..] == digits;
    }
    assert IsNumberOf(IntText(n), Int(n), digits, "", "");
  }

  /** A float token is a number of the grammar. */
  lemma FloatTokenIsNumber(token: string)
    requires IsFloatToken(token)
    ensures IsNumber(token, Real(token))
  {
    var t := NumberFound(token);
    assert token[..|token|] == token && token[|token|..] == "" && t + "" == t;
  }

  // ----- strings

  lemma Hex4IsHex(n: nat)
    requires n < 0x10000
    ensures IsHex4(Hex4(n), n)
  {
    var (a, b, c, d) := (n / 4096, n / 256 % 16, n / 16 % 16, n % 16);
    FourNibbles(n);
    HexDigitIff(HexDigit(a), a);
    HexDigitIff(HexDigit(b), b);
    HexDigitIff(HexDigit(c), c);
    HexDigitIff(HexDigit(d), d);
    hide HexDigit, IsHexDigit, HexValue;
    var s := Hex4(n);
    assert IsHexDigit(s[0], a) && IsHexDigit(s[1], b) && IsHexDigit(s[2], c) && IsHexDigit(s[3], d);
  }

  lemma EscapePieces(p: string, q: string)
    requires |p| == 4 && |q| == 4
    ensures ("\\u" + p)[..2] == "\\u" && ("\\u" + p)[2..] == p
    ensures var u := "\\u" + p + ("\\u" + q);
            |u| == 12 && u[..2] == "\\u" && u[2..6] == p && u[6..8] == "\\u" && u[8..] == q
  {
  }

  lemma OneEscapeIsUnit(p: string, c: char)
    requires IsHex4(p, c as int)
    ensures IsUnit("\\u" + p, c)
  {
    EscapePieces(p, p);
    hide IsHex4, IsSurrogatePair;
  }

  lemma TwoEscapesAreUnit(p: string, q: string, high: nat, low: nat, c: char)
    requires IsHex4(p, high) && IsHex4(q, low) && 0xD800 <= high < 0xDC00 && 0xDC00 <= low < 0xE000
    requires c as int == 0x10000 + (high - 0xD800) * 0x400 + (low - 0xDC00)
    ensures IsUnit("\\u" + p + ("\\u" + q), c)
  {
    EscapePieces(p, q);
    hide IsHex4;
    assert IsSurrogatePair("\\u" + p + ("\\u" + q), c as int);
    hide IsSurrogatePair;
  }

  lemma LongEscapeIsUnit(c: char)
    requires c as int > 0x7E || (c as int < 0x20 && c as int !in {8, 9, 10, 12, 13})
    ensures IsUnit(EscapeChar(c), c)
  {
    hide EscapeChar, Hex4, IsHex4, IsUnit;
    LongEscapeShape(c);
    var n := c as int;
    if n < 0x10000 {
      Hex4IsHex(n);
      OneEscapeIsUnit(Hex4(n), c);
    } else {
      var (high, low) := (0xD800 + (n - 0x10000) / 1024, 0xDC00 + (n - 0x10000) % 1024);
      Hex4IsHex(high);
      Hex4IsHex(low);
      TwoEscapesAreUnit(Hex4(high), Hex4(low), high, low, c);
    }
  }

  lemma EscapeIsUnit(c: char)
    ensures IsUnit(EscapeChar(c), c)
  {
    if c as int > 0x7E || (c as int < 0x20 && c as int !in {8, 9, 10, 12, 13}) {
      LongEscapeIsUnit(c);
    } else {
      ShortEscapes(c);
      hide EscapeChar, IsHex4, IsSurrogatePair;
    }
  }

  lemma {:induction false} EscapeSpells(s: string)
    ensures Spells(EscapeAll(s), s)
  {
    hide IsUnit, EscapeChar;
    if s != "" {
      EscapeIsUnit(s[0]);
      EscapeSpells(s[1..]);
      SpellsOneMore(EscapeChar(s[0]), s[0], EscapeAll(s[1..]), s[1..]);
      assert s == [s[0]] + s[1..];
    }
  }

  /** Scanning undoes quoting, whatever follows. */
  lemma ScanOfEscapeAll(s: string, rest: string)
    ensures ScanString(EscapeAll(s) + "\"" + rest) == Success((s, rest))
  {
    EscapeSpells(s);
    StringParsed(EscapeAll(s), s, rest);
  }

  // ----- values

  lemma Unpadded(t: string, v: Json)
    requires Denotes(t, v)
    ensures DenotesPadded(t, v)
  {
    PaddedBehind(t, v, "");
    assert t + "" == t;
  }

  lemma QuoteDenotes(s: string)
    ensures Denotes(Quote(s), Str(s))
  {
    EscapeSpells(s);
    QuotedDenotes(EscapeAll(s), s);
  }

  /** What is printed for a value is a text of the grammar for it. */
  lemma {:induction false} RenderDenotes(v: Json)
    requires WellFormed(v)
    ensures Denotes(Render(v), v)
    decreases v, 0
  {
    hide IsNumber, IsFloatToken, Quote, RenderItems, RenderMembers, Spells;
    match v
    case Null =>
    case Bool(_) =>
    case Int(n) => IntTextIsNumber(n);
    case Real(token) => FloatTokenIsNumber(token);
    case Str(s) => QuoteDenotes(s);
    case Array(items) => ArrayDenotes(items);
    case Object(members) => ObjectDenotes(members);
  }

  lemma {:induction false} ArrayDenotes(items: seq<Json>)
    requires forall i :: 0 <= i < |items| ==> WellFormed(items[i])
    ensures Denotes(Render(Array(items)), Array(items))
    decreases items, 2
  {
    hide Denotes, DenotesItems, RenderItems;
    if items == [] {
      BracketedDenotes("", []);
      assert "[" + "" + "]" == "[]";
    } else {
      ItemsDenote(items);
      BracketedDenotes(RenderItems(items), items);
    }
  }

  lemma {:induction false} ObjectDenotes(members: seq<Member>)
    requires DistinctKeys(members) && forall i :: 0 <= i < |members| ==> WellFormed(members[i].value)
    ensures Denotes(Render(Object(members)), Object(members))
    decreases members, 2
  {
    hide Denotes, DenotesMembers, RenderMembers, DictOf;
    DictOfDistinct(members);
    if members == [] {
      BracedDenotes("", []);
      assert "{" + "" + "}" == "{}";
    } else {
      MembersDenote(members);
      BracedDenotes(RenderMembers(members), members);
    }
  }

  lemma {:induction false} ItemsDenote(items: seq<Json>)
    requires items != [] && forall i :: 0 <= i < |items| ==> WellFormed(items[i])
    ensures DenotesItems(RenderItems(items), items)
    decreases items, 1
  {
    hide Denotes, DenotesPadded, Render;
    var (item, others) := (items[0], items[1..]);
    RenderDenotes(item);
    Unpadded(Render(item), item);
    if |items| > 1 {
      ItemsDenote(others);
      ItemsCons(Render(item), item, RenderItems(others), others);
      assert items == [item] + others;
      assert RenderItems(items) == Render(item) + "," + RenderItems(others);
    } else {
      assert RenderItems(items) == Render(item);
    }
  }

  lemma EntryThenMore(key: string, value: string, more: string)
    ensures key + (":" + (value + more)) == key + ":" + value + more
  {
  }

  lemma {:induction false} MembersDenote(members: seq<Member>)
    requires members != [] && forall i :: 0 <= i < |members| ==> WellFormed(members[i].value)
    ensures DenotesMembers(RenderMembers(members), members)
    decreases members, 1
  {
    hide Denotes, DenotesPadded, DenotesMember, Render, Quote;
    var (m, others) := (members[0], members[1..]);
    var entry := Quote(m.key) + ":" + Render(m.value);
    QuoteDenotes(m.key);
    Unpadded(Quote(m.key), Str(m.key));
    RenderDenotes(m.value);
    Unpadded(Render(m.value), m.value);
    MemberCons(Quote(m.key), m.key, Render(m.value), m.value);
    if |members| > 1 {
      MembersDenote(others);
      MembersCons(entry, m, RenderMembers(others), others);
      assert members == [m] + others;
      EntryThenMore(Quote(m.key), Render(m.value), "," + RenderMembers(others));
      assert entry + ("," + RenderMembers(others)) == entry + "," + RenderMembers(others);
    } else {
      EntryThenMore(Quote(m.key), Render(m.value), "");
      assert entry + "" == entry;
    }
  }

  // ----- the round trip

  /** Parsing the printed text gives the value back and leaves what follows untouched. */
  lemma ParseOfRender(v: Json, rest: string)
    requires WellFormed(v) && NumberEnds(rest)
    ensures ParseValue(Render(v) + rest) == Success((v, rest))
  {
    RenderDenotes(v);
    ValueParsed(Render(v), v, rest);
  }

  /** json.loads undoes the compact printer. */
  lemma LoadsOfRender(v: Json)
    requires WellFormed(v)
    ensures Loads(Render(v)) == Success(v)
  {
    hide Loads, Render, Denotes;
    RenderDenotes(v);
    Unpadded(Render(v), v);
    LoadsIffDenotes(Render(v), v);
  }
}
