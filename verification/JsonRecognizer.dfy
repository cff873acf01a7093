/** The parser reads exactly the texts of the JSON grammar, each as the value it stands for. */
module JsonRecognizer {
  import opened Common
  import opened Decimal
  import opened JsonNumber
  import opened JsonString
  import opened Json
  import opened JsonGrammar

  // ----- numbers

  lemma {:induction false} DigitRunStops(digits: string, rest: string)
    requires AllDigits(digits) && (rest == "" || !IsDigit(rest[0]))
    ensures DigitRun(digits + rest) == |digits|
  {
    if digits == "" {
      assert digits + rest == rest;
    } else {
      DigitRunStops(digits[1..], rest);
      assert (digits + rest)[1..] == digits[1..] + rest;
    }
  }

  lemma ExponentScanned(exponent: string)
    requires IsExponent(exponent)
    ensures ExponentPart(exponent) == |exponent|
  {
    if exponent != "" {
      var signed := if |exponent| >= 2 && exponent[1] in "+-" then 2 else 1;
      DigitRunStops(exponent[signed..], "");
      assert exponent[signed..] + "" == exponent[signed..];
      assert exponent[1..] != "" && exponent[1..][0] == exponent[1];
      assert signed == 2 ==> exponent[1..][1..] == exponent[2..];
    }
  }

  lemma FloatScanned(fraction: string, exponent: string)
    requires IsFraction(fraction) && IsExponent(exponent)
    ensures FloatPart(fraction + exponent) == |fraction + exponent|
  {
    var s := fraction + exponent;
    if fraction != "" {
      DigitRunStops(fraction[1..], exponent);
      assert s[1..] == fraction[1..] + exponent;
    }
    assert FractionPart(s) == |fraction|;
    assert s[|fraction|..] == exponent;
    ExponentScanned(exponent);
  }

  lemma UnsignedScanned(t: string, whole: string, fraction: string, exponent: string)
    requires IsUnsigned(t, whole, fraction, exponent)
    ensures ScanUnsigned(t) == Some((|t|, fraction + exponent != ""))
    ensures fraction + exponent == "" ==> t == whole
  {
    var more := fraction + exponent;
    assert more == "" || !IsDigit(more[0]);
    DigitRunStops(whole, more);
    assert IntegerPart(t) == |whole|;
    assert t[|whole|..] == more;
    FloatScanned(fraction, exponent);
  }

  lemma UnsignedIsWhole(u: string, whole: string, fraction: string, exponent: string)
    requires IsUnsigned(u, whole, fraction, exponent)
    ensures AllDigits(whole) && u != "" && IsDigit(u[0])
    ensures fraction + exponent == "" ==> u == whole
  {
  }

  lemma TokenScanned(t: string, v: Json, whole: string, fraction: string, exponent: string)
    requires IsNumberOf(t, v, whole, fraction, exponent)
    ensures ScanNumber(t) == Some((|t|, v.Real?))
    ensures v == if v.Real? then Real(t) else Int(IntValue(t))
    ensures t != "" && (t[0] == '-' || IsDigit(t[0]))
  {
    hide ScanUnsigned, NatValue, IsUnsigned;
    var u := if IsNegative(t) then t[1..] else t;
    UnsignedScanned(u, whole, fraction, exponent);
    UnsignedIsWhole(u, whole, fraction, exponent);
  }

  /** A number of the grammar is scanned as a whole, with its value. */
  lemma NumberParsed(t: string, v: Json, rest: string)
    requires IsNumber(t, v) && NumberEnds(rest)
    ensures ParseNumber(t + rest) == Success((v, rest))
    ensures t != "" && (t[0] == '-' || IsDigit(t[0]))
  {
    hide IsNumberOf, ScanNumber, IntValue;
    var whole, fraction, exponent :| IsNumberOf(t, v, whole, fraction, exponent);
    TokenScanned(t, v, whole, fraction, exponent);
    ScanNumberLocal(t, rest);
    assert (t + rest)[..|t|] == t && (t + rest)[|t|..] == rest;
  }

  lemma ExponentFound(s: string)
    ensures IsExponent(s[..ExponentPart(s)])
  {
    var n := ExponentPart(s);
    var e := s[..n];
    if n > 0 {
      var signed := if |s| >= 2 && s[1] in "+-" then 2 else 1;
      assert e[signed..] == s[signed..][..DigitRun(s[signed..])];
      assert IsDigits(e[signed..]);
      if signed == 2 {
        assert e[1..][0] == s[1] && e[1..][1..] == e[2..];
      }
    }
  }

  lemma FractionFound(s: string)
    ensures IsFraction(s[..FractionPart(s)])
  {
    var n := FractionPart(s);
    if n > 0 {
      assert s[..n][1..] == s[1..][..DigitRun(s[1..])];
      assert s[1..][0] == s[1];
    }
  }

  lemma WholeFound(s: string)
    ensures IntegerPart(s) > 0 ==> IsWhole(s[..IntegerPart(s)])
  {
  }

  lemma TakeMore(s: string, w: nat, k: nat)
    requires w + k <= |s|
    ensures s[..w + k] == s[..w] + s[w..][..k]
  {
  }

  lemma UnsignedFound(s: string) returns (whole: string, fraction: string, exponent: string)
    requires ScanUnsigned(s).Some?
    ensures IsUnsigned(s[..ScanUnsigned(s).value.0], whole, fraction, exponent)
    ensures ScanUnsigned(s).value.1 <==> fraction + exponent != ""
    ensures fraction + exponent == "" ==> s[..ScanUnsigned(s).value.0] == whole
  {
    WholeFound(s);
    hide FractionPart, ExponentPart, IsFraction, IsExponent, IntegerPart, IsWhole;
    var w := IntegerPart(s);
    var more := s[w..];
    var f := FractionPart(more);
    whole, fraction, exponent := s[..w], more[..f], more[f..][..ExponentPart(more[f..])];
    FractionFound(more);
    ExponentFound(more[f..]);
    assert fraction + exponent == more[..FloatPart(more)];
    TakeMore(s, w, FloatPart(more));
  }

  /** A scanned number is a number of the grammar. */
  lemma NumberFound(s: string) returns (t: string)
    ensures ParseNumber(s).Success? ==> s == t + ParseNumber(s).value.1 && IsNumber(t, ParseNumber(s).value.0)
  {
    hide ScanUnsigned, IsUnsigned;
    t := "";
    if ParseNumber(s).Success? {
      var len := ScanNumber(s).value.0;
      t := s[..len];
      assert t[0] == s[0];
      var u := if IsNegative(s) then s[1..] else s;
      var whole, fraction, exponent := UnsignedFound(u);
      assert (if IsNegative(t) then t[1..] else t) == u[..ScanUnsigned(u).value.0];
      assert IsNumberOf(t, ParseNumber(s).value.0, whole, fraction, exponent);
    }
  }

  // ----- strings

  lemma HexDigitIff(c: char, d: nat)
    ensures IsHexDigit(c, d) <==> HexValue(c) == Some(d)
  {
    if d < 10 {
      DigitAmongSixteen(d);
    }
  }

  lemma DigitAmongSixteen(d: nat)
    requires d < 16
    ensures "0123456789abcdef"[d] as int == if d < 10 then 0x30 + d else 0x57 + d
    ensures "0123456789ABCDEF"[d] as int == if d < 10 then 0x30 + d else 0x37 + d
  {
  }

  lemma Hex4Iff(s: string, n: nat)
    requires |s| >= 4
    ensures IsHex4(s[..4], n) <==> Hex4Value(s) == Some(n)
  {
    hide IsHexDigit, HexValue;
    forall c: char, d: nat ensures IsHexDigit(c, d) <==> HexValue(c) == Some(d) {
      HexDigitIff(c, d);
    }
    var u := s[..4];
    assert u[0] == s[0] && u[1] == s[1] && u[2] == s[2] && u[3] == s[3];
    if Hex4Value(s) == Some(n) {
      var (a, b, c, d) := (HexValue(s[0]).value, HexValue(s[1]).value, HexValue(s[2]).value, HexValue(s[3]).value);
      assert IsHexDigit(u[0], a) && IsHexDigit(u[1], b) && IsHexDigit(u[2], c) && IsHexDigit(u[3], d);
    }
  }

  /** A unit is an ordinary character, or a backslash and what the escape scanner reads. */
  lemma UnitScanned(u: string, c: char, tail: string)
    ensures IsUnit(u, c) ==> u != "" && (u[0] != '\\' ==> u == [c] && c != '\"' && c >= ' ')
    ensures IsUnit(u, c) ==> u[0] == '\\' ==> ScanEscape(u[1..] + tail) == Success((c, tail))
  {
    if IsUnit(u, c) {
      if |u| == 2 {
        ShortUnitScanned(u, c, tail);
      } else if |u| == 6 {
        LongUnitScanned(u, c, tail);
      } else if |u| == 12 {
        PairScanned(u, c, tail);
      }
    }
  }

  lemma ShortUnitScanned(u: string, c: char, tail: string)
    ensures IsUnit(u, c) && |u| == 2 ==> u[0] == '\\' && ScanEscape(u[1..] + tail) == Success((c, tail))
  {
    if IsUnit(u, c) && |u| == 2 {
      assert (u[1..] + tail)[0] == u[1] && (u[1..] + tail)[1..] == tail;
    }
  }

  lemma LongUnitScanned(u: string, c: char, tail: string)
    ensures IsUnit(u, c) && |u| == 6 ==> u[0] == '\\' && ScanEscape(u[1..] + tail) == Success((c, tail))
  {
    hide IsHex4, Hex4Value;
    if IsUnit(u, c) && |u| == 6 {
      assert u[..2][0] == u[0] && u[..2][1] == u[1];
      var s := u[1..] + tail;
      assert s[0] == 'u' && s[1..] == u[2..] + tail;
      assert s[1..][..4] == u[2..] && s[1..][4..] == tail;
      Hex4Iff(s[1..], c as int);
    }
  }

  lemma PairScanned(u: string, c: char, tail: string)
    ensures IsUnit(u, c) && |u| == 12 ==> u[0] == '\\' && ScanEscape(u[1..] + tail) == Success((c, tail))
  {
    hide IsHex4, Hex4Value;
    if IsUnit(u, c) && |u| == 12 {
      assert u[..2][0] == u[0] && u[..2][1] == u[1];
      assert u[6..8][0] == u[6] && u[6..8][1] == u[7];
      var s := (u[1..] + tail)[1..];
      var high: nat, low: nat :|
        && IsHex4(u[2..6], high) && IsHex4(u[8..], low)
        && 0xD800 <= high < 0xDC00 && 0xDC00 <= low < 0xE000
        && c as int == 0x10000 + (high - 0xD800) * 0x400 + (low - 0xDC00);
      assert s[..4] == u[2..6] && s[6..][..4] == u[8..] && s[10..] == tail;
      assert s[4] == u[6] && s[5] == u[7];
      Hex4Iff(s, high);
      Hex4Iff(s[6..], low);
    }
  }

  /** The contents of a string literal are scanned to its closing quote. */
  lemma {:induction false} StringParsed(t: string, s: string, rest: string)
    ensures Spells(t, s) ==> ScanString(t + "\"" + rest) == Success((s, rest))
    decreases |t|
  {
    hide ScanString, IsUnit, ScanEscape;
    if Spells(t, s) {
      var text := t + "\"" + rest;
      if s == "" {
        ClosingQuote(rest);
        assert text == "\"" + rest;
      } else {
        var n: nat :| 0 < n <= |t| && IsUnit(t[..n], s[0]) && Spells(t[n..], s[1..]);
        var tail := t[n..] + "\"" + rest;
        StringParsed(t[n..], s[1..], rest);
        UnitScanned(t[..n], s[0], tail);
        UnitThenRest(t[..n], s[0], text, tail);
        assert text == t[..n] + tail;
        assert s == [s[0]] + s[1..];
      }
    }
  }

  lemma ClosingQuote(rest: string)
    ensures ScanString("\"" + rest) == Success(("", rest))
  {
    assert ("\"" + rest)[1..] == rest;
  }

  lemma UnitThenRest(u: string, c: char, text: string, tail: string)
    requires text == u + tail && u != "" && ScanString(tail).Success?
    requires u[0] != '\\' ==> u == [c] && c != '\"' && c >= ' '
    requires u[0] == '\\' ==> ScanEscape(u[1..] + tail) == Success((c, tail))
    ensures ScanString(text) == Success(([c] + ScanString(tail).value.0, ScanString(tail).value.1))
  {
    hide ScanEscape;
    assert text[0] == u[0] && text[1..] == u[1..] + tail;
    assert u[0] != '\\' ==> text[1..] == tail;
  }

  /** What the escape scanner reads after a backslash makes a unit with it. */
  lemma EscapeFound(s: string) returns (u: string)
    ensures ScanEscape(s).Success? ==>
              "\\" + s == u + ScanEscape(s).value.1 && IsUnit(u, ScanEscape(s).value.0) && u != ""
  {
    hide ScanEscape, ScanUnicodeEscape, IsUnit;
    u := "";
    if ScanEscape(s).Success? {
      LongOrShort(s);
      assert s == [s[0]] + s[1..];
      if s[0] == 'u' {
        u := UnicodeFound(s[1..]);
        assert "\\" + s == "\\u" + s[1..];
      } else {
        ShortFound(s);
        u := ['\\', s[0]];
      }
    }
  }

  lemma LongOrShort(s: string)
    ensures s == "" ==> ScanEscape(s).Failure?
    ensures s != "" && s[0] == 'u' ==> ScanEscape(s) == ScanUnicodeEscape(s[1..])
  {
    hide ScanUnicodeEscape;
  }

  lemma ShortFound(s: string)
    ensures ScanEscape(s).Success? && s[0] != 'u' ==>
              ScanEscape(s).value.1 == s[1..] && IsUnit(['\\', s[0]], ScanEscape(s).value.0)
  {
    hide ScanUnicodeEscape, IsHex4, IsSurrogatePair;
  }

  lemma UnicodeFound(s: string) returns (u: string)
    ensures ScanUnicodeEscape(s).Success? ==>
              "\\u" + s == u + ScanUnicodeEscape(s).value.1 && IsUnit(u, ScanUnicodeEscape(s).value.0) && u != ""
  {
    hide IsHex4, Hex4Value;
    u := "";
    if ScanUnicodeEscape(s).Success? {
      var high := Hex4Value(s).value;
      Hex4Iff(s, high);
      if high < 0xD800 || high >= 0xE000 {
        u := "\\u" + s[..4];
        assert u[..2] == "\\u" && u[2..] == s[..4];
        assert s == s[..4] + s[4..];
      } else {
        var low := Hex4Value(s[6..]).value;
        Hex4Iff(s[6..], low);
        u := "\\u" + s[..10];
        assert u[..2] == "\\u" && u[2..6] == s[..4] && u[6..8] == "\\u" && u[8..] == s[6..][..4];
        assert s == s[..10] + s[10..];
        assert IsSurrogatePair(u, 0x10000 + (high - 0xD800) * 0x400 + (low - 0xDC00));
      }
    }
  }

  lemma SpellsOneMore(u: string, c: char, t: string, s: string)
    requires u != "" && IsUnit(u, c) && Spells(t, s)
    ensures Spells(u + t, [c] + s)
  {
    hide IsUnit;
    var n := |u|;
    assert (u + t)[..n] == u && (u + t)[n..] == t;
    assert ([c] + s)[0] == c && ([c] + s)[1..] == s;
  }

  /** A scanned string literal is one of the grammar. */
  lemma {:induction false} StringFound(s: string) returns (t: string)
    ensures ScanString(s).Success? ==> s == t + "\"" + ScanString(s).value.1 && Spells(t, ScanString(s).value.0)
    decreases |s|
  {
    hide ScanEscape, IsUnit;
    t := "";
    if ScanString(s).Success? {
      if s[0] == '\"' {
        t := "";
        assert s == "" + "\"" + s[1..];
      } else {
        var c, tail, u := s[0], s[1..], [s[0]];
        if s[0] == '\\' {
          c, tail := ScanEscape(s[1..]).value.0, ScanEscape(s[1..]).value.1;
          u := EscapeFound(s[1..]);
          assert s == "\\" + s[1..];
        } else {
          OrdinaryIsUnit(c);
          assert s == [s[0]] + s[1..];
        }
        var more := StringFound(tail);
        SpellsOneMore(u, c, more, ScanString(tail).value.0);
        t := u + more;
        assert s == u + (more + "\"" + ScanString(tail).value.1);
      }
    }
  }

  lemma OrdinaryIsUnit(c: char)
    requires c >= ' ' && c != '\"' && c != '\\'
    ensures IsUnit([c], c)
  {
  }

  // ----- whitespace

  lemma SpaceCodes(c: char)
    ensures IsSpace(c) <==> c as int in {0x20, 0x09, 0x0A, 0x0D}
  {
  }

  lemma {:induction false} SkipBlank(blank: string, s: string)
    requires IsBlank(blank) && (s == "" || !IsSpace(s[0]))
    ensures SkipSpace(blank + s) == s
  {
    hide IsSpace;
    if blank == "" {
      assert blank + s == s;
    } else {
      SpaceCodes(blank[0]);
      SkipBlank(blank[1..], s);
      assert (blank + s)[1..] == blank[1..] + s;
    }
  }

  lemma {:induction false} SkipFound(s: string) returns (blank: string)
    ensures s == blank + SkipSpace(s) && IsBlank(blank)
    ensures SkipSpace(s) == "" || !IsSpace(SkipSpace(s)[0])
  {
    hide IsSpace;
    blank := "";
    if s != "" && IsSpace(s[0]) {
      SpaceCodes(s[0]);
      var more := SkipFound(s[1..]);
      blank := [s[0]] + more;
      assert s == [s[0]] + s[1..];
    }
  }

  lemma BlankEndsNumber(blank: string, after: string)
    requires IsBlank(blank) && NumberEnds(after)
    ensures NumberEnds(blank + after)
  {
    assert blank == "" ==> blank + after == after;
  }

  /** What can follow a value inside another one, or at the end. */
  ghost predicate Follows(after: string) {
    after == "" || after[0] == ',' || after[0] == ':' || after[0] == ']' || after[0] == '}'
  }

  lemma FollowsEnds(after: string)
    requires Follows(after)
    ensures NumberEnds(after) && (after == "" || !IsSpace(after[0]))
  {
  }

  // ----- every text of the grammar is read

  /** How a value can begin. */
  predicate Opening(c: char) {
    c in "ntf\"[{-" || '0' <= c <= '9'
  }

  lemma SkipNoSpace(s: string)
    requires s != "" && Opening(s[0])
    ensures SkipSpace(s) == s
    ensures !StartsWith(s, "]") && !StartsWith(s, "}")
  {
  }

  lemma Drop1(c: char, s: string)
    ensures ([c] + s)[1..] == s
  {
  }

  lemma StartsLike(s: string, word: string)
    requires word != ""
    ensures StartsWith(s, word) ==> s[0] == word[0]
  {
    if StartsWith(s, word) {
      assert s[..|word|][0] == s[0];
    }
  }

  lemma NumberOpens(s: string)
    requires ScanNumber(s).Some?
    ensures s != "" && s[0] != '\"' && s[0] != '{' && s[0] != '['
    ensures !StartsWith(s, "null") && !StartsWith(s, "true") && !StartsWith(s, "false")
  {
    assert s[0] == '-' || '0' <= s[0] <= '9';
    StartsLike(s, "null");
    StartsLike(s, "true");
    StartsLike(s, "false");
  }

  lemma ParseValueOfNumber(s: string)
    requires ScanNumber(s).Some?
    ensures ParseValue(s) == ParseNumber(s)
  {
    NumberOpens(s);
  }

  lemma WordParsed(t: string, v: Json, rest: string)
    requires (v == Null && t == "null") || (v == Bool(true) && t == "true") || (v == Bool(false) && t == "false")
    ensures ParseValue(t + rest) == Success((v, rest))
  {
    assert (t + rest)[..|t|] == t && (t + rest)[|t|..] == rest;
  }

  lemma DenotesOpens(t: string, v: Json)
    ensures Denotes(t, v) ==> t != "" && Opening(t[0])
  {
    if Denotes(t, v) {
      if v.Int? || v.Real? {
        NumberParsed(t, v, "");
      }
    }
  }

  lemma QuotedParsed(t: string, s: string, rest: string)
    ensures Denotes(t, Str(s)) ==> ParseValue(t + rest) == Success((Str(s), rest))
  {
    hide ScanString, Spells, ParseItems, ParseMembers, ParseNumber, StartsWith;
    if Denotes(t, Str(s)) {
      var body := t[1..|t| - 1];
      StringParsed(body, s, rest);
      Brackets(t, rest);
      assert body + "\"" + rest == body + (['\"'] + rest);
    }
  }

  lemma NumberValueParsed(t: string, v: Json, rest: string)
    requires IsNumber(t, v) && NumberEnds(rest)
    ensures ParseValue(t + rest) == Success((v, rest))
  {
    hide IsNumber, ParseValue;
    NumberParsed(t, v, rest);
    ParseValueOfNumber(t + rest);
  }

  /** One opening bracket, what stands inside, and one closing bracket. */
  lemma Brackets(t: string, rest: string)
    requires |t| >= 2
    ensures (t + rest)[0] == t[0]
    ensures (t + rest)[1..] == t[1..|t| - 1] + ([t[|t| - 1]] + rest)
  {
  }

  lemma EmptyParsed(t: string, open: char, close: char, rest: string)
    requires |t| >= 2 && t[0] == open && t[|t| - 1] == close && IsBlank(t[1..|t| - 1])
    ensures open == '[' && close == ']' ==> ParseValue(t + rest) == Success((Array([]), rest))
    ensures open == '{' && close == '}' ==> ParseValue(t + rest) == Success((Object([]), rest))
  {
    Brackets(t, rest);
    if close == ']' || close == '}' {
      SkipBlank(t[1..|t| - 1], [close] + rest);
    }
  }

  lemma ArrayFromItems(t: string, items: seq<Json>, rest: string)
    requires |t| >= 2 && t[0] == '[' && t[|t| - 1] == ']'
    ensures var inner := SkipSpace(t[1..|t| - 1] + ("]" + rest));
            inner != "" && Opening(inner[0]) && ParseItems(inner) == Success((items, rest)) ==>
              ParseValue(t + rest) == Success((Array(items), rest))
  {
    hide ParseItems, SkipSpace;
    Brackets(t, rest);
    var inner := SkipSpace(t[1..|t| - 1] + ("]" + rest));
    if inner != "" && Opening(inner[0]) {
      SkipNoSpace(inner);
    }
  }

  lemma ObjectFromMembers(t: string, pairs: seq<Member>, rest: string)
    requires |t| >= 2 && t[0] == '{' && t[|t| - 1] == '}'
    ensures var inner := SkipSpace(t[1..|t| - 1] + ("}" + rest));
            inner != "" && Opening(inner[0]) && ParseMembers(inner) == Success((pairs, rest)) ==>
              ParseValue(t + rest) == Success((Object(DictOf(pairs)), rest))
  {
    hide ParseMembers, SkipSpace;
    Brackets(t, rest);
    var inner := SkipSpace(t[1..|t| - 1] + ("}" + rest));
    if inner != "" && Opening(inner[0]) {
      SkipNoSpace(inner);
    }
  }

  /** A text of the grammar is read as the value it stands for, up to what follows. */
  lemma {:induction false} ValueParsed(t: string, v: Json, rest: string)
    requires Denotes(t, v) && NumberEnds(rest)
    ensures ParseValue(t + rest) == Success((v, rest))
    decreases |t|, 0
  {
    hide ParseValue, IsNumber, Spells, DenotesItems, DenotesMembers, SkipSpace, NumberEnds;
    match v
    case Null => WordParsed(t, v, rest);
    case Bool(b) => WordParsed(t, v, rest);
    case Int(_) => NumberValueParsed(t, v, rest);
    case Real(_) => NumberValueParsed(t, v, rest);
    case Str(s) => QuotedParsed(t, s, rest);
    case Array(items) =>
      if items == [] {
        EmptyParsed(t, '[', ']', rest);
      } else {
        ItemsParsed(t[1..|t| - 1], items, rest);
        ArrayFromItems(t, items, rest);
      }
    case Object(members) =>
      var pairs: seq<Member> :| members == DictOf(pairs) && IsBody(t[1..|t| - 1], pairs);
      if pairs == [] {
        EmptyParsed(t, '{', '}', rest);
      } else {
        MembersParsed(t[1..|t| - 1], pairs, rest);
        ObjectFromMembers(t, pairs, rest);
      }
  }

  /** With whitespace around it, too. */
  lemma {:induction false} PaddedParsed(t: string, v: Json, after: string)
    requires Follows(after)
    ensures DenotesPadded(t, v) ==>
              var s := SkipSpace(t + after);
              s != "" && Opening(s[0]) && ReadBefore(s, v, after)
    decreases |t|, 1
  {
    hide ParseValue, SkipSpace, Denotes, Opening, IsSpace, NumberEnds, IsBlank;
    if DenotesPadded(t, v) {
      var i: nat, j: nat :| i <= j <= |t| && IsBlank(t[..i]) && IsBlank(t[j..]) && Denotes(t[i..j], v);
      var (before, x, behind) := (t[..i], t[i..j], t[j..]);
      var s := x + (behind + after);
      DenotesOpens(x, v);
      OpeningIsNoSpace(x[0]);
      FollowsEnds(after);
      BlankEndsNumber(behind, after);
      ThreePieces(t, i, j, after);
      assert s[0] == x[0];
      SkipBlank(before, s);
      ValueParsed(x, v, behind + after);
      SkipBlank(behind, after);
    }
  }

  lemma ThreePieces(t: string, i: nat, j: nat, after: string)
    requires i <= j <= |t|
    ensures t + after == t[..i] + (t[i..j] + (t[j..] + after))
  {
  }

  lemma OpeningIsNoSpace(c: char)
    requires Opening(c)
    ensures !IsSpace(c)
  {
  }

  /** The value is read, and this is left behind it and the whitespace that follows. */
  ghost predicate ReadBefore(s: string, v: Json, after: string) {
    ParseValue(s).Success? && ParseValue(s).value.0 == v && SkipSpace(ParseValue(s).value.1) == after
  }

  lemma LastItemParsed(s: string, item: Json, rest: string)
    ensures ReadBefore(s, item, "]" + rest) ==> ParseItems(s) == Success(([item], rest))
  {
    hide ParseValue, SkipSpace;
    Drop1(']', rest);
  }

  lemma NextItemParsed(s: string, item: Json, more: string)
    ensures ReadBefore(s, item, "," + more) && ParseItems(SkipSpace(more)).Success? ==>
              var (items, rest) := ParseItems(SkipSpace(more)).value;
              ParseItems(s) == Success(([item] + items, rest))
  {
    hide ParseValue, SkipSpace;
    Drop1(',', more);
  }

  lemma CommaSplit(t: string, n: nat, close: string, rest: string)
    requires n < |t|
    ensures t + (close + rest) == t[..n] + ([t[n]] + (t[n + 1..] + (close + rest)))
  {
  }

  lemma {:induction false} ItemsParsed(t: string, items: seq<Json>, rest: string)
    ensures items != [] && DenotesItems(t, items) ==>
              var s := SkipSpace(t + ("]" + rest));
              s != "" && Opening(s[0]) && ParseItems(s) == Success((items, rest))
    decreases |t|, 2
  {
    hide ParseValue, ParseItems, SkipSpace, Opening, DenotesPadded;
    if items != [] && DenotesItems(t, items) {
      var s := SkipSpace(t + ("]" + rest));
      if |items| == 1 {
        PaddedParsed(t, items[0], "]" + rest);
        LastItemParsed(s, items[0], rest);
        assert items == [items[0]];
      } else {
        var n: nat :|
          n < |t| && t[n] == ',' && DenotesPadded(t[..n], items[0]) && DenotesItems(t[n + 1..], items[1..]);
        var more := t[n + 1..] + ("]" + rest);
        PaddedParsed(t[..n], items[0], "," + more);
        CommaSplit(t, n, "]", rest);
        ItemsParsed(t[n + 1..], items[1..], rest);
        NextItemParsed(s, items[0], more);
        assert items == [items[0]] + items[1..];
      }
    }
  }

  lemma TextHasQuote(s: string, key: string)
    ensures ParseValue(s).Success? && ParseValue(s).value.0 == Str(key) ==>
              s[0] == '\"' && ScanString(s[1..]) == Success((key, ParseValue(s).value.1))
  {
    hide ScanString, ParseItems, ParseMembers, ParseNumber;
    NumberIsNoText(s);
  }

  lemma NumberIsNoText(s: string)
    ensures ParseNumber(s).Success? ==> !ParseNumber(s).value.0.Str?
  {
  }

  /** A key, a colon and a value, as the member parser goes on with them. */
  ghost predicate KeyRead(s: string, m: Member, afterValue: string) {
    && ParseValue(s).Success? && ParseValue(s).value.0 == Str(m.key)
    && var colon := SkipSpace(ParseValue(s).value.1);
       && StartsWith(colon, ":")
       && ParseValue(SkipSpace(colon[1..])).Success?
       && ParseValue(SkipSpace(colon[1..])).value.0 == m.value
       && SkipSpace(ParseValue(SkipSpace(colon[1..])).value.1) == afterValue
  }

  lemma StartsWithFirst(c: char, s: string)
    ensures StartsWith([c] + s, [c]) && ([c] + s)[1..] == s
  {
  }

  lemma LastMemberParsed(s: string, m: Member, rest: string)
    ensures KeyRead(s, m, "}" + rest) ==> ParseMembers(s) == Success(([m], rest))
  {
    hide ParseValue, SkipSpace, ScanString;
    TextHasQuote(s, m.key);
    StartsWithFirst('}', rest);
  }

  lemma NextMemberParsed(s: string, m: Member, more: string)
    ensures KeyRead(s, m, "," + more) && ParseMembers(SkipSpace(more)).Success? ==>
              var (pairs, rest) := ParseMembers(SkipSpace(more)).value;
              ParseMembers(s) == Success(([m] + pairs, rest))
  {
    hide ParseValue, SkipSpace, ScanString;
    TextHasQuote(s, m.key);
    StartsWithFirst(',', more);
  }

  lemma {:induction false} MemberParsed(t: string, m: Member, after: string)
    ensures DenotesMember(t, m) && Follows(after) ==>
              var s := SkipSpace(t + after);
              s != "" && Opening(s[0]) && KeyRead(s, m, after)
    decreases |t|, 2
  {
    hide ParseValue, SkipSpace, Opening, DenotesPadded;
    if DenotesMember(t, m) && Follows(after) {
      var n: nat :|
        n < |t| && t[n] == ':' && DenotesPadded(t[..n], Str(m.key)) && DenotesPadded(t[n + 1..], m.value);
      var value := t[n + 1..] + after;
      assert Follows(":" + value);
      PaddedParsed(t[..n], Str(m.key), ":" + value);
      PaddedParsed(t[n + 1..], m.value, after);
      assert t + after == t[..n] + (":" + value);
      StartsWithFirst(':', value);
    }
  }

  lemma OneMember(t: string, pairs: seq<Member>)
    ensures |pairs| == 1 && DenotesMembers(t, pairs) ==> DenotesMember(t, pairs[0])
  {
    hide DenotesMember;
  }

  lemma FirstComma(t: string, pairs: seq<Member>) returns (n: nat)
    requires |pairs| > 1 && DenotesMembers(t, pairs)
    ensures n < |t| && t[n] == ',' && DenotesMember(t[..n], pairs[0]) && DenotesMembers(t[n + 1..], pairs[1..])
  {
    hide DenotesMember;
    n :| n < |t| && t[n] == ',' && DenotesMember(t[..n], pairs[0]) && DenotesMembers(t[n + 1..], pairs[1..]);
  }

  lemma {:induction false} MembersParsed(t: string, pairs: seq<Member>, rest: string)
    ensures pairs != [] && DenotesMembers(t, pairs) ==>
              var s := SkipSpace(t + ("}" + rest));
              s != "" && Opening(s[0]) && ParseMembers(s) == Success((pairs, rest))
    decreases |t|, 3
  {
    hide ParseMembers, SkipSpace, Opening, DenotesMember, DenotesMembers, KeyRead;
    if pairs != [] && DenotesMembers(t, pairs) {
      var s := SkipSpace(t + ("}" + rest));
      if |pairs| == 1 {
        OneMember(t, pairs);
        MemberParsed(t, pairs[0], "}" + rest);
        LastMemberParsed(s, pairs[0], rest);
        assert pairs == [pairs[0]];
      } else {
        var n := FirstComma(t, pairs);
        var more := t[n + 1..] + ("}" + rest);
        MemberParsed(t[..n], pairs[0], "," + more);
        CommaSplit(t, n, "}", rest);
        MembersParsed(t[n + 1..], pairs[1..], rest);
        NextMemberParsed(s, pairs[0], more);
        assert pairs == [pairs[0]] + pairs[1..];
      }
    }
  }

  // ----- every text that is read belongs to the grammar

  lemma PaddedBehind(x: string, v: Json, blank: string)
    ensures Denotes(x, v) && IsBlank(blank) ==> DenotesPadded(x + blank, v)
  {
    hide Denotes;
    if Denotes(x, v) && IsBlank(blank) {
      var t := x + blank;
      assert t[..0] == "" && t[0..|x|] == x && t[|x|..] == blank;
    }
  }

  lemma PaddedBefore(blank: string, t: string, v: Json)
    ensures IsBlank(blank) && DenotesPadded(t, v) ==> DenotesPadded(blank + t, v)
  {
    hide Denotes;
    if IsBlank(blank) && DenotesPadded(t, v) {
      var i: nat, j: nat :| i <= j <= |t| && IsBlank(t[..i]) && IsBlank(t[j..]) && Denotes(t[i..j], v);
      var (s, n) := (blank + t, |blank|);
      assert s[..n + i] == blank + t[..i] && s[n + j..] == t[j..] && s[n + i..n + j] == t[i..j];
    }
  }

  lemma ItemsBefore(blank: string, t: string, items: seq<Json>)
    ensures IsBlank(blank) && items != [] && DenotesItems(t, items) ==> DenotesItems(blank + t, items)
  {
    hide DenotesPadded, IsBlank;
    if IsBlank(blank) && items != [] && DenotesItems(t, items) {
      if |items| == 1 {
        PaddedBefore(blank, t, items[0]);
      } else {
        var n: nat :|
          n < |t| && t[n] == ',' && DenotesPadded(t[..n], items[0]) && DenotesItems(t[n + 1..], items[1..]);
        PaddedBefore(blank, t[..n], items[0]);
        var (s, k) := (blank + t, |blank| + n);
        assert s[..k] == blank + t[..n] && s[k] == ',' && s[k + 1..] == t[n + 1..];
      }
    }
  }

  lemma MemberBefore(blank: string, t: string, m: Member)
    ensures IsBlank(blank) && DenotesMember(t, m) ==> DenotesMember(blank + t, m)
  {
    hide DenotesPadded, IsBlank;
    if IsBlank(blank) && DenotesMember(t, m) {
      var n: nat :|
        n < |t| && t[n] == ':' && DenotesPadded(t[..n], Str(m.key)) && DenotesPadded(t[n + 1..], m.value);
      PaddedBefore(blank, t[..n], Str(m.key));
      var (s, k) := (blank + t, |blank| + n);
      assert s[..k] == blank + t[..n] && s[k] == ':' && s[k + 1..] == t[n + 1..];
    }
  }

  lemma MembersBefore(blank: string, t: string, pairs: seq<Member>)
    ensures IsBlank(blank) && pairs != [] && DenotesMembers(t, pairs) ==> DenotesMembers(blank + t, pairs)
  {
    hide DenotesMember, IsBlank;
    if IsBlank(blank) && pairs != [] && DenotesMembers(t, pairs) {
      if |pairs| == 1 {
        MemberBefore(blank, t, pairs[0]);
      } else {
        var n: nat :|
          n < |t| && t[n] == ',' && DenotesMember(t[..n], pairs[0]) && DenotesMembers(t[n + 1..], pairs[1..]);
        MemberBefore(blank, t[..n], pairs[0]);
        var (s, k) := (blank + t, |blank| + n);
        assert s[..k] == blank + t[..n] && s[k] == ',' && s[k + 1..] == t[n + 1..];
      }
    }
  }

  lemma ItemsCons(t: string, item: Json, more: string, items: seq<Json>)
    requires items != []
    ensures DenotesPadded(t, item) && DenotesItems(more, items) ==> DenotesItems(t + "," + more, [item] + items)
  {
    hide DenotesPadded;
    var (s, n) := (t + "," + more, |t|);
    assert s[..n] == t && s[n] == ',' && s[n + 1..] == more;
    assert ([item] + items)[1..] == items;
  }

  lemma MembersCons(t: string, m: Member, more: string, pairs: seq<Member>)
    requires pairs != []
    ensures DenotesMember(t, m) && DenotesMembers(more, pairs) ==> DenotesMembers(t + "," + more, [m] + pairs)
  {
    hide DenotesMember;
    var (s, n) := (t + "," + more, |t|);
    assert s[..n] == t && s[n] == ',' && s[n + 1..] == more;
    assert ([m] + pairs)[1..] == pairs;
  }

  lemma MemberCons(key: string, name: string, value: string, v: Json)
    ensures DenotesPadded(key, Str(name)) && DenotesPadded(value, v) ==>
              DenotesMember(key + ":" + value, Member(name, v))
  {
    hide DenotesPadded;
    var (s, n) := (key + ":" + value, |key|);
    assert s[..n] == key && s[n] == ':' && s[n + 1..] == value;
  }

  lemma QuotedDenotes(body: string, s: string)
    ensures Spells(body, s) ==> Denotes("\"" + body + "\"", Str(s))
  {
    hide Spells;
    if Spells(body, s) {
      var t := "\"" + body + "\"";
      assert t[1..|t| - 1] == body;
    }
  }

  lemma BracketedDenotes(inner: string, items: seq<Json>)
    requires if items == [] then IsBlank(inner) else DenotesItems(inner, items)
    ensures Denotes("[" + inner + "]", Array(items))
  {
    hide IsBlank, DenotesItems;
    var t := "[" + inner + "]";
    assert t[1..|t| - 1] == inner;
  }

  lemma BracedDenotes(inner: string, pairs: seq<Member>)
    requires IsBody(inner, pairs)
    ensures Denotes("{" + inner + "}", Object(DictOf(pairs)))
  {
    hide IsBody, DictOf;
    var t := "{" + inner + "}";
    assert t[1..|t| - 1] == inner;
  }

  lemma FirstIs(s: string, c: char)
    requires StartsWith(s, [c])
    ensures s == [c] + s[1..]
  {
    assert s[..1] == [c];
  }

  lemma WordFound(s: string, word: string)
    requires StartsWith(s, word)
    ensures s == word + s[|word|..]
  {
  }

  /** What is read as a value is a text of the grammar for that value. */
  lemma {:induction false} ValueFound(s: string) returns (t: string)
    ensures ParseValue(s).Success? ==> s == t + ParseValue(s).value.1 && Denotes(t, ParseValue(s).value.0)
    decreases |s|, 1
  {
    t := "";
    if ParseValue(s).Success? {
      if s[0] == '\"' {
        t := QuotedFound(s);
      } else if s[0] == '[' {
        t := ArrayFound(s);
      } else if s[0] == '{' {
        t := ObjectFound(s);
      } else {
        t := ScalarFound(s);
      }
    }
  }

  lemma QuotedFound(s: string) returns (t: string)
    ensures ParseValue(s).Success? && s[0] == '\"' ==>
              s == t + ParseValue(s).value.1 && Denotes(t, ParseValue(s).value.0)
  {
    hide ScanString, Spells;
    t := "";
    if ParseValue(s).Success? && s[0] == '\"' {
      var body := StringFound(s[1..]);
      QuotedDenotes(body, ScanString(s[1..]).value.0);
      t := "\"" + body + "\"";
      assert s == "\"" + s[1..];
    }
  }

  lemma ScalarFound(s: string) returns (t: string)
    ensures ParseValue(s).Success? && s[0] != '\"' && s[0] != '[' && s[0] != '{' ==>
              s == t + ParseValue(s).value.1 && Denotes(t, ParseValue(s).value.0)
  {
    hide ParseNumber, IsNumber;
    t := "";
    if ParseValue(s).Success? && s[0] != '\"' && s[0] != '[' && s[0] != '{' {
      if StartsWith(s, "null") {
        t := "null";
        WordFound(s, t);
      } else if StartsWith(s, "true") {
        t := "true";
        WordFound(s, t);
      } else if StartsWith(s, "false") {
        t := "false";
        WordFound(s, t);
      } else {
        t := NumberFound(s);
        NumberIsNoText(s);
        NumberKind(s);
      }
    }
  }

  lemma NumberKind(s: string)
    ensures ParseNumber(s).Success? ==> ParseNumber(s).value.0.Int? || ParseNumber(s).value.0.Real?
  {
  }

  lemma {:induction false} ArrayFound(s: string) returns (t: string)
    ensures ParseValue(s).Success? && s[0] == '[' ==>
              s == t + ParseValue(s).value.1 && Denotes(t, ParseValue(s).value.0)
    decreases |s|, 0
  {
    hide SkipSpace, ParseItems, Denotes, IsBlank, IsSpace;
    t := "";
    if ParseValue(s).Success? && s[0] == '[' {
      var blank := SkipFound(s[1..]);
      var inner := SkipSpace(s[1..]);
      assert s == "[" + s[1..];
      if StartsWith(inner, "]") {
        FirstIs(inner, ']');
        BracketedDenotes(blank, []);
        t := "[" + blank + "]";
      } else {
        var items := ParseItems(inner).value.0;
        var more := ItemsFound(inner);
        ItemsBefore(blank, more, items);
        BracketedDenotes(blank + more, items);
        t := "[" + (blank + more) + "]";
      }
    }
  }

  lemma {:induction false} ObjectFound(s: string) returns (t: string)
    ensures ParseValue(s).Success? && s[0] == '{' ==>
              s == t + ParseValue(s).value.1 && Denotes(t, ParseValue(s).value.0)
    decreases |s|, 0
  {
    hide SkipSpace, ParseMembers, Denotes, IsBlank, IsSpace;
    t := "";
    if ParseValue(s).Success? && s[0] == '{' {
      var blank := SkipFound(s[1..]);
      var inner := SkipSpace(s[1..]);
      assert s == "{" + s[1..];
      if StartsWith(inner, "}") {
        FirstIs(inner, '}');
        assert IsBody(blank, []);
        BracedDenotes(blank, []);
        t := "{" + blank + "}";
      } else {
        var pairs := ParseMembers(inner).value.0;
        var more := MembersFound(inner);
        MembersBefore(blank, more, pairs);
        assert IsBody(blank + more, pairs);
        BracedDenotes(blank + more, pairs);
        t := "{" + (blank + more) + "}";
      }
    }
  }

  lemma OneItem(t: string, item: Json)
    ensures DenotesPadded(t, item) ==> DenotesItems(t, [item])
  {
    hide DenotesPadded;
  }

  lemma {:induction false} ItemsFound(s: string) returns (t: string)
    ensures ParseItems(s).Success? ==> s == t + "]" + ParseItems(s).value.1
    ensures ParseItems(s).Success? ==> ParseItems(s).value.0 != [] && DenotesItems(t, ParseItems(s).value.0)
    decreases |s|, 2
  {
    hide SkipSpace, ParseValue, Denotes, DenotesPadded, DenotesItems, IsBlank, IsSpace;
    t := "";
    if ParseItems(s).Success? {
      var (item, afterItem) := ParseValue(s).value;
      var x := ValueFound(s);
      var blank := SkipFound(afterItem);
      var next := SkipSpace(afterItem);
      PaddedBehind(x, item, blank);
      if StartsWith(next, "]") {
        FirstIs(next, ']');
        t := x + blank;
        OneItem(t, item);
      } else {
        FirstIs(next, ',');
        var before := SkipFound(next[1..]);
        var more := ItemsFound(SkipSpace(next[1..]));
        var items := ParseItems(SkipSpace(next[1..])).value.0;
        ItemsBefore(before, more, items);
        ItemsCons(x + blank, item, before + more, items);
        t := x + blank + "," + (before + more);
        ListPieces(x, afterItem, blank, next[1..], before, more, "]" + ParseItems(s).value.1);
        assert t + "]" + ParseItems(s).value.1 == t + ("]" + ParseItems(s).value.1);
      }
    }
  }

  lemma ListPieces(
    x: string, afterItem: string, blank: string, afterComma: string, before: string, more: string, rest: string
  )
    requires afterItem == blank + ("," + afterComma) && afterComma == before + (more + rest)
    ensures x + afterItem == x + blank + "," + (before + more) + rest
  {
  }

  lemma {:induction false} MemberFound(s: string) returns (t: string, m: Member, next: string)
    ensures ParseMembers(s).Success? ==> s == t + next && DenotesMember(t, m) && |next| < |s|
    ensures ParseMembers(s).Success? ==> StartsWith(next, "}") ==> ParseMembers(s).value == ([m], next[1..])
    ensures ParseMembers(s).Success? ==>
              !StartsWith(next, "}") ==>
                && StartsWith(next, ",") && ParseMembers(SkipSpace(next[1..])).Success?
                && var (pairs, rest) := ParseMembers(SkipSpace(next[1..])).value;
                   ParseMembers(s).value == ([m] + pairs, rest)
    decreases |s|, 1
  {
    hide SkipSpace, ParseValue, ScanString, Denotes, DenotesPadded, DenotesMember, IsBlank, IsSpace, Spells;
    t := "";
    m := Member("", Null);
    next := "";
    if ParseMembers(s).Success? {
      FirstIs(s, '\"');
      var (key, afterKey) := ScanString(s[1..]).value;
      var body := StringFound(s[1..]);
      QuotedDenotes(body, key);
      var name := "\"" + body + "\"";
      var behindKey := SkipFound(afterKey);
      PaddedBehind(name, Str(key), behindKey);
      var colon := SkipSpace(afterKey);
      FirstIs(colon, ':');
      var beforeValue := SkipFound(colon[1..]);
      var text := SkipSpace(colon[1..]);
      var x := ValueFound(text);
      var (value, afterValue) := ParseValue(text).value;
      var behindValue := SkipFound(afterValue);
      PaddedBehind(x, value, behindValue);
      PaddedBefore(beforeValue, x + behindValue, value);
      MemberCons(name + behindKey, key, beforeValue + (x + behindValue), value);
      t := name + behindKey + ":" + (beforeValue + (x + behindValue));
      m, next := Member(key, value), SkipSpace(afterValue);
      MemberPieces(body, afterKey, behindKey, colon[1..], beforeValue, text, x, afterValue, behindValue, next);
    }
  }

  lemma MemberPieces(
    body: string, afterKey: string, behindKey: string, afterColon: string, beforeValue: string, text: string,
    x: string, afterValue: string, behindValue: string, next: string
  )
    requires afterKey == behindKey + (":" + afterColon) && afterColon == beforeValue + text
    requires text == x + afterValue && afterValue == behindValue + next
    ensures "\"" + (body + "\"" + afterKey) ==
            "\"" + body + "\"" + behindKey + ":" + (beforeValue + (x + behindValue)) + next
  {
  }

  lemma {:induction false} MembersFound(s: string) returns (t: string)
    ensures ParseMembers(s).Success? ==> s == t + "}" + ParseMembers(s).value.1
    ensures ParseMembers(s).Success? ==> ParseMembers(s).value.0 != [] && DenotesMembers(t, ParseMembers(s).value.0)
    decreases |s|, 2
  {
    hide SkipSpace, ParseMembers, DenotesMember, IsBlank, IsSpace;
    t := "";
    if ParseMembers(s).Success? {
      var first, m, next := MemberFound(s);
      if StartsWith(next, "}") {
        FirstIs(next, '}');
        t := first;
      } else {
        FirstIs(next, ',');
        var before := SkipFound(next[1..]);
        var more := MembersFound(SkipSpace(next[1..]));
        var pairs := ParseMembers(SkipSpace(next[1..])).value.0;
        MembersBefore(before, more, pairs);
        MembersCons(first, m, before + more, pairs);
        t := first + "," + (before + more);
      }
    }
  }

  // ----- the parser recognizes the grammar

  lemma MarkOpensNothing(s: string, v: Json)
    ensures DenotesPadded(s, v) ==> s != "" && s[0] != BYTE_ORDER_MARK
  {
    hide Denotes;
    if DenotesPadded(s, v) {
      var i: nat, j: nat :| i <= j <= |s| && IsBlank(s[..i]) && IsBlank(s[j..]) && Denotes(s[i..j], v);
      DenotesOpens(s[i..j], v);
      assert i == 0 ==> s[0] == s[i..j][0];
      assert i > 0 ==> s[..i][0] == s[0];
    }
  }

  /**
   Loading a text succeeds with a value exactly when the text, apart from whitespace around it, is a
   text of the grammar for that value. In particular no text stands for two values.
   */
  lemma LoadsIffDenotes(s: string, v: Json)
    ensures Loads(s) == Success(v) <==> DenotesPadded(s, v)
  {
    hide ParseValue, SkipSpace, Denotes, IsBlank;
    if DenotesPadded(s, v) {
      PaddedParsed(s, v, "");
      assert s + "" == s;
      MarkOpensNothing(s, v);
    }
    if Loads(s) == Success(v) {
      var before := SkipFound(s);
      var x := ValueFound(SkipSpace(s));
      var rest := ParseValue(SkipSpace(s)).value.1;
      var behind := SkipFound(rest);
      assert rest == behind;
      PaddedBehind(x, v, behind);
      PaddedBefore(before, x + behind, v);
    }
  }
}
