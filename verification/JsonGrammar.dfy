/**
 The JSON grammar of RFC 8259, sections 2 to 7, as a relation between texts and values. It is written
 without the parser and without the printer; `JsonRecognizer` proves that the parser reads exactly it.
 */
module JsonGrammar {
  import opened Decimal
  import opened Json

  // ----- section 2: insignificant whitespace

  ghost predicate IsBlank(s: string) {
    forall i :: 0 <= i < |s| ==> s[i] as int in {0x20, 0x09, 0x0A, 0x0D}
  }

  // ----- section 6: numbers

  ghost predicate IsDigits(s: string) {
    s != "" && AllDigits(s)
  }

  /** Zero, or digits that do not begin with zero. */
  ghost predicate IsWhole(s: string) {
    IsDigits(s) && (s[0] == '0' ==> |s| == 1)
  }

  ghost predicate IsFraction(s: string) {
    s == "" || (s[0] == '.' && IsDigits(s[1..]))
  }

  ghost predicate IsExponent(s: string) {
    s == "" || ((s[0] == 'e' || s[0] == 'E') && (IsDigits(s[1..]) || IsSignedDigits(s[1..])))
  }

  ghost predicate IsSignedDigits(s: string) {
    s != "" && (s[0] == '+' || s[0] == '-') && IsDigits(s[1..])
  }

  /** Digits, and what a fraction and an exponent add to them. */
  ghost predicate IsUnsigned(t: string, whole: string, fraction: string, exponent: string) {
    IsWhole(whole) && IsFraction(fraction) && IsExponent(exponent) && t == whole + (fraction + exponent)
  }

  ghost predicate IsNegative(t: string) {
    t != "" && t[0] == '-'
  }

  /** A number without fraction and exponent is an integer, any other a float with this token. */
  ghost predicate IsNumberOf(t: string, v: Json, whole: string, fraction: string, exponent: string) {
    && IsUnsigned(if IsNegative(t) then t[1..] else t, whole, fraction, exponent)
    && v == if fraction + exponent != "" then Real(t)
            else if IsNegative(t) then Int(0 - NatValue(whole))
            else Int(NatValue(whole))
  }

  ghost predicate IsNumber(t: string, v: Json) {
    exists whole: string, fraction: string, exponent: string :: IsNumberOf(t, v, whole, fraction, exponent)
  }

  // ----- section 7: strings

  /** Four hexadecimal digits of either case. */
  ghost predicate IsHex4(s: string, n: nat) {
    && |s| == 4
    && exists a: nat, b: nat, c: nat, d: nat ::
         && IsHexDigit(s[0], a) && IsHexDigit(s[1], b) && IsHexDigit(s[2], c) && IsHexDigit(s[3], d)
         && n == a * 4096 + b * 256 + c * 16 + d
  }

  ghost predicate IsHexDigit(c: char, d: nat) {
    d < 16 && (c == "0123456789abcdef"[d] || c == "0123456789ABCDEF"[d])
  }

  /** One character of a string literal: itself, a short escape, or one or two `\u` escapes. */
  ghost predicate IsUnit(u: string, c: char) {
    || (u == [c] && c as int >= 0x20 && c != '\"' && c != '\\')
    || (u == "\\\"" && c == '\"') || (u == "\\\\" && c == '\\') || (u == "\\/" && c == '/')
    || (u == "\\b" && c as int == 0x08) || (u == "\\f" && c as int == 0x0C) || (u == "\\n" && c as int == 0x0A)
    || (u == "\\r" && c as int == 0x0D) || (u == "\\t" && c as int == 0x09)
    || (|u| == 6 && u[..2] == "\\u" && IsHex4(u[2..], c as int))
    || IsSurrogatePair(u, c as int)
  }

  ghost predicate IsSurrogatePair(u: string, n: nat) {
    && |u| == 12 && u[..2] == "\\u" && u[6..8] == "\\u"
    && exists high: nat, low: nat ::
         && IsHex4(u[2..6], high) && IsHex4(u[8..], low)
         && 0xD800 <= high < 0xDC00 && 0xDC00 <= low < 0xE000
         && n == 0x10000 + (high - 0xD800) * 0x400 + (low - 0xDC00)
  }

  /** What stands between the quotes of a string literal. */
  ghost predicate Spells(t: string, s: string)
    decreases |t|
  {
    if s == "" then
      t == ""
    else
      exists n: nat :: 0 < n <= |t| && IsUnit(t[..n], s[0]) && Spells(t[n..], s[1..])
  }

  // ----- section 3: values

  ghost predicate Denotes(t: string, v: Json)
    decreases |t|, 0
  {
    match v
    case Null => t == "null"
    case Bool(b) => t == if b then "true" else "false"
    case Int(_) => IsNumber(t, v)
    case Real(_) => IsNumber(t, v)
    case Str(s) => |t| >= 2 && t[0] == '\"' && t[|t| - 1] == '\"' && Spells(t[1..|t| - 1], s)
    case Array(items) =>
      && |t| >= 2 && t[0] == '[' && t[|t| - 1] == ']'
      && var inner := t[1..|t| - 1];
         if items == [] then IsBlank(inner) else DenotesItems(inner, items)
    case Object(members) =>
      && |t| >= 2 && t[0] == '{' && t[|t| - 1] == '}'
      && exists pairs: seq<Member> :: members == DictOf(pairs) && IsBody(t[1..|t| - 1], pairs)
  }

  /** What stands between the braces of an object. */
  ghost predicate IsBody(t: string, pairs: seq<Member>)
    decreases |t|, 4
  {
    if pairs == [] then IsBlank(t) else DenotesMembers(t, pairs)
  }

  /** A value with whitespace around it. */
  ghost predicate DenotesPadded(t: string, v: Json)
    decreases |t|, 1
  {
    exists i: nat, j: nat :: i <= j <= |t| && IsBlank(t[..i]) && IsBlank(t[j..]) && Denotes(t[i..j], v)
  }

  // ----- section 5: arrays

  ghost predicate DenotesItems(t: string, items: seq<Json>)
    requires items != []
    decreases |t|, 2
  {
    if |items| == 1 then
      DenotesPadded(t, items[0])
    else
      exists n: nat ::
        n < |t| && t[n] == ',' && DenotesPadded(t[..n], items[0]) && DenotesItems(t[n + 1..], items[1..])
  }

  // ----- section 4: objects

  ghost predicate DenotesMembers(t: string, pairs: seq<Member>)
    requires pairs != []
    decreases |t|, 3
  {
    if |pairs| == 1 then
      DenotesMember(t, pairs[0])
    else
      exists n: nat ::
        n < |t| && t[n] == ',' && DenotesMember(t[..n], pairs[0]) && DenotesMembers(t[n + 1..], pairs[1..])
  }

  ghost predicate DenotesMember(t: string, m: Member)
    decreases |t|, 2
  {
    exists n: nat ::
      n < |t| && t[n] == ':' && DenotesPadded(t[..n], Str(m.key)) && DenotesPadded(t[n + 1..], m.value)
  }
}
