/**
 JSON strings: the ASCII escaping that json.dumps applies by default, and the scanner of section 7
 of RFC 8259 that undoes it. A string is a sequence of Unicode scalar values.
 */
module JsonString {
  import opened Common
  import opened Utf8

  datatype SyntaxError =
    | UnexpectedEnd
    | UnexpectedChar
    | BadEscape
    | LoneSurrogate
    | ControlCharacter
    | ExtraData
    | BadEncoding

  // ----- hexadecimal

  function HexDigit(d: nat): (c: char)
    requires d < 16
    ensures HexValue(c) == Some(d) && c < 128 as char
  {
    if d < 10 then (d + '0' as int) as char else (d - 10 + 'a' as int) as char
  }

  function HexValue(c: char): (d: Option<nat>)
    ensures d.Some? ==> d.value < 16
  {
    if '0' <= c <= '9' then
      Some(c as int - '0' as int)
    else if 'a' <= c <= 'f' then
      Some(c as int - 'a' as int + 10)
    else if 'A' <= c <= 'F' then
      Some(c as int - 'A' as int + 10)
    else
      None
  }

  function Hex4(n: nat): (s: string)
    requires n < 0x10000
    ensures |s| == 4 && IsAscii(s)
  {
    [HexDigit(n / 4096), HexDigit(n / 256 % 16), HexDigit(n / 16 % 16), HexDigit(n % 16)]
  }

  function Hex4Value(s: string): (n: Option<nat>)
    ensures n.Some? ==> |s| >= 4 && n.value < 0x10000
  {
    if |s| < 4 then
      None
    else
      match (HexValue(s[0]), HexValue(s[1]), HexValue(s[2]), HexValue(s[3]))
      case (Some(a), Some(b), Some(c), Some(d)) => Some(((a * 16 + b) * 16 + c) * 16 + d)
      case _ => None
  }

  // ----- printing

  /** The two `\u` escapes of a character above U+FFFF, without the first backslash and letter. */
  function SurrogatePair(n: nat): (s: string)
    requires n < 0x100000
    ensures |s| == 10 && IsAscii(s)
  {
    Hex4(0xD800 + n / 1024) + "\\u" + Hex4(0xDC00 + n % 1024)
  }

  function EscapeChar(c: char): (s: string)
    ensures |s| > 0 && IsAscii(s)
    ensures s == [c] || s[0] == '\\'
    ensures s == [c] <==> ' ' <= c <= '~' && c != '\"' && c != '\\'
  {
    if c == '\"' then "\\\""
    else if c == '\\' then "\\\\"
    else if c == '\n' then "\\n"
    else if c == '\r' then "\\r"
    else if c == '\t' then "\\t"
    else if c == 8 as char then "\\b"
    else if c == 12 as char then "\\f"
    else if ' ' <= c <= '~' then [c]
    else if c as int < 0x10000 then "\\u" + Hex4(c as int)
    else
      "\\u" + SurrogatePair(c as int - 0x10000)
  }

  function EscapeAll(s: string): (r: string)
    ensures IsAscii(r)
  {
    if s == "" then "" else EscapeChar(s[0]) + EscapeAll(s[1..])
  }

  function Quote(s: string): (r: string)
    ensures IsAscii(r)
  {
    "\"" + EscapeAll(s) + "\""
  }

  /** Hexadecimal digits are lower-case. */
  lemma HexDigitCharacter(d: nat)
    requires d < 16
    ensures HexDigit(d) == "0123456789abcdef"[d]
  {
  }

  /** The short escapes, and the printable ASCII characters that stand for themselves. */
  lemma ShortEscapes(c: char)
    ensures EscapeChar('\"') == "\\\"" && EscapeChar('\\') == "\\\\"
    ensures EscapeChar('\n') == "\\n" && EscapeChar('\r') == "\\r" && EscapeChar('\t') == "\\t"
    ensures EscapeChar(8 as char) == "\\b" && EscapeChar(12 as char) == "\\f"
    ensures 0x20 <= c as int <= 0x7E && c != '\"' && c != '\\' ==> EscapeChar(c) == [c]
  {
  }

  /** `\u` and four hexadecimal digits of the given values. */
  function UnicodeEscape(a: nat, b: nat, c: nat, d: nat): string
    requires a < 16 && b < 16 && c < 16 && d < 16
  {
    ['\\', 'u', HexDigit(a), HexDigit(b), HexDigit(c), HexDigit(d)]
  }

  ghost predicate IsUnicodeEscape(s: string, n: nat) {
    exists a: nat, b: nat, c: nat, d: nat | a < 16 && b < 16 && c < 16 && d < 16 ::
      n == a * 4096 + b * 256 + c * 16 + d && s == UnicodeEscape(a, b, c, d)
  }

  /** A number below 2^16 is the sum of its four hexadecimal digits, by place. */
  lemma FourNibbles(n: nat)
    requires n < 0x10000
    ensures n / 4096 < 16
    ensures n == n / 4096 * 4096 + n / 256 % 16 * 256 + n / 16 % 16 * 16 + n % 16
  {
    assert n / 16 == n / 256 * 16 + n / 16 % 16;
    assert n / 256 == n / 4096 * 16 + n / 256 % 16;
  }

  lemma Hex4Digits(n: nat)
    requires n < 0x10000
    ensures IsUnicodeEscape("\\u" + Hex4(n), n)
  {
    FourNibbles(n);
    hide HexDigit;
    assert "\\u" + Hex4(n) == UnicodeEscape(n / 4096, n / 256 % 16, n / 16 % 16, n % 16);
  }

  lemma LongEscapeShape(c: char)
    requires c as int > 0x7E || (c as int < 0x20 && c as int !in {8, 9, 10, 12, 13})
    ensures c as int < 0x10000 ==> EscapeChar(c) == "\\u" + Hex4(c as int)
    ensures c as int >= 0x10000 ==>
              EscapeChar(c) == "\\u" + Hex4(0xD800 + (c as int - 0x10000) / 1024)
                               + ("\\u" + Hex4(0xDC00 + (c as int - 0x10000) % 1024))
  {
    hide Hex4;
  }

  /**
   All other characters print as a `\u` escape with lower-case digits, and above U+FFFF as two, of a
   high and a low surrogate.
   */
  lemma UnicodeEscapes(c: char)
    requires c as int > 0x7E || (c as int < 0x20 && c as int !in {8, 9, 10, 12, 13})
    ensures c as int < 0x10000 ==> IsUnicodeEscape(EscapeChar(c), c as int)
    ensures c as int >= 0x10000 ==>
              exists first: string, second: string, high: nat, low: nat ::
                && EscapeChar(c) == first + second
                && IsUnicodeEscape(first, high) && IsUnicodeEscape(second, low)
                && 0xD800 <= high < 0xDC00 && 0xDC00 <= low < 0xE000
                && c as int == 0x10000 + (high - 0xD800) * 0x400 + (low - 0xDC00)
  {
    hide EscapeChar, IsUnicodeEscape, Hex4;
    var n := c as int;
    LongEscapeShape(c);
    if n < 0x10000 {
      Hex4Digits(n);
    } else {
      var (high, low) := (0xD800 + (n - 0x10000) / 1024, 0xDC00 + (n - 0x10000) % 1024);
      Hex4Digits(high);
      Hex4Digits(low);
    }
  }

  // ----- scanning

  /** Reads what follows a backslash: the character and the remaining text. */
  function ScanEscape(s: string): (r: Result<(char, string), SyntaxError>)
    ensures r.Success? ==> |r.value.1| < |s|
  {
    if s == "" then Failure(UnexpectedEnd)
    else if s[0] in "\"\\/" then Success((s[0], s[1..]))
    else if s[0] == 'b' then Success((8 as char, s[1..]))
    else if s[0] == 'f' then Success((12 as char, s[1..]))
    else if s[0] == 'n' then Success(('\n', s[1..]))
    else if s[0] == 'r' then Success(('\r', s[1..]))
    else if s[0] == 't' then Success(('\t', s[1..]))
    else if s[0] == 'u' then ScanUnicodeEscape(s[1..])
    else Failure(BadEscape)
  }

  /** Reads the digits of a `\u` escape, and of a second one when the first is a high surrogate. */
  function ScanUnicodeEscape(s: string): (r: Result<(char, string), SyntaxError>)
    ensures r.Success? ==> |r.value.1| < |s|
  {
    match Hex4Value(s)
    case None => Failure(BadEscape)
    case Some(high) =>
      if high < 0xD800 || high >= 0xE000 then
        Success((high as char, s[4..]))
      else if high < 0xDC00 && |s| >= 6 && s[4] == '\\' && s[5] == 'u' then
        match Hex4Value(s[6..])
        case Some(low) =>
          if 0xDC00 <= low < 0xE000 then
            Success(((0x10000 + (high - 0xD800) * 1024 + (low - 0xDC00)) as char, s[10..]))
          else
            Failure(LoneSurrogate)
        case None => Failure(BadEscape)
      else
        Failure(LoneSurrogate)
  }

  /** Reads the rest of a string literal, up to and including its closing quote. */
  function ScanString(s: string): (r: Result<(string, string), SyntaxError>)
    ensures r.Success? ==> |r.value.1| < |s|
    decreases |s|
  {
    if s == "" then
      Failure(UnexpectedEnd)
    else if s[0] == '\"' then
      Success(("", s[1..]))
    else if s[0] == '\\' then
      var (c, afterEscape) :- ScanEscape(s[1..]);
      var (text, rest) :- ScanString(afterEscape);
      Success(([c] + text, rest))
    else if s[0] < ' ' then
      Failure(ControlCharacter)
    else
      var (text, rest) :- ScanString(s[1..]);
      Success(([s[0]] + text, rest))
  }
}
