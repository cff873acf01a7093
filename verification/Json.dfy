/**
 JSON values, the compact printer of json.dumps and the parser of json.loads: sections 2 to 7 of
 RFC 8259. Objects keep their insertion order, as Python's dicts do.
 */
module Json {
  import opened Common
  import opened JsonNumber
  import opened JsonString

  datatype Json =
    | Null
    | Bool(b: bool)
    | Int(n: int)
    | Real(token: string)  // a float, as its printed token
    | Str(s: string)
    | Array(items: seq<Json>)
    | Object(members: seq<Member>)

  datatype Member = Member(key: string, value: Json)

  ghost predicate DistinctKeys(members: seq<Member>) {
    forall i, j :: 0 <= i < j < |members| ==> members[i].key != members[j].key
  }

  /** Keys are distinct at every level and floats are float tokens. */
  ghost predicate WellFormed(v: Json) {
    match v
    case Real(token) => IsFloatToken(token)
    case Array(items) => forall i :: 0 <= i < |items| ==> WellFormed(items[i])
    case Object(members) =>
      && DistinctKeys(members)
      && forall i :: 0 <= i < |members| ==> WellFormed(members[i].value)
    case _ => true
  }

  // ----- dict assignment

  /** Assigns a key: the value is replaced in place, or a new member is added at the end. */
  function Put(members: seq<Member>, key: string, value: Json): (r: seq<Member>)
    ensures |r| > 0
  {
    if members == [] then [Member(key, value)]
    else if members[0].key == key then [Member(key, value)] + members[1..]
    else [members[0]] + Put(members[1..], key, value)
  }

  /** The dict built from a list of pairs: a repeated key keeps its first place and its last value. */
  function DictOf(pairs: seq<Member>): seq<Member> {
    if pairs == [] then
      []
    else
      var last := pairs[|pairs| - 1];
      Put(DictOf(pairs[..|pairs| - 1]), last.key, last.value)
  }

  /** Some member of the list has this key. */
  predicate HasKey(members: seq<Member>, key: string) {
    exists i :: 0 <= i < |members| && members[i].key == key
  }

  lemma {:induction false} PutNewKey(members: seq<Member>, key: string, value: Json)
    requires !HasKey(members, key)
    ensures Put(members, key, value) == members + [Member(key, value)]
  {
    if members != [] {
      assert members[0].key != key;
      assert forall i :: 0 <= i < |members[1..]| ==> members[1..][i] == members[i + 1];
      PutNewKey(members[1..], key, value);
    }
  }

  lemma {:induction false} DictOfDistinct(members: seq<Member>)
    requires DistinctKeys(members)
    ensures DictOf(members) == members
  {
    if members != [] {
      var last := members[|members| - 1];
      DictOfDistinct(members[..|members| - 1]);
      PutNewKey(members[..|members| - 1], last.key, last.value);
      assert members == members[..|members| - 1] + [last];
    }
  }

  // ----- printing

  function Render(v: Json): string {
    match v
    case Null => "null"
    case Bool(b) => if b then "true" else "false"
    case Int(n) => IntText(n)
    case Real(token) => token
    case Str(s) => Quote(s)
    case Array(items) => if items == [] then "[]" else "[" + RenderItems(items) + "]"
    case Object(members) => if members == [] then "{}" else "{" + RenderMembers(members) + "}"
  }

  function RenderItems(items: seq<Json>): string
    requires items != []
  {
    Render(items[0]) + if |items| == 1 then "" else "," + RenderItems(items[1..])
  }

  function RenderMembers(members: seq<Member>): string
    requires members != []
  {
    var more := if |members| == 1 then "" else "," + RenderMembers(members[1..]);
    Quote(members[0].key) + (":" + (Render(members[0].value) + more))
  }

  // ----- parsing

  predicate IsSpace(c: char) {
    c in " \t\n\r"
  }

  function SkipSpace(s: string): (r: string)
    ensures |r| <= |s|
  {
    if s != "" && IsSpace(s[0]) then SkipSpace(s[1..]) else s
  }

  predicate StartsWith(s: string, prefix: string) {
    |s| >= |prefix| && s[..|prefix|] == prefix
  }

  /** Reads one value from the front of a text: the value and the remaining text. */
  function ParseValue(s: string): (r: Result<(Json, string), SyntaxError>)
    ensures r.Success? ==> |r.value.1| < |s|
    decreases |s|, 0
  {
    if s == "" then
      Failure(UnexpectedEnd)
    else if s[0] == '\"' then
      var (text, rest) :- ScanString(s[1..]);
      Success((Str(text), rest))
    else if s[0] == '{' then
      var inner := SkipSpace(s[1..]);
      if StartsWith(inner, "}") then
        Success((Object([]), inner[1..]))
      else
        var (pairs, rest) :- ParseMembers(inner);
        Success((Object(DictOf(pairs)), rest))
    else if s[0] == '[' then
      var inner := SkipSpace(s[1..]);
      if StartsWith(inner, "]") then
        Success((Array([]), inner[1..]))
      else
        var (items, rest) :- ParseItems(inner);
        Success((Array(items), rest))
    else if StartsWith(s, "null") then
      Success((Null, s[4..]))
    else if StartsWith(s, "true") then
      Success((Bool(true), s[4..]))
    else if StartsWith(s, "false") then
      Success((Bool(false), s[5..]))
    else
      ParseNumber(s)
  }

  function ParseNumber(s: string): (r: Result<(Json, string), SyntaxError>)
    ensures r.Success? ==> |r.value.1| < |s|
  {
    match ScanNumber(s)
    case None => Failure(UnexpectedChar)
    case Some((len, isFloat)) =>
      if isFloat then
        Success((Real(s[..len]), s[len..]))
      else
        ScannedIntToken(s);
        Success((Int(IntValue(s[..len])), s[len..]))
  }

  /** Reads the items of a non-empty array and its closing bracket. */
  function ParseItems(s: string): (r: Result<(seq<Json>, string), SyntaxError>)
    ensures r.Success? ==> |r.value.1| < |s|
    decreases |s|, 1
  {
    var (item, afterItem) :- ParseValue(s);
    var next := SkipSpace(afterItem);
    if StartsWith(next, "]") then
      Success(([item], next[1..]))
    else if StartsWith(next, ",") then
      var (items, rest) :- ParseItems(SkipSpace(next[1..]));
      Success(([item] + items, rest))
    else
      Failure(if next == "" then UnexpectedEnd else UnexpectedChar)
  }

  /** Reads the members of a non-empty object and its closing brace. */
  function ParseMembers(s: string): (r: Result<(seq<Member>, string), SyntaxError>)
    ensures r.Success? ==> |r.value.1| < |s|
    decreases |s|, 1
  {
    if !StartsWith(s, "\"") then
      Failure(if s == "" then UnexpectedEnd else UnexpectedChar)
    else
      var (key, afterKey) :- ScanString(s[1..]);
      var colon := SkipSpace(afterKey);
      if !StartsWith(colon, ":") then
        Failure(if colon == "" then UnexpectedEnd else UnexpectedChar)
      else
        var (value, afterValue) :- ParseValue(SkipSpace(colon[1..]));
        var next := SkipSpace(afterValue);
        if StartsWith(next, "}") then
          Success(([Member(key, value)], next[1..]))
        else if StartsWith(next, ",") then
          var (members, rest) :- ParseMembers(SkipSpace(next[1..]));
          Success(([Member(key, value)] + members, rest))
        else
          Failure(if next == "" then UnexpectedEnd else UnexpectedChar)
  }

  const BYTE_ORDER_MARK: char := 0xFEFF as char

  /** Reads a whole text as one value, with space around it allowed. */
  function Loads(s: string): Result<Json, SyntaxError> {
    if s != "" && s[0] == BYTE_ORDER_MARK then
      Failure(UnexpectedChar)
    else
      var (v, rest) :- ParseValue(SkipSpace(s));
      if SkipSpace(rest) == "" then Success(v) else Failure(ExtraData)
  }
}
