/** Whatever the parser returns is a well-formed value, so it can be printed and read again. */
module JsonParsed {
  import opened JsonString
  import opened Json
  import opened JsonGrammar
  import opened JsonRecognizer
  import opened Dict

  /** What holds of a member list on its way out of the parser. */
  ghost predicate WellFormedValues(members: seq<Member>) {
    forall i :: 0 <= i < |members| ==> WellFormed(members[i].value)
  }

  lemma {:induction false} PutKeepsValuesWellFormed(members: seq<Member>, key: string, value: Json)
    requires WellFormedValues(members) && WellFormed(value)
    ensures WellFormedValues(Put(members, key, value))
  {
    if members != [] && members[0].key != key {
      PutKeepsValuesWellFormed(members[1..], key, value);
    }
  }

  lemma {:induction false} DictOfWellFormed(pairs: seq<Member>)
    requires WellFormedValues(pairs)
    ensures WellFormed(Object(DictOf(pairs)))
  {
    if pairs != [] {
      var (init, last) := (pairs[..|pairs| - 1], pairs[|pairs| - 1]);
      DictOfWellFormed(init);
      PutKeepsValuesWellFormed(DictOf(init), last.key, last.value);
      PutKeepsKeysDistinct(DictOf(init), last.key, last.value);
    }
  }

  /** A repeated key in an object keeps its last value, as in a Python dict. */
  lemma RepeatedKeyKeepsLast(pairs: seq<Member>, m: Member)
    ensures Content(DictOf(pairs + [m])) == Content(DictOf(pairs))[m.key := m.value]
  {
    assert (pairs + [m])[..|pairs|] == pairs;
    ContentOfPut(DictOf(pairs), m.key, m.value);
  }

  lemma ParsedNumberWellFormed(s: string)
    requires ParseNumber(s).Success?
    ensures WellFormed(ParseNumber(s).value.0)
  {
    var t := NumberFound(s);
    var v := ParseNumber(s).value.0;
    var whole, fraction, exponent :| IsNumberOf(t, v, whole, fraction, exponent);
    TokenScanned(t, v, whole, fraction, exponent);
  }

  lemma {:induction false} ParsedValueWellFormed(s: string)
    ensures ParseValue(s).Success? ==> WellFormed(ParseValue(s).value.0)
    decreases |s|, 0
  {
    if ParseValue(s).Success? {
      if s[0] == '\"' {
      } else if s[0] == '{' {
        var inner := SkipSpace(s[1..]);
        if !StartsWith(inner, "}") {
          ParsedMembersWellFormed(inner);
          DictOfWellFormed(ParseMembers(inner).value.0);
        }
      } else if s[0] == '[' {
        var inner := SkipSpace(s[1..]);
        if !StartsWith(inner, "]") {
          ParsedItemsWellFormed(inner);
        }
      } else if !StartsWith(s, "null") && !StartsWith(s, "true") && !StartsWith(s, "false") {
        ParsedNumberWellFormed(s);
      }
    }
  }

  lemma {:induction false} ParsedItemsWellFormed(s: string)
    ensures ParseItems(s).Success? ==> WellFormed(Array(ParseItems(s).value.0))
    decreases |s|, 1
  {
    if ParseItems(s).Success? {
      ParsedValueWellFormed(s);
      var next := SkipSpace(ParseValue(s).value.1);
      if !StartsWith(next, "]") {
        ParsedItemsWellFormed(SkipSpace(next[1..]));
      }
    }
  }

  lemma {:induction false} ParsedMembersWellFormed(s: string)
    ensures ParseMembers(s).Success? ==> WellFormedValues(ParseMembers(s).value.0)
    decreases |s|, 1
  {
    if ParseMembers(s).Success? {
      var colon := SkipSpace(ScanString(s[1..]).value.1);
      var valueText := SkipSpace(colon[1..]);
      ParsedValueWellFormed(valueText);
      var next := SkipSpace(ParseValue(valueText).value.1);
      if !StartsWith(next, "}") {
        ParsedMembersWellFormed(SkipSpace(next[1..]));
      }
    }
  }

  /** Every text that loads gives a well-formed value: distinct keys at every level, float tokens. */
  lemma LoadedIsWellFormed(s: string)
    requires Loads(s).Success?
    ensures WellFormed(Loads(s).value)
  {
    ParsedValueWellFormed(SkipSpace(s));
  }
}
