/**
 Canonical JSON: the compact printer with keys sorted at every level, as bytes. Two values print
 alike exactly when they are equal as Python compares dicts: keys matter, their order does not.
 */
module CanonicalJson {
  import opened Common
  import opened Decimal
  import opened Utf8
  import opened Text
  import opened JsonNumber
  import opened JsonString
  import opened Json
  import opened JsonRoundTrip
  import opened KeyOrder

  function SortKeys(v: Json): Json {
    match v
    case Array(items) => Array(SortItems(items))
    case Object(members) => Object(SortMembers(members))
    case _ => v
  }

  function SortItems(items: seq<Json>): (r: seq<Json>)
    ensures |r| == |items|
    ensures forall i :: 0 <= i < |items| ==> r[i] == SortKeys(items[i])
  {
    if items == [] then [] else [SortKeys(items[0])] + SortItems(items[1..])
  }

  function SortMember(m: Member): Member {
    Member(m.key, SortKeys(m.value))
  }

  function SortMembers(members: seq<Member>): seq<Member> {
    if members == [] then [] else Insert(SortMember(members[0]), SortMembers(members[1..]))
  }

  function CanonicalText(v: Json): string {
    Render(SortKeys(v))
  }

  function CanonicalBytes(v: Json): Bytes {
    Encode(CanonicalText(v))
  }

  /** Equality of values: arrays item by item, objects key by key in any order, numbers by their printed form. */
  ghost predicate SameValue(a: Json, b: Json)
    decreases a
  {
    match (a, b)
    case (Array(xs), Array(ys)) =>
      |xs| == |ys| && forall i :: 0 <= i < |xs| ==> SameValue(xs[i], ys[i])
    case (Object(ms), Object(ns)) =>
      && (forall i :: 0 <= i < |ms| ==>
            exists j :: 0 <= j < |ns| && ms[i].key == ns[j].key && SameValue(ms[i].value, ns[j].value))
      && (forall j :: 0 <= j < |ns| ==> HasKey(ms, ns[j].key))
    case _ => a == b
  }

  // ----- what sorting does

  lemma {:induction false} SortMembersElements(members: seq<Member>)
    ensures |SortMembers(members)| == |members|
    ensures forall x :: x in SortMembers(members) <==> exists i :: 0 <= i < |members| && x == SortMember(members[i])
  {
    if members != [] {
      var rest := members[1..];
      SortMembersElements(rest);
      InsertElements(SortMember(members[0]), SortMembers(rest));
      forall x
        ensures x in SortMembers(members) <==> exists i :: 0 <= i < |members| && x == SortMember(members[i])
      {
        if x in SortMembers(rest) {
          var i :| 0 <= i < |rest| && x == SortMember(rest[i]);
          assert x == SortMember(members[i + 1]);
        }
        if i :| 0 < i < |members| && x == SortMember(members[i]) {
          assert x == SortMember(rest[i - 1]);
        }
      }
    }
  }

  lemma {:induction false} SortMembersSorted(members: seq<Member>)
    requires DistinctKeys(members)
    ensures Sorted(SortMembers(members))
  {
    if members != [] {
      SortMembersSorted(members[1..]);
      SortMembersElements(members[1..]);
      InsertSorted(SortMember(members[0]), SortMembers(members[1..]));
    }
  }

  lemma SortedIsDistinct(members: seq<Member>)
    requires Sorted(members)
    ensures DistinctKeys(members)
  {
    forall i, j | 0 <= i < j < |members|
      ensures members[i].key != members[j].key
    {
      KeyAsymmetric(members[i].key, members[i].key);
    }
  }

  lemma {:induction false} SortKeysWellFormed(v: Json)
    requires WellFormed(v)
    ensures WellFormed(SortKeys(v))
  {
    match v
    case Array(items) =>
      forall i | 0 <= i < |items| ensures WellFormed(SortItems(items)[i]) {
        SortKeysWellFormed(items[i]);
      }
    case Object(members) =>
      SortMembersSorted(members);
      SortedIsDistinct(SortMembers(members));
      SortMembersElements(members);
      forall k | 0 <= k < |members| ensures WellFormed(SortMembers(members)[k].value) {
        assert SortMembers(members)[k] in SortMembers(members);
        var i :| 0 <= i < |members| && SortMembers(members)[k] == SortMember(members[i]);
        SortKeysWellFormed(members[i].value);
      }
    case _ =>
  }

  // ----- equal values have one sorted form

  lemma {:induction false} SameValueSortsAlike(a: Json, b: Json)
    requires WellFormed(a) && WellFormed(b)
    requires SameValue(a, b)
    ensures SortKeys(a) == SortKeys(b)
    decreases a
  {
    match (a, b)
    case (Array(xs), Array(ys)) =>
      forall i | 0 <= i < |xs| ensures SortKeys(xs[i]) == SortKeys(ys[i]) {
        SameValueSortsAlike(xs[i], ys[i]);
      }
      assert SortItems(xs) == SortItems(ys);
    case (Object(ms), Object(ns)) =>
      forall i | 0 <= i < |ms| ensures Covered(ms[i], ns) {
        var j :| 0 <= j < |ns| && ms[i].key == ns[j].key && SameValue(ms[i].value, ns[j].value);
        SameValueSortsAlike(ms[i].value, ns[j].value);
        assert SortMember(ms[i]) == SortMember(ns[j]);
      }
      SameMembersSortAlike(ms, ns);
    case _ =>
  }

  /** Some member of the list has the same key and the same sorted value. */
  ghost predicate Covered(m: Member, members: seq<Member>) {
    exists j :: 0 <= j < |members| && SortMember(m) == SortMember(members[j])
  }

  lemma SameMembersSortAlike(ms: seq<Member>, ns: seq<Member>)
    requires DistinctKeys(ms) && DistinctKeys(ns)
    requires forall i :: 0 <= i < |ms| ==> Covered(ms[i], ns)
    requires forall j :: 0 <= j < |ns| ==> HasKey(ms, ns[j].key)
    ensures SortMembers(ms) == SortMembers(ns)
  {
    hide SortMembers, SortKeys;
    SortMembersElements(ms);
    SortMembersElements(ns);
    SortMembersSorted(ms);
    SortMembersSorted(ns);
    forall x
      ensures x in SortMembers(ms) <==> x in SortMembers(ns)
    {
      if x in SortMembers(ms) {
        var i :| 0 <= i < |ms| && x == SortMember(ms[i]);
        assert Covered(ms[i], ns);
      }
      if x in SortMembers(ns) {
        var j :| 0 <= j < |ns| && x == SortMember(ns[j]);
        var i :| 0 <= i < |ms| && ms[i].key == ns[j].key;
        assert Covered(ms[i], ns);
        var k :| 0 <= k < |ns| && SortMember(ms[i]) == SortMember(ns[k]);
        assert k == j;
      }
    }
    SortedUnique(SortMembers(ms), SortMembers(ns));
  }

  lemma {:induction false} SortsAlikeSameValue(a: Json, b: Json)
    requires WellFormed(a) && WellFormed(b)
    requires SortKeys(a) == SortKeys(b)
    ensures SameValue(a, b)
    decreases a
  {
    match (a, b)
    case (Array(xs), Array(ys)) =>
      assert |xs| == |SortItems(xs)| == |SortItems(ys)| == |ys|;
      forall i | 0 <= i < |xs| ensures SameValue(xs[i], ys[i]) {
        assert SortItems(xs)[i] == SortItems(ys)[i];
        SortsAlikeSameValue(xs[i], ys[i]);
      }
    case (Object(ms), Object(ns)) =>
      SortMembersElements(ms);
      SortMembersElements(ns);
      forall i | 0 <= i < |ms|
        ensures exists j :: 0 <= j < |ns| && ms[i].key == ns[j].key && SameValue(ms[i].value, ns[j].value)
      {
        assert SortMember(ms[i]) in SortMembers(ns);
        var j :| 0 <= j < |ns| && SortMember(ms[i]) == SortMember(ns[j]);
        SortsAlikeSameValue(ms[i].value, ns[j].value);
      }
      forall j | 0 <= j < |ns| ensures HasKey(ms, ns[j].key) {
        assert SortMember(ns[j]) in SortMembers(ms);
        var i :| 0 <= i < |ms| && SortMember(ns[j]) == SortMember(ms[i]);
        assert ms[i].key == ns[j].key;
      }
    case _ =>
  }

  lemma {:induction false} SortItemsIdentity(items: seq<Json>)
    requires forall i :: 0 <= i < |items| ==> SortKeys(items[i]) == items[i]
    ensures SortItems(items) == items
  {
  }

  lemma {:induction false} SortSortedMembers(members: seq<Member>)
    requires Sorted(members)
    requires forall i :: 0 <= i < |members| ==> SortKeys(members[i].value) == members[i].value
    ensures SortMembers(members) == members
  {
    if members != [] {
      SortSortedMembers(members[1..]);
      assert members == [members[0]] + members[1..];
      assert |members| > 1 ==> KeyLess(members[0].key, members[1].key);
    }
  }

  lemma {:induction false} SortKeysIdempotent(v: Json)
    requires WellFormed(v)
    ensures SortKeys(SortKeys(v)) == SortKeys(v)
  {
    match v
    case Array(items) =>
      forall i | 0 <= i < |items| ensures SortKeys(SortItems(items)[i]) == SortItems(items)[i] {
        SortKeysIdempotent(items[i]);
      }
      SortItemsIdentity(SortItems(items));
    case Object(members) =>
      SortMembersSorted(members);
      SortMembersElements(members);
      forall k | 0 <= k < |members|
        ensures SortKeys(SortMembers(members)[k].value) == SortMembers(members)[k].value
      {
        assert SortMembers(members)[k] in SortMembers(members);
        var i :| 0 <= i < |members| && SortMembers(members)[k] == SortMember(members[i]);
        SortKeysIdempotent(members[i].value);
      }
      SortSortedMembers(SortMembers(members));
    case _ =>
  }

  // ----- the main results

  /** Parsing undoes canonical printing: the value comes back, with its keys sorted. */
  lemma LoadsOfCanonical(v: Json)
    requires WellFormed(v)
    ensures Loads(CanonicalText(v)) == Success(SortKeys(v))
    ensures SameValue(v, SortKeys(v)) && SameValue(SortKeys(v), v) && WellFormed(SortKeys(v))
  {
    SortKeysWellFormed(v);
    LoadsOfRender(SortKeys(v));
    SortKeysIdempotent(v);
    SortsAlikeSameValue(v, SortKeys(v));
    SortsAlikeSameValue(SortKeys(v), v);
  }

  /** Canonical bytes agree exactly when the values are equal; insertion order plays no part. */
  lemma CanonicalBytesInjective(a: Json, b: Json)
    requires WellFormed(a) && WellFormed(b)
    ensures CanonicalBytes(a) == CanonicalBytes(b) <==> SameValue(a, b)
  {
    if CanonicalBytes(a) == CanonicalBytes(b) {
      EncodeInjective(CanonicalText(a), CanonicalText(b));
      LoadsOfCanonical(a);
      LoadsOfCanonical(b);
      SortsAlikeSameValue(a, b);
    }
    if SameValue(a, b) {
      SameValueSortsAlike(a, b);
    }
  }

  // ----- the recursive description of the specification's appendix A.3

  /** The "key":value entries, each value printed canonically. */
  function Entries(members: seq<Member>): (r: seq<string>)
    ensures |r| == |members|
    ensures forall i :: 0 <= i < |r| ==> r[i] == Quote(members[i].key) + ":" + CanonicalText(members[i].value)
  {
    seq(|members|, i requires 0 <= i < |members| => Quote(members[i].key) + ":" + CanonicalText(members[i].value))
  }

  function Texts(items: seq<Json>): (r: seq<string>)
    ensures |r| == |items|
    ensures forall i :: 0 <= i < |r| ==> r[i] == CanonicalText(items[i])
  {
    seq(|items|, i requires 0 <= i < |items| => CanonicalText(items[i]))
  }

  /** What is not an array or an object prints as a word, a number or a quoted text. */
  lemma CanonicalScalars(n: int, token: string, s: string)
    ensures CanonicalText(Null) == "null"
    ensures CanonicalText(Bool(true)) == "true" && CanonicalText(Bool(false)) == "false"
    ensures CanonicalText(Int(n)) == if n < 0 then "-" + NatText(-n) else NatText(n)
    ensures CanonicalText(Real(token)) == token
    ensures CanonicalText(Str(s)) == "\"" + EscapeAll(s) + "\""
  {
  }

  /** Quoting escapes one character after the other. */
  lemma EscapeOfOneMore(c: char, s: string)
    ensures EscapeAll("") == ""
    ensures EscapeAll([c] + s) == EscapeChar(c) + EscapeAll(s)
  {
    hide EscapeChar;
    assert ([c] + s)[1..] == s;
  }

  lemma {:induction false} RenderItemsIsJoin(items: seq<Json>)
    requires items != []
    ensures RenderItems(SortItems(items)) == JoinWith(Texts(items), ',')
  {
    if |items| > 1 {
      RenderItemsIsJoin(items[1..]);
      assert SortItems(items)[1..] == SortItems(items[1..]);
      assert Texts(items)[1..] == Texts(items[1..]);
    }
  }

  /** An array prints as its items in order, with commas between and brackets around. */
  lemma CanonicalArray(items: seq<Json>)
    ensures CanonicalText(Array(items)) == "[" + JoinWith(Texts(items), ',') + "]"
  {
    if items != [] {
      RenderItemsIsJoin(items);
    }
  }

  /** Keys strictly increase by code points, a proper prefix first. */
  ghost predicate KeysIncrease(members: seq<Member>) {
    forall i, j :: 0 <= i < j < |members| ==> exists n: nat :: BelowAt(members[i].key, members[j].key, n)
  }

  /** An object prints as its entries in the order of their keys' code points, between braces. */
  lemma CanonicalObject(members: seq<Member>, inOrder: seq<Member>)
    requires DistinctKeys(members)
    requires KeysIncrease(inOrder) && SameElements(members, inOrder)
    ensures CanonicalText(Object(members)) == "{" + JoinWith(Entries(inOrder), ',') + "}"
  {
    forall i, j | 0 <= i < j < |inOrder| ensures KeyLess(inOrder[i].key, inOrder[j].key) {
      BelowSomewhere(inOrder[i].key, inOrder[j].key);
    }
    SortedObjectText(members, inOrder);
  }

  lemma SortedObjectText(members: seq<Member>, inOrder: seq<Member>)
    requires DistinctKeys(members)
    requires Sorted(inOrder) && SameElements(members, inOrder)
    ensures CanonicalText(Object(members)) == "{" + JoinWith(Entries(inOrder), ',') + "}"
  {
    var sorted := seq(|inOrder|, i requires 0 <= i < |inOrder| => SortMember(inOrder[i]));
    SortMembersElements(members);
    SortMembersSorted(members);
    forall x
      ensures x in SortMembers(members) <==> x in sorted
    {
      if x in SortMembers(members) {
        var i :| 0 <= i < |members| && x == SortMember(members[i]);
        assert members[i] in inOrder;
        var j :| 0 <= j < |inOrder| && inOrder[j] == members[i];
        assert sorted[j] == x;
      }
      if x in sorted {
        var j :| 0 <= j < |inOrder| && sorted[j] == x;
        assert inOrder[j] in members;
        var i :| 0 <= i < |members| && inOrder[j] == members[i];
        assert x == SortMember(members[i]);
      }
    }
    SortedUnique(SortMembers(members), sorted);
    if inOrder != [] {
      RenderIsJoin(inOrder, sorted);
    }
  }

  lemma {:induction false} RenderIsJoin(members: seq<Member>, sorted: seq<Member>)
    requires members != [] && |sorted| == |members|
    requires forall i :: 0 <= i < |members| ==> sorted[i] == SortMember(members[i])
    ensures RenderMembers(sorted) == JoinWith(Entries(members), ',')
  {
    var first := sorted[0];
    EntryText(Quote(first.key), Render(first.value), "");
    if |members| > 1 {
      RenderIsJoin(members[1..], sorted[1..]);
      assert Entries(members)[1..] == Entries(members[1..]);
      EntryText(Quote(first.key), Render(first.value), "," + RenderMembers(sorted[1..]));
      SplitComma(Quote(first.key) + ":" + Render(first.value), RenderMembers(sorted[1..]));
    }
  }

  lemma EntryText(key: string, value: string, more: string)
    ensures key + (":" + (value + more)) == key + ":" + value + more
    ensures more == "" ==> key + ":" + value + more == key + ":" + value
  {
  }

  lemma SplitComma(a: string, b: string)
    ensures a + ("," + b) == a + [','] + b
  {
  }

  // ----- ASCII

  lemma IntTextAscii(n: int)
    ensures IsAscii(IntText(n))
  {
  }

  lemma {:induction false} RenderAscii(v: Json)
    requires WellFormed(v)
    ensures IsAscii(Render(v))
    decreases v, 0
  {
    hide RenderItems, RenderMembers, IntText, IsFloatToken, Quote;
    match v
    case Int(n) => IntTextAscii(n);
    case Real(token) => FloatTokenAscii(token);
    case Array(items) => if items != [] { RenderItemsAscii(items); }
    case Object(members) => if members != [] { RenderMembersAscii(members); }
    case _ =>
  }

  lemma {:induction false} RenderItemsAscii(items: seq<Json>)
    requires items != [] && forall i :: 0 <= i < |items| ==> WellFormed(items[i])
    ensures IsAscii(RenderItems(items))
    decreases items, 1
  {
    RenderAscii(items[0]);
    if |items| > 1 {
      RenderItemsAscii(items[1..]);
    }
  }

  lemma {:induction false} RenderMembersAscii(members: seq<Member>)
    requires members != [] && forall i :: 0 <= i < |members| ==> WellFormed(members[i].value)
    ensures IsAscii(RenderMembers(members))
    decreases members, 1
  {
    RenderAscii(members[0].value);
    if |members| > 1 {
      RenderMembersAscii(members[1..]);
    }
  }

  /** Canonical text is ASCII, so its UTF-8 bytes are its character codes. */
  lemma CanonicalBytesAreTheText(v: Json)
    requires WellFormed(v)
    ensures IsAscii(CanonicalText(v))
    ensures |CanonicalBytes(v)| == |CanonicalText(v)|
    ensures forall i :: 0 <= i < |CanonicalText(v)| ==> CanonicalBytes(v)[i] as int == CanonicalText(v)[i] as int
  {
    SortKeysWellFormed(v);
    RenderAscii(SortKeys(v));
    EncodeOfAscii(CanonicalText(v));
  }
}
