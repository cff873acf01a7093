/**
 Python dicts with string keys as lists of members in insertion order, and their content as a map.
 Canonical bytes depend on the content alone.
 */
module Dict {
  import opened Common
  import opened Json
  import opened CanonicalJson

  type Dict = members: seq<Member> | DistinctKeys(members) witness []

  function Content(members: seq<Member>): map<string, Json> {
    if members == [] then map[] else Content(members[1..])[members[0].key := members[0].value]
  }

  lemma {:induction false} ContentOfPut(members: seq<Member>, key: string, value: Json)
    ensures Content(Put(members, key, value)) == Content(members)[key := value]
  {
    if members != [] {
      ContentOfPut(members[1..], key, value);
    }
  }

  lemma {:induction false} KeysOfPut(members: seq<Member>, key: string, value: Json)
    ensures forall i :: 0 <= i < |Put(members, key, value)| ==>
              Put(members, key, value)[i].key == key || HasKey(members, Put(members, key, value)[i].key)
  {
    if members != [] {
      KeysOfPut(members[1..], key, value);
      forall k | HasKey(members[1..], k) ensures HasKey(members, k) {
        var j :| 0 <= j < |members[1..]| && members[1..][j].key == k;
        assert members[j + 1].key == k;
      }
    }
  }

  lemma {:induction false} PutKeepsKeysDistinct(members: seq<Member>, key: string, value: Json)
    requires DistinctKeys(members)
    ensures DistinctKeys(Put(members, key, value))
  {
    if members != [] && members[0].key != key {
      PutKeepsKeysDistinct(members[1..], key, value);
      KeysOfPut(members[1..], key, value);
    }
  }

  /** Item assignment. */
  function Assign(d: Dict, key: string, value: Json): (r: Dict)
    ensures Content(r) == Content(d)[key := value]
  {
    ContentOfPut(d, key, value);
    PutKeepsKeysDistinct(d, key, value);
    Put(d, key, value)
  }

  lemma {:induction false} ContentAt(d: Dict)
    ensures forall key :: key in Content(d) <==> HasKey(d, key)
    ensures forall i :: 0 <= i < |d| ==> d[i].key in Content(d) && Content(d)[d[i].key] == d[i].value
  {
    if d != [] {
      ContentAt(d[1..]);
      forall key
        ensures key in Content(d) <==> HasKey(d, key)
      {
        if key in Content(d[1..]) {
          var i :| 0 <= i < |d[1..]| && d[1..][i].key == key;
          assert d[i + 1].key == key;
        }
        if i :| 0 < i < |d| && d[i].key == key {
          assert d[1..][i - 1].key == key;
        }
      }
    }
  }

  ghost predicate WellFormedContent(m: map<string, Json>) {
    forall key :: key in m ==> WellFormed(m[key])
  }

  /** The same keys with equal values. */
  ghost predicate SameContent(a: map<string, Json>, b: map<string, Json>) {
    && a.Keys == b.Keys
    && forall key :: key in a ==> SameValue(a[key], b[key])
  }

  lemma ObjectWellFormed(d: Dict)
    ensures WellFormedContent(Content(d)) ==> WellFormed(Object(d))
  {
    if WellFormedContent(Content(d)) {
      ContentAt(d);
      forall i | 0 <= i < |d| ensures WellFormed(d[i].value) {
        assert HasKey(d, d[i].key);
      }
    }
  }

  /** Some member of the list has the same key and an equal value. */
  ghost predicate Matched(m: Member, members: seq<Member>) {
    exists j :: 0 <= j < |members| && m.key == members[j].key && SameValue(m.value, members[j].value)
  }

  lemma SameObjectIsMatched(a: seq<Member>, b: seq<Member>)
    ensures SameValue(Object(a), Object(b)) <==>
              && (forall i :: 0 <= i < |a| ==> Matched(a[i], b))
              && (forall j :: 0 <= j < |b| ==> HasKey(a, b[j].key))
  {
    if SameValue(Object(a), Object(b)) {
      forall i | 0 <= i < |a| ensures Matched(a[i], b) {
        assert Object(a).members[i] == a[i];
        var j :| 0 <= j < |b| && a[i].key == b[j].key && SameValue(a[i].value, b[j].value);
      }
    }
    if forall i :: 0 <= i < |a| ==> Matched(a[i], b) {
      forall i | 0 <= i < |a|
        ensures exists j :: 0 <= j < |b| && a[i].key == b[j].key && SameValue(a[i].value, b[j].value)
      {
        assert Matched(a[i], b);
      }
    }
  }

  lemma MatchedInContent(m: Member, d: Dict)
    ensures Matched(m, d) <==> m.key in Content(d) && SameValue(m.value, Content(d)[m.key])
  {
    ContentAt(d);
    hide Content, SameValue;
    if Matched(m, d) {
      var j :| 0 <= j < |d| && m.key == d[j].key && SameValue(m.value, d[j].value);
      assert d[j].key in Content(d);
    }
    if m.key in Content(d) {
      assert HasKey(d, m.key);
      var j :| 0 <= j < |d| && d[j].key == m.key;
      assert Content(d)[d[j].key] == d[j].value;
    }
  }

  lemma SameObjectSameContent(a: Dict, b: Dict)
    requires SameValue(Object(a), Object(b))
    ensures SameContent(Content(a), Content(b))
  {
    SameObjectIsMatched(a, b);
    ContentAt(a);
    ContentAt(b);
    hide Content, SameValue, Matched;
    forall key | key in Content(a) ensures key in Content(b) && SameValue(Content(a)[key], Content(b)[key]) {
      var i :| 0 <= i < |a| && a[i].key == key;
      MatchedInContent(a[i], b);
    }
    forall key | key in Content(b) ensures key in Content(a) {
      var j :| 0 <= j < |b| && b[j].key == key;
      assert HasKey(a, b[j].key);
    }
  }

  lemma SameContentSameObject(a: Dict, b: Dict)
    ensures SameContent(Content(a), Content(b)) ==> SameValue(Object(a), Object(b))
  {
    if SameContent(Content(a), Content(b)) {
      SameObjectIsMatched(a, b);
      ContentAt(a);
      ContentAt(b);
      hide Content, SameValue, Matched;
      forall i | 0 <= i < |a| ensures Matched(a[i], b) {
        assert a[i].key in Content(a) && Content(a)[a[i].key] == a[i].value;
        MatchedInContent(a[i], b);
      }
      forall j | 0 <= j < |b| ensures HasKey(a, b[j].key) {
        assert b[j].key in Content(b).Keys;
      }
    }
  }

  /** Objects are equal values exactly when their contents are. */
  lemma SameObjectIffSameContent(a: Dict, b: Dict)
    ensures SameValue(Object(a), Object(b)) <==> SameContent(Content(a), Content(b))
  {
    if SameValue(Object(a), Object(b)) {
      SameObjectSameContent(a, b);
    } else if SameContent(Content(a), Content(b)) {
      SameContentSameObject(a, b);
    }
  }

  /** Sorting keys sorts the values of the content and changes nothing else. */
  lemma ContentOfSorted(d: Dict)
    ensures DistinctKeys(SortMembers(d))
    ensures forall key :: key in Content(SortMembers(d)) <==> key in Content(d)
    ensures forall key :: key in Content(d) ==> Content(SortMembers(d))[key] == SortKeys(Content(d)[key])
  {
    SortMembersElements(d);
    SortMembersSorted(d);
    SortedIsDistinct(SortMembers(d));
    var s: Dict := SortMembers(d);
    ContentAt(d);
    ContentAt(s);
    forall key | key in Content(d)
      ensures key in Content(s) && Content(s)[key] == SortKeys(Content(d)[key])
    {
      var i :| 0 <= i < |d| && d[i].key == key;
      assert SortMember(d[i]) in s;
      var k :| 0 <= k < |s| && s[k] == SortMember(d[i]);
      assert s[k].key in Content(s) && Content(s)[s[k].key] == s[k].value;
    }
    forall key | key in Content(s)
      ensures key in Content(d)
    {
      var k :| 0 <= k < |s| && s[k].key == key;
      assert s[k] in s;
      var i :| 0 <= i < |d| && s[k] == SortMember(d[i]);
      assert d[i].key in Content(d);
    }
  }

  /** Some dict with the given content. */
  lemma {:induction false} DictExists(m: map<string, Json>) returns (d: Dict)
    ensures Content(d) == m
  {
    if m == map[] {
      d := [];
    } else {
      var key :| key in m;
      var rest := DictExists(m - {key});
      d := Assign(rest, key, m[key]);
      assert m == (m - {key})[key := m[key]];
    }
  }

  ghost function SomeDict(m: map<string, Json>): (d: Dict)
    ensures Content(d) == m
  {
    assert exists d: Dict :: Content(d) == m by {
      var d := DictExists(m);
    }
    var d: Dict :| Content(d) == m;
    d
  }

  /** The canonical bytes of a dict with this content, whatever its insertion order. */
  ghost function BytesOf(m: map<string, Json>): Bytes {
    CanonicalBytes(Object(SomeDict(m)))
  }

  /** Two dicts of the same content, built in any order, have the same canonical bytes. */
  lemma BytesOfAnyOrder(d: Dict)
    ensures WellFormedContent(Content(d)) ==> CanonicalBytes(Object(d)) == BytesOf(Content(d))
  {
    if WellFormedContent(Content(d)) {
      var e := SomeDict(Content(d));
      ObjectWellFormed(d);
      ObjectWellFormed(e);
      forall key | key in Content(d) ensures SameValue(Content(d)[key], Content(e)[key]) {
        SortsAlikeSameValue(Content(d)[key], Content(e)[key]);
      }
      SameObjectIffSameContent(d, e);
      CanonicalBytesInjective(Object(d), Object(e));
    }
  }

  lemma BytesOfInjective(a: map<string, Json>, b: map<string, Json>)
    ensures WellFormedContent(a) && WellFormedContent(b) ==>
              (BytesOf(a) == BytesOf(b) <==> SameContent(a, b))
  {
    if WellFormedContent(a) && WellFormedContent(b) {
      ObjectWellFormed(SomeDict(a));
      ObjectWellFormed(SomeDict(b));
      SameObjectIffSameContent(SomeDict(a), SomeDict(b));
      CanonicalBytesInjective(Object(SomeDict(a)), Object(SomeDict(b)));
    }
  }
}
