/** The order of Python strings, by code point, and lists of members strictly sorted by key. */
module KeyOrder {
  import opened Json

  predicate KeyLess(a: string, b: string) {
    b != "" && (a == "" || a[0] < b[0] || (a[0] == b[0] && KeyLess(a[1..], b[1..])))
  }

  /** The first `n` characters agree, and there `a` ends or goes on with the smaller code point. */
  ghost predicate BelowAt(a: string, b: string, n: nat) {
    && n <= |a| && n < |b| && a[..n] == b[..n]
    && (n == |a| || a[n] as int < b[n] as int)
  }

  /** The key order is the order by code points, a proper prefix first. */
  lemma {:induction false} KeyOrderIsByCodePoint(a: string, b: string)
    ensures KeyLess(a, b) <==>
              exists n: nat ::
                && n <= |a| && n < |b| && a[..n] == b[..n]
                && (n == |a| || a[n] as int < b[n] as int)
  {
    BelowSomewhere(a, b);
    if KeyLess(a, b) {
      var n: nat :| BelowAt(a, b, n);
      assert a[..n] == b[..n];
    } else if n: nat :| n <= |a| && n < |b| && a[..n] == b[..n] && (n == |a| || a[n] as int < b[n] as int) {
      assert BelowAt(a, b, n);
    }
  }

  lemma SamePrefixSameFirst(a: string, b: string, n: nat)
    requires n <= |a| && n <= |b| && a[..n] == b[..n]
    ensures n > 0 ==> a[0] == b[0]
  {
    if n > 0 {
      assert a[..n][0] == a[0] && b[..n][0] == b[0];
    }
  }

  lemma {:induction false} BelowSomewhere(a: string, b: string)
    ensures KeyLess(a, b) <==> exists n: nat :: BelowAt(a, b, n)
  {
    if a == "" || b == "" || a[0] != b[0] {
      if KeyLess(a, b) {
        assert BelowAt(a, b, 0);
      }
      forall n: nat | BelowAt(a, b, n) ensures KeyLess(a, b) {
        SamePrefixSameFirst(a, b, n);
      }
    } else {
      BelowSomewhere(a[1..], b[1..]);
      if KeyLess(a, b) {
        var n: nat :| BelowAt(a[1..], b[1..], n);
        assert a[..n + 1] == [a[0]] + a[1..][..n] && b[..n + 1] == [b[0]] + b[1..][..n];
        assert BelowAt(a, b, n + 1);
      }
      forall n: nat | BelowAt(a, b, n) ensures KeyLess(a, b) {
        assert a[1..][..n - 1] == a[..n][1..] && b[1..][..n - 1] == b[..n][1..];
        assert BelowAt(a[1..], b[1..], n - 1);
      }
    }
  }

  lemma {:induction false} KeyTotal(a: string, b: string)
    ensures a == b || KeyLess(a, b) || KeyLess(b, a)
  {
    if a != "" && b != "" && a[0] == b[0] {
      KeyTotal(a[1..], b[1..]);
      assert a == [a[0]] + a[1..] && b == [b[0]] + b[1..];
    }
  }

  lemma {:induction false} KeyAsymmetric(a: string, b: string)
    ensures !(KeyLess(a, b) && KeyLess(b, a))
  {
    if a != "" && b != "" && a[0] == b[0] {
      KeyAsymmetric(a[1..], b[1..]);
    }
  }

  lemma {:induction false} KeyTransitive(a: string, b: string, c: string)
    requires KeyLess(a, b) && KeyLess(b, c)
    ensures KeyLess(a, c)
  {
    if a != "" && a[0] == b[0] && b[0] == c[0] {
      KeyTransitive(a[1..], b[1..], c[1..]);
    }
  }

  /** Keys strictly increase. */
  ghost predicate Sorted(members: seq<Member>) {
    forall i, j :: 0 <= i < j < |members| ==> KeyLess(members[i].key, members[j].key)
  }

  function Insert(m: Member, members: seq<Member>): seq<Member> {
    if members == [] || KeyLess(m.key, members[0].key) then
      [m] + members
    else
      [members[0]] + Insert(m, members[1..])
  }

  ghost predicate SameElements<T(!new)>(a: seq<T>, b: seq<T>) {
    forall x :: x in a <==> x in b
  }

  lemma {:induction false} InsertElements(m: Member, members: seq<Member>)
    ensures |Insert(m, members)| == |members| + 1
    ensures forall x :: x in Insert(m, members) <==> x == m || x in members
  {
    if members != [] && !KeyLess(m.key, members[0].key) {
      InsertElements(m, members[1..]);
      assert members == [members[0]] + members[1..];
    }
  }

  lemma {:induction false} InsertSorted(m: Member, members: seq<Member>)
    requires Sorted(members)
    requires forall x :: x in members ==> x.key != m.key
    ensures Sorted(Insert(m, members))
  {
    if members != [] {
      var rest := members[1..];
      if KeyLess(m.key, members[0].key) {
        forall j | 0 < j < |members|
          ensures KeyLess(m.key, members[j].key)
        {
          KeyTransitive(m.key, members[0].key, members[j].key);
        }
      } else {
        assert members[0] in members;
        KeyTotal(m.key, members[0].key);
        assert forall x :: x in rest ==> x in members;
        InsertSorted(m, rest);
        InsertElements(m, rest);
        var inserted := Insert(m, rest);
        forall j | 0 <= j < |inserted|
          ensures KeyLess(members[0].key, inserted[j].key)
        {
          assert inserted[j] in inserted;
        }
      }
    }
  }

  /** A strictly sorted list is determined by its elements. */
  lemma {:induction false} SortedUnique(a: seq<Member>, b: seq<Member>)
    requires Sorted(a) && Sorted(b)
    requires SameElements(a, b)
    ensures a == b
  {
    FirstIsElement(a);
    FirstIsElement(b);
    if a != [] {
      SmallestFirst(a, b[0]);
      SmallestFirst(b, a[0]);
      KeyAsymmetric(a[0].key, b[0].key);
      forall x
        ensures x in a[1..] <==> x in b[1..]
      {
        InTail(a, x);
        InTail(b, x);
      }
      SortedUnique(a[1..], b[1..]);
      assert a == [a[0]] + a[1..] && b == [b[0]] + b[1..];
    }
  }

  lemma FirstIsElement<T>(s: seq<T>)
    ensures s != [] ==> s[0] in s
  {
  }

  lemma SmallestFirst(s: seq<Member>, x: Member)
    requires Sorted(s) && x in s
    ensures x == s[0] || KeyLess(s[0].key, x.key)
  {
  }

  lemma InTail(s: seq<Member>, x: Member)
    requires Sorted(s) && s != []
    ensures x in s[1..] <==> x in s && x != s[0]
  {
    assert s == [s[0]] + s[1..];
    KeyAsymmetric(s[0].key, s[0].key);
  }
}
