/** Splitting, joining and stripping strings, as Python's str methods do. */
module Text {

  predicate Without(s: string, sep: char) {
    sep !in s
  }

  /** str.split on one character: there is always at least one part. */
  function SplitOn(s: string, sep: char): (parts: seq<string>)
    ensures |parts| >= 1
    ensures forall i :: 0 <= i < |parts| ==> Without(parts[i], sep)
  {
    if s == "" then
      [""]
    else
      var rest := SplitOn(s[1..], sep);
      if s[0] == sep then [""] + rest else [[s[0]] + rest[0]] + rest[1..]
  }

  /** str.join with a one-character separator. */
  function JoinWith(parts: seq<string>, sep: char): string {
    if parts == [] then ""
    else if |parts| == 1 then parts[0]
    else parts[0] + [sep] + JoinWith(parts[1..], sep)
  }

  /** A part is joined as it is, and two lists of parts with the separator between them. */
  lemma {:induction false} JoinOfConcat(a: seq<string>, b: seq<string>, sep: char)
    ensures |a| == 1 ==> JoinWith(a, sep) == a[0]
    ensures a != [] && b != [] ==> JoinWith(a + b, sep) == JoinWith(a, sep) + [sep] + JoinWith(b, sep)
  {
    if |a| > 1 && b != [] {
      JoinOfConcat(a[1..], b, sep);
      assert (a + b)[1..] == a[1..] + b && (a + b)[0] == a[0];
    } else if |a| == 1 && b != [] {
      assert (a + b)[1..] == b && (a + b)[0] == a[0];
    }
  }

  lemma {:induction false} SplitOfConcat(head: string, tail: string, sep: char)
    requires Without(head, sep)
    ensures SplitOn(head + [sep] + tail, sep) == [head] + SplitOn(tail, sep)
  {
    var s := head + [sep] + tail;
    if head == "" {
      assert s[1..] == tail;
    } else {
      SplitOfConcat(head[1..], tail, sep);
      assert s[1..] == head[1..] + [sep] + tail;
      assert head == [head[0]] + head[1..];
    }
  }

  lemma {:induction false} SplitOfPart(s: string, sep: char)
    requires Without(s, sep)
    ensures SplitOn(s, sep) == [s]
  {
    if s != "" {
      SplitOfPart(s[1..], sep);
      assert s == [s[0]] + s[1..];
    }
  }

  /** Splitting undoes joining when no part holds the separator. */
  lemma {:induction false} SplitOfJoin(parts: seq<string>, sep: char)
    requires parts != [] && forall i :: 0 <= i < |parts| ==> Without(parts[i], sep)
    ensures SplitOn(JoinWith(parts, sep), sep) == parts
  {
    if |parts| == 1 {
      SplitOfPart(parts[0], sep);
    } else {
      SplitOfJoin(parts[1..], sep);
      SplitOfConcat(parts[0], JoinWith(parts[1..], sep), sep);
      assert parts == [parts[0]] + parts[1..];
    }
  }

  /** Joining undoes splitting, for every string. */
  lemma {:induction false} JoinOfSplit(s: string, sep: char)
    ensures JoinWith(SplitOn(s, sep), sep) == s
  {
    if s != "" {
      JoinOfSplit(s[1..], sep);
      var rest := SplitOn(s[1..], sep);
      assert s == [s[0]] + s[1..];
      if s[0] != sep && |rest| > 1 {
        assert [[s[0]] + rest[0]] + rest[1..] == SplitOn(s, sep);
        assert ([[s[0]] + rest[0]] + rest[1..])[1..] == rest[1..];
        assert JoinWith(SplitOn(s, sep), sep) == [s[0]] + rest[0] + [sep] + JoinWith(rest[1..], sep);
      }
      if s[0] == sep {
        assert ([""] + rest)[1..] == rest;
      }
    }
  }

  // ----- whitespace

  /** The characters that str.strip removes. */
  predicate IsWhitespace(c: char) {
    var n := c as int;
    || 0x09 <= n <= 0x0D || 0x1C <= n <= 0x20 || n == 0x85 || n == 0xA0 || n == 0x1680
    || 0x2000 <= n <= 0x200A || n == 0x2028 || n == 0x2029 || n == 0x202F || n == 0x205F || n == 0x3000
  }

  /** Python's whitespace, code by code. */
  lemma WhitespaceCodes(c: char)
    ensures IsWhitespace(c) <==>
              c as int in {
                0x09, 0x0A, 0x0B, 0x0C, 0x0D, 0x1C, 0x1D, 0x1E, 0x1F, 0x20, 0x85, 0xA0, 0x1680,
                0x2000, 0x2001, 0x2002, 0x2003, 0x2004, 0x2005, 0x2006, 0x2007, 0x2008, 0x2009, 0x200A,
                0x2028, 0x2029, 0x202F, 0x205F, 0x3000
              }
  {
  }

  function StripLeft(s: string): (r: string)
    ensures r == "" || !IsWhitespace(r[0])
    ensures forall c :: c in r ==> c in s
  {
    if s != "" && IsWhitespace(s[0]) then StripLeft(s[1..]) else s
  }

  function StripRight(s: string): (r: string)
    ensures r == "" || !IsWhitespace(r[|r| - 1])
    ensures r <= s
  {
    if s != "" && IsWhitespace(s[|s| - 1]) then StripRight(s[..|s| - 1]) else s
  }

  function Strip(s: string): (r: string)
    ensures r == "" || (!IsWhitespace(r[0]) && !IsWhitespace(r[|r| - 1]))
    ensures forall c :: c in r ==> c in s
  {
    StripRight(StripLeft(s))
  }

  lemma StripTrimmed(s: string)
    requires s == "" || (!IsWhitespace(s[0]) && !IsWhitespace(s[|s| - 1]))
    ensures Strip(s) == s
  {
  }

  lemma {:induction false} StripLeftPadded(left: string, s: string)
    requires AllWhitespace(left) && (s == "" || !IsWhitespace(s[0]))
    ensures StripLeft(left + s) == s
  {
    if left == "" {
      assert left + s == s;
    } else {
      StripLeftPadded(left[1..], s);
      assert (left + s)[1..] == left[1..] + s;
    }
  }

  lemma {:induction false} StripRightPadded(s: string, right: string)
    requires AllWhitespace(right) && (s == "" || !IsWhitespace(s[|s| - 1]))
    ensures StripRight(s + right) == s
  {
    if right == "" {
      assert s + right == s;
    } else {
      var (init, last) := (right[..|right| - 1], right[|right| - 1]);
      StripRightPadded(s, init);
      assert s + right == (s + init) + [last];
      assert (s + right)[..|s + right| - 1] == s + init;
    }
  }

  /** Whitespace around a trimmed text is stripped off. */
  lemma StripPadded(left: string, s: string, right: string)
    requires AllWhitespace(left) && AllWhitespace(right) && Strip(s) == s
    ensures Strip(left + s + right) == s
  {
    if s == "" {
      StripLeftPadded(left + right, "");
      assert left + s + right == left + right == left + right + "";
    } else {
      StripLeftPadded(left, s + right);
      assert left + s + right == left + (s + right);
      StripRightPadded(s, right);
    }
  }

  predicate AllWhitespace(s: string) {
    forall i :: 0 <= i < |s| ==> IsWhitespace(s[i])
  }

  lemma {:induction false} StripLeftRemoves(s: string) returns (left: string)
    ensures s == left + StripLeft(s) && AllWhitespace(left)
  {
    left := "";
    if s != "" && IsWhitespace(s[0]) {
      var rest := StripLeftRemoves(s[1..]);
      left := [s[0]] + rest;
    }
  }

  lemma {:induction false} StripRightRemoves(s: string) returns (right: string)
    ensures s == StripRight(s) + right && AllWhitespace(right)
  {
    right := "";
    if s != "" && IsWhitespace(s[|s| - 1]) {
      var rest := StripRightRemoves(s[..|s| - 1]);
      right := rest + [s[|s| - 1]];
    }
  }

  /** Stripping removes whitespace at both ends and nothing else. */
  lemma StripRemovesOnlyWhitespace(s: string) returns (left: string, right: string)
    ensures s == left + Strip(s) + right
    ensures AllWhitespace(left) && AllWhitespace(right)
  {
    left := StripLeftRemoves(s);
    right := StripRightRemoves(StripLeft(s));
  }
}
