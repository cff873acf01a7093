/** Decimal text of natural numbers, printed without leading zeros. */
module Decimal {

  predicate IsDigit(c: char) {
    '0' <= c <= '9'
  }

  predicate AllDigits(s: string) {
    forall i :: 0 <= i < |s| ==> IsDigit(s[i])
  }

  function DigitChar(d: nat): (c: char)
    requires d < 10
    ensures IsDigit(c) && DigitValue(c) == d
  {
    (d + '0' as int) as char
  }

  function DigitValue(c: char): (d: nat)
    requires IsDigit(c)
    ensures d < 10
  {
    c as int - '0' as int
  }

  function NatText(n: nat): (s: string)
    ensures AllDigits(s) && |s| > 0
    ensures s[0] == '0' ==> n == 0 && |s| == 1
  {
    if n < 10 then [DigitChar(n)] else NatText(n / 10) + [DigitChar(n % 10)]
  }

  function NatValue(s: string): nat
    requires AllDigits(s)
  {
    if s == "" then 0 else 10 * NatValue(s[..|s| - 1]) + DigitValue(s[|s| - 1])
  }

  lemma {:induction false} ValueOfNatText(n: nat)
    ensures NatValue(NatText(n)) == n
  {
    if n < 10 {
      assert NatText(n)[..0] == "";
    } else {
      ValueOfNatText(n / 10);
      assert NatText(n)[..|NatText(n)| - 1] == NatText(n / 10);
    }
  }

  /** Digits without a superfluous leading zero are reproduced. */
  lemma {:induction false} NatTextOfValue(s: string)
    requires AllDigits(s) && |s| > 0
    requires |s| > 1 ==> s[0] != '0'
    ensures NatText(NatValue(s)) == s
    ensures NatValue(s) == 0 ==> s == "0"
  {
    var init := s[..|s| - 1];
    assert s == init + [s[|s| - 1]];
    if |s| > 1 {
      NatTextOfValue(init);
    } else {
      assert init == "";
    }
  }

  function Pow10(e: nat): nat {
    if e == 0 then 1 else 10 * Pow10(e - 1)
  }

  lemma ValueOfOneMore(s: string, c: char)
    requires AllDigits(s) && IsDigit(c)
    ensures AllDigits(s + [c]) && NatValue(s + [c]) == 10 * NatValue(s) + DigitValue(c)
  {
    assert (s + [c])[..|s|] == s;
  }

  lemma TensShift(x: nat, p: nat, y: nat, d: nat)
    ensures 10 * (x * p + y) + d == x * (10 * p) + (10 * y + d)
  {
  }

  /** A digit's value is its place in "0123456789". */
  lemma ValueOfDigit(c: char)
    requires IsDigit(c)
    ensures NatValue([c]) < 10 && "0123456789"[NatValue([c])] == c
  {
    assert [c][..0] == "";
  }

  /** Digits count by their place: what stands before others counts powers of ten. */
  lemma {:induction false} ValueByPlace(a: string, b: string)
    requires AllDigits(a) && AllDigits(b)
    ensures AllDigits(a + b) && NatValue(a + b) == NatValue(a) * Pow10(|b|) + NatValue(b)
  {
    if b == "" {
      assert a + b == a;
    } else {
      var (init, last) := (b[..|b| - 1], b[|b| - 1]);
      ValueByPlace(a, init);
      ValueOfOneMore(a + init, last);
      ValueOfOneMore(init, last);
      TensShift(NatValue(a), Pow10(|init|), NatValue(init), DigitValue(last));
      hide NatValue, DigitValue;
      assert b == init + [last] && a + b == (a + init) + [last];
    }
  }
}
