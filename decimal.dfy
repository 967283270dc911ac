/** Decimal rendering of non-negative integers, as Go's `%d` verb prints them. */
module Decimal {

  predicate IsDigit(c: char) {
    '0' <= c <= '9'
  }

  function DigitChar(d: nat): (c: char)
    requires d < 10
    ensures IsDigit(c) && c as int - '0' as int == d
  {
    (d + '0' as int) as char
  }

  /** `%d` of a non-negative integer: digits only, no leading zero. */
  function NatToString(n: nat): (s: string)
    ensures |s| >= 1
    ensures forall k :: 0 <= k < |s| ==> IsDigit(s[k])
    ensures |s| > 1 ==> s[0] != '0'
    decreases n
  {
    if n < 10 then [DigitChar(n)] else NatToString(n / 10) + [DigitChar(n % 10)]
  }

  /** Reads a string of decimal digits back as a number. */
  function ParseDecimal(s: string): nat
    requires forall k :: 0 <= k < |s| ==> IsDigit(s[k])
    decreases |s|
  {
    if s == [] then 0
    else
      assert IsDigit(s[|s| - 1]);
      10 * ParseDecimal(s[..|s| - 1]) + (s[|s| - 1] as int - '0' as int)
  }

  /** Printing then parsing gives the number back, so printing is injective. */
  lemma {:induction false} ParsePrinted(n: nat)
    ensures ParseDecimal(NatToString(n)) == n
    decreases n
  {
    var s := NatToString(n);
    if n >= 10 {
      ParsePrinted(n / 10);
      assert s[..|s| - 1] == NatToString(n / 10);
    }
  }

  lemma PrintInjective(m: nat, n: nat)
    ensures NatToString(m) == NatToString(n) ==> m == n
  {
    ParsePrinted(m);
    ParsePrinted(n);
  }

  /** A digit string cannot run past a non-digit separator that ends an equal digit string. */
  lemma {:induction false} FirstNotLonger(s1: string, t1: string, s2: string, t2: string, sep: string)
    requires forall k :: 0 <= k < |s2| ==> IsDigit(s2[k])
    requires |sep| > 0 && !IsDigit(sep[0])
    requires s1 + sep + t1 == s2 + sep + t2
    ensures |s1| >= |s2|
  {
    var x := s1 + sep + t1;
    assert x[|s1|] == sep[0];
  }

  /** Two digit strings followed by the same non-digit separator split a string the same way. */
  lemma DigitsBeforeSeparator(s1: string, t1: string, s2: string, t2: string, sep: string)
    requires forall k :: 0 <= k < |s1| ==> IsDigit(s1[k])
    requires forall k :: 0 <= k < |s2| ==> IsDigit(s2[k])
    requires |sep| > 0 && !IsDigit(sep[0])
    requires s1 + sep + t1 == s2 + sep + t2
    ensures s1 == s2 && t1 == t2
  {
    FirstNotLonger(s1, t1, s2, t2, sep);
    FirstNotLonger(s2, t2, s1, t1, sep);
    var x := s1 + sep + t1;
    assert s1 == x[..|s1|] && s2 == (s2 + sep + t2)[..|s2|];
    assert t1 == x[|s1| + |sep|..] && t2 == (s2 + sep + t2)[|s2| + |sep|..];
  }

  /** A common prefix cancels. */
  lemma PrefixCancels(p: string, u1: string, u2: string)
    requires p + u1 == p + u2
    ensures u1 == u2
  {
    assert u1 == (p + u1)[|p|..] && u2 == (p + u2)[|p|..];
  }

  /** Two counts after a common prefix and apart by a non-digit separator are read back uniquely. */
  lemma PairInjective(p: string, sep: string, m1: nat, n1: nat, m2: nat, n2: nat)
    requires |sep| > 0 && !IsDigit(sep[0])
    ensures p + (NatToString(m1) + sep + NatToString(n1)) == p + (NatToString(m2) + sep + NatToString(n2)) ==>
              m1 == m2 && n1 == n2
  {
    var s1, t1, s2, t2 := NatToString(m1), NatToString(n1), NatToString(m2), NatToString(n2);
    if p + (s1 + sep + t1) == p + (s2 + sep + t2) {
      PrefixCancels(p, s1 + sep + t1, s2 + sep + t2);
      DigitsBeforeSeparator(s1, t1, s2, t2, sep);
      PrintInjective(m1, m2);
      PrintInjective(n1, n2);
    }
  }

  /** `%d` of any Go int: a minus sign before the digits of a negative value. */
  function IntToString(i: int): (r: string)
    ensures |r| > 0 && (IsDigit(r[0]) <==> i >= 0)
    ensures i >= 0 ==> r == NatToString(i)
    ensures i < 0 ==> r[0] == '-' && r[1..] == NatToString(-i)
  {
    if i < 0 then "-" + NatToString(-i) else NatToString(i)
  }
}
