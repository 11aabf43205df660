/** Decimal rendering and parsing of integers, as Python's str(int) and C's
    "%d" produce them, and the digit-string facts the identifier schemes of the
    generator and the protocol's message format rely on. */
module Decimal {

  predicate IsDigit(c: char) {
    '0' <= c <= '9'
  }

  predicate AllDigits(s: string) {
    forall i :: 0 <= i < |s| ==> IsDigit(s[i])
  }

  function DigitChar(d: nat): (c: char)
    requires d < 10
    ensures IsDigit(c)
  {
    ('0' as int + d) as char
  }

  function DigitValue(c: char): (d: nat)
    requires IsDigit(c)
    ensures d < 10 && DigitChar(d) == c
  {
    c as int - '0' as int
  }

  /** Python's str(n) for n >= 0, C's "%d" for a non-negative value. */
  function NatToString(n: nat): (s: string)
    ensures |s| >= 1 && AllDigits(s)
    ensures (n < 10) == (|s| == 1)
    decreases n
  {
    if n < 10 then [DigitChar(n)] else NatToString(n / 10) + [DigitChar(n % 10)]
  }

  /** Python's str(i) for any integer: a minus sign, then the digits. */
  function IntToString(i: int): (s: string)
    ensures |s| >= 1
    ensures i >= 0 ==> s == NatToString(i)
    ensures i < 0 ==> s[0] == '-' && s[1..] == NatToString(-i)
  {
    if i < 0 then "-" + NatToString(-i) else NatToString(i)
  }

  /** The value a string of decimal digits denotes (leading zeros allowed). */
  function DigitsValue(s: string): nat
    requires AllDigits(s)
  {
    if s == [] then 0 else DigitsValue(s[..|s| - 1]) * 10 + DigitValue(s[|s| - 1])
  }

  function Pow10(k: nat): (p: nat)
    ensures p >= 1
  {
    if k == 0 then 1 else 10 * Pow10(k - 1)
  }

  /** Reading back what NatToString wrote gives the number again. */
  lemma {:induction false} NatToStringValue(n: nat)
    ensures DigitsValue(NatToString(n)) == n
    decreases n
  {
    var s := NatToString(n);
    if n >= 10 {
      NatToStringValue(n / 10);
      assert s[..|s| - 1] == NatToString(n / 10);
    }
  }

  lemma NatToStringInjective(a: nat, b: nat)
    ensures NatToString(a) == NatToString(b) ==> a == b
  {
    NatToStringValue(a);
    NatToStringValue(b);
  }

  lemma IntToStringInjective(a: int, b: int)
    ensures IntToString(a) == IntToString(b) ==> a == b
  {
    if IntToString(a) == IntToString(b) {
      if a >= 0 && b >= 0 {
        NatToStringInjective(a, b);
      } else if a < 0 && b < 0 {
        NatToStringInjective(-a, -b);
      }
    }
  }

  /** Number of digits NatToString uses, as a range of values. */
  lemma {:induction false} NatToStringLength(n: nat, k: nat)
    requires k >= 1
    ensures |NatToString(n)| == k <==> (Pow10(k - 1) <= n || k == 1) && n < Pow10(k)
    decreases n
  {
    if n >= 10 {
      if k >= 2 {
        NatToStringLength(n / 10, k - 1);
      } else {
        assert |NatToString(n)| >= 2;
      }
    } else if k >= 2 {
      assert Pow10(k - 1) >= 10 by { Pow10AtLeast(k - 1); }
    }
  }

  lemma {:induction false} Pow10AtLeast(k: nat)
    requires k >= 1
    ensures Pow10(k) >= 10
  {
    if k > 1 { Pow10AtLeast(k - 1); }
  }

  /** A value written with k digits is below 10^k. */
  lemma {:induction false} DigitsValueBound(s: string)
    requires AllDigits(s)
    ensures DigitsValue(s) < Pow10(|s|)
    decreases |s|
  {
    if s != [] {
      DigitsValueBound(s[..|s| - 1]);
    }
  }

  /** Leading zeros do not change the value. */
  lemma {:induction false} LeadingZeroValue(s: string)
    requires AllDigits(s)
    ensures AllDigits("0" + s) && DigitsValue("0" + s) == DigitsValue(s)
    decreases |s|
  {
    var t := "0" + s;
    if s != [] {
      LeadingZeroValue(s[..|s| - 1]);
      assert t[..|t| - 1] == "0" + s[..|s| - 1];
    }
  }

  /** A string of digits followed by something that does not start with a
      digit splits in only one way. */
  lemma DigitsSplitUnique(a: string, s: string, b: string, t: string)
    requires AllDigits(a) && AllDigits(b)
    requires s != [] && !IsDigit(s[0]) && t != [] && !IsDigit(t[0])
    requires a + s == b + t
    ensures a == b && s == t
  {
    // at the shorter length, the character is a digit exactly in the longer one
    var k := if |a| <= |b| then |a| else |b|;
    assert IsDigit((a + s)[k]) <==> k < |a|;
    assert IsDigit((b + t)[k]) <==> k < |b|;
    assert |a| == |b|;
    assert a == (a + s)[..|a|] && b == (b + t)[..|b|];
    assert s == (a + s)[|a|..] && t == (b + t)[|b|..];
  }

  /** The same for IntToString, whose output may start with a minus sign: a
      following character that is neither a digit nor '-' marks the end. */
  lemma IntToStringSplitUnique(i: int, s: string, j: int, t: string)
    requires s != [] && !IsDigit(s[0]) && s[0] != '-'
    requires t != [] && !IsDigit(t[0]) && t[0] != '-'
    requires IntToString(i) + s == IntToString(j) + t
    ensures i == j && s == t
  {
    var a, b := IntToString(i), IntToString(j);
    assert (a + s)[0] == a[0] && (b + t)[0] == b[0];
    if i < 0 && j < 0 {
      assert a + s == "-" + (NatToString(-i) + s);
      assert b + t == "-" + (NatToString(-j) + t);
      assert NatToString(-i) + s == (a + s)[1..];
      DigitsSplitUnique(NatToString(-i), s, NatToString(-j), t);
      NatToStringInjective(-i, -j);
    } else if i >= 0 && j >= 0 {
      DigitsSplitUnique(a, s, b, t);
      NatToStringInjective(i, j);
    }
  }
}
