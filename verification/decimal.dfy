/** Decimal text of integers, as Python's `str(n)` writes it for an `int`,
    together with a reader for digit strings that serves as its inverse. */
module Decimal {

  predicate IsDigit(c: char) { '0' <= c <= '9' }

  function DigitChar(d: nat): (c: char)
    requires d < 10
    ensures IsDigit(c)
  {
    "0123456789"[d]
  }

  function DigitValue(c: char): (d: nat)
    requires IsDigit(c)
    ensures d < 10
  {
    (c as int) - ('0' as int)
  }

  lemma DigitRoundTrip(d: nat)
    requires d < 10
    ensures DigitValue(DigitChar(d)) == d
  {
  }

  /** Most significant digit first, no leading zero, "0" for zero. */
  function NatText(n: nat): (s: string)
    ensures |s| >= 1
    ensures forall k :: 0 <= k < |s| ==> IsDigit(s[k])
    decreases n
  {
    if n < 10 then [DigitChar(n)] else NatText(n / 10) + [DigitChar(n % 10)]
  }

  /** `str(i)` for a Python int: a minus sign in front of a negative value. */
  function IntText(i: int): (s: string)
    ensures |s| >= 1 && (s[0] == '-' <==> i < 0)
  {
    if i < 0 then "-" + NatText(-i) else NatText(i)
  }

  /** The value of a string of decimal digits, read most significant first. */
  function DigitsValue(s: string): (n: nat)
    requires forall k :: 0 <= k < |s| ==> IsDigit(s[k])
  {
    if s == [] then 0 else DigitsValue(s[..|s| - 1]) * 10 + DigitValue(s[|s| - 1])
  }

  /** The text of a natural number is non-empty, all digits, and starts with
      a zero only when it is exactly "0". */
  lemma {:induction false} NatTextWellFormed(n: nat)
    ensures |NatText(n)| >= 1
    ensures forall k :: 0 <= k < |NatText(n)| ==> IsDigit(NatText(n)[k])
    ensures NatText(n)[0] == '0' <==> n == 0
    decreases n
  {
    if n >= 10 {
      NatTextWellFormed(n / 10);
      assert NatText(n)[0] == NatText(n / 10)[0];
    } else {
      assert "0123456789"[0] == '0';
      assert forall d :: 1 <= d < 10 ==> "0123456789"[d] != '0';
    }
  }

  /** Reading back the text of `n` yields `n`. */
  lemma {:induction false} NatTextRoundTrip(n: nat)
    ensures forall k :: 0 <= k < |NatText(n)| ==> IsDigit(NatText(n)[k])
    ensures DigitsValue(NatText(n)) == n
    decreases n
  {
    NatTextWellFormed(n);
    var s := NatText(n);
    if n < 10 {
      DigitRoundTrip(n);
      assert s[..|s| - 1] == [];
    } else {
      NatTextWellFormed(n / 10);
      NatTextRoundTrip(n / 10);
      DigitRoundTrip(n % 10);
      assert s[..|s| - 1] == NatText(n / 10);
    }
  }

  /** Distinct naturals have distinct texts. */
  lemma NatTextInjective(m: nat, n: nat)
    requires NatText(m) == NatText(n)
    ensures m == n
  {
    NatTextRoundTrip(m);
    NatTextRoundTrip(n);
  }
}
