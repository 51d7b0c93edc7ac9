/**
 * Decimal text of Java ints: `String.valueOf(int)` (print) and
 * `Integer.parseInt(String)` (parse), as the counter store uses them to
 * write and read its persisted record.
 */
module Decimal {
  import opened Wrappers
  import Int32

  predicate IsDigit(c: char) {
    '0' <= c <= '9'
  }

  predicate AllDigits(s: string) {
    forall i | 0 <= i < |s| :: IsDigit(s[i])
  }

  function DigitValue(c: char): (d: nat)
    requires IsDigit(c)
    ensures d < 10
  {
    c as int - '0' as int
  }

  function DigitChar(d: nat): (c: char)
    requires d < 10
    ensures IsDigit(c) && DigitValue(c) == d
  {
    ('0' as int + d) as char
  }

  /** The canonical digits of `n`: most significant first, no leading zero, "0" for zero. */
  function NatDigits(n: nat): (s: string)
    ensures |s| > 0 && AllDigits(s)
    ensures s[0] == '0' ==> n == 0
    decreases n
  {
    if n < 10 then [DigitChar(n)] else NatDigits(n / 10) + [DigitChar(n % 10)]
  }

  /** The number a non-empty string of digits denotes, most significant digit first. */
  function DigitsValue(s: string): (v: nat)
    requires AllDigits(s)
    decreases |s|
  {
    if s == [] then 0 else DigitsValue(s[..|s| - 1]) * 10 + DigitValue(s[|s| - 1])
  }

  lemma {:induction false} DigitsValueOfNatDigits(n: nat)
    ensures DigitsValue(NatDigits(n)) == n
  {
    if n >= 10 {
      var s := NatDigits(n);
      assert s[..|s| - 1] == NatDigits(n / 10);
      DigitsValueOfNatDigits(n / 10);
    }
  }

  /** A prefix of a digit string never denotes more than the whole string. */
  lemma {:induction false} DigitsValuePrefix(s: string, k: nat)
    requires AllDigits(s) && k <= |s|
    ensures DigitsValue(s[..k]) <= DigitsValue(s)
    decreases |s|
  {
    if k < |s| {
      var init := s[..|s| - 1];
      assert init[..k] == s[..k];
      DigitsValuePrefix(init, k);
    } else {
      assert s[..k] == s;
    }
  }

  /** `String.valueOf(n)`: an optional minus sign followed by the canonical digits of |n|. */
  function ValueOf(n: int): (s: string)
    ensures |s| > 0
    ensures forall i | 0 <= i < |s| :: IsDigit(s[i]) || (i == 0 && s[i] == '-')
    ensures s[0] == '-' <==> n < 0
  {
    if n < 0 then "-" + NatDigits(-n) else NatDigits(n)
  }

  /**
   * `Integer.parseInt(s)`: an optional leading '-' or '+', then at least one
   * digit and nothing else; leading zeros are allowed; the value must fit a
   * 32-bit int. Every other string is a NumberFormatException, here None.
   */
  function ParseInt(s: string): (r: Option<int>)
    ensures r.Some? ==> Int32.InRange(r.value)
  {
    if |s| == 0 then None
    else
      var digits := if s[0] == '-' || s[0] == '+' then s[1..] else s;
      if |digits| == 0 || !AllDigits(digits) then None
      else
        var magnitude: int := DigitsValue(digits);
        var v: int := if s[0] == '-' then -magnitude else magnitude;
        if Int32.InRange(v) then Some(v) else None
  }

  /** Parsing the printed text of an int gives the int back; a value outside 32 bits is refused. */
  lemma ParseValueOf(n: int)
    ensures ParseInt(ValueOf(n)) == if Int32.InRange(n) then Some(n) else None
  {
    var s := ValueOf(n);
    if n < 0 {
      assert s[1..] == NatDigits(-n);
      DigitsValueOfNatDigits(-n);
    } else {
      assert IsDigit(s[0]);
      DigitsValueOfNatDigits(n);
    }
  }

  /** Distinct ints are printed as distinct texts, so a record names exactly one count. */
  lemma ValueOfInjective(a: int, b: int)
    requires ValueOf(a) == ValueOf(b)
    ensures a == b
  {
    if a < 0 {
      assert b < 0;
      assert ValueOf(a)[1..] == NatDigits(-a);
      assert ValueOf(b)[1..] == NatDigits(-b);
      DigitsValueOfNatDigits(-a);
      DigitsValueOfNatDigits(-b);
    } else {
      assert b >= 0;
      DigitsValueOfNatDigits(a);
      DigitsValueOfNatDigits(b);
    }
  }
}
