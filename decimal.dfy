/**
 * Integers as decimal text: JavaScript's template-literal rendering of an integral number
 * (`${n}`) and `parseInt(s, 10)`, with the round trip between them.
 */
module Decimal {
  import opened Wrappers
  import Text

  predicate IsDigit(c: char)
  {
    '0' <= c <= '9'
  }

  function DigitChar(d: int): (c: char)
    requires 0 <= d < 10
    ensures IsDigit(c)
  {
    ('0' as int + d) as char
  }

  function DigitValue(c: char): (d: nat)
    requires IsDigit(c)
    ensures d < 10
  {
    c as int - '0' as int
  }

  /** The digits of `n`, most significant first, with no leading zero. */
  function NatToDecimal(n: nat): (s: string)
    ensures |s| > 0
    ensures forall i :: 0 <= i < |s| ==> IsDigit(s[i])
  {
    if n < 10 then [DigitChar(n)] else NatToDecimal(n / 10) + [DigitChar(n % 10)]
  }

  /** `${n}` for an integral number: a minus sign exactly for a negative number, then at
      least one digit and nothing else. */
  function IntToDecimal(n: int): (s: string)
    ensures |s| > 0 && (s[0] == '-' <==> n < 0)
    ensures forall i :: (if n < 0 then 1 else 0) <= i < |s| ==> IsDigit(s[i])
    ensures n < 0 ==> |s| >= 2
  {
    if n < 0 then "-" + NatToDecimal(-n) else NatToDecimal(n)
  }

  /** The value of a string of decimal digits. */
  function DigitsValue(s: string): nat
    requires forall i :: 0 <= i < |s| ==> IsDigit(s[i])
  {
    if s == [] then 0 else DigitsValue(s[..|s| - 1]) * 10 + DigitValue(s[|s| - 1])
  }

  /** The longest prefix of `s` made of decimal digits. */
  function LeadingDigits(s: string): (r: string)
    ensures r <= s
    ensures forall i :: 0 <= i < |r| ==> IsDigit(r[i])
    ensures |r| < |s| ==> !IsDigit(s[|r|])
  {
    if s != [] && IsDigit(s[0]) then [s[0]] + LeadingDigits(s[1..]) else []
  }

  /**
   * `parseInt(s, 10)`: skip leading whitespace, take one optional sign, then the longest
   * run of digits; None stands for NaN, the result when there is no digit.
   */
  function ParseInt(s: string): (r: Option<int>)
    ensures var t := Text.TrimStart(s);
            t != [] && IsDigit(t[0]) ==> r.Some? && r.value >= 0
    ensures var t := Text.TrimStart(s);
            t == [] || (!IsDigit(t[0]) && t[0] != '-' && t[0] != '+') ==> r.None?
    ensures r.Some? && r.value < 0 ==> Text.TrimStart(s)[0] == '-'
  {
    var t := Text.TrimStart(s);
    var negative := |t| > 0 && t[0] == '-';
    var body := if |t| > 0 && (t[0] == '-' || t[0] == '+') then t[1..] else t;
    var digits := LeadingDigits(body);
    var value: int := DigitsValue(digits);
    if digits == [] then None else Some(if negative then -value else value)
  }

  lemma {:induction false} DigitsValueOfDecimal(n: nat)
    ensures DigitsValue(NatToDecimal(n)) == n
  {
    if n >= 10 {
      var s := NatToDecimal(n);
      assert s[..|s| - 1] == NatToDecimal(n / 10);
      DigitsValueOfDecimal(n / 10);
    }
  }

  lemma {:induction false} LeadingDigitsOfDigits(s: string)
    requires forall i :: 0 <= i < |s| ==> IsDigit(s[i])
    ensures LeadingDigits(s) == s
  {
    if s != [] {
      LeadingDigitsOfDigits(s[1..]);
    }
  }

  /** Rendered integers contain no separator characters other than digits and '-'. */
  lemma DecimalHasNoColon(n: int)
    ensures ':' !in IntToDecimal(n)
  {
    var s := NatToDecimal(if n < 0 then -n else n);
    assert forall i :: 0 <= i < |s| ==> s[i] != ':';
  }

  /** parseInt reads back every integer that `${n}` renders. */
  lemma ParseIntOfDecimal(n: int)
    ensures ParseInt(IntToDecimal(n)) == Some(n)
  {
    if n < 0 {
      ParseIntNegative(-n);
    } else {
      ParseIntIgnoresTail(n, []);
      assert NatToDecimal(n) + [] == NatToDecimal(n);
    }
  }

  lemma ParseIntNegative(m: nat)
    requires m > 0
    ensures ParseInt("-" + NatToDecimal(m)) == Some(-(m as int))
  {
    var d := NatToDecimal(m);
    var s := "-" + d;
    var t := Text.TrimStart(s);
    assert !Text.IsJsWhitespace(s[0]);
    assert t == s;
    assert t[0] == '-';
    assert t[1..] == d;
    LeadingDigitsOfDigits(d);
    DigitsValueOfDecimal(m);
  }

  /** parseInt reads only a leading number: trailing text after the digits is ignored. */
  lemma ParseIntIgnoresTail(n: nat, tail: string)
    requires tail == [] || !IsDigit(tail[0])
    ensures ParseInt(NatToDecimal(n) + tail) == Some(n)
  {
    var d := NatToDecimal(n);
    var s := d + tail;
    assert Text.TrimStart(s) == s by {
      assert s[0] == d[0] && IsDigit(s[0]);
    }
    assert LeadingDigits(s) == d by {
      LeadingDigitsPrefix(d, tail);
    }
    assert DigitsValue(d) == n by {
      DigitsValueOfDecimal(n);
    }
    ParseIntUnsigned(s, d);
  }

  /** Text that starts with a digit is read as its leading digits. */
  lemma ParseIntUnsigned(s: string, d: string)
    requires |s| > 0 && IsDigit(s[0]) && Text.TrimStart(s) == s
    requires LeadingDigits(s) == d
    ensures d != [] && ParseInt(s) == Some(DigitsValue(d))
  {
  }

  lemma {:induction false} LeadingDigitsPrefix(d: string, tail: string)
    requires forall i :: 0 <= i < |d| ==> IsDigit(d[i])
    requires tail == [] || !IsDigit(tail[0])
    ensures LeadingDigits(d + tail) == d
  {
    if d != [] {
      assert (d + tail)[1..] == d[1..] + tail;
      LeadingDigitsPrefix(d[1..], tail);
    } else {
      assert d + tail == tail;
    }
  }
}
