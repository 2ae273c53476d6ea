/** Python's `'%d' % n`: the decimal text of an integer, and its inverse. */
module Decimal {
  import opened Wrappers

  predicate IsDigit(c: char)
  {
    '0' <= c <= '9'
  }

  predicate AllDigits(s: string)
  {
    forall i :: 0 <= i < |s| ==> IsDigit(s[i])
  }

  function DigitChar(d: nat): (c: char)
    requires d < 10
    ensures IsDigit(c)
  {
    ('0' as int + d) as char
  }

  function DigitValue(c: char): nat
    requires IsDigit(c)
  {
    c as int - '0' as int
  }

  /** The decimal digits of `n`, most significant first, without leading zeros. */
  function NatToDecimal(n: nat): (s: string)
    ensures |s| >= 1 && AllDigits(s)
    ensures s[0] == '0' ==> n == 0
    decreases n
  {
    if n < 10 then [DigitChar(n)]
    else NatToDecimal(n / 10) + [DigitChar(n % 10)]
  }

  /** `'%d' % n`: a minus sign before the digits of a negative number. */
  function IntToDecimal(n: int): (s: string)
    ensures |s| >= 1
    ensures n < 0 <==> s[0] == '-'
    ensures AllDigits(if n < 0 then s[1..] else s)
  {
    if n < 0 then "-" + NatToDecimal(-n) else NatToDecimal(n)
  }

  /** The value of a string of digits. */
  function ParseDigits(s: string): nat
    requires AllDigits(s)
  {
    if |s| == 0 then 0
    else ParseDigits(s[..|s| - 1]) * 10 + DigitValue(s[|s| - 1])
  }

  /** Reads back what `IntToDecimal` writes; anything else is `None`. */
  function ParseInt(s: string): Option<int>
  {
    if |s| >= 2 && s[0] == '-' && AllDigits(s[1..]) then Some(-(ParseDigits(s[1..]) as int))
    else if |s| >= 1 && AllDigits(s) then Some(ParseDigits(s))
    else None
  }

  lemma {:induction false} ParseNatToDecimal(n: nat)
    ensures ParseDigits(NatToDecimal(n)) == n
    decreases n
  {
    if n >= 10 {
      var s := NatToDecimal(n);
      ParseNatToDecimal(n / 10);
      assert s[..|s| - 1] == NatToDecimal(n / 10);
    }
  }

  /** Decimal text round-trips: parsing the text of `n` gives back `n`. */
  lemma ParseIntToDecimal(n: int)
    ensures ParseInt(IntToDecimal(n)) == Some(n)
  {
    if n < 0 {
      ParseNegativeDecimal(n);
    } else {
      ParseNatToDecimal(n);
      ParseDigitString(NatToDecimal(n));
    }
  }

  /** A digit string with at least one digit parses as its digits' value. */
  lemma ParseDigitString(s: string)
    requires |s| >= 1 && AllDigits(s)
    ensures ParseInt(s) == Some(ParseDigits(s) as int)
  {
    assert IsDigit(s[0]);
  }

  lemma ParseNegativeDecimal(n: int)
    requires n < 0
    ensures ParseInt(IntToDecimal(n)) == Some(n)
  {
    var digits := NatToDecimal(-n);
    var s := "-" + digits;
    assert s[1..] == digits;
    ParseNatToDecimal(-n);
    assert ParseInt(s) == Some(-(ParseDigits(digits) as int));
  }

  /** The text of a number holds only digits and possibly a leading minus sign, never a `/`. */
  lemma DecimalHasNoSeparator(n: int)
    ensures '/' !in IntToDecimal(n)
  {
    var s := IntToDecimal(n);
    forall i | 0 <= i < |s|
      ensures s[i] != '/'
    {
      if i > 0 || n >= 0 {
        var t := if n < 0 then s[1..] else s;
        var j := if n < 0 then i - 1 else i;
        assert t[j] == s[i];
        assert IsDigit(t[j]);
      }
    }
  }
}
