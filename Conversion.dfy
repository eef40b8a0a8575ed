/**
 Object.ToString() on the boxed key values, as the string-key mode of GetDictionary
 uses it: decimal digits with a leading '-' for an int, the string itself for a string.
 */
module Conversion {
  import opened XsvTypes

  predicate IsDigit(c: char) { '0' <= c <= '9' }

  function DigitChar(d: nat): (c: char)
    requires d < 10
    ensures IsDigit(c)
  {
    ('0' as int + d) as char
  }

  function DigitValue(c: char): nat
    requires IsDigit(c)
  {
    c as int - '0' as int
  }

  predicate AllDigits(s: string) {
    forall i :: 0 <= i < |s| ==> IsDigit(s[i])
  }

  /** Decimal digits of `n`, most significant first, no leading zeros. */
  function NatToString(n: nat): (s: string)
    ensures |s| > 0 && AllDigits(s)
    ensures (|s| > 1 ==> s[0] != '0')
    decreases n
  {
    if n < 10 then [DigitChar(n)] else NatToString(n / 10) + [DigitChar(n % 10)]
  }

  /**
   Int32.ToString() under a culture whose negative sign is "-": '-' and then the digits
   of the magnitude for a negative int, the digits alone otherwise. ParseInt reads it back.
   */
  function IntToString(i: int): (s: string)
    ensures |s| > 0 && (i < 0 <==> s[0] == '-')
    ensures ParseInt(s) == Some(i)
  {
    if i < 0 then
      ParseNatOfNatToString(-i);
      var s := "-" + NatToString(-i);
      assert s[1..] == NatToString(-i);
      s
    else
      ParseNatOfNatToString(i);
      NatToString(i)
  }

  /** Object.ToString() of a non-null boxed value: a string is itself, an int its decimal text. */
  function ToString(v: Value): (r: string)
    requires !v.Null?
    ensures v.StringValue? ==> r == v.s
    ensures v.IntValue? ==> r == IntToString(v.i) && ParseInt(r) == Some(v.i)
  {
    match v
    case IntValue(i) => IntToString(i)
    case StringValue(s) => s
  }

  /** The value of a string of decimal digits. */
  function ParseNat(s: string): nat
    requires |s| > 0 && AllDigits(s)
    decreases |s|
  {
    if |s| == 1 then DigitValue(s[0])
    else ParseNat(s[..|s| - 1]) * 10 + DigitValue(s[|s| - 1])
  }

  /** The inverse of IntToString: an optional '-' and then decimal digits. */
  function ParseInt(s: string): Option<int> {
    if |s| > 1 && s[0] == '-' && AllDigits(s[1..]) then Some(-(ParseNat(s[1..]) as int))
    else if |s| > 0 && AllDigits(s) then Some(ParseNat(s))
    else None
  }

  lemma {:induction false} ParseNatOfNatToString(n: nat)
    ensures ParseNat(NatToString(n)) == n
    decreases n
  {
    if n >= 10 {
      var s := NatToString(n);
      assert s[..|s| - 1] == NatToString(n / 10);
      ParseNatOfNatToString(n / 10);
    }
  }

  /** Distinct ints print as distinct strings, so string keys never merge int keys. */
  lemma IntToStringInjective(a: int, b: int)
    ensures IntToString(a) == IntToString(b) <==> a == b
  {
    if IntToString(a) == IntToString(b) {
      assert Some(a) == ParseInt(IntToString(a)) == ParseInt(IntToString(b)) == Some(b);
    }
  }
}
