/**
 * Decimal text of Kotlin `Int`s: `Int.toString()`, used when a record file name and the
 * synthetic tag are built from an id, and `String.toIntOrNull()`, used when file names are
 * turned back into ids.
 */
module IntText {
  import opened Wrappers
  import opened Int32Arith

  predicate IsDigit(c: char) { '0' <= c <= '9' }

  predicate AllDigits(s: string) { forall i :: 0 <= i < |s| ==> IsDigit(s[i]) }

  function DigitValue(c: char): nat
    requires IsDigit(c)
  {
    c as int - '0' as int
  }

  function DigitChar(d: nat): (c: char)
    requires d < 10
    ensures IsDigit(c) && DigitValue(c) == d
  {
    ('0' as int + d) as char
  }

  /** The value of a string of decimal digits, most significant digit first; leading zeros are allowed. */
  function DigitsValue(s: string): nat
    requires AllDigits(s)
  {
    if |s| == 0 then 0 else DigitsValue(s[..|s| - 1]) * 10 + DigitValue(s[|s| - 1])
  }

  /** The decimal digits of `n`, with no leading zero. */
  function NatToString(n: nat): (s: string)
    ensures |s| >= 1 && AllDigits(s)
    ensures DigitsValue(s) == n
    ensures s[0] == '0' ==> s == "0"
  {
    if n < 10 then [DigitChar(n)]
    else
      var s := NatToString(n / 10) + [DigitChar(n % 10)];
      assert s[..|s| - 1] == NatToString(n / 10);
      s
  }

  /** Kotlin `n.toString()`: a minus sign for negative values, then the digits of the magnitude. */
  function IntToString(n: int): (s: string)
    ensures |s| >= 1
    ensures s[0] == '-' <==> n < 0
    ensures n >= 0 ==> AllDigits(s) && DigitsValue(s) == n
    ensures n < 0 ==> AllDigits(s[1..]) && DigitsValue(s[1..]) == -n
    ensures s[0] == '0' ==> s == "0"
    ensures n < 0 ==> |s| >= 2 && s[1] != '0'
  {
    if n < 0 then
      var s := "-" + NatToString(-n);
      assert s[1..] == NatToString(-n);
      s
    else NatToString(n)
  }

  function InInt32Range(x: int): (r: Option<Int32>)
    ensures r.Some? <==> MIN <= x <= MAX
    ensures r.Some? ==> r.value == x
  {
    if MIN <= x <= MAX then Some(x) else None
  }

  /** An optional `-` or `+` followed by one or more decimal digits. */
  predicate IsNumeral(s: string) {
    || (|s| >= 1 && AllDigits(s))
    || (|s| >= 2 && (s[0] == '-' || s[0] == '+') && AllDigits(s[1..]))
  }

  /** The signed value a numeral denotes, leading zeros allowed. */
  function SignedValue(s: string): int
    requires IsNumeral(s)
  {
    if s[0] == '-' then -(DigitsValue(s[1..]) as int)
    else if s[0] == '+' then DigitsValue(s[1..])
    else DigitsValue(s)
  }

  /**
   * Kotlin `s.toIntOrNull()` in radix 10: an optional `-` or `+`, then one or more decimal
   * digits, whose signed value must fit an `Int`; anything else is `null`.
   */
  function ParseInt(s: string): (r: Option<Int32>)
    ensures r.Some? ==> IsNumeral(s) && r.value == SignedValue(s)
    ensures IsNumeral(s) && MIN <= SignedValue(s) <= MAX ==> r.Some?
  {
    if |s| == 0 then None
    else if s[0] == '-' || s[0] == '+' then
      if |s| == 1 || !AllDigits(s[1..]) then None
      else if s[0] == '-' then InInt32Range(-(DigitsValue(s[1..]) as int))
      else InInt32Range(DigitsValue(s[1..]))
    else if AllDigits(s) then InInt32Range(DigitsValue(s))
    else None
  }

  /** Printing an `Int` and parsing the text back gives the same `Int`. */
  lemma ParseIntToString(n: Int32)
    ensures ParseInt(IntToString(n)) == Some(n)
  {
    var s := IntToString(n);
    if n < 0 {
      assert s[0] == '-' && |s| >= 2;
      assert ParseInt(s) == InInt32Range(-(DigitsValue(s[1..]) as int));
    } else {
      assert IsDigit(s[0]);
    }
  }

  /** Distinct `Int`s print as distinct strings. */
  lemma IntToStringInjective(a: int, b: int)
    requires IntToString(a) == IntToString(b)
    ensures a == b
  {
    var s := IntToString(a);
    if a < 0 {
      assert DigitsValue(s[1..]) == -a == -b;
    } else {
      assert DigitsValue(s) == a == b;
    }
  }

  /** Leading zeros and a plus sign are accepted: several names can parse to the same `Int`. */
  lemma ParseIntExamples()
    ensures ParseInt("1") == Some(1)
    ensures ParseInt("01") == Some(1)
    ensures ParseInt("+1") == Some(1)
    ensures ParseInt("-3") == Some(-3)
    ensures ParseInt("-0") == Some(0)
  {
    assert DigitsValue("1") == 1;
    assert DigitsValue("3") == 3;
    assert DigitsValue("0") == 0;
    assert "01"[..1] == "0";
    assert DigitsValue("01") == 1;
    assert "+1"[1..] == "1";
    assert "-3"[1..] == "3";
    assert "-0"[1..] == "0";
  }

  /** Text that is not a signed decimal number parses to `null`. */
  lemma ParseIntRejects()
    ensures ParseInt("") == None
    ensures ParseInt("-") == None
    ensures ParseInt("+") == None
    ensures ParseInt("1a") == None
    ensures ParseInt(" 1") == None
    ensures ParseInt("1.json") == None
  {
    assert !IsDigit("1a"[1]);
    assert !IsDigit(" 1"[0]);
    assert !IsDigit("1.json"[1]);
  }

  /** The text of a number outside the `Int` range parses to `null`. */
  lemma ParseIntOutOfRange(n: int)
    requires n < MIN || MAX < n
    ensures ParseInt(IntToString(n)) == None
  {
    var s := IntToString(n);
    if n < 0 {
      assert s[0] == '-' && |s| >= 2;
      assert ParseInt(s) == InInt32Range(-(DigitsValue(s[1..]) as int));
    } else {
      assert IsDigit(s[0]);
    }
  }
}
