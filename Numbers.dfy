/** Decimal rendering (std::to_string) and parsing (QString::toInt). */
module Numbers {
  import opened Wrappers

  predicate IsDigit(c: char)
  {
    '0' <= c <= '9'
  }

  predicate AllDigits(s: string)
  {
    forall i :: 0 <= i < |s| ==> IsDigit(s[i])
  }

  function DigitChar(d: nat): (c: char)
    requires d < 10
    ensures IsDigit(c) && c as int - '0' as int == d
  {
    ('0' as int + d) as char
  }

  function DigitValue(c: char): nat
    requires IsDigit(c)
  {
    c as int - '0' as int
  }

  /** Decimal digits of `n`, most significant first, without leading zeros. */
  function NatToString(n: nat): (s: string)
    ensures |s| >= 1 && AllDigits(s)
    ensures s[0] == '0' ==> n == 0
    decreases n
  {
    if n < 10 then [DigitChar(n)] else NatToString(n / 10) + [DigitChar(n % 10)]
  }

  /** std::to_string of a signed integer. */
  function IntToString(i: int): string
  {
    if i < 0 then "-" + NatToString(-i) else NatToString(i)
  }

  /** The value of a string of decimal digits. */
  function DigitsValue(s: string): nat
    requires AllDigits(s)
    decreases |s|
  {
    if s == [] then 0 else DigitsValue(s[..|s| - 1]) * 10 + DigitValue(s[|s| - 1])
  }

  /** An optional sign followed by one or more decimal digits. */
  function ParseDecimal(s: string): Option<int>
  {
    if |s| > 1 && (s[0] == '-' || s[0] == '+') && AllDigits(s[1..]) then
      var magnitude: int := DigitsValue(s[1..]);
      Some(if s[0] == '-' then -magnitude else magnitude)
    else if |s| > 0 && AllDigits(s) then Some(DigitsValue(s))
    else None
  }

  lemma {:induction false} DigitsOfNatToString(n: nat)
    ensures DigitsValue(NatToString(n)) == n
    decreases n
  {
    if n >= 10 {
      DigitsOfNatToString(n / 10);
      var s := NatToString(n);
      assert s[..|s| - 1] == NatToString(n / 10);
    }
  }

  /** Rendering then parsing gives the number back. */
  lemma ParseIntToString(i: int)
    ensures ParseDecimal(IntToString(i)) == Some(i)
  {
    if i < 0 {
      DigitsOfNatToString(-i);
      ParseNegative(NatToString(-i));
    } else {
      DigitsOfNatToString(i);
      ParseDigits(NatToString(i));
    }
  }

  /** A leading zero does not change the value of a digit string. */
  lemma {:induction false} LeadingZero(s: string)
    requires AllDigits(s)
    ensures AllDigits("0" + s) && DigitsValue("0" + s) == DigitsValue(s)
    decreases |s|
  {
    if s != [] {
      var t := "0" + s;
      assert t[..|t| - 1] == "0" + s[..|s| - 1];
      LeadingZero(s[..|s| - 1]);
    }
  }

  const INT_MIN: int := -0x8000_0000
  const INT_MAX: int := 0x7fff_ffff

  predicate IsSpace(c: char)
  {
    c == ' ' || c == '\t' || c == '\n' || c == '\r' || c == '\U{000B}' || c == '\U{000C}'
  }

  function TrimStart(s: string): (r: string)
    ensures |r| <= |s| && r == s[|s| - |r|..]
    ensures |r| > 0 ==> !IsSpace(r[0])
    decreases |s|
  {
    if |s| > 0 && IsSpace(s[0]) then TrimStart(s[1..]) else s
  }

  function TrimEnd(s: string): (r: string)
    ensures |r| <= |s| && r == s[..|r|]
    ensures |r| > 0 ==> !IsSpace(r[|r| - 1])
    decreases |s|
  {
    if |s| > 0 && IsSpace(s[|s| - 1]) then TrimEnd(s[..|s| - 1]) else s
  }

  /** QString::trimmed, restricted to ASCII white space. */
  function Trim(s: string): string
  {
    TrimEnd(TrimStart(s))
  }

  /** QString::toInt(): white space around the number is ignored, and the
      result is 0 when the text is not a decimal number in the 32-bit range. */
  function ToInt(s: string): (r: int)
    ensures INT_MIN <= r <= INT_MAX
  {
    match ParseDecimal(Trim(s))
    case Some(v) => if INT_MIN <= v <= INT_MAX then v else 0
    case None => 0
  }

  /** Text that starts and ends with something other than white space is
      its own trimmed form. */
  lemma TrimNoSpace(s: string)
    requires |s| > 0 && !IsSpace(s[0]) && !IsSpace(s[|s| - 1])
    ensures Trim(s) == s
  {
    assert TrimStart(s) == s;
  }

  /** toInt reads back every 32-bit value that std::to_string renders. */
  lemma ToIntOfIntToString(i: int)
    requires INT_MIN <= i <= INT_MAX
    ensures ToInt(IntToString(i)) == i
  {
    var s := IntToString(i);
    assert s[0] == '-' || IsDigit(s[0]);
    assert IsDigit(s[|s| - 1]);
    TrimNoSpace(s);
    ParseIntToString(i);
  }

  /** A non-empty digit string parses as its value. */
  lemma ParseDigits(s: string)
    requires |s| > 0 && AllDigits(s)
    ensures ParseDecimal(s) == Some(DigitsValue(s))
  {
    assert IsDigit(s[0]);
  }

  /** A minus sign before a non-empty digit string negates its value. */
  lemma ParseNegative(s: string)
    requires |s| > 0 && AllDigits(s)
    ensures ParseDecimal("-" + s) == Some(-(DigitsValue(s) as int))
  {
    var t := "-" + s;
    assert t[0] == '-' && t[1..] == s;
  }

  /** toInt reads a non-empty digit string in range as its value. */
  lemma ToIntOfDigits(s: string)
    requires |s| > 0 && AllDigits(s) && DigitsValue(s) <= INT_MAX
    ensures ToInt(s) == DigitsValue(s)
  {
    assert IsDigit(s[0]) && IsDigit(s[|s| - 1]);
    TrimNoSpace(s);
    ParseDigits(s);
  }

  /** Zero padding is accepted: "03" reads as 3. */
  lemma ToIntZeroPadded(n: nat)
    requires n <= INT_MAX
    ensures ToInt("0" + NatToString(n)) == n
  {
    var d := NatToString(n);
    LeadingZero(d);
    DigitsOfNatToString(n);
    ToIntOfDigits("0" + d);
  }

  /** Text without any digit reads as 0. */
  lemma ToIntWithoutDigits(s: string)
    requires forall i :: 0 <= i < |s| ==> !IsDigit(s[i])
    ensures ToInt(s) == 0
  {
    var t := Trim(s);
    var u := TrimStart(s);
    assert forall i :: 0 <= i < |u| ==> u[i] == s[|s| - |u| + i];
    assert forall i :: 0 <= i < |t| ==> t[i] == u[i];
    if |t| > 0 {
      assert !IsDigit(t[|t| - 1]);
    }
  }
}
