/** Decimal text conversions of the C++ standard library that the core relies
    on: std::to_string on integers and std::stoi / std::stol, which skip
    leading white space, accept an optional sign and read the longest run of
    decimal digits, throwing invalid_argument when there is none and
    out_of_range when the value does not fit the target type. */
module Numerals {
  import opened Wrappers

  const IntMin: int := -0x8000_0000
  const IntMax: int := 0x7FFF_FFFF
  const LongMin: int := -0x8000_0000_0000_0000
  const LongMax: int := 0x7FFF_FFFF_FFFF_FFFF

  predicate IsDigit(c: char) { '0' <= c <= '9' }

  /** The white-space characters of the C locale (std::isspace). */
  predicate IsSpace(c: char) {
    c == ' ' || c == '\t' || c == '\n' || c == '\U{0B}' || c == '\U{0C}' || c == '\r'
  }

  predicate AllDigits(s: string) { forall i :: 0 <= i < |s| ==> IsDigit(s[i]) }

  function DigitChar(d: nat): (c: char)
    requires d < 10
    ensures IsDigit(c) && c as int - '0' as int == d
  {
    ('0' as int + d) as char
  }

  /** std::to_string of a non-negative integer: no leading zeros, "0" for 0. */
  function NatToString(n: nat): (s: string)
    ensures |s| >= 1 && AllDigits(s)
    ensures |s| > 1 ==> s[0] != '0'
  {
    if n < 10 then [DigitChar(n)] else NatToString(n / 10) + [DigitChar(n % 10)]
  }

  /** std::to_string of any integer. */
  function IntToString(n: int): (s: string)
    ensures |s| >= 1
  {
    if n < 0 then "-" + NatToString(-n) else NatToString(n)
  }

  /** The value of the characters s[i..j] read as decimal digits. */
  function Value(s: string, i: nat, j: nat): int
    requires i <= j <= |s|
    decreases j - i
  {
    if j == i then 0 else Value(s, i, j - 1) * 10 + (s[j - 1] as int - '0' as int)
  }

  /** The value of a whole digit string. */
  function DigitsValue(s: string): int {
    Value(s, 0, |s|)
  }

  /** The first position at or after i that is not white space. */
  function SpaceEnd(s: string, i: nat): (k: nat)
    requires i <= |s|
    ensures i <= k <= |s|
    decreases |s| - i
  {
    if i < |s| && IsSpace(s[i]) then SpaceEnd(s, i + 1) else i
  }

  /** The first position at or after i that is not a decimal digit. */
  function DigitEnd(s: string, i: nat): (k: nat)
    requires i <= |s|
    ensures i <= k <= |s|
    decreases |s| - i
  {
    if i < |s| && IsDigit(s[i]) then DigitEnd(s, i + 1) else i
  }

  /** strtol followed by a range check against [lo, hi]: the shared core of
      std::stoi (int range) and std::stol (long range). */
  function StrToInteger(s: string, lo: int, hi: int): (r: Result<int>)
    ensures r.Ok? ==> lo <= r.value <= hi
  {
    var i := SpaceEnd(s, 0);
    var neg := i < |s| && s[i] == '-';
    var start := if i < |s| && (s[i] == '-' || s[i] == '+') then i + 1 else i;
    var end := DigitEnd(s, start);
    if end == start then Err(InvalidArgument)
    else
      var mag := Value(s, start, end);
      var v := if neg then -mag else mag;
      if v < lo || hi < v then Err(OutOfRange) else Ok(v)
  }

  function Stoi(s: string): Result<int> { StrToInteger(s, IntMin, IntMax) }

  function Stol(s: string): Result<int> { StrToInteger(s, LongMin, LongMax) }

  /** The value of a range depends only on the characters in it. */
  lemma {:induction false} ValueOffset(s: string, t: string, offset: nat, i: nat, j: nat)
    requires i <= j <= |t| && j + offset <= |s|
    requires forall k :: i <= k < j ==> s[k + offset] == t[k]
    ensures Value(s, i + offset, j + offset) == Value(t, i, j)
    decreases j - i
  {
    if j > i {
      ValueOffset(s, t, offset, i, j - 1);
      assert s[j - 1 + offset] == t[j - 1];
    }
  }

  /** Leading zeros do not change the value of a range. */
  lemma {:induction false} ValueLeadingZeros(s: string, i: nat, m: nat, j: nat)
    requires i <= m <= j <= |s|
    requires forall k :: i <= k < m ==> s[k] == '0'
    ensures Value(s, i, j) == Value(s, m, j)
    decreases j - i
  {
    if j > m {
      ValueLeadingZeros(s, i, m, j - 1);
    } else if j > i {
      ValueLeadingZeros(s, i, j - 1, j - 1);
    }
  }

  /** Reading back what to_string wrote gives the number. */
  lemma {:induction false} DigitsValueOfNatToString(n: nat)
    ensures DigitsValue(NatToString(n)) == n
  {
    if n >= 10 {
      var p := NatToString(n / 10);
      var s := NatToString(n);
      assert s == p + [DigitChar(n % 10)];
      DigitsValueOfNatToString(n / 10);
      ValueOffset(s, p, 0, 0, |p|);
    }
  }

  /** A run of digits from i reaches the end of a text made of digits. */
  lemma {:induction false} DigitEndOfDigits(s: string, i: nat, j: nat)
    requires i <= j <= |s| && (j == |s| || !IsDigit(s[j]))
    requires forall k :: i <= k < j ==> IsDigit(s[k])
    ensures DigitEnd(s, i) == j
    decreases j - i
  {
    if i < j {
      DigitEndOfDigits(s, i + 1, j);
    }
  }

  /** stoi/stol read the digits that start a text and stop at the first
      character that is not one. */
  lemma DigitsThenParse(s: string, j: nat, lo: int, hi: int)
    requires 0 < j <= |s| && (j == |s| || !IsDigit(s[j]))
    requires forall k :: 0 <= k < j ==> IsDigit(s[k])
    requires lo <= 0
    ensures Value(s, 0, j) <= hi ==> StrToInteger(s, lo, hi) == Ok(Value(s, 0, j))
    ensures Value(s, 0, j) > hi ==> StrToInteger(s, lo, hi) == Err(OutOfRange)
  {
    assert !IsSpace(s[0]);
    DigitEndOfDigits(s, 0, j);
    ValueOfDigitsIsNatural(s, 0, j);
  }

  lemma StolOfDigitsThen(s: string, j: nat)
    requires 0 < j <= |s| && (j == |s| || !IsDigit(s[j]))
    requires forall k :: 0 <= k < j ==> IsDigit(s[k])
    requires Value(s, 0, j) <= LongMax
    ensures Stol(s) == Ok(Value(s, 0, j))
  {
    DigitsThenParse(s, j, LongMin, LongMax);
  }

  /** stoi/stol of a text made only of digits is the value of the digits. */
  lemma StolOfDigits(s: string)
    requires |s| > 0 && AllDigits(s) && DigitsValue(s) <= LongMax
    ensures Stol(s) == Ok(DigitsValue(s))
  {
    StolOfDigitsThen(s, |s|);
  }

  lemma {:induction false} ValueOfDigitsIsNatural(s: string, i: nat, j: nat)
    requires i <= j <= |s|
    requires forall k :: i <= k < j ==> IsDigit(s[k])
    ensures Value(s, i, j) >= 0
    decreases j - i
  {
    if j > i {
      ValueOfDigitsIsNatural(s, i, j - 1);
    }
  }

  /** std::stoi / std::stol read back what std::to_string wrote, whatever
      follows as long as it is not a digit, when the number fits the target
      type; otherwise they throw out_of_range. */
  lemma NatToStringParses(n: nat, rest: string, lo: int, hi: int)
    requires lo <= 0
    requires rest == [] || !IsDigit(rest[0])
    ensures n <= hi ==> StrToInteger(NatToString(n) + rest, lo, hi) == Ok(n)
    ensures n > hi ==> StrToInteger(NatToString(n) + rest, lo, hi) == Err(OutOfRange)
  {
    var p := NatToString(n);
    var s := p + rest;
    DigitsValueOfNatToString(n);
    ValueOffset(s, p, 0, 0, |p|);
    DigitsThenParse(s, |p|, lo, hi);
  }
}
