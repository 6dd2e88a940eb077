/** Decimal integers: printing with %d and reading back with strconv.Atoi on 64-bit ints. */
module Decimal {
  import opened Bytes

  const MAX_INT64: int := 0x7FFF_FFFF_FFFF_FFFF
  const MIN_INT64: int := -0x8000_0000_0000_0000

  const MINUS: Byte := 45
  const PLUS: Byte := 43

  predicate Int64(n: int)
  {
    MIN_INT64 <= n <= MAX_INT64
  }

  /** Go's increment of a 64-bit int. */
  function Increment(n: int): int
  {
    if n == MAX_INT64 then MIN_INT64 else n + 1
  }

  datatype Number = Num(value: int) | NotANumber

  predicate IsDigit(b: Byte)
  {
    48 <= b <= 57
  }

  predicate AllDigits(s: Bytes)
  {
    forall i :: 0 <= i < |s| ==> IsDigit(s[i])
  }

  /** The digits of a natural number, most significant first. */
  function Digits(n: nat): (s: Bytes)
    ensures |s| >= 1 && AllDigits(s)
  {
    if n < 10 then [(48 + n) as Byte] else Digits(n / 10) + [(48 + n % 10) as Byte]
  }

  function Itoa(n: int): (s: Bytes)
    ensures |s| >= 1
  {
    if n < 0 then [MINUS] + Digits(-n) else Digits(n)
  }

  function DigitsValue(s: Bytes): nat
    requires AllDigits(s)
  {
    if |s| == 0 then 0 else DigitsValue(s[..|s| - 1]) * 10 + (s[|s| - 1] as int - 48)
  }

  /** An optional sign, then digits only, and in range. */
  function Atoi(s: Bytes): Number
  {
    var negative := |s| > 0 && s[0] == MINUS;
    var body := if |s| > 0 && (s[0] == MINUS || s[0] == PLUS) then s[1..] else s;
    if |body| == 0 || !AllDigits(body) then NotANumber
    else
      var v: int := if negative then 0 - DigitsValue(body) else DigitsValue(body);
      if Int64(v) then Num(v) else NotANumber
  }

  /** The digits a text starts with. */
  function DigitPrefix(s: Bytes): (p: Bytes)
    ensures AllDigits(p) && p <= s
  {
    if |s| == 0 || !IsDigit(s[0]) then [] else [s[0]] + DigitPrefix(s[1..])
  }

  /** The number that comes with an error: the nearest 64-bit one when the digits overflow, which is
      noticed before any later byte is looked at once they pass 64 unsigned bits, and 0 otherwise. */
  function AtoiValue(s: Bytes): (n: int)
    ensures Int64(n)
    ensures Atoi(s).Num? ==> n == Atoi(s).value
  {
    var negative := |s| > 0 && s[0] == MINUS;
    var body := if |s| > 0 && (s[0] == MINUS || s[0] == PLUS) then s[1..] else s;
    var digits := DigitPrefix(body);
    if Atoi(s).Num? then Atoi(s).value
    else if |body| > 0 && (AllDigits(body) || DigitsValue(digits) >= 0x1_0000_0000_0000_0000) then
      if negative then MIN_INT64 else MAX_INT64
    else 0
  }

  lemma {:induction false} DigitsRoundTrip(n: nat)
    ensures DigitsValue(Digits(n)) == n
  {
    if n >= 10 {
      DigitsRoundTrip(n / 10);
      var s := Digits(n);
      assert s[..|s| - 1] == Digits(n / 10);
    }
  }

  /** Numbers are printed without leading zeros, and 0 as one digit. */
  lemma {:induction false} NoLeadingZero(n: nat)
    ensures if n == 0 then Itoa(n) == Ascii("0") else Itoa(n)[0] as int != 48
    ensures Itoa(-1) == Ascii("-1") && Itoa(907) == Ascii("907")
  {
    assert Digits(90) == [57, 48] && Digits(907) == [57, 48, 55];
    if n >= 10 {
      NoLeadingZero(n / 10);
    }
  }

  /** What %d prints, Atoi reads back. */
  lemma AtoiItoa(n: int)
    requires Int64(n)
    ensures Atoi(Itoa(n)) == Num(n)
  {
    if n < 0 {
      DigitsRoundTrip(-n);
      assert Itoa(n)[1..] == Digits(-n);
    } else {
      DigitsRoundTrip(n);
      assert IsDigit(Digits(n)[0]);
    }
  }
}
