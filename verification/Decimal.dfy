/**
 Decimal numerals of 64-bit signed integers: the reading side (a sign, then digits, then a range check)
 and the writing side (shortest form), as the codec and the command handlers use them.
 */
module Decimal {
  import opened Bytes

  const MIN_INT64: int := -0x8000_0000_0000_0000
  const MAX_INT64: int := 0x7FFF_FFFF_FFFF_FFFF
  const TWO_TO_64: int := 0x1_0000_0000_0000_0000
  const MINUS: Byte := 0x2D
  const PLUS: Byte := 0x2B

  predicate IsInt64(n: int) {
    MIN_INT64 <= n <= MAX_INT64
  }

  /** Two's complement wrap-around of a mathematical integer into 64 bits. */
  function Wrap64(n: int): (w: int)
    ensures IsInt64(w) && (w - n) % TWO_TO_64 == 0
    ensures IsInt64(n) ==> w == n
    ensures MAX_INT64 < n <= MAX_INT64 + TWO_TO_64 ==> w == n - TWO_TO_64
    ensures MIN_INT64 - TWO_TO_64 <= n < MIN_INT64 ==> w == n + TWO_TO_64
  {
    (n - MIN_INT64) % TWO_TO_64 + MIN_INT64
  }

  // ---------------------------------------------------------------- digits

  function DigitByte(d: nat): Byte
    requires d < 10
  {
    if d == 0 then 0x30 else if d == 1 then 0x31 else if d == 2 then 0x32 else if d == 3 then 0x33
    else if d == 4 then 0x34 else if d == 5 then 0x35 else if d == 6 then 0x36 else if d == 7 then 0x37
    else if d == 8 then 0x38 else 0x39
  }

  predicate IsDigit(b: Byte) {
    0x30 <= b <= 0x39
  }

  function DigitValue(b: Byte): (d: nat)
    requires IsDigit(b)
    ensures d < 10 && DigitByte(d) == b
  {
    if b == 0x30 then 0 else if b == 0x31 then 1 else if b == 0x32 then 2 else if b == 0x33 then 3
    else if b == 0x34 then 4 else if b == 0x35 then 5 else if b == 0x36 then 6 else if b == 0x37 then 7
    else if b == 0x38 then 8 else 9
  }

  lemma DigitRoundTrip(d: nat)
    requires d < 10
    ensures IsDigit(DigitByte(d)) && DigitValue(DigitByte(d)) == d
    ensures DigitByte(d) != MINUS && DigitByte(d) != PLUS && DigitByte(d) != LF && DigitByte(d) != CR
  {
  }

  predicate AllDigits(s: Bytes) {
    forall i :: 0 <= i < |s| ==> IsDigit(s[i])
  }

  function DigitsValue(s: Bytes): nat
    requires AllDigits(s)
  {
    if s == [] then 0 else 10 * DigitsValue(s[..|s| - 1]) + DigitValue(s[|s| - 1])
  }

  // ---------------------------------------------------------------- reading and writing

  /** strconv.ParseInt(s, 10, 64), and strconv.Atoi on a 64-bit machine: None stands for any error. */
  function ParseInt(s: Bytes): Option<int> {
    if s == [] then None
    else
      var negative := s[0] == MINUS;
      var digits := if negative || s[0] == PLUS then s[1..] else s;
      if digits == [] || !AllDigits(digits) then None
      else
        var magnitude: int := DigitsValue(digits);
        var n := if negative then -magnitude else magnitude;
        if IsInt64(n) then Some(n) else None
  }

  function FormatNat(n: nat): (s: Bytes)
    ensures |s| > 0
  {
    if n < 10 then [DigitByte(n)] else FormatNat(n / 10) + [DigitByte(n % 10)]
  }

  /** strconv.FormatInt(n, 10). */
  function FormatInt(n: int): (s: Bytes)
    ensures |s| > 0
  {
    if n < 0 then [MINUS] + FormatNat(-n) else FormatNat(n)
  }

  // ---------------------------------------------------------------- properties

  lemma {:induction false} FormatNatDigits(n: nat)
    ensures AllDigits(FormatNat(n)) && DigitsValue(FormatNat(n)) == n
  {
    if n < 10 {
      DigitRoundTrip(n);
    } else {
      FormatNatDigits(n / 10);
      DigitRoundTrip(n % 10);
      var s := FormatNat(n);
      assert s[..|s| - 1] == FormatNat(n / 10);
    }
  }

  /** Every 64-bit integer is read back from its own numeral, and the numeral is one line of plain bytes. */
  lemma FormatThenParse(n: int)
    requires IsInt64(n)
    ensures ParseInt(FormatInt(n)) == Some(n)
    ensures LF !in FormatInt(n)
  {
    FormatNatDigits(if n < 0 then -n else n);
    var s := FormatInt(n);
    if n < 0 {
      assert s[1..] == FormatNat(-n);
    } else {
      assert IsDigit(s[0]);
    }
  }

  lemma FormatNatExtend(n: nat, d: nat)
    requires d < 10
    ensures |FormatNat(10 * n + d)| <= |FormatNat(n)| + 1
  {
  }

  /** No run of digits is shorter than the canonical numeral of its value. */
  lemma {:induction false} FormatNatShortest(s: Bytes)
    requires s != [] && AllDigits(s)
    ensures |FormatNat(DigitsValue(s))| <= |s|
  {
    var init := s[..|s| - 1];
    hide DigitValue, DigitByte;
    if init != [] {
      FormatNatShortest(init);
      FormatNatExtend(DigitsValue(init), DigitValue(s[|s| - 1]));
    }
  }

  /** Reading is many-to-one (`+6`, `006`, `-0`), and writing picks a numeral no longer than the one read. */
  lemma ParseThenFormatShortest(s: Bytes)
    requires ParseInt(s).Some?
    ensures IsInt64(ParseInt(s).value)
    ensures |FormatInt(ParseInt(s).value)| <= |s|
  {
    var negative := s[0] == MINUS;
    var digits := if negative || s[0] == PLUS then s[1..] else s;
    FormatNatShortest(digits);
  }

  lemma {:induction false} LeadingZero(s: Bytes)
    requires AllDigits(s)
    ensures AllDigits([DigitByte(0)] + s) && DigitsValue([DigitByte(0)] + s) == DigitsValue(s)
  {
    var t := [DigitByte(0)] + s;
    if s == [] {
      assert t[..0] == [];
      assert DigitsValue(t) == 10 * DigitsValue(t[..0]) + DigitValue(t[0]);
    } else {
      LeadingZero(s[..|s| - 1]);
      assert t[..|t| - 1] == [DigitByte(0)] + s[..|s| - 1];
    }
  }

  /** A plus sign and leading zeros, also behind a minus sign, change nothing of what a numeral denotes. */
  lemma ReadingIsLenient(s: Bytes)
    requires s != [] && AllDigits(s)
    ensures ParseInt([PLUS] + s) == ParseInt(s) == ParseInt([DigitByte(0)] + s)
    ensures ParseInt([MINUS, DigitByte(0)] + s) == ParseInt([MINUS] + s)
  {
    LeadingZero(s);
    assert IsDigit(s[0]);
    assert ([PLUS] + s)[1..] == s && ([MINUS] + s)[1..] == s;
    assert ([MINUS, DigitByte(0)] + s)[1..] == [DigitByte(0)] + s;
  }
}
