/**
 What a decimal numeral denotes, by the bytes of its digits and their weights, and that the program reads and writes
 numerals accordingly.
 */
module Numerals {
  import opened Bytes
  import opened Decimal

  function TenTo(k: nat): nat {
    if k == 0 then 1 else 10 * TenTo(k - 1)
  }

  /** One or more bytes from 0x30 to 0x39. */
  predicate DecimalDigits(s: Bytes) {
    s != [] && forall i :: 0 <= i < |s| ==> 0x30 <= s[i] as int <= 0x39
  }

  /** The first `n` digits, each times its power of ten. */
  function Worth(s: Bytes, n: nat): int
    requires n <= |s|
  {
    if n == 0 then 0 else Worth(s, n - 1) + (s[n - 1] as int - 0x30) * TenTo(|s| - n)
  }

  /** A numeral without its sign, 0x2D for minus or 0x2B for plus. */
  function Unsigned(s: Bytes): Bytes {
    if s != [] && (s[0] == 0x2D || s[0] == 0x2B) then s[1..] else s
  }

  /** The bytes are a decimal numeral, of any length, of `n`. */
  predicate Denotes(s: Bytes, n: int) {
    var d := Unsigned(s);
    DecimalDigits(d) && n == if s[0] == 0x2D then -Worth(d, |d|) else Worth(d, |d|)
  }

  /** The bytes are a decimal numeral of a signed 64-bit integer. */
  predicate Numeral(s: Bytes, n: int) {
    Denotes(s, n) && -0x8000_0000_0000_0000 <= n <= 0x7FFF_FFFF_FFFF_FFFF
  }

  /** The numeral has no plus sign, no leading zero, and a minus sign exactly for a negative integer. */
  predicate Canonical(s: Bytes, n: int) {
    && s != [] && s[0] != 0x2B && (s[0] == 0x2D <==> n < 0)
    && (Unsigned(s) != [] && Unsigned(s)[0] == 0x30 ==> n == 0 && |s| == 1)
  }

  // ---------------------------------------------------------------- digits

  lemma DigitWorth(b: Byte)
    ensures IsDigit(b) <==> 0x30 <= b as int <= 0x39
    ensures IsDigit(b) ==> DigitValue(b) == b as int - 0x30
  {
  }

  lemma {:induction false} WorthShift(s: Bytes, n: nat)
    requires n < |s|
    ensures Worth(s, n) == 10 * Worth(s[..|s| - 1], n)
  {
    if n > 0 {
      WorthShift(s, n - 1);
      var t := s[..|s| - 1];
      assert t[n - 1] == s[n - 1];
      TenTimes(Worth(t, n - 1), s[n - 1] as int - 0x30, |t| - n);
    }
  }

  lemma TenTimes(w: int, d: int, k: nat)
    ensures 10 * (w + d * TenTo(k)) == 10 * w + d * TenTo(k + 1)
  {
    assert d * (10 * TenTo(k)) == 10 * (d * TenTo(k));
  }

  lemma AllDigitsAre(s: Bytes)
    ensures AllDigits(s) <==> s == [] || DecimalDigits(s)
  {
    forall i | 0 <= i < |s|
      ensures IsDigit(s[i]) <==> 0x30 <= s[i] as int <= 0x39
    {
      DigitWorth(s[i]);
    }
  }

  lemma {:induction false} DigitsAreWorth(s: Bytes)
    requires AllDigits(s)
    ensures DigitsValue(s) == Worth(s, |s|)
  {
    if s != [] {
      DigitsAreWorth(s[..|s| - 1]);
      WorthShift(s, |s| - 1);
      DigitWorth(s[|s| - 1]);
      assert TenTo(0) == 1;
    }
  }

  // ---------------------------------------------------------------- reading and writing

  /** Exactly the numerals of 64-bit integers are read, and each as what it denotes; everything else is refused. */
  lemma ParseIntExactly(s: Bytes)
    ensures forall n :: ParseInt(s) == Some(n) <==> Numeral(s, n)
    ensures ParseInt(s).None? <==> forall n :: !Numeral(s, n)
  {
    hide DigitsValue, Worth;
    var d := Unsigned(s);
    AllDigitsAre(d);
    if AllDigits(d) {
      DigitsAreWorth(d);
    }
    assert ParseInt(s).Some? ==> Numeral(s, ParseInt(s).value);
  }

  lemma {:induction false} FormatNatLeads(n: nat)
    ensures FormatNat(n)[0] == DigitByte(0) ==> n == 0
  {
    if n >= 10 {
      FormatNatLeads(n / 10);
    } else {
      DigitRoundTrip(n);
      DigitRoundTrip(0);
    }
  }

  /** The numeral written for an integer denotes it and is its canonical one. */
  lemma FormatIntExactly(n: int)
    ensures Denotes(FormatInt(n), n) && Canonical(FormatInt(n), n)
  {
    hide Worth, DigitsValue;
    var magnitude := if n < 0 then -n else n;
    var d := FormatNat(magnitude);
    FormatNatDigits(magnitude);
    FormatNatLeads(magnitude);
    AllDigitsAre(d);
    DigitsAreWorth(d);
    DigitWorth(d[0]);
    DigitRoundTrip(0);
    assert DigitByte(0) == 0x30;
    if n < 0 {
      assert FormatInt(n)[1..] == d;
    } else {
      NoSign(d[0]);
    }
  }

  lemma {:induction false} LeadingDigitCounts(d: Bytes)
    requires AllDigits(d) && d != [] && d[0] != DigitByte(0)
    ensures DigitsValue(d) > 0
  {
    if |d| > 1 {
      LeadingDigitCounts(d[..|d| - 1]);
    }
  }

  lemma {:induction false} FormatNatUnique(d: Bytes)
    requires AllDigits(d) && d != [] && (|d| == 1 || d[0] != DigitByte(0))
    ensures FormatNat(DigitsValue(d)) == d
  {
    var init, last := d[..|d| - 1], DigitValue(d[|d| - 1]);
    hide DigitByte, DigitValue;
    if init == [] {
      assert DigitsValue(d) == last;
    } else {
      LeadingDigitCounts(init);
      FormatNatUnique(init);
      var n := DigitsValue(d);
      assert n == 10 * DigitsValue(init) + last && n / 10 == DigitsValue(init) && n % 10 == last;
    }
  }

  /** Every integer has one canonical numeral, the one that is written. */
  lemma CanonicalIsWritten(s: Bytes, n: int)
    ensures Denotes(s, n) && Canonical(s, n) <==> s == FormatInt(n)
  {
    hide Worth, DigitsValue;
    FormatIntExactly(n);
    if Denotes(s, n) && Canonical(s, n) {
      var d := Unsigned(s);
      AllDigitsAre(d);
      DigitsAreWorth(d);
      DigitWorth(d[0]);
      assert DigitByte(0) == 0x30;
      FormatNatUnique(d);
    }
  }

  lemma NoSign(b: Byte)
    requires 0x30 <= b as int <= 0x39
    ensures b != 0x2D && b != 0x2B && b != 0x0A
  {
  }

  // ---------------------------------------------------------------- lengths

  lemma {:induction false} FormatNatLength(n: nat, k: nat)
    requires k > 0 && n < TenTo(k)
    ensures |FormatNat(n)| <= k
  {
    if n >= 10 {
      assert k > 1 && n / 10 < TenTo(k - 1);
      FormatNatLength(n / 10, k - 1);
    }
  }

  lemma FourMore(k: nat)
    ensures TenTo(k + 4) == 10_000 * TenTo(k)
  {
    assert TenTo(k + 4) == 10 * TenTo(k + 3) && TenTo(k + 3) == 10 * TenTo(k + 2);
    assert TenTo(k + 2) == 10 * TenTo(k + 1) && TenTo(k + 1) == 10 * TenTo(k);
  }

  /** A 64-bit numeral has at most twenty bytes. */
  lemma FormatIntLength(n: int)
    requires IsInt64(n)
    ensures |FormatInt(n)| <= 20
  {
    FourMore(3);
    FourMore(7);
    FourMore(11);
    FourMore(15);
    assert TenTo(3) == 1_000;
    FormatNatLength(if n < 0 then -n else n, 19);
  }
}
