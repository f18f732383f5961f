/**
 How a rounded number appears inside the alert text.

 The monitor interpolates the number returned by `formatNumber` into a
 template string, so a value with at most two decimal places is written the
 way a JavaScript number is: its whole part in decimal digits, then, only
 when the fraction is not zero, a point and one or two digits with trailing
 zeros dropped (90 as "90", 0.5 as "0.5", 0.05 as "0.05"), and a minus sign
 in front of a negative value.
 */
module Numerals {
  import opened Rounding

  predicate IsDigit(c: char)
  {
    '0' <= c <= '9'
  }

  /** A character that can occur in a rendered number. */
  predicate IsNumeralChar(c: char)
  {
    IsDigit(c) || c == '.' || c == '-'
  }

  function DigitChar(d: int): (c: char)
    requires 0 <= d < 10
    ensures IsDigit(c)
  {
    (('0' as int) + d) as char
  }

  function DigitValue(c: char): (d: int)
  {
    c as int - '0' as int
  }

  /** The decimal digits of `n`, most significant first, without leading zeros. */
  function ShowNat(n: nat): (s: string)
    ensures |s| > 0
    ensures forall i | 0 <= i < |s| :: IsDigit(s[i])
    ensures |s| > 1 ==> s[0] != '0'
    decreases n
  {
    if n < 10 then [DigitChar(n)] else ShowNat(n / 10) + [DigitChar(n % 10)]
  }

  /** The value of a string of decimal digits. */
  function ParseNat(s: string): (n: int)
    decreases |s|
  {
    if |s| == 0 then 0 else ParseNat(s[..|s| - 1]) * 10 + DigitValue(s[|s| - 1])
  }

  /** The fractional hundredths `f`, with trailing zeros dropped. */
  function ShowFraction(f: int): (s: string)
    requires 0 <= f < 100
    ensures forall i | 0 <= i < |s| :: IsNumeralChar(s[i])
  {
    if f == 0 then ""
    else if f % 10 == 0 then "." + [DigitChar(f / 10)]
    else "." + [DigitChar(f / 10), DigitChar(f % 10)]
  }

  /** The number of hundredths `k`, written as a decimal number. */
  function ShowCents(k: int): (s: string)
    ensures |s| > 0
    ensures forall i | 0 <= i < |s| :: IsNumeralChar(s[i])
    decreases if k < 0 then 1 else 0
  {
    if k < 0 then "-" + ShowCents(-k) else ShowNat(k / 100) + ShowFraction(k % 100)
  }

  /** The number of hundredths a written number denotes, reading its fraction from the end. */
  function ReadCents(s: string): (k: int)
  {
    if |s| > 0 && s[0] == '-' then -ReadUnsignedCents(s[1..]) else ReadUnsignedCents(s)
  }

  function ReadUnsignedCents(s: string): (k: int)
  {
    if |s| >= 3 && s[|s| - 3] == '.' then
      ParseNat(s[..|s| - 3]) * 100 + DigitValue(s[|s| - 2]) * 10 + DigitValue(s[|s| - 1])
    else if |s| >= 2 && s[|s| - 2] == '.' then
      ParseNat(s[..|s| - 2]) * 100 + DigitValue(s[|s| - 1]) * 10
    else
      ParseNat(s) * 100
  }

  /** A rounded number as it appears in the alert text. */
  function ShowNumber(r: real): (s: string)
    requires IsCents(r)
    ensures |s| > 0
    ensures forall i | 0 <= i < |s| :: IsNumeralChar(s[i])
  {
    ShowCents((r * 100.0).Floor)
  }

  /** Reading the digits of `n` gives back `n`. */
  lemma {:induction false} ParseShowNat(n: nat)
    ensures ParseNat(ShowNat(n)) == n
    decreases n
  {
    if n >= 10 {
      var s := ShowNat(n);
      assert s[..|s| - 1] == ShowNat(n / 10);
      ParseShowNat(n / 10);
    }
  }

  /** Reading a written number gives back its hundredths. */
  lemma ReadShowCents(k: int)
    ensures ReadCents(ShowCents(k)) == k
  {
    if k < 0 {
      ReadShowUnsignedCents(-k);
      assert ShowCents(k)[1..] == ShowCents(-k);
    } else {
      ReadShowUnsignedCents(k);
    }
  }

  lemma ReadShowUnsignedCents(k: nat)
    ensures ReadUnsignedCents(ShowCents(k)) == k
    ensures ShowCents(k)[0] != '-'
  {
    var w := ShowNat(k / 100);
    var f := k % 100;
    var s := ShowCents(k);
    assert s == w + ShowFraction(f);
    ParseShowNat(k / 100);
    if f == 0 {
      assert s == w;
    } else if f % 10 == 0 {
      assert s[..|s| - 2] == w;
    } else {
      assert s[..|s| - 3] == w;
    }
  }

  /** Different rounded numbers are written differently. */
  lemma ShowNumberInjective(a: real, b: real)
    requires IsCents(a) && IsCents(b)
    requires ShowNumber(a) == ShowNumber(b)
    ensures a == b
  {
    ReadShowCents((a * 100.0).Floor);
    ReadShowCents((b * 100.0).Floor);
  }

  /** A whole number is written without a fractional part. */
  lemma {:induction false} ShowWholeNumber(n: nat)
    ensures IsCents(n as real) && ShowNumber(n as real) == ShowNat(n)
  {
    WholeCents(n);
    ShowWholeCents(n);
  }

  lemma WholeCents(n: nat)
    ensures (n as real * 100.0).Floor == n * 100
  {
    assert n as real * 100.0 == (n * 100) as real;
  }

  lemma ShowWholeCents(n: nat)
    ensures ShowCents(n * 100) == ShowNat(n)
  {
    var k := n * 100;
    assert k / 100 == n && k % 100 == 0;
  }
}
