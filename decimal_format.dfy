/**
 Decimal rendering of non-negative integers as Python's format mini-language
 does it for the `d` presentation type: `str(n)` for the plain form and
 `format(n, '03d')` for the zero-padded form used in run-file names.
 */
module DecimalFormat {

  predicate IsDigit(c: char) {
    '0' <= c <= '9'
  }

  predicate AllDigits(s: string) {
    forall i :: 0 <= i < |s| ==> IsDigit(s[i])
  }

  /** The character of a single decimal digit. */
  function DigitChar(d: nat): (c: char)
    requires d < 10
    ensures IsDigit(c)
  {
    ('0' as int + d) as char
  }

  /** The value of a single digit character; inverse of DigitChar. */
  function DigitValue(c: char): (d: nat)
    requires IsDigit(c)
    ensures d < 10 && DigitChar(d) == c
  {
    c as int - '0' as int
  }

  /** `str(n)`: the shortest decimal representation, no leading zero unless n == 0. */
  function Decimal(n: nat): (s: string)
    ensures |s| >= 1 && AllDigits(s)
    ensures s[0] == '0' ==> n == 0
  {
    if n < 10 then [DigitChar(n)] else Decimal(n / 10) + [DigitChar(n % 10)]
  }

  /** Reads a string of digits as a number; leading zeros contribute nothing. */
  function ParseDecimal(s: string): nat
    requires AllDigits(s)
  {
    if s == [] then 0 else ParseDecimal(s[..|s| - 1]) * 10 + DigitValue(s[|s| - 1])
  }

  /** A run of k '0' characters. */
  function Zeros(k: nat): (z: string)
    ensures |z| == k && AllDigits(z)
    ensures forall i :: 0 <= i < k ==> z[i] == '0'
  {
    if k == 0 then [] else Zeros(k - 1) + ['0']
  }

  /** `format(n, '03d')`: the plain form, left-padded with '0' to at least three characters. */
  function Pad3(n: nat): (s: string)
    ensures AllDigits(s)
    ensures |s| >= 3 && |s| >= |Decimal(n)|
    ensures |s| > 3 ==> |s| == |Decimal(n)|
    ensures s[|s| - |Decimal(n)|..] == Decimal(n)
    ensures forall i :: 0 <= i < |s| - |Decimal(n)| ==> s[i] == '0'
  {
    var d := Decimal(n);
    if |d| >= 3 then d else Zeros(3 - |d|) + d
  }

  lemma {:induction false} ParseDecimalOfDecimal(n: nat)
    ensures ParseDecimal(Decimal(n)) == n
  {
    if n >= 10 {
      var s := Decimal(n);
      assert s[..|s| - 1] == Decimal(n / 10);
      ParseDecimalOfDecimal(n / 10);
    }
  }

  lemma {:induction false} ParseIgnoresLeadingZeros(k: nat, s: string)
    requires AllDigits(s)
    ensures ParseDecimal(Zeros(k) + s) == ParseDecimal(s)
  {
    if s == [] {
      assert Zeros(k) + s == Zeros(k);
      ZerosParseToZero(k);
    } else {
      var t := Zeros(k) + s;
      assert t[..|t| - 1] == Zeros(k) + s[..|s| - 1];
      ParseIgnoresLeadingZeros(k, s[..|s| - 1]);
    }
  }

  lemma {:induction false} ZerosParseToZero(k: nat)
    ensures ParseDecimal(Zeros(k)) == 0
  {
    if k > 0 {
      assert Zeros(k)[..k - 1] == Zeros(k - 1);
      ZerosParseToZero(k - 1);
    }
  }

  /** The representation has at most three digits exactly for n <= 999. */
  lemma DecimalLengthAtMostThree(n: nat)
    ensures |Decimal(n)| <= 3 <==> n <= 999
  {
    if n >= 1000 {
      DecimalLengthAtLeastFour(n);
    } else if n >= 100 {
      assert Decimal(n) == Decimal(n / 10) + [DigitChar(n % 10)];
      assert Decimal(n / 10) == Decimal(n / 100) + [DigitChar(n / 10 % 10)];
    } else if n >= 10 {
      assert Decimal(n) == Decimal(n / 10) + [DigitChar(n % 10)];
    }
  }

  lemma {:induction false} DecimalLengthAtLeastFour(n: nat)
    requires n >= 1000
    ensures |Decimal(n)| >= 4
  {
    if n >= 10000 {
      DecimalLengthAtLeastFour(n / 10);
    } else {
      assert Decimal(n) == Decimal(n / 10) + [DigitChar(n % 10)];
      assert Decimal(n / 10) == Decimal(n / 100) + [DigitChar(n / 10 % 10)];
      assert Decimal(n / 100) == Decimal(n / 1000) + [DigitChar(n / 100 % 10)];
    }
  }

  /** The representation has at least three digits exactly for n >= 100. */
  lemma DecimalLengthAtLeastThree(n: nat)
    ensures |Decimal(n)| >= 3 <==> n >= 100
  {
  }

  /** The padded form has exactly three digits up to 999 and is the plain form from 100 on. */
  lemma Pad3Shape(n: nat)
    ensures n <= 999 ==> |Pad3(n)| == 3
    ensures n >= 100 ==> Pad3(n) == Decimal(n)
    ensures n >= 1000 ==> |Pad3(n)| > 3
  {
    DecimalLengthAtMostThree(n);
    DecimalLengthAtLeastThree(n);
  }

  /** Zero padding never changes the value the digits denote. */
  lemma Pad3RoundTrip(n: nat)
    ensures ParseDecimal(Pad3(n)) == n
  {
    var d := Decimal(n);
    ParseDecimalOfDecimal(n);
    if |d| < 3 {
      ParseIgnoresLeadingZeros(3 - |d|, d);
    }
  }

  /** Distinct numbers have distinct padded forms. */
  lemma Pad3Injective(i: nat, j: nat)
    requires Pad3(i) == Pad3(j)
    ensures i == j
  {
    Pad3RoundTrip(i);
    Pad3RoundTrip(j);
  }
}
