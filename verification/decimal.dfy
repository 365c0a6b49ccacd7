/** String.format("%0<w>d", n) for a non-negative int: the decimal digits of n, left-padded
    with '0' up to the width w and never truncated. */
module Decimal {

  predicate IsDigit(c: char) {
    '0' <= c <= '9'
  }

  predicate AllDigits(s: string) {
    forall i :: 0 <= i < |s| ==> IsDigit(s[i])
  }

  function DigitChar(d: nat): (c: char)
    requires d < 10
    ensures IsDigit(c)
  {
    ('0' as int + d) as char
  }

  function DigitValue(c: char): (d: nat)
    requires IsDigit(c)
    ensures d < 10
  {
    c as int - '0' as int
  }

  /** The shortest decimal spelling of n ("0" for zero). */
  function Digits(n: nat): (s: string)
    ensures 1 <= |s|
    decreases n
  {
    if n < 10 then [DigitChar(n)] else Digits(n / 10) + [DigitChar(n % 10)]
  }

  function Zeros(k: nat): (s: string)
    ensures |s| == k
  {
    if k == 0 then [] else Zeros(k - 1) + ['0']
  }

  /** String.format("%0<width>d", n) for n >= 0. */
  function ZeroPad(n: nat, width: nat): string {
    var d := Digits(n);
    if |d| >= width then d else Zeros(width - |d|) + d
  }

  /** The number a string of decimal digits denotes (leading zeros allowed). */
  function DecimalValue(s: string): nat
    requires AllDigits(s)
  {
    if s == [] then 0 else 10 * DecimalValue(s[..|s| - 1]) + DigitValue(s[|s| - 1])
  }

  lemma {:induction false} DigitsRoundTrip(n: nat)
    ensures AllDigits(Digits(n)) && DecimalValue(Digits(n)) == n
    decreases n
  {
    var s := Digits(n);
    if n >= 10 {
      DigitsRoundTrip(n / 10);
      assert s[..|s| - 1] == Digits(n / 10);
    }
  }

  lemma {:induction false} DigitsLength(n: nat)
    ensures n < 10 ==> |Digits(n)| == 1
    ensures 10 <= n < 100 ==> |Digits(n)| == 2
    ensures 100 <= n < 1000 ==> |Digits(n)| == 3
  {
    if n >= 10 {
      DigitsLength(n / 10);
    }
  }

  /** Leading zeros do not change the value a digit string denotes. */
  lemma {:induction false} LeadingZeros(k: nat, s: string)
    requires AllDigits(s)
    ensures AllDigits(Zeros(k) + s) && DecimalValue(Zeros(k) + s) == DecimalValue(s)
    decreases |s|
  {
    var t := Zeros(k) + s;
    assert AllDigits(t) by {
      forall i | 0 <= i < |t| ensures IsDigit(t[i]) {
        if i < k { ZerosAreZero(k, i); }
      }
    }
    if s == [] {
      assert t == Zeros(k);
      ZerosValue(k);
    } else {
      LeadingZeros(k, s[..|s| - 1]);
      assert t[..|t| - 1] == Zeros(k) + s[..|s| - 1];
    }
  }

  lemma {:induction false} ZerosAreZero(k: nat, i: nat)
    requires i < k
    ensures Zeros(k)[i] == '0'
  {
    if i < k - 1 {
      ZerosAreZero(k - 1, i);
    }
  }

  lemma {:induction false} ZerosValue(k: nat)
    ensures AllDigits(Zeros(k)) && DecimalValue(Zeros(k)) == 0
  {
    if k > 0 {
      ZerosValue(k - 1);
    }
  }

  /** The padded text has the requested width (or more, never truncated), consists of
      digits only, and reads back as n. */
  lemma ZeroPadRoundTrip(n: nat, width: nat)
    ensures |ZeroPad(n, width)| == if |Digits(n)| >= width then |Digits(n)| else width
    ensures AllDigits(ZeroPad(n, width)) && DecimalValue(ZeroPad(n, width)) == n
  {
    DigitsRoundTrip(n);
    var d := Digits(n);
    if |d| < width {
      LeadingZeros(width - |d|, d);
      assert ZeroPad(n, width) == Zeros(width - |d|) + d;
    } else {
      assert ZeroPad(n, width) == d;
    }
  }

  /** Two numbers are padded to the same text only if they are equal. */
  lemma ZeroPadInjective(m: nat, n: nat, width: nat)
    requires ZeroPad(m, width) == ZeroPad(n, width)
    ensures m == n
  {
    ZeroPadRoundTrip(m, width);
    ZeroPadRoundTrip(n, width);
  }

  /** The two fallback keys of manual routing. */
  lemma FallbackKeys()
    ensures ZeroPad(1, 2) == "01" && ZeroPad(0, 3) == "000"
  {
    assert Digits(0) == "0" && Digits(1) == "1";
    assert Zeros(1) == "0";
    assert Zeros(2) == Zeros(1) + "0";
  }

  /** The width-2 and width-3 paddings of the numbers the router formats. */
  lemma ZeroPadWidth(n: nat)
    ensures n < 100 ==> |ZeroPad(n, 2)| == 2
    ensures n < 1000 ==> |ZeroPad(n, 3)| == 3
  {
    DigitsLength(n);
  }
}
