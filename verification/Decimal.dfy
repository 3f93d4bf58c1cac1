/**
 Decimal numbers as printf writes them and scanf reads them.
 */
module Decimal {
  import opened Text

  function Digit(d: nat): (c: char)
    requires d < 10
    ensures IsDigit(c) && DigitValue(c) == d
  {
    '0' + d as char
  }

  function DigitValue(c: char): (d: nat)
    requires IsDigit(c)
    ensures d < 10
  {
    (c - '0') as nat
  }

  /** %u: no leading zero, and "0" for zero. */
  function Dec(n: nat): (s: string)
    ensures s != "" && forall i :: 0 <= i < |s| ==> IsDigit(s[i])
  {
    if n < 10 then [Digit(n)] else Dec(n / 10) + [Digit(n % 10)]
  }

  predicate AllDigits(s: string) {
    forall i :: 0 <= i < |s| ==> IsDigit(s[i])
  }

  function Value(s: string): nat
    requires AllDigits(s)
  {
    if s == "" then 0 else 10 * Value(s[..|s| - 1]) + DigitValue(s[|s| - 1])
  }

  function Pow10(k: nat): (r: nat)
    ensures r > 0
  {
    if k == 0 then 1 else 10 * Pow10(k - 1)
  }

  lemma {:induction false} ValueOfDec(n: nat)
    ensures Value(Dec(n)) == n
  {
    var s := Dec(n);
    if n < 10 {
      assert s[..0] == "" && Value(s[..0]) == 0;
    } else {
      ValueOfDec(n / 10);
      assert s[..|s| - 1] == Dec(n / 10);
    }
  }

  lemma {:induction false} DecLength(n: nat, k: nat)
    requires k > 0 && n < Pow10(k)
    ensures |Dec(n)| <= k
  {
    if n >= 10 {
      assert k > 1;
      DecLength(n / 10, k - 1);
    }
  }

  lemma {:induction false} DecLengthLow(n: nat, k: nat)
    requires k > 0 && n >= Pow10(k - 1)
    ensures |Dec(n)| >= k
  {
    if k > 1 {
      DecLengthLow(n / 10, k - 1);
    }
  }

  /** Leading zeros do not change the value. */
  lemma {:induction false} ValueOfConcat(a: string, b: string)
    requires AllDigits(a) && AllDigits(b)
    ensures AllDigits(a + b) && Value(a + b) == Value(a) * Pow10(|b|) + Value(b)
  {
    if b == "" {
      assert a + b == a;
    } else {
      var b' := b[..|b| - 1];
      ValueOfConcat(a, b');
      assert (a + b)[..|a + b| - 1] == a + b';
      TenTimes(Value(a), Pow10(|b'|), Value(b'));
      assert Pow10(|b|) == 10 * Pow10(|b'|);
    }
  }

  lemma {:induction false} TenTimes(v: nat, p: nat, x: nat)
    ensures 10 * (v * p + x) == v * (10 * p) + 10 * x
  {
  }

  lemma {:induction false} ValueBound(s: string)
    requires AllDigits(s)
    ensures Value(s) < Pow10(|s|)
  {
    if s != "" {
      ValueBound(s[..|s| - 1]);
    }
  }

  /** %0wd */
  function PadZeros(s: string, w: nat): (r: string)
    ensures |r| == Max(|s|, w)
  {
    Repeat('0', Max(w - |s|, 0)) + s
  }

  /** The digits at the start of `s`, at most `width` of them. */
  function DigitRun(s: string, width: nat): (r: string)
    ensures AllDigits(r) && |r| <= width && r <= s
  {
    if s == "" || width == 0 || !IsDigit(s[0]) then "" else
      assert [s[0]] + s[1..] == s;
      [s[0]] + DigitRun(s[1..], width - 1)
  }

  /** atoi, on a text without blanks or sign */
  function Atoi(s: string): nat {
    Value(DigitRun(s, |s|))
  }
}
