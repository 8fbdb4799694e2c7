/**
 Decimal rendering of non-negative integers, as Python's `str(n)` and the
 format specification `0<width>d` (used as `:06d` for frame numbers) produce it.
 `Value` is the reading direction (`int(s)` on a string of digits) and serves
 as the partner that the rendering functions are proved against.
 */
module Decimal {

  predicate IsDigit(c: char) {
    '0' <= c <= '9'
  }

  predicate AllDigits(s: string) {
    forall i | 0 <= i < |s| :: IsDigit(s[i])
  }

  function DigitValue(c: char): (d: nat)
    requires IsDigit(c)
    ensures d < 10
  {
    (c as int) - ('0' as int)
  }

  function DigitChar(d: nat): (c: char)
    requires d < 10
    ensures IsDigit(c) && DigitValue(c) == d
  {
    (('0' as int) + d) as char
  }

  /** The number a string of decimal digits denotes (leading zeros allowed). */
  function Value(s: string): nat
    requires AllDigits(s)
  {
    if s == [] then 0 else 10 * Value(s[..|s| - 1]) + DigitValue(s[|s| - 1])
  }

  function Pow10(k: nat): (p: nat)
    ensures p >= 1
  {
    if k == 0 then 1 else 10 * Pow10(k - 1)
  }

  /** `str(n)`: the shortest decimal rendering, with no leading zero except for 0 itself. */
  function Digits(n: nat): (s: string)
    ensures |s| >= 1 && AllDigits(s)
    ensures s[0] == '0' ==> n == 0
    decreases n
  {
    if n < 10 then [DigitChar(n)] else Digits(n / 10) + [DigitChar(n % 10)]
  }

  /** Reading back what `Digits` writes gives the number again. */
  lemma {:induction false} ValueOfDigits(n: nat)
    ensures Value(Digits(n)) == n
    decreases n
  {
    if n >= 10 {
      var s := Digits(n);
      assert s[..|s| - 1] == Digits(n / 10);
      ValueOfDigits(n / 10);
    }
  }

  /** `str(n)` has at most `k` characters exactly when `n < 10^k` (for `k >= 1`). */
  lemma {:induction false} DigitsLength(n: nat, k: nat)
    requires k >= 1
    ensures |Digits(n)| <= k <==> n < Pow10(k)
    decreases n
  {
    assert Pow10(k) == 10 * Pow10(k - 1);
    if n >= 10 {
      assert |Digits(n)| == |Digits(n / 10)| + 1;
      if k == 1 {
        assert Pow10(1) == 10;
      } else {
        DigitsLength(n / 10, k - 1);
        var p := Pow10(k - 1);
        assert n == 10 * (n / 10) + n % 10;
        if n / 10 < p {
          assert n / 10 <= p - 1;
          assert 10 * (n / 10) <= 10 * (p - 1);
        } else {
          assert 10 * (n / 10) >= 10 * p;
        }
      }
    }
  }

  function Zeros(k: nat): (z: string)
    ensures |z| == k && AllDigits(z)
  {
    seq(k, _ => '0')
  }

  /** Leading zeros do not change the value of a digit string. */
  lemma {:induction false} ValueIgnoresLeadingZeros(k: nat, s: string)
    requires AllDigits(s)
    ensures Value(Zeros(k) + s) == Value(s)
    decreases |s|
  {
    var t := Zeros(k) + s;
    if s == [] {
      assert t == Zeros(k);
      ValueOfZeros(k);
    } else {
      assert t[..|t| - 1] == Zeros(k) + s[..|s| - 1];
      ValueIgnoresLeadingZeros(k, s[..|s| - 1]);
    }
  }

  lemma {:induction false} ValueOfZeros(k: nat)
    ensures Value(Zeros(k)) == 0
  {
    if k > 0 {
      assert Zeros(k)[..k - 1] == Zeros(k - 1);
      ValueOfZeros(k - 1);
    }
  }

  /**
   The format specification `0<width>d` applied to a non-negative integer:
   `str(n)` filled on the left with `'0'` up to `width` characters, never cut.
   */
  function ZeroPadded(n: nat, width: nat): string {
    var d := Digits(n);
    if |d| >= width then d else Zeros(width - |d|) + d
  }

  /**
   The padded field reads back as the number, is exactly `width` long when
   `str(n)` fits and is `str(n)` itself otherwise, and ends with `str(n)`
   after nothing but zeros.
   */
  lemma ZeroPaddedSpec(n: nat, width: nat)
    ensures var s := ZeroPadded(n, width);
      && AllDigits(s) && Value(s) == n
      && |s| == (if |Digits(n)| >= width then |Digits(n)| else width)
      && s[|s| - |Digits(n)|..] == Digits(n)
      && forall i | 0 <= i < |s| - |Digits(n)| :: s[i] == '0'
  {
    var d := Digits(n);
    ValueOfDigits(n);
    if |d| < width {
      ValueIgnoresLeadingZeros(width - |d|, d);
    }
  }

  /** The six-character field of a frame name: `f"{n:06d}"`. */
  function Pad6(n: nat): string {
    ZeroPadded(n, 6)
  }

  /**
   `f"{n:06d}"` reads back as `n`; it is exactly six digits below one million
   and the plain decimal from one million on.
   */
  lemma Pad6Spec(n: nat)
    ensures AllDigits(Pad6(n)) && Value(Pad6(n)) == n
    ensures n < 1000000 ==> |Pad6(n)| == 6
    ensures n >= 1000000 ==> Pad6(n) == Digits(n)
  {
    ZeroPaddedSpec(n, 6);
    DigitsLength(n, 6);
    assert Pow10(6) == 1000000;
  }

  /** Different numbers never render to the same zero-padded field. */
  lemma Pad6Injective(m: nat, n: nat)
    requires Pad6(m) == Pad6(n)
    ensures m == n
  {
    Pad6Spec(m);
    Pad6Spec(n);
  }
}
