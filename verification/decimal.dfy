/** Decimal rendering of integers, as Python's `f"{n}"` and `f"{n:0W}"` produce it,
    together with the reading back of digit strings. */
module Decimal {

  import opened Wrappers

  predicate IsDigit(c: char) {
    '0' <= c <= '9'
  }

  predicate AllDigits(s: string) {
    forall i :: 0 <= i < |s| ==> IsDigit(s[i])
  }

  function DigitChar(d: nat): (c: char)
    requires d < 10
    ensures IsDigit(c) && DigitValue(c) == d
  {
    ('0' as int + d) as char
  }

  function DigitValue(c: char): nat
    requires IsDigit(c)
  {
    c as int - '0' as int
  }

  function Pow10(k: nat): (p: nat)
    ensures p >= 1
  {
    if k == 0 then 1 else 10 * Pow10(k - 1)
  }

  /** The shortest decimal spelling of `n`: no leading zero except for `n == 0` itself. */
  function Digits(n: nat): (s: string)
    ensures |s| >= 1 && AllDigits(s)
    ensures s[0] == '0' ==> n == 0
  {
    if n < 10 then [DigitChar(n)] else Digits(n / 10) + [DigitChar(n % 10)]
  }

  /** The number a string of digits denotes. */
  function Value(s: string): nat
    requires AllDigits(s)
  {
    if s == [] then 0 else Value(s[..|s| - 1]) * 10 + DigitValue(s[|s| - 1])
  }

  /** Reading back what `Digits` writes gives the number again. */
  lemma {:induction false} ValueOfDigits(n: nat)
    ensures Value(Digits(n)) == n
  {
    if n >= 10 {
      var s := Digits(n);
      assert s[..|s| - 1] == Digits(n / 10);
      ValueOfDigits(n / 10);
    }
  }

  /** `Digits(n)` fits in `k >= 1` characters exactly when `n < 10^k`. */
  lemma {:induction false} DigitsLength(n: nat, k: nat)
    requires k >= 1
    ensures |Digits(n)| <= k <==> n < Pow10(k)
  {
    if n >= 10 {
      assert |Digits(n)| == |Digits(n / 10)| + 1;
      if k == 1 {
        assert Pow10(1) == 10;
      } else {
        DigitsLength(n / 10, k - 1);
      }
    } else {
      assert Pow10(k) >= 10 by { assert Pow10(k) == 10 * Pow10(k - 1); }
    }
  }

  function Zeros(k: nat): (s: string)
    ensures |s| == k && AllDigits(s)
    ensures forall i :: 0 <= i < k ==> s[i] == '0'
  {
    if k == 0 then [] else Zeros(k - 1) + ['0']
  }

  /** Leading zeros do not change the value of a digit string. */
  lemma {:induction false} ValueWithLeadingZeros(k: nat, s: string)
    requires AllDigits(s)
    ensures AllDigits(Zeros(k) + s) && Value(Zeros(k) + s) == Value(s)
  {
    if s == [] {
      assert Zeros(k) + s == Zeros(k);
      ZerosValue(k);
    } else {
      var t := Zeros(k) + s;
      assert t[..|t| - 1] == Zeros(k) + s[..|s| - 1];
      ValueWithLeadingZeros(k, s[..|s| - 1]);
    }
  }

  lemma {:induction false} ZerosValue(k: nat)
    ensures Value(Zeros(k)) == 0
  {
    if k > 0 {
      assert Zeros(k)[..k - 1] == Zeros(k - 1);
      ZerosValue(k - 1);
    }
  }

  function Max(a: nat, b: nat): nat {
    if a < b then b else a
  }

  /** Python's `f"{n:0W}"` for a non-negative `n`: the decimal digits of `n`,
      left-padded with zeros to at least `width` characters and never cut. */
  function Pad(n: nat, width: nat): (s: string)
    ensures AllDigits(s)
    ensures |s| == Max(width, |Digits(n)|)
    ensures Value(s) == n
  {
    var d := Digits(n);
    var k := if |d| < width then width - |d| else 0;
    ValueOfDigits(n);
    ValueWithLeadingZeros(k, d);
    Zeros(k) + d
  }

  /** A number below `10^width` is padded to exactly `width` digits;
      a larger one takes more, so nothing is lost. */
  lemma PadWidth(n: nat, width: nat)
    requires width >= 1
    ensures n < Pow10(width) <==> |Pad(n, width)| == width
  {
    DigitsLength(n, width);
  }

  /** Two digit strings of the same length denote the same number only if
      they are the same string. */
  lemma {:induction false} ValueInjective(a: string, b: string)
    requires AllDigits(a) && AllDigits(b) && |a| == |b|
    ensures Value(a) == Value(b) ==> a == b
  {
    if a != [] && Value(a) == Value(b) {
      var k := |a| - 1;
      assert DigitValue(a[k]) == Value(a) % 10 == DigitValue(b[k]);
      assert Value(a[..k]) == Value(a) / 10 == Value(b[..k]);
      ValueInjective(a[..k], b[..k]);
      assert a == a[..k] + [a[k]] && b == b[..k] + [b[k]];
    }
  }

  /** A number below `10^width` has exactly one `width`-digit rendering, and
      the padding produces it. */
  lemma PadIsUnique(n: nat, width: nat, s: string)
    requires width >= 1 && AllDigits(s) && |s| == width && Value(s) == n
    ensures Pad(n, width) == s
  {
    ValueInjective(Pad(n, width), s) by {
      DigitsLength(Value(s), width);
      assert n < Pow10(width) by { ValueBound(s); }
      PadWidth(n, width);
    }
  }

  /** A string of `k` digits denotes a number below `10^k`. */
  lemma {:induction false} ValueBound(s: string)
    requires AllDigits(s)
    ensures Value(s) < Pow10(|s|)
  {
    if s != [] {
      ValueBound(s[..|s| - 1]);
    }
  }

  /** Python's `f"{n:0W}"` for any integer (`f"{n}"` is width 0): the sign
      counts towards the width, the zeros go between the sign and the digits. */
  function FormatInt(n: int, width: nat): (s: string)
    ensures |s| >= 1 && |s| >= width
  {
    if n < 0 then "-" + Pad(-n, if width > 0 then width - 1 else 0) else Pad(n, width)
  }

  /** Reads an optionally negative decimal integer; `None` for anything else. */
  function ParseInt(s: string): Option<int> {
    if |s| >= 2 && s[0] == '-' && AllDigits(s[1..]) then Some(0 - Value(s[1..]) as int)
    else if |s| >= 1 && AllDigits(s) then Some(Value(s))
    else None
  }

  /** Whatever the width, the formatted integer reads back as itself. */
  lemma FormatIntRoundTrip(n: int, width: nat)
    ensures ParseInt(FormatInt(n, width)) == Some(n)
  {
  }

  /** A formatted integer fits on one line and holds no space. */
  lemma FormatIntHasNoSeparators(n: int, width: nat)
    ensures '\n' !in FormatInt(n, width) && ' ' !in FormatInt(n, width)
  {
  }
}
