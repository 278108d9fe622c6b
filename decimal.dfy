/**
 * Decimal text of integers: `String(n)` and `padStart(width, "0")`, and the
 * value a run of decimal digits denotes.
 */
module Decimal {

  import opened Strings

  predicate IsDigit(c: char) {
    '0' <= c <= '9'
  }

  predicate AllDigits(s: string) {
    forall i :: 0 <= i < |s| ==> IsDigit(s[i])
  }

  function DigitChar(d: nat): (c: char)
    requires d < 10
    ensures IsDigit(c)
  {
    ('0' as int + d) as char
  }

  function DigitValue(c: char): (d: nat)
    requires IsDigit(c)
    ensures d < 10 && DigitChar(d) == c
  {
    c as int - '0' as int
  }

  function Pow10(k: nat): (p: nat)
    ensures p >= 1
  {
    if k == 0 then 1 else 10 * Pow10(k - 1)
  }

  /** `String(n)` for a non-negative integer: its shortest decimal form. */
  function NatToString(n: nat): (s: string)
    ensures |s| >= 1 && AllDigits(s)
    decreases n
  {
    if n < 10 then [DigitChar(n)] else NatToString(n / 10) + [DigitChar(n % 10)]
  }

  /** `String(i)` for any integer: a minus sign in front of negative values. */
  function IntToString(i: int): (s: string)
    ensures i >= 0 ==> s == NatToString(i)
  {
    if i < 0 then "-" + NatToString(-i) else NatToString(i)
  }

  /** The number a string of decimal digits denotes (leading zeros allowed). */
  function ValueOf(s: string): nat
    requires AllDigits(s)
  {
    if s == [] then 0 else ValueOf(s[..|s| - 1]) * 10 + DigitValue(s[|s| - 1])
  }

  /** `s.padStart(width, fill)`: fill characters in front up to `width`. */
  function PadStart(s: string, width: nat, fill: char): (r: string)
    ensures |r| == if |s| >= width then |s| else width
    ensures r[|r| - |s|..] == s
    ensures forall i :: 0 <= i < |r| - |s| ==> r[i] == fill
  {
    if |s| >= width then s else seq(width - |s|, _ => fill) + s
  }

  /** The `width` last decimal digits of `n`, most significant first. */
  function Digits(n: nat, width: nat): (s: string)
    ensures |s| == width && AllDigits(s)
  {
    if width == 0 then [] else Digits(n / 10, width - 1) + [DigitChar(n % 10)]
  }

  lemma {:induction false} NatToStringLength(n: nat, k: nat)
    requires k >= 1 && n < Pow10(k)
    ensures |NatToString(n)| <= k
  {
    if n >= 10 {
      NatToStringLength(n / 10, k - 1);
    }
  }

  /** A number of at least `Pow10(k)` takes more than `k` digits. */
  lemma {:induction false} NatToStringLengthAtLeast(n: nat, k: nat)
    requires Pow10(k) <= n
    ensures |NatToString(n)| > k
  {
    if k > 0 {
      NatToStringLengthAtLeast(n / 10, k - 1);
    }
  }

  lemma {:induction false} ValueOfDigits(n: nat, width: nat)
    requires n < Pow10(width)
    ensures ValueOf(Digits(n, width)) == n
  {
    if width > 0 {
      var s := Digits(n, width);
      assert s[..|s| - 1] == Digits(n / 10, width - 1);
      ValueOfDigits(n / 10, width - 1);
    }
  }

  lemma {:induction false} DigitsOfValue(s: string)
    requires AllDigits(s)
    ensures ValueOf(s) < Pow10(|s|) && Digits(ValueOf(s), |s|) == s
  {
    if s != [] {
      var p := s[..|s| - 1];
      DigitsOfValue(p);
      assert s == p + [s[|s| - 1]];
    }
  }

  /** Shortest form padded with zeros to `width` is the fixed-width digit string. */
  lemma {:induction false} PaddedIsDigits(n: nat, width: nat)
    requires width >= 1 && n < Pow10(width)
    ensures PadStart(NatToString(n), width, '0') == Digits(n, width)
  {
    NatToStringLength(n, width);
    if n < 10 {
      var r := PadStart(NatToString(n), width, '0');
      ZerosAreDigits(width - 1);
      assert Digits(n / 10, width - 1) == Digits(0, width - 1);
      assert r == seq(width - 1, _ => '0') + [DigitChar(n)];
    } else {
      PaddedIsDigits(n / 10, width - 1);
      var s := NatToString(n / 10);
      var pad := width - 1 - |s|;
      assert PadStart(NatToString(n), width, '0') == seq(pad, _ => '0') + s + [DigitChar(n % 10)];
      assert PadStart(s, width - 1, '0') == seq(pad, _ => '0') + s;
    }
  }

  lemma {:induction false} ZerosAreDigits(width: nat)
    ensures Digits(0, width) == seq(width, _ => '0')
  {
    if width > 0 {
      ZerosAreDigits(width - 1);
    }
  }

  /** Fixed-width digit strings are lexicographically ordered as their values. */
  lemma {:induction false} DigitsOrder(a: nat, b: nat, width: nat)
    requires a < Pow10(width) && b < Pow10(width)
    ensures a < b <==> LexLess(Digits(a, width), Digits(b, width))
    ensures a == b <==> Digits(a, width) == Digits(b, width)
  {
    if width > 0 {
      DigitsOrder(a / 10, b / 10, width - 1);
      LexLessAppend(Digits(a / 10, width - 1), Digits(b / 10, width - 1),
                      DigitChar(a % 10), DigitChar(b % 10));
      var sa, sb := Digits(a, width), Digits(b, width);
      if sa == sb {
        assert sa[..width - 1] == sb[..width - 1];
        assert sa[width - 1] == sb[width - 1];
        assert DigitValue(DigitChar(a % 10)) == DigitValue(DigitChar(b % 10));
      }
    }
  }

  /** Reading the shortest decimal form of `n` gives `n` back. */
  lemma {:induction false} ValueOfNatToString(n: nat)
    ensures ValueOf(NatToString(n)) == n
    decreases n
  {
    if n >= 10 {
      var s := NatToString(n);
      assert s[..|s| - 1] == NatToString(n / 10);
      ValueOfNatToString(n / 10);
    }
  }

  lemma NatToStringInjective(a: nat, b: nat)
    requires a != b
    ensures NatToString(a) != NatToString(b)
  {
    ValueOfNatToString(a);
    ValueOfNatToString(b);
  }
}
