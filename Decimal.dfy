/** Decimal text for integers, as `std::to_string` and the `%d`-style
    `snprintf` conversions produce it. */
module Decimal {

  predicate IsDigit(c: char)
  {
    '0' <= c <= '9'
  }

  function DigitChar(d: nat): (c: char)
    requires d < 10
    ensures IsDigit(c) && c as int - '0' as int == d
  {
    ('0' as int + d) as char
  }

  /** The shortest decimal spelling of n: no leading zero except for "0" itself. */
  function Digits(n: nat): (s: string)
    ensures 1 <= |s|
    ensures forall i :: 0 <= i < |s| ==> IsDigit(s[i])
    ensures |s| > 1 ==> s[0] != '0'
    decreases n
  {
    if n < 10 then [DigitChar(n)] else Digits(n / 10) + [DigitChar(n % 10)]
  }

  /** Reads a string of decimal digits, most significant first. */
  function ParseDigits(s: string): nat
    requires forall i :: 0 <= i < |s| ==> IsDigit(s[i])
  {
    if |s| == 0 then 0
    else
      assert IsDigit(s[|s| - 1]);
      ParseDigits(s[..|s| - 1]) * 10 + (s[|s| - 1] as int - '0' as int)
  }

  lemma {:induction false} ParseDigitsOfDigits(n: nat)
    ensures ParseDigits(Digits(n)) == n
    decreases n
  {
    if n >= 10 {
      ParseDigitsOfDigits(n / 10);
      var s := Digits(n);
      assert s[..|s| - 1] == Digits(n / 10);
    }
  }

  function Pow10(k: nat): (r: nat)
    ensures r >= 1
  {
    if k == 0 then 1 else 10 * Pow10(k - 1)
  }

  /** A number below 10^k has at most k digits, and one of at least
      10^(k-1) has at least k. */
  lemma {:induction false} DigitsLength(n: nat, k: nat)
    requires 1 <= k
    ensures n < Pow10(k) ==> |Digits(n)| <= k
    ensures Pow10(k - 1) <= n ==> |Digits(n)| >= k
    decreases k
  {
    if n >= 10 && k >= 2 {
      DigitsLength(n / 10, k - 1);
      assert Pow10(k) == 10 * Pow10(k - 1);
      assert Pow10(k - 1) == 10 * Pow10(k - 2);
    } else if n < 10 && k >= 2 {
      assert Pow10(k - 1) == 10 * Pow10(k - 2);
    }
  }

  /** Distinct numbers have distinct spellings. */
  lemma DigitsInjective(m: nat, n: nat)
    requires Digits(m) == Digits(n)
    ensures m == n
  {
    ParseDigitsOfDigits(m);
    ParseDigitsOfDigits(n);
  }

  /** `std::to_string` of a signed integer. */
  function IntToString(x: int): (s: string)
    ensures x >= 0 ==> s == Digits(x)
    ensures x < 0 ==> s == "-" + Digits(-x)
  {
    if x < 0 then "-" + Digits(-x) else Digits(x)
  }

  function Repeat(c: char, n: nat): (s: string)
    ensures |s| == n
    ensures forall i :: 0 <= i < n ==> s[i] == c
  {
    if n == 0 then [] else [c] + Repeat(c, n - 1)
  }

  /** Right-justifies s in a field of the given width. */
  function PadLeft(s: string, width: nat, fill: char): (r: string)
    ensures |s| >= width ==> r == s
    ensures |s| < width ==> |r| == width && r[width - |s|..] == s
    ensures |s| < width ==> forall i :: 0 <= i < width - |s| ==> r[i] == fill
  {
    if |s| >= width then s else Repeat(fill, width - |s|) + s
  }

  /** `%<width>d`: space padded on the left. */
  function FormatWidth(x: int, width: nat): (r: string)
    ensures |r| >= width
  {
    PadLeft(IntToString(x), width, ' ')
  }

  /** Leading zeros do not change the value read. */
  lemma {:induction false} ParseDigitsLeadingZeros(k: nat, s: string)
    requires forall i :: 0 <= i < |s| ==> IsDigit(s[i])
    ensures forall i :: 0 <= i < |Repeat('0', k) + s| ==> IsDigit((Repeat('0', k) + s)[i])
    ensures ParseDigits(Repeat('0', k) + s) == ParseDigits(s)
    decreases |s|
  {
    var z := Repeat('0', k) + s;
    if |s| > 0 {
      ParseDigitsLeadingZeros(k, s[..|s| - 1]);
      assert z[..|z| - 1] == Repeat('0', k) + s[..|s| - 1];
    } else {
      assert z == Repeat('0', k);
      ParseDigitsZeros(k);
    }
  }

  lemma {:induction false} ParseDigitsZeros(k: nat)
    ensures ParseDigits(Repeat('0', k)) == 0
  {
    if k > 0 {
      ParseDigitsZeros(k - 1);
      var z := Repeat('0', k);
      assert z[..k - 1] == Repeat('0', k - 1);
    }
  }

  lemma ParsePadded(s: string, width: nat)
    requires forall i :: 0 <= i < |s| ==> IsDigit(s[i])
    ensures forall i :: 0 <= i < |PadLeft(s, width, '0')| ==> IsDigit(PadLeft(s, width, '0')[i])
    ensures ParseDigits(PadLeft(s, width, '0')) == ParseDigits(s)
  {
    if |s| < width {
      ParseDigitsLeadingZeros(width - |s|, s);
    }
  }

  /** `%0<width>d`: the sign, then zeros, then the digits. */
  function FormatZeroPadded(x: int, width: nat): (r: string)
    ensures |r| >= width
    ensures x >= 0 ==> forall i :: 0 <= i < |r| ==> IsDigit(r[i])
    ensures x >= 0 ==> ParseDigits(r) == x
  {
    if x >= 0 then
      ParseDigitsOfDigits(x);
      ParsePadded(Digits(x), width);
      PadLeft(Digits(x), width, '0')
    else
      var w := if width > 0 then width - 1 else 0;
      "-" + PadLeft(Digits(-x), w, '0')
  }
}
