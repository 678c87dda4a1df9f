/** Decimal digit strings, shared by the file-name date parser and the
    coordinate parser. */
module Digits {
  predicate IsDigit(c: char) {
    '0' <= c <= '9'
  }

  function DigitValue(c: char): nat
    requires IsDigit(c)
  {
    (c as int - '0' as int) as nat
  }

  /** The number spelled by `s[i..j]`, all ASCII digits. */
  function Number(s: string, i: nat, j: nat): nat
    requires i <= j <= |s| && forall k :: i <= k < j ==> IsDigit(s[k])
    decreases j - i
  {
    if i == j then 0 else Number(s, i, j - 1) * 10 + DigitValue(s[j - 1])
  }

  predicate DigitsAt(s: string, i: nat, j: nat)
    requires i <= j <= |s|
  {
    forall k :: i <= k < j ==> IsDigit(s[k])
  }

  function DigitChar(d: nat): char
    requires d < 10
  {
    ('0' as int + d) as char
  }

  /** `n` written with exactly `width` digits, zero-padded. */
  function Padded(n: nat, width: nat): (s: string)
    ensures |s| == width
    decreases width
  {
    if width == 0 then [] else Padded(n / 10, width - 1) + [DigitChar(n % 10)]
  }

  function Pow10(e: nat): nat
    ensures Pow10(e) >= 1
  {
    if e == 0 then 1 else 10 * Pow10(e - 1)
  }

  lemma {:induction false} PaddedReadsBack(n: nat, width: nat, s: string, i: nat)
    requires n < Pow10(width) && i + width <= |s| && s[i..i + width] == Padded(n, width)
    ensures DigitsAt(s, i, i + width) && Number(s, i, i + width) == n
    decreases width
  {
    if width > 0 {
      assert s[i..i + width - 1] == Padded(n / 10, width - 1) by {
        assert s[i..i + width - 1] == s[i..i + width][..width - 1];
      }
      assert s[i + width - 1] == s[i..i + width][width - 1] == DigitChar(n % 10);
      PaddedReadsBack(n / 10, width - 1, s, i);
    }
  }

  /** Multiplying by the same factor keeps the order. */
  lemma MulLe(a: nat, b: nat, c: nat)
    requires a <= b
    ensures a * c <= b * c
  {
  }

  lemma MulLt(a: nat, b: nat, c: nat)
    requires a < b && c > 0
    ensures a * c < b * c
  {
  }
}
