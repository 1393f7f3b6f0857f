/**
 * Decimal numerals of natural numbers: Python's `str(n)` and the
 * zero-padded `f"{n:02d}"`, and reading a numeral back.
 */
module Decimal {

  predicate IsDigit(c: char) {
    '0' <= c <= '9'
  }

  predicate AllDigits(s: string) {
    forall k :: 0 <= k < |s| ==> IsDigit(s[k])
  }

  function DigitChar(n: nat): (c: char)
    requires n < 10
    ensures IsDigit(c)
  {
    ('0' as int + n) as char
  }

  function DigitValue(c: char): (n: nat)
    requires IsDigit(c)
    ensures n < 10 && DigitChar(n) == c
  {
    c as int - '0' as int
  }

  /** `str(n)`: the numeral of `n` without leading zeros. */
  function Numeral(n: nat): (s: string)
    ensures AllDigits(s)
    ensures n < 10 ==> |s| == 1
    ensures 10 <= n < 100 ==> |s| == 2
    ensures n >= 10 ==> |s| >= 2
    ensures s[0] == '0' <==> n == 0
  {
    if n < 10 then [DigitChar(n)] else Numeral(n / 10) + [DigitChar(n % 10)]
  }

  /** The number a numeral denotes (leading zeros allowed). */
  function Value(s: string): nat
    requires AllDigits(s)
  {
    if s == [] then 0 else Value(s[..|s| - 1]) * 10 + DigitValue(s[|s| - 1])
  }

  /** `f"{n:02d}"`: the numeral of `n`, padded with a zero to at least two digits. */
  function Pad2(n: nat): string {
    if n < 10 then ['0', DigitChar(n)] else Numeral(n)
  }

  /** Reading `str(n)` back gives `n`. */
  lemma {:induction false} ValueOfNumeral(n: nat)
    ensures Value(Numeral(n)) == n
  {
    if n >= 10 {
      var s := Numeral(n);
      assert s[..|s| - 1] == Numeral(n / 10);
      ValueOfNumeral(n / 10);
    }
  }

  /**
   * The padded numeral has at least two digits, exactly two below 100, and
   * denotes `n`; it starts with a zero exactly when `n` is a single digit, so
   * from 10 on it is `str(n)` with no padding.
   */
  lemma Pad2Reads(n: nat)
    ensures AllDigits(Pad2(n))
    ensures |Pad2(n)| >= 2
    ensures n < 100 ==> |Pad2(n)| == 2
    ensures Value(Pad2(n)) == n
    ensures Pad2(n)[0] == '0' <==> n < 10
    ensures n >= 10 ==> Pad2(n) == Numeral(n)
  {
    if n < 10 {
      var s := Pad2(n);
      assert s[..1] == ['0'] && s[1] == DigitChar(n);
      assert Value(s[..1]) == 0 by {
        assert s[..1][..0] == [];
      }
      assert DigitValue(s[1]) == n;
    } else {
      ValueOfNumeral(n);
    }
  }
}
