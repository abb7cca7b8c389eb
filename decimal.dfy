/** Decimal digit text and the natural numbers it denotes, as JavaScript's
    `Number(...)` reads and `String(...)` writes non-negative integers. */
module Decimal {

  predicate IsDigit(ch: char) {
    '0' <= ch <= '9'
  }

  predicate AllDigits(s: string) {
    forall i :: 0 <= i < |s| ==> IsDigit(s[i])
  }

  function DigitChar(d: nat): (ch: char)
    requires d < 10
    ensures IsDigit(ch)
  {
    ('0' as int + d) as char
  }

  function DigitValue(ch: char): (d: nat)
    requires IsDigit(ch)
    ensures d < 10
    ensures DigitChar(d) == ch
  {
    ch as int - '0' as int
  }

  /** The shortest decimal text of `n` (JavaScript's `String(n)` for an integer). */
  function NatToString(n: nat): (s: string)
    ensures |s| >= 1 && AllDigits(s)
    ensures s[0] != '0' || n == 0
    decreases n
  {
    if n < 10 then [DigitChar(n)] else NatToString(n / 10) + [DigitChar(n % 10)]
  }

  /** The value of a text of digits, most significant first; the empty text is 0,
      as `Number("")` is. */
  function DigitsToNat(s: string): nat
    requires AllDigits(s)
  {
    if s == [] then 0 else 10 * DigitsToNat(s[..|s| - 1]) + DigitValue(s[|s| - 1])
  }

  /** A template literal `${v}` of an integer: a minus sign before a negative value. */
  function IntToString(i: int): (s: string)
    ensures i >= 0 ==> AllDigits(s) && s != [] && DigitsToNat(s) == i && (s[0] != '0' || s == "0")
    ensures i < 0 ==> |s| >= 2 && s[0] == '-' && AllDigits(s[1..]) && DigitsToNat(s[1..]) == -i && s[1] != '0'
  {
    if i < 0 then
      DigitsOfNat(-i);
      assert ("-" + NatToString(-i))[1..] == NatToString(-i);
      "-" + NatToString(-i)
    else
      DigitsOfNat(i);
      NatToString(i)
  }

  /** Reading back what `NatToString` writes gives the number again. */
  lemma {:induction false} DigitsOfNat(n: nat)
    ensures DigitsToNat(NatToString(n)) == n
    decreases n
  {
    if n >= 10 {
      var s := NatToString(n);
      DigitsOfNat(n / 10);
      assert s[..|s| - 1] == NatToString(n / 10);
      assert DigitValue(s[|s| - 1]) == n % 10;
    } else {
      assert DigitValue(DigitChar(n)) == n;
    }
  }

  /** The texts of the two channel extremes. */
  lemma ExtremeTexts()
    ensures NatToString(0) == "0"
    ensures NatToString(255) == "255"
  {
    assert NatToString(2) == "2";
    assert NatToString(25) == NatToString(2) + "5";
    assert NatToString(255) == NatToString(25) + "5";
  }

  /** `NatToString` is injective: distinct numbers have distinct texts. */
  lemma NatToStringInjective(m: nat, n: nat)
    requires NatToString(m) == NatToString(n)
    ensures m == n
  {
    DigitsOfNat(m);
    DigitsOfNat(n);
  }
}
