/**
 * Decimal digit strings: `str.isdigit()` and `int()` as the parser uses them
 * on the dump-frequency and pass-number fields, and `str()` of an integer as
 * used to build a process's mount-table path.
 */
module Decimal {

  predicate IsDigit(c: char) {
    '0' <= c <= '9'
  }

  /** `s.isdigit()` over ASCII digits: non-empty and digits only. */
  predicate IsDigits(s: string) {
    |s| > 0 && forall k :: 0 <= k < |s| ==> IsDigit(s[k])
  }

  function DigitValue(c: char): (d: nat)
    requires IsDigit(c)
    ensures d < 10
  {
    c as int - '0' as int
  }

  function DigitChar(d: nat): (c: char)
    requires d < 10
    ensures IsDigit(c) && DigitValue(c) == d
  {
    ('0' as int + d) as char
  }

  /**
   * `int(s)` of a digit string: its value in base ten, leading zeros allowed.
   * A digit string that does not start with zero has a value of at least one.
   */
  function DigitsValue(s: string): (v: nat)
    requires forall k :: 0 <= k < |s| ==> IsDigit(s[k])
    ensures s != [] && s[0] != '0' ==> v >= 1
  {
    if s == [] then 0 else 10 * DigitsValue(s[..|s| - 1]) + DigitValue(s[|s| - 1])
  }

  /** `str(n)` for a natural number: a digit string without superfluous leading zeros. */
  function NatToDecimal(n: nat): (r: string)
    ensures IsDigits(r)
    ensures r[0] == '0' ==> r == "0"
  {
    if n < 10 then [DigitChar(n)] else NatToDecimal(n / 10) + [DigitChar(n % 10)]
  }

  /**
   * `str(i)` for any integer: the digits of `|i|` without superfluous leading
   * zeros, after a minus sign when `i` is negative.
   */
  function IntToDecimal(i: int): (r: string)
    ensures i >= 0 ==> IsDigits(r) && DigitsValue(r) == i && (r[0] != '0' || r == "0")
    ensures i < 0 ==> |r| > 1 && r[0] == '-' && IsDigits(r[1..]) && DigitsValue(r[1..]) == -i && r[1] != '0'
  {
    var digits := NatToDecimal(if i < 0 then -i else i);
    DecimalRoundTrip(if i < 0 then -i else i);
    if i < 0 then
      assert ("-" + digits)[1..] == digits;
      "-" + digits
    else digits
  }

  /** Reading back the decimal form of a number gives the number. */
  lemma {:induction false} DecimalRoundTrip(n: nat)
    ensures DigitsValue(NatToDecimal(n)) == n
  {
    if n >= 10 {
      DecimalRoundTrip(n / 10);
      var r := NatToDecimal(n);
      assert r[..|r| - 1] == NatToDecimal(n / 10);
    }
  }

  /** Reading a digit string and writing the number back drops only leading zeros. */
  lemma {:induction false} DecimalOfDigits(s: string)
    requires IsDigits(s) && (s[0] != '0' || s == "0")
    ensures NatToDecimal(DigitsValue(s)) == s
  {
    var init := s[..|s| - 1];
    if |s| > 1 {
      assert init[0] == s[0];
      DecimalOfDigits(init);
      assert s == init + [s[|s| - 1]];
    }
  }
}
