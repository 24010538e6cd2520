/** Decimal numerals: written without leading zeros, and read with any. */
module Numerals {

  predicate IsDigit(c: char) {
    '0' <= c <= '9'
  }

  function DigitValue(c: char): nat
    requires IsDigit(c)
  {
    c as int - '0' as int
  }

  predicate AllDigits(text: string) {
    forall k :: 0 <= k < |text| ==> IsDigit(text[k])
  }

  predicate Numeral(text: string) {
    text != "" && AllDigits(text)
  }

  function Decimal(text: string): nat
    requires AllDigits(text)
  {
    if text == "" then 0
    else 10 * Decimal(text[..|text| - 1]) + DigitValue(text[|text| - 1])
  }

  function DigitChar(d: nat): char
    requires d < 10
  {
    ('0' as int + d) as char
  }

  function Written(n: nat): string {
    if n < 10 then [DigitChar(n)] else Written(n / 10) + [DigitChar(n % 10)]
  }

  function Pow10(k: nat): nat {
    if k == 0 then 1 else 10 * Pow10(k - 1)
  }

  /** Reading inverts writing. */
  lemma {:induction false} WrittenIsRead(n: nat)
    ensures Numeral(Written(n)) && Decimal(Written(n)) == n
  {
    var text := Written(n);
    if n >= 10 {
      WrittenIsRead(n / 10);
      assert text[..|text| - 1] == Written(n / 10);
    } else {
      assert text[..0] == "";
    }
  }
}
