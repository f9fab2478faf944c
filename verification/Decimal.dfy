/** Signed 64-bit integers and their decimal texts, as Rust prints and parses them. */
module Decimal {
  import opened Common

  predicate IsDecimalDigit(c: char) {
    '0' <= c <= '9'
  }

  function DigitOf(d: nat): (c: char)
    requires d < 10
    ensures IsDecimalDigit(c) && ValueOf(c) == d
  {
    ('0' as int + d) as char
  }

  function ValueOf(c: char): nat
    requires IsDecimalDigit(c)
  {
    c as int - '0' as int
  }

  predicate AllDigits(text: string) {
    forall i :: 0 <= i < |text| ==> IsDecimalDigit(text[i])
  }

  function Digits(n: nat): (text: string)
    ensures text != "" && AllDigits(text)
  {
    if n < 10 then [DigitOf(n)] else Digits(n / 10) + [DigitOf(n % 10)]
  }

  /** `i64::to_string`. */
  function Print(n: int): string {
    if n < 0 then "-" + Digits(-n) else Digits(n)
  }

  function Value(digits: string): nat
    requires AllDigits(digits)
  {
    if digits == "" then 0 else 10 * Value(digits[..|digits| - 1]) + ValueOf(digits[|digits| - 1])
  }

  /** `str::parse::<i64>`: an optional sign, at least one digit, and a value in range. */
  function Parse(text: string): Option<Int64> {
    var signed := text != "" && (text[0] == '-' || text[0] == '+');
    var digits := if signed then text[1..] else text;
    if digits == "" || !AllDigits(digits) then None
    else
      var value: int := Value(digits);
      var n := if signed && text[0] == '-' then -value else value;
      if I64_MIN <= n <= I64_MAX then Some(n) else None
  }

  lemma {:induction false} DigitsHaveValue(n: nat)
    ensures Value(Digits(n)) == n
  {
    if n >= 10 {
      DigitsHaveValue(n / 10);
      var front, last := Digits(n / 10), DigitOf(n % 10);
      assert Digits(n)[..|front|] == front && Digits(n)[|front|] == last;
    } else {
      assert Digits(n)[..0] == "";
    }
  }

  lemma NaturalParses(n: nat)
    requires n <= I64_MAX
    ensures Parse(Digits(n)) == Some(n)
  {
    DigitsHaveValue(n);
    assert IsDecimalDigit(Digits(n)[0]);
  }

  lemma NegativeParses(n: nat)
    requires n <= -I64_MIN
    ensures Parse("-" + Digits(n)) == Some(-(n as int))
  {
    DigitsHaveValue(n);
    assert ("-" + Digits(n))[1..] == Digits(n);
  }

  /** Every integer is read back from its text. */
  lemma PrintedParses(n: Int64)
    ensures Parse(Print(n)) == Some(n)
  {
    if n < 0 {
      NegativeParses(-(n as int));
    } else {
      NaturalParses(n);
    }
  }

  lemma DigitsDiffer(m: nat, n: nat)
    requires Digits(m) == Digits(n)
    ensures m == n
  {
    DigitsHaveValue(m);
    DigitsHaveValue(n);
  }
}
