/** Decimal numbers as Rust and Python print and read them. */
module Decimal {
  import opened Text

  predicate IsDigit(c: char) {
    '0' <= c <= '9'
  }

  function DigitValue(c: char): nat
    requires IsDigit(c)
  {
    c as int - '0' as int
  }

  /** How an unsigned number is printed. */
  function Print(n: nat): (text: string)
    ensures text != "" && forall c :: c in text ==> IsDigit(c)
  {
    var last := [(n % 10 + '0' as int) as char];
    if n < 10 then last else Print(n / 10) + last
  }

  /** Python's `str(int)`. */
  function PrintInt(n: int): string {
    if n < 0 then "-" + Print(-n) else Print(n)
  }

  predicate AllDigits(text: string) {
    forall c :: c in text ==> IsDigit(c)
  }

  function Value(digits: string): nat
    requires AllDigits(digits)
  {
    if digits == "" then 0
    else 10 * Value(digits[..|digits| - 1]) + DigitValue(digits[|digits| - 1])
  }

  /** `str::parse` of an unsigned integer below `limit`: a plus sign and leading zeros are accepted. */
  function Parse(text: string, limit: nat): Option<nat> {
    var digits := if text != "" && text[0] == '+' then text[1..] else text;
    if digits == "" || !AllDigits(digits) || Value(digits) >= limit then None else Some(Value(digits))
  }

  lemma {:induction false} ValueOfPrint(n: nat)
    ensures Value(Print(n)) == n
  {
    if n >= 10 {
      ValueOfPrint(n / 10);
      assert Print(n)[..|Print(n)| - 1] == Print(n / 10);
    } else {
      assert Print(n)[..0] == "";
    }
  }

  /** Reading back a printed number gives that number, unless it does not fit. */
  lemma ParsePrint(n: int, limit: nat)
    ensures Parse(PrintInt(n), limit) == if 0 <= n < limit then Some(n) else None
  {
    if n < 0 {
      assert PrintInt(n)[0] == '-' && '-' in PrintInt(n);
    } else {
      var text := Print(n);
      assert IsDigit(text[0]);
      ValueOfPrint(n);
    }
  }

  /** The place of a digit: the last one counts units, the ones before it tens. */
  lemma PlaceValue(n: nat, d: nat)
    requires d < 10
    ensures Print(d) == ["0123456789"[d]]
    ensures n > 0 ==> Print(10 * n + d) == Print(n) + ["0123456789"[d]]
  {
    assert (10 * n + d) / 10 == n && (10 * n + d) % 10 == d;
    assert "0123456789"[d] == (d + '0' as int) as char;
  }

  /** A plus sign and leading zeros do not matter; anything else in front does. */
  lemma OtherSpellings(n: nat, limit: nat)
    requires n < limit
    ensures Parse("+" + Print(n), limit) == Some(n) && Parse("0" + Print(n), limit) == Some(n)
    ensures Parse("-" + Print(n), limit) == None && Parse("", limit) == None && Parse("+", limit) == None
  {
    ValueOfPrint(n);
    ZeroInFront(Print(n));
    assert ("+" + Print(n))[1..] == Print(n);
    assert ("-" + Print(n))[0] == '-' && !IsDigit('-');
    assert !AllDigits("-" + Print(n)) by { assert '-' in "-" + Print(n); }
    assert Print(n)[0] in Print(n);
  }

  lemma {:induction false} ZeroInFront(digits: string)
    requires AllDigits(digits)
    ensures AllDigits("0" + digits) && Value("0" + digits) == Value(digits)
    decreases |digits|
  {
    if digits == "" {
      assert ("0" + digits)[..0] == "";
    } else {
      var n := |digits| - 1;
      ZeroInFront(digits[..n]);
      assert ("0" + digits)[..n + 1] == "0" + digits[..n];
    }
  }
}
