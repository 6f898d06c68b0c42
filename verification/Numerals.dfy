/** Decimal digits in text: the numeral of a number, and the number read from a range of characters.
    Ranges are given by indices, as the scanning loops of the library keep them. */
module Numerals {
  import opened Status
  import opened Radix
  import opened Numbers

  predicate IsDigit(ch: char) {
    '0' <= ch <= '9'
  }

  function DigitOf(ch: char): nat
    requires IsDigit(ch)
  {
    ch as int - '0' as int
  }

  function CharOf(digit: nat): (ch: char)
    requires digit < 10
    ensures IsDigit(ch) && DigitOf(ch) == digit
  {
    (digit + '0' as int) as char
  }

  /** The decimal numeral of a number, most significant digit first. */
  function Numeral(c: nat): (t: string)
    ensures |t| == Digits(c)
  {
    if c < 10 then [CharOf(c)] else Numeral(c / 10) + [CharOf(c % 10)]
  }

  /** The number read from the digits in a range, other characters skipped. */
  function NumberIn(text: string, from: nat, to: nat): nat
    requires to <= |text|
  {
    if to <= from then 0
    else if IsDigit(text[to - 1]) then 10 * NumberIn(text, from, to - 1) + DigitOf(text[to - 1])
    else NumberIn(text, from, to - 1)
  }

  function DigitsIn(text: string, from: nat, to: nat): nat
    requires to <= |text|
  {
    if to <= from then 0
    else DigitsIn(text, from, to - 1) + if IsDigit(text[to - 1]) then 1 else 0
  }

  predicate OnlyDigits(text: string, from: nat, to: nat)
    requires to <= |text|
  {
    forall i :: from <= i < to ==> IsDigit(text[i])
  }

  /** The text holds the numeral of c at the given place. */
  predicate Holds(text: string, from: nat, c: nat) {
    && from + Digits(c) <= |text|
    && forall i :: 0 <= i < Digits(c) ==> text[from + i] == Numeral(c)[i]
  }

  /** The i-th character of a numeral is the digit standing there. */
  lemma {:induction false} NumeralDigit(c: nat, i: nat)
    requires i < Digits(c)
    ensures DigitAt(c, Digits(c) - 1 - i) < 10
    ensures Numeral(c)[i] == CharOf(DigitAt(c, Digits(c) - 1 - i))
  {
    var k := Digits(c) - 1 - i;
    if k > 0 {
      NumeralDigit(c / 10, i);
      DivDiv(c, 10, Pow10(k - 1));
    }
  }

  /** Reading a numeral gives back the number. */
  lemma {:induction false} NumeralRead(text: string, from: nat, c: nat)
    requires Holds(text, from, c)
    ensures OnlyDigits(text, from, from + Digits(c))
    ensures NumberIn(text, from, from + Digits(c)) == c
  {
    if c >= 10 {
      forall i | 0 <= i < Digits(c / 10) ensures text[from + i] == Numeral(c / 10)[i] {
        assert text[from + i] == Numeral(c)[i];
      }
      NumeralRead(text, from, c / 10);
    }
    var k := Digits(c) - 1;
    assert text[from + k] == Numeral(c)[k] == CharOf(c % 10);
  }

  lemma {:induction false} DigitsInRange(text: string, from: nat, to: nat)
    requires from <= to <= |text|
    ensures DigitsIn(text, from, to) <= to - from
    ensures OnlyDigits(text, from, to) ==> DigitsIn(text, from, to) == to - from
  {
    if from < to { DigitsInRange(text, from, to - 1); }
  }

  lemma ShiftOne(high: nat, p: nat, low: nat)
    ensures 10 * (Product(high, p) + low) == Product(high, 10 * p) + 10 * low
  {
    Associate(high, 10, p);
    Associate(10, high, p);
  }

  /** Splitting a range: the first part is shifted past the digits of the second. */
  lemma {:induction false} NumberSplit(text: string, from: nat, mid: nat, to: nat)
    requires from <= mid <= to <= |text|
    ensures NumberIn(text, from, to)
            == Product(NumberIn(text, from, mid), Pow10(DigitsIn(text, mid, to))) + NumberIn(text, mid, to)
    ensures DigitsIn(text, from, to) == DigitsIn(text, from, mid) + DigitsIn(text, mid, to)
  {
    if mid < to {
      NumberSplit(text, from, mid, to - 1);
      ShiftOne(NumberIn(text, from, mid), Pow10(DigitsIn(text, mid, to - 1)), NumberIn(text, mid, to - 1));
    }
  }

  lemma {:induction false} ZerosRead(text: string, from: nat, to: nat)
    requires to <= |text| && forall i :: from <= i < to ==> !IsDigit(text[i]) || text[i] == '0'
    ensures NumberIn(text, from, to) == 0
  {
    if from < to { ZerosRead(text, from, to - 1); }
  }
}
