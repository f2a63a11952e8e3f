/** Decimal numerals and what they stand for. */
module Numerals {
  import opened Bytes
  import JsonNumbers

  predicate AllDigits(text: Bytes) {
    forall i :: 0 <= i < |text| ==> '0' <= text[i] as char <= '9'
  }

  /** The number a run of digits stands for. */
  function Value(text: Bytes): nat
    requires AllDigits(text)
  {
    if text == [] then 0 else 10 * Value(text[..|text| - 1]) + (text[|text| - 1] - 0x30)
  }

  /** The way a number is written: without leading zeros. */
  predicate IsDecimalOf(text: Bytes, n: nat) {
    text != [] && AllDigits(text) && Value(text) == n && (|text| > 1 ==> text[0] != 0x30)
  }

  lemma {:induction false} LeadingCounts(text: Bytes)
    requires text != [] && AllDigits(text) && text[0] != 0x30
    ensures Value(text) > 0
  {
    if |text| > 1 {
      LeadingCounts(text[..|text| - 1]);
    }
  }

  lemma FrontIsDecimal(text: Bytes, n: nat)
    requires IsDecimalOf(text, n)
    ensures |text| > 1 <==> n >= 10
    ensures text[|text| - 1] == 0x30 + n % 10
    ensures |text| > 1 ==> IsDecimalOf(text[..|text| - 1], n / 10)
  {
    if |text| > 1 {
      LeadingCounts(text[..|text| - 1]);
    } else {
      assert text[..0] == [];
    }
  }

  lemma {:induction false} DecimalIsUnique(a: Bytes, b: Bytes, n: nat)
    requires IsDecimalOf(a, n) && IsDecimalOf(b, n)
    ensures a == b
  {
    FrontIsDecimal(a, n);
    FrontIsDecimal(b, n);
    if n >= 10 {
      DecimalIsUnique(a[..|a| - 1], b[..|b| - 1], n / 10);
      assert a == a[..|a| - 1] + [a[|a| - 1]] && b == b[..|b| - 1] + [b[|b| - 1]];
    } else {
      assert a == [0x30 + n] && b == [0x30 + n];
    }
  }

  lemma Snoc(front: Bytes, d: nat)
    requires d < 10
    ensures AllDigits(front) ==>
            AllDigits(front + [0x30 + d]) && Value(front + [0x30 + d]) == 10 * Value(front) + d
  {
    assert (front + [0x30 + d])[..|front|] == front;
  }

  /** What is printed for a number is its numeral. */
  lemma {:induction false} DigitsAreDecimal(n: nat)
    ensures IsDecimalOf(JsonNumbers.Digits(n), n)
  {
    if n < 10 {
      Snoc([], n);
      assert [] + [0x30 + n] == [0x30 + n];
    } else {
      DigitsAreDecimal(n / 10);
      Snoc(JsonNumbers.Digits(n / 10), n % 10);
    }
  }
}
