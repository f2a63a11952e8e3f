/** Integers of src/common/json.cpp: `valueToString`, `uintToString` and `DecodeNumber`, with
    the 64-bit limits as the source's casts leave them. */
module JsonNumbers {
  import opened Bytes

  const MIN64: int := -0x8000_0000_0000_0000
  const MAX64: int := 0x7FFF_FFFF_FFFF_FFFF
  const TWO64: nat := 0x1_0000_0000_0000_0000
  const ZERO: Byte := 0x30
  const MINUS: Byte := 0x2D

  /** Conversion to `int64_t`. */
  function Signed64(x: int): (r: int)
    ensures MIN64 <= r <= MAX64
    ensures MIN64 <= x <= MAX64 ==> r == x
  {
    var low := x % TWO64;
    if low > MAX64 then low - TWO64 else low
  }

  /** The remainder of C++, which takes the sign of the dividend. */
  function TruncatedRemainder(x: int, d: nat): int
    requires d > 0
  {
    if x >= 0 then x % d else -((-x) % d)
  }

  predicate IsDigit(c: Byte) {
    0x30 <= c <= 0x39
  }

  // ----- printing

  /** The decimal digits of `n`. */
  function Digits(n: nat): (d: Bytes)
    ensures d != []
  {
    if n < 10 then [ZERO + n] else Digits(n / 10) + [ZERO + n % 10]
  }

  /** `MaxLargestInt` is declared as half of -1, which is 0. */
  const MAX_LARGEST_INT: nat := 0

  /** `valueToString` of an `int64_t`. */
  function IntText(n: int): Bytes {
    if n == MIN64 then [MINUS] + Digits(MAX_LARGEST_INT + 1)
    else if n < 0 then [MINUS] + Digits(-n)
    else Digits(n)
  }

  /** The bytes `valueToString` reserves on the stack. */
  const BUFFER: nat := 3 * 8 + 1

  /** `uintToString`: the digits and the terminating NUL, written backwards from `current`. */
  method UintToString(value: nat, buffer: array<Byte>, current: nat) returns (start: nat)
    requires value < TWO64 && 21 <= current <= buffer.Length
    modifies buffer
    ensures current - 21 <= start < current
    ensures buffer[start..current] == Digits(value) + [0]
    ensures buffer[..start] == old(buffer[..start]) && buffer[current..] == old(buffer[current..])
  {
    hide Digits, PowerOfTen;
    start := current - 1;
    buffer[start] := 0;
    var rest: nat := value;
    TwentyDigits();
    while true
      invariant current - 20 <= start < current
      invariant rest < PowerOfTen(20 - (current - 1 - start))
      invariant buffer[..start] == old(buffer[..start]) && buffer[current..] == old(buffer[current..])
      invariant Digits(value) + [0] == Digits(rest) + buffer[start..current]
      decreases rest
    {
      ghost var tail := buffer[start..current];
      DigitStep(rest, tail);
      OneDigitLess(rest, 20 - (current - 1 - start));
      start := start - 1;
      buffer[start] := ZERO + rest % 10;
      assert buffer[start..current] == [ZERO + rest % 10] + tail;
      rest := rest / 10;
      if rest == 0 {
        break;
      }
    }
  }

  lemma DigitStep(n: nat, tail: Bytes)
    ensures n >= 10 ==> Digits(n) + tail == Digits(n / 10) + ([ZERO + n % 10] + tail)
    ensures n < 10 ==> Digits(n) + tail == [ZERO + n % 10] + tail
  {
  }

  lemma OneDigitLess(n: nat, k: nat)
    requires n < PowerOfTen(k)
    ensures n > 0 ==> k > 0
    ensures n >= 10 ==> k > 1 && n / 10 < PowerOfTen(k - 1)
  {
  }

  function PowerOfTen(n: nat): nat {
    if n == 0 then 1 else 10 * PowerOfTen(n - 1)
  }

  lemma TwentyDigits()
    ensures PowerOfTen(20) > TWO64
  {
    assert PowerOfTen(4) == 10000;
    assert PowerOfTen(8) == 10000 * 10000;
    assert PowerOfTen(12) == 10000 * 10000 * 10000;
    assert PowerOfTen(16) == 10000 * 10000 * 10000 * 10000;
  }

  /** `valueToString(int64_t)`: the text always fits the buffer. */
  method ValueToString(value: int) returns (text: Bytes)
    requires MIN64 <= value <= MAX64
    ensures text == IntText(value)
  {
    hide Digits;
    var buffer := new Byte[BUFFER];
    var current := buffer.Length;
    var magnitude := if value == MIN64 then MAX_LARGEST_INT + 1 else if value < 0 then -value else value;
    current := UintToString(magnitude, buffer, current);
    assert buffer[current..] == buffer[current..BUFFER] == Digits(magnitude) + [0];
    if value < 0 {
      current := current - 1;
      buffer[current] := MINUS;
      assert buffer[current..] == [MINUS] + buffer[current + 1..];
    }
    assert buffer[current..] == IntText(value) + [0];
    text := buffer[current..buffer.Length - 1];
    assert text == buffer[current..][..|IntText(value)|];
  }

  // ----- reading

  datatype Number = Integer(value: int) | Floating

  /** The digit loop of `DecodeNumber` on what is left of the token. */
  function DecodeDigits(text: Bytes, value: int, limit: int, threshold: int): Number {
    if text == [] then Integer(value)
    else if !IsDigit(text[0]) then Floating
    else
      var digit := text[0] - ZERO;
      if value >= threshold && (value > threshold || |text| != 1 || digit > TruncatedRemainder(limit, 10)) then Floating
      else DecodeDigits(text[1..], Signed64(value * 10 + digit), limit, threshold)
  }

  /** `MaxIntegerValue` after its conversion to `int64_t`. */
  function Limit(negative: bool): int {
    Signed64(if negative then 0x8000_0000_0000_0000 else 0xFFFF_FFFF_FFFF_FFFF)
  }

  /** `Threshold`: the division is unsigned. */
  function Threshold(negative: bool): int {
    Signed64(Limit(negative) % TWO64 / 10)
  }

  /** `DecodeNumber`: an integer, or a token left to the floating-point reader. */
  function DecodeNumber(token: Bytes): Number
    requires token != []
  {
    var negative := token[0] == MINUS;
    var n := DecodeDigits(if negative then token[1..] else token, 0, Limit(negative), Threshold(negative));
    if n.Floating? then Floating
    else if negative && n.value == Limit(negative) then Integer(MIN64)
    else if negative then Integer(-n.value)
    else Integer(n.value)
  }

  lemma Limits()
    ensures Limit(true) == MIN64 && Threshold(true) == 922337203685477580
    ensures Limit(false) == -1 && Threshold(false) == 1844674407370955161
    ensures TruncatedRemainder(Limit(true), 10) == -8 && TruncatedRemainder(Limit(false), 10) == -1
  {
  }

  lemma {:induction false} DigitsAreDigits(n: nat)
    ensures forall i :: 0 <= i < |Digits(n)| ==> IsDigit(Digits(n)[i])
  {
    if n >= 10 {
      DigitsAreDigits(n / 10);
    }
  }

  /** Reading printed digits accumulates their value, as long as no prefix reaches the
      threshold and the sum fits. */
  lemma {:induction false} DigitsAccumulate(n: nat, rest: Bytes, limit: int, threshold: int)
    requires n / 10 < threshold && n <= MAX64 && threshold > 0
    ensures DecodeDigits(Digits(n) + rest, 0, limit, threshold) == DecodeDigits(rest, n, limit, threshold)
  {
    var text := Digits(n) + rest;
    if n < 10 {
      assert text[0] == ZERO + n && text[1..] == rest;
    } else {
      var last := [ZERO + n % 10] + rest;
      assert text == Digits(n / 10) + last;
      DigitsAccumulate(n / 10, last, limit, threshold);
      assert last[1..] == rest;
      assert n / 10 * 10 + n % 10 == n;
    }
  }

  /** A prefix at or above the threshold sends every longer token to the floating-point
      reader: the last-digit test can never pass, because the limit it uses is negative. */
  lemma AtThreshold(text: Bytes, value: int, negative: bool)
    requires text != [] && value >= Threshold(negative)
    ensures DecodeDigits(text, value, Limit(negative), Threshold(negative)) == Floating
  {
    Limits();
  }

  /** Printing then decoding is the identity exactly from -9223372036854775799 up. */
  lemma IntRoundTrip(n: int)
    requires MIN64 <= n <= MAX64
    ensures DecodeNumber(IntText(n)) == Integer(n) <==> n >= -9223372036854775799
  {
    Limits();
    hide Limit, Threshold, TruncatedRemainder, Digits;
    if n == MIN64 {
      MisprintedMinimum();
    } else if n < 0 {
      NegativeRoundTrip(-n);
    } else {
      NonNegativeRoundTrip(n);
    }
  }

  lemma MisprintedMinimum()
    ensures IntText(MIN64) == [MINUS, ZERO + 1] && DecodeNumber(IntText(MIN64)) == Integer(-1)
  {
    assert IntText(MIN64) == [MINUS] + Digits(1);
    NegativeRoundTrip(1);
  }

  lemma NegativeRoundTrip(m: int)
    requires 0 < m <= MAX64
    ensures DecodeNumber([MINUS] + Digits(m)) == if m <= 9223372036854775799 then Integer(-m) else Floating
  {
    Limits();
    hide Limit, Threshold, TruncatedRemainder, Digits;
    var token := [MINUS] + Digits(m);
    assert token[1..] == Digits(m) == Digits(m) + [];
    if m <= 9223372036854775799 {
      DigitsAccumulate(m, [], Limit(true), Threshold(true));
    } else {
      PrefixAtThreshold(m, true);
    }
  }

  lemma PrefixAtThreshold(m: nat, negative: bool)
    requires Threshold(negative) == m / 10 && m <= MAX64 && m >= 100
    ensures DecodeDigits(Digits(m), 0, Limit(negative), Threshold(negative)) == Floating
  {
    hide Limit, Threshold;
    var last := [ZERO + m % 10];
    assert Digits(m) == Digits(m / 10) + last;
    DigitsAccumulate(m / 10, last, Limit(negative), Threshold(negative));
    AtThreshold(last, m / 10, negative);
  }

  lemma NonNegativeRoundTrip(n: nat)
    requires n <= MAX64
    ensures DecodeNumber(Digits(n)) == Integer(n)
  {
    Limits();
    hide Limit, Threshold, TruncatedRemainder;
    assert Digits(n) + [] == Digits(n);
    DigitsAccumulate(n, [], Limit(false), Threshold(false));
    DigitsAreDigits(n);
    assert IsDigit(Digits(n)[0]);
  }

  /** The value of unsigned digits is read back exactly when an `int64_t` holds it: above
      that the accumulator wraps or the token is taken for a floating-point number. */
  lemma UnsignedDigits(n: nat)
    ensures DecodeNumber(Digits(n)) == Integer(n) <==> n <= MAX64
  {
    if n <= MAX64 {
      NonNegativeRoundTrip(n);
    } else {
      hide Digits;
      DigitsAreDigits(n);
      assert IsDigit(Digits(n)[0]);
      InRange(Digits(n), 0, Limit(false), Threshold(false));
    }
  }

  lemma {:induction false} InRange(text: Bytes, value: int, limit: int, threshold: int)
    requires MIN64 <= value <= MAX64
    ensures var n := DecodeDigits(text, value, limit, threshold); n.Integer? ==> MIN64 <= n.value <= MAX64
  {
    hide Signed64, TruncatedRemainder;
    if text != [] {
      InRange(text[1..], Signed64(value * 10 + (text[0] - ZERO)), limit, threshold);
    }
  }

  /** Whether the digit loop ever leaves the range of its `int64_t` accumulator. */
  predicate Overflows(text: Bytes, value: int, limit: int, threshold: int) {
    text != [] && IsDigit(text[0]) &&
    var next := value * 10 + (text[0] - ZERO);
    !(value >= threshold && (value > threshold || |text| != 1 || text[0] - ZERO > TruncatedRemainder(limit, 10))) &&
    (!(MIN64 <= next <= MAX64) || Overflows(text[1..], next, limit, threshold))
  }

  lemma {:induction false} DigitsDoNotOverflow(n: nat, rest: Bytes, limit: int, threshold: int)
    requires n / 10 < threshold && n <= MAX64 && threshold > 0
    ensures Overflows(Digits(n) + rest, 0, limit, threshold) == Overflows(rest, n, limit, threshold)
  {
    var text := Digits(n) + rest;
    if n < 10 {
      assert text[0] == ZERO + n && text[1..] == rest;
    } else {
      var last := [ZERO + n % 10] + rest;
      assert text == Digits(n / 10) + last;
      DigitsDoNotOverflow(n / 10, last, limit, threshold);
      assert last[1..] == rest;
      assert n / 10 * 10 + n % 10 == n;
    }
  }

  /** No printed integer makes the loop overflow, not even those it reads wrongly. */
  lemma PrintedNeverOverflows(n: nat, negative: bool)
    requires n <= MAX64
    ensures !Overflows(Digits(n), 0, Limit(negative), Threshold(negative))
  {
    Limits();
    hide Limit, Threshold, Digits;
    assert Digits(n) + [] == Digits(n);
    if n / 10 < Threshold(negative) {
      DigitsDoNotOverflow(n, [], Limit(negative), Threshold(negative));
    } else {
      LastDigitStops(n);
    }
  }

  lemma LastDigitStops(n: nat)
    requires 9223372036854775800 <= n <= MAX64
    ensures !Overflows(Digits(n), 0, Limit(true), Threshold(true))
  {
    Limits();
    hide Limit, Threshold;
    var last := [ZERO + n % 10];
    assert Digits(n) == Digits(n / 10) + last;
    DigitsDoNotOverflow(n / 10, last, Limit(true), Threshold(true));
  }

  /** The loop of `DecodeNumber`, with the overflow the source leaves to the machine made to
      wrap. */
  method DecodeNumberLoop(token: Bytes) returns (n: Number)
    requires token != []
    ensures n == DecodeNumber(token)
  {
    hide Signed64, TruncatedRemainder;
    var current := 0;
    var isNegative := token[current] == MINUS;
    if isNegative {
      current := current + 1;
    }
    var maxIntegerValue := Limit(isNegative);
    var threshold := Threshold(isNegative);
    var value := 0;
    assert token[0..] == token;
    while current < |token|
      invariant current <= |token|
      invariant DecodeDigits(token[current..], value, maxIntegerValue, threshold)
             == DecodeDigits(if isNegative then token[1..] else token, 0, maxIntegerValue, threshold)
    {
      var c := token[current];
      assert token[current..][1..] == token[current + 1..];
      current := current + 1;
      if !IsDigit(c) {
        return Floating;
      }
      var digit := c - ZERO;
      if value >= threshold {
        if value > threshold || current != |token| || digit > TruncatedRemainder(maxIntegerValue, 10) {
          return Floating;
        }
      }
      value := Signed64(value * 10 + digit);
    }
    if isNegative && value == maxIntegerValue {
      n := Integer(MIN64);
    } else if isNegative {
      n := Integer(-value);
    } else {
      n := Integer(value);
    }
  }
}
