/** UTF-8: the syntax of section 4 of RFC 3629, and the encoder of src/common/json.cpp. */
module Utf8 {
  import opened Bytes

  predicate IsScalar(cp: nat) {
    cp < 0xD800 || 0xE000 <= cp <= 0x10FFFF
  }

  predicate IsTail(b: Byte) {
    0x80 <= b <= 0xBF
  }

  /** The length of the well-formed character `s` starts with, or 0. */
  function FrontLength(s: Bytes): (n: nat)
    ensures n <= |s| && n <= 4
  {
    if |s| >= 1 && s[0] <= 0x7F then 1
    else if |s| >= 2 && 0xC2 <= s[0] <= 0xDF && IsTail(s[1]) then 2
    else if |s| >= 3 && ThreeByteHead(s[0], s[1]) && IsTail(s[2]) then 3
    else if |s| >= 4 && FourByteHead(s[0], s[1]) && IsTail(s[2]) && IsTail(s[3]) then 4
    else 0
  }

  predicate ThreeByteHead(b0: Byte, b1: Byte) {
    || (b0 == 0xE0 && 0xA0 <= b1 <= 0xBF)
    || (0xE1 <= b0 <= 0xEC && IsTail(b1))
    || (b0 == 0xED && 0x80 <= b1 <= 0x9F)
    || (0xEE <= b0 <= 0xEF && IsTail(b1))
  }

  predicate FourByteHead(b0: Byte, b1: Byte) {
    || (b0 == 0xF0 && 0x90 <= b1 <= 0xBF)
    || (0xF1 <= b0 <= 0xF3 && IsTail(b1))
    || (b0 == 0xF4 && 0x80 <= b1 <= 0x8F)
  }

  predicate WellFormed(s: Bytes) {
    s == [] || (FrontLength(s) > 0 && WellFormed(s[FrontLength(s)..]))
  }

  /** `CodePointToUTF8`. The masks and shifts of the source are remainders and quotients by
      powers of two, and the marker bits it ors in are disjoint from them. */
  function Encode(cp: nat): Bytes {
    if cp <= 0x7F then [cp]
    else if cp <= 0x7FF then [0xC0 + cp / 0x40 % 0x20, 0x80 + cp % 0x40]
    else if cp <= 0xFFFF then [0xE0 + cp / 0x1000 % 0x10, 0x80 + cp / 0x40 % 0x40, 0x80 + cp % 0x40]
    else if cp <= 0x10FFFF then
      [0xF0 + cp / 0x4_0000 % 8, 0x80 + cp / 0x1000 % 0x40, 0x80 + cp / 0x40 % 0x40, 0x80 + cp % 0x40]
    else []
  }

  /** Every scalar value is written as one well-formed character, whatever follows it. */
  lemma EncodeIsFront(cp: nat, rest: Bytes)
    requires IsScalar(cp)
    ensures FrontLength(Encode(cp) + rest) == |Encode(cp)| > 0
  {
    hide Encode, FrontLength;
    if cp <= 0x7F {
      FrontOne(cp, rest);
    } else if cp <= 0x7FF {
      FrontTwo(cp, rest);
    } else if cp <= 0xFFFF {
      FrontThree(cp, rest);
    } else {
      FrontFour(cp, rest);
    }
  }

  lemma FrontOne(cp: nat, rest: Bytes)
    requires cp <= 0x7F
    ensures FrontLength(Encode(cp) + rest) == |Encode(cp)| == 1
  {
    assert (Encode(cp) + rest)[0] == cp;
  }

  lemma FrontTwo(cp: nat, rest: Bytes)
    requires 0x80 <= cp <= 0x7FF
    ensures FrontLength(Encode(cp) + rest) == |Encode(cp)| == 2
  {
    var s := Encode(cp) + rest;
    assert s[0] == 0xC0 + cp / 0x40 && s[1] == 0x80 + cp % 0x40;
  }

  lemma FrontThree(cp: nat, rest: Bytes)
    requires 0x800 <= cp <= 0xFFFF && IsScalar(cp)
    ensures FrontLength(Encode(cp) + rest) == |Encode(cp)| == 3
  {
    var s := Encode(cp) + rest;
    var a, b := cp / 0x1000, cp / 0x40 % 0x40;
    assert 0x1000 * a + 0x40 * b <= cp < 0x1000 * a + 0x40 * b + 0x40;
    assert s[0] == 0xE0 + a && s[1] == 0x80 + b && s[2] == 0x80 + cp % 0x40;
    assert ThreeByteHead(0xE0 + a, 0x80 + b);
  }

  lemma FrontFour(cp: nat, rest: Bytes)
    requires 0x1_0000 <= cp <= 0x10FFFF
    ensures FrontLength(Encode(cp) + rest) == |Encode(cp)| == 4
  {
    var s := Encode(cp) + rest;
    var a, b := cp / 0x4_0000, cp / 0x1000 % 0x40;
    assert 0x4_0000 * a + 0x1000 * b <= cp < 0x4_0000 * a + 0x1000 * b + 0x1000;
    assert s[0] == 0xF0 + a && s[1] == 0x80 + b && s[2] == 0x80 + cp / 0x40 % 0x40 && s[3] == 0x80 + cp % 0x40;
    assert FourByteHead(0xF0 + a, 0x80 + b);
  }

  lemma EncodeThenWellFormed(cp: nat, rest: Bytes)
    requires IsScalar(cp) && WellFormed(rest)
    ensures WellFormed(Encode(cp) + rest)
  {
    EncodeIsFront(cp, rest);
    assert (Encode(cp) + rest)[|Encode(cp)|..] == rest;
  }

  /** What a byte holds besides its mark. */
  function Behind(b: Byte, mark: int): int {
    b as int - mark
  }

  /** The number in one to four bytes without their marks. */
  function MarkedBits(b: Bytes): int
    requires 1 <= |b| <= 4
  {
    if |b| == 1 then b[0]
    else if |b| == 2 then Behind(b[0], 0xC0) * 0x40 + Behind(b[1], 0x80)
    else if |b| == 3 then Behind(b[0], 0xE0) * 0x1000 + Behind(b[1], 0x80) * 0x40 + Behind(b[2], 0x80)
    else Behind(b[0], 0xF0) * 0x4_0000 + Behind(b[1], 0x80) * 0x1000 + Behind(b[2], 0x80) * 0x40 + Behind(b[3], 0x80)
  }

  lemma MarksThree(cp: nat)
    requires 0x800 <= cp <= 0xFFFF
    ensures |Encode(cp)| == 3 && MarkedBits(Encode(cp)) == cp
  {
    var a, b, c := cp / 0x1000, cp / 0x40 % 0x40, cp % 0x40;
    assert cp / 0x40 == a * 0x40 + b && cp == cp / 0x40 * 0x40 + c;
  }

  lemma MarksFour(cp: nat)
    requires 0x1_0000 <= cp <= 0x10FFFF
    ensures |Encode(cp)| == 4 && MarkedBits(Encode(cp)) == cp
  {
    FourDigits(cp);
  }

  lemma FourDigits(cp: nat)
    ensures cp == cp / 0x4_0000 * 0x4_0000 + cp / 0x1000 % 0x40 * 0x1000 + cp / 0x40 % 0x40 * 0x40 + cp % 0x40
  {
    var x, y := cp / 0x40, cp / 0x1000;
    assert x / 0x40 == y && y / 0x40 == cp / 0x4_0000;
    assert cp == x * 0x40 + cp % 0x40;
    assert x == y * 0x40 + x % 0x40 && y == cp / 0x4_0000 * 0x40 + y % 0x40;
  }

  /** A code point, surrogates included, is encoded with as few bytes as can hold it, and the
      bytes without their marks hold it. */
  lemma EncodeMarks(cp: nat)
    requires cp <= 0x10FFFF
    ensures |Encode(cp)| == if cp < 0x80 then 1 else if cp < 0x800 then 2 else if cp < 0x1_0000 then 3 else 4
    ensures MarkedBits(Encode(cp)) == cp
  {
    if 0x800 <= cp < 0x1_0000 {
      MarksThree(cp);
    } else if 0x1_0000 <= cp {
      MarksFour(cp);
    }
  }
}
