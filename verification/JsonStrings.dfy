/** The string codec of src/common/json.cpp: `valueToQuotedStringN` and what it calls on the
    writing side; `ReadString`, `DecodeString` and the `\u` decoders on the reading side.
    Functions take the text from the current position to the end. */
module JsonStrings {
  import opened Bytes
  import Utf8

  const QUOTE: Byte := 0x22
  const BACKSLASH: Byte := 0x5C
  const SLASH: Byte := 0x2F
  const LETTER_U: Byte := 0x75
  const REPLACEMENT: nat := 0xFFFD

  // ----- writing

  predicate NeedsEscape(c: Byte) {
    c == BACKSLASH || c == QUOTE || c < 0x20 || c > 0x7F
  }

  function HexDigit(n: nat): Byte
    requires n < 16
  {
    if n < 10 then 0x30 + n else 0x61 + n - 10
  }

  /** `ToHex16Bit`: four lower-case digits. */
  function Hex4(x: nat): (h: Bytes)
    requires x < 0x1_0000
    ensures |h| == 4
  {
    [HexDigit(x / 0x1000), HexDigit(x / 0x100 % 0x10), HexDigit(x / 0x10 % 0x10), HexDigit(x % 0x10)]
  }

  function UnicodeEscape(x: nat): (e: Bytes)
    requires x < 0x1_0000
    ensures |e| == 6
  {
    [BACKSLASH, LETTER_U] + Hex4(x)
  }

  /** `Utf8ToCodepoint`: the code point read at the front of `s` and the bytes it takes. The
      continuation bytes are not checked, and a truncated character takes one byte. */
  function Utf8ToCodepoint(s: Bytes): (r: (nat, nat))
    requires s != []
    ensures 1 <= r.1 <= |s| && r.0 < 0x20_0000
  {
    var b := s[0];
    if b < 0x80 then (b, 1)
    else if b < 0xE0 then
      if |s| < 2 then (REPLACEMENT, 1)
      else
        var cp := b % 0x20 * 0x40 + s[1] % 0x40;
        (if cp < 0x80 then REPLACEMENT else cp, 2)
    else if b < 0xF0 then
      if |s| < 3 then (REPLACEMENT, 1)
      else
        var cp := b % 0x10 * 0x1000 + s[1] % 0x40 * 0x40 + s[2] % 0x40;
        (if 0xD800 <= cp <= 0xDFFF || cp < 0x800 then REPLACEMENT else cp, 3)
    else if b < 0xF8 then
      if |s| < 4 then (REPLACEMENT, 1)
      else
        var cp := b % 8 * 0x4_0000 + s[1] % 0x40 * 0x1000 + s[2] % 0x40 * 0x40 + s[3] % 0x40;
        (if cp < 0x1_0000 then REPLACEMENT else cp, 4)
    else (REPLACEMENT, 1)
  }

  /** The letter of a two-character escape, or 0. */
  function ShortEscape(c: Byte): Byte {
    if c == QUOTE || c == BACKSLASH then c
    else if c == 0x08 then 0x62
    else if c == 0x0C then 0x66
    else if c == 0x0A then 0x6E
    else if c == 0x0D then 0x72
    else if c == 0x09 then 0x74
    else 0
  }

  /** What is written for a code point without a short escape. */
  function CodepointText(cp: nat): Bytes
    requires cp < 0x20_0000
  {
    if cp < 0x20 then UnicodeEscape(cp)
    else if cp < 0x80 then [cp]
    else if cp < 0x1_0000 then UnicodeEscape(cp)
    else
      var x := cp - 0x1_0000;
      UnicodeEscape(0xD800 + x / 0x400 % 0x400) + UnicodeEscape(0xDC00 + x % 0x400)
  }

  /** The text written for the character at the front of `s`, and the bytes it takes. */
  function EscapeFront(s: Bytes): (r: (Bytes, nat))
    requires s != []
    ensures 1 <= r.1 <= |s|
  {
    if ShortEscape(s[0]) != 0 then ([BACKSLASH, ShortEscape(s[0])], 1)
    else
      var (cp, used) := Utf8ToCodepoint(s);
      (CodepointText(cp), used)
  }

  function EscapedText(s: Bytes): Bytes {
    if s == [] then []
    else
      var (text, used) := EscapeFront(s);
      text + EscapedText(s[used..])
  }

  function Quoted(s: Bytes): Bytes {
    if forall i :: 0 <= i < |s| ==> !NeedsEscape(s[i]) then [QUOTE] + s + [QUOTE]
    else [QUOTE] + EscapedText(s) + [QUOTE]
  }

  // ----- reading

  /** `ReadString`: whether a closing quote was found, and how much of `s` was consumed. */
  function ScanString(s: Bytes): (r: (bool, nat))
    ensures r.1 <= |s| && (!r.0 ==> r.1 == |s|)
    ensures r.0 ==> 0 < r.1 && s[r.1 - 1] == QUOTE
  {
    if s == [] then (false, 0)
    else if s[0] == BACKSLASH then
      if |s| == 1 then (false, 1)
      else var (found, n) := ScanString(s[2..]); (found, n + 2)
    else if s[0] == QUOTE then (true, 1)
    else var (found, n) := ScanString(s[1..]); (found, n + 1)
  }

  datatype Decoded = Text(text: Bytes) | Bad(message: string)

  function Prepend(x: Bytes, d: Decoded): Decoded {
    if d.Text? then Text(x + d.text) else d
  }

  function HexValue(c: Byte): int {
    if 0x30 <= c <= 0x39 then c - 0x30
    else if 0x61 <= c <= 0x66 then c - 0x61 + 10
    else if 0x41 <= c <= 0x46 then c - 0x41 + 10
    else -1
  }

  datatype CodeUnit = Unit(value: nat) | BadUnit(message: string)

  const FOUR_DIGITS := "Bad unicode escape sequence in string: four digits expected."
  const HEX_DIGIT := "Bad unicode escape sequence in string: hexadecimal digit expected."
  const SIX_MORE := "additional six characters expected to parse unicode surrogate pair."
  const SECOND_HALF := "expecting another \\u token to begin the second half of a unicode surrogate pair"
  const EMPTY_ESCAPE := "Empty escape sequence in string"
  const BAD_ESCAPE := "Bad escape sequence in string"

  /** `DecodeUnicodeEscapeSequence`. */
  function DecodeUnit(s: Bytes): (u: CodeUnit)
    ensures u.Unit? ==> |s| >= 4 && u.value < 0x1_0000
  {
    if |s| < 4 then BadUnit(FOUR_DIGITS)
    else
      var a, b, c, d := HexValue(s[0]), HexValue(s[1]), HexValue(s[2]), HexValue(s[3]);
      if a < 0 || b < 0 || c < 0 || d < 0 then BadUnit(HEX_DIGIT)
      else Unit(((a * 16 + b) * 16 + c) * 16 + d)
  }

  datatype CodePoint = Point(value: nat, used: nat) | BadPoint(message: string)

  /** `DecodeUnicodeCodePoint`: a high surrogate takes the next escape with it, whatever that
      escape's value. */
  function DecodePoint(s: Bytes): (p: CodePoint)
    ensures p.Point? ==> p.used <= |s| && p.value <= 0x10FFFF
  {
    var high := DecodeUnit(s);
    if high.BadUnit? then BadPoint(high.message)
    else if 0xD800 <= high.value <= 0xDBFF then
      if |s| < 10 then BadPoint(SIX_MORE)
      else if s[4] == BACKSLASH && s[5] == LETTER_U then
        var low := DecodeUnit(s[6..]);
        if low.BadUnit? then BadPoint(low.message)
        else Point(0x1_0000 + high.value % 0x400 * 0x400 + low.value % 0x400, 10)
      else BadPoint(SECOND_HALF)
    else Point(high.value, 4)
  }

  /** The byte a two-character escape stands for, or -1. */
  function Unescaped(letter: Byte): (r: int)
    ensures r < 256
  {
    if letter == QUOTE || letter == SLASH || letter == BACKSLASH then letter
    else if letter == 0x62 then 0x08
    else if letter == 0x66 then 0x0C
    else if letter == 0x6E then 0x0A
    else if letter == 0x72 then 0x0D
    else if letter == 0x74 then 0x09
    else -1
  }

  /** `DecodeString` on the characters between the quotes. */
  function DecodeText(s: Bytes): Decoded {
    if s == [] || s[0] == QUOTE then Text([])
    else if s[0] != BACKSLASH then Prepend([s[0]], DecodeText(s[1..]))
    else if |s| == 1 then Bad(EMPTY_ESCAPE)
    else if s[1] == LETTER_U then
      var p := DecodePoint(s[2..]);
      if p.BadPoint? then Bad(p.message)
      else Prepend(Utf8.Encode(p.value), DecodeText(s[2 + p.used..]))
    else if Unescaped(s[1]) < 0 then Bad(BAD_ESCAPE)
    else Prepend([Unescaped(s[1])], DecodeText(s[2..]))
  }

  // ----- one character

  lemma HexDigitValue(n: nat)
    requires n < 16
    ensures HexValue(HexDigit(n)) == n && HexDigit(n) != QUOTE && HexDigit(n) != BACKSLASH
  {
  }

  lemma HexDigitsCombine(x: nat)
    requires x < 0x1_0000
    ensures ((x / 0x1000 * 16 + x / 0x100 % 0x10) * 16 + x / 0x10 % 0x10) * 16 + x % 0x10 == x
  {
    HexDigitSplits(x, 1);
    HexDigitSplits(x, 0x10);
    HexDigitSplits(x, 0x100);
  }

  lemma HexDigitSplits(x: nat, place: nat)
    requires place in {1, 0x10, 0x100}
    ensures x / place == x / (0x10 * place) * 16 + x / place % 0x10
  {
  }

  lemma HexRoundTrip(x: nat, rest: Bytes)
    requires x < 0x1_0000
    ensures DecodeUnit(Hex4(x) + rest) == Unit(x)
  {
    hide HexValue, HexDigit;
    var s := Hex4(x) + rest;
    HexDigitsCombine(x);
    HexDigitValue(x / 0x1000);
    HexDigitValue(x / 0x100 % 0x10);
    HexDigitValue(x / 0x10 % 0x10);
    HexDigitValue(x % 0x10);
    assert s[0] == HexDigit(x / 0x1000) && s[1] == HexDigit(x / 0x100 % 0x10);
    assert s[2] == HexDigit(x / 0x10 % 0x10) && s[3] == HexDigit(x % 0x10);
  }

  /** Scanning passes over an escape without seeing its characters. */
  lemma ScanUnicodeEscape(x: nat, rest: Bytes)
    requires x < 0x1_0000
    ensures ScanString(UnicodeEscape(x) + rest) == (ScanString(rest).0, 6 + ScanString(rest).1)
  {
    hide ScanString, Hex4;
    var s := UnicodeEscape(x) + rest;
    ScanPair(s);
    assert s[2..] == Hex4(x) + rest;
    HexIsPlain(x);
    ScanPlainRun(Hex4(x), rest);
  }

  predicate Plain(c: Byte) {
    c != QUOTE && c != BACKSLASH
  }

  lemma HexIsPlain(x: nat)
    requires x < 0x1_0000
    ensures forall i :: 0 <= i < 4 ==> Plain(Hex4(x)[i])
  {
    hide HexDigit;
    HexDigitValue(x / 0x1000);
    HexDigitValue(x / 0x100 % 0x10);
    HexDigitValue(x / 0x10 % 0x10);
    HexDigitValue(x % 0x10);
  }

  lemma {:induction false} ScanPlainRun(p: Bytes, rest: Bytes)
    requires forall i :: 0 <= i < |p| ==> Plain(p[i])
    ensures ScanString(p + rest) == (ScanString(rest).0, |p| + ScanString(rest).1)
  {
    hide ScanString;
    if p == [] {
      assert p + rest == rest;
    } else {
      assert Plain(p[0]);
      ScanPlain(p + rest);
      assert (p + rest)[1..] == p[1..] + rest;
      ScanPlainRun(p[1..], rest);
    }
  }

  lemma ScanPair(s: Bytes)
    requires |s| >= 2 && s[0] == BACKSLASH
    ensures ScanString(s) == (ScanString(s[2..]).0, 2 + ScanString(s[2..]).1)
  {
  }

  lemma ScanQuote(rest: Bytes)
    ensures ScanString([QUOTE] + rest) == (true, 1)
  {
  }

  lemma ScanPlain(s: Bytes)
    requires |s| >= 1 && s[0] != BACKSLASH && s[0] != QUOTE
    ensures ScanString(s) == (ScanString(s[1..]).0, 1 + ScanString(s[1..]).1)
  {
  }

  /** The scalar value the reader recovers from what is written for `cp`. */
  function Folded(cp: nat): (r: nat)
    requires cp < 0x20_0000
    ensures r <= 0x10FFFF && (cp <= 0x10FFFF ==> r == cp)
  {
    if cp < 0x1_0000 then cp else 0x1_0000 + (cp - 0x1_0000) % 0x10_0000
  }

  /** A written code point is scanned as a whole and decoded to its UTF-8 form. */
  lemma PointRoundTrip(cp: nat, rest: Bytes)
    requires cp < 0x20_0000 && !(0xD800 <= cp <= 0xDFFF) && cp != QUOTE && cp != BACKSLASH
    ensures ScanString(CodepointText(cp) + rest) == (ScanString(rest).0, |CodepointText(cp)| + ScanString(rest).1)
    ensures DecodeText(CodepointText(cp) + rest) == Prepend(Utf8.Encode(Folded(cp)), DecodeText(rest))
  {
    hide ScanString, DecodeText, UnicodeEscape, Utf8.Encode, Prepend;
    if 0x20 <= cp < 0x80 {
      RawRoundTrip(cp, rest);
    } else if cp < 0x1_0000 {
      ScanUnicodeEscape(cp, rest);
      DecodeUnicodeEscape(cp, rest);
    } else {
      PairRoundTrip(cp - 0x1_0000, rest);
    }
  }

  lemma RawRoundTrip(c: Byte, rest: Bytes)
    requires c < 0x80 && c != QUOTE && c != BACKSLASH
    ensures ScanString([c] + rest) == (ScanString(rest).0, 1 + ScanString(rest).1)
    ensures DecodeText([c] + rest) == Prepend(Utf8.Encode(c), DecodeText(rest))
  {
    assert ([c] + rest)[1..] == rest;
  }

  lemma DecodeUnicodeEscape(x: nat, rest: Bytes)
    requires x < 0x1_0000 && !(0xD800 <= x <= 0xDFFF)
    ensures DecodeText(UnicodeEscape(x) + rest) == Prepend(Utf8.Encode(x), DecodeText(rest))
  {
    hide Hex4, DecodeUnit;
    var s := UnicodeEscape(x) + rest;
    HexRoundTrip(x, rest);
    assert s[2..] == Hex4(x) + rest && s[6..] == rest;
  }

  lemma PairRoundTrip(x: nat, rest: Bytes)
    requires x < 0x1F_0000
    ensures var text := UnicodeEscape(0xD800 + x / 0x400 % 0x400) + UnicodeEscape(0xDC00 + x % 0x400);
            && ScanString(text + rest) == (ScanString(rest).0, |text| + ScanString(rest).1)
            && DecodeText(text + rest) == Prepend(Utf8.Encode(0x1_0000 + x % 0x10_0000), DecodeText(rest))
  {
    var high, low := 0xD800 + x / 0x400 % 0x400, 0xDC00 + x % 0x400;
    hide ScanString, DecodeText, UnicodeEscape;
    assert UnicodeEscape(high) + UnicodeEscape(low) + rest == UnicodeEscape(high) + (UnicodeEscape(low) + rest);
    ScanUnicodeEscape(high, UnicodeEscape(low) + rest);
    ScanUnicodeEscape(low, rest);
    DecodePair(high, low, rest);
    assert 0x1_0000 + high % 0x400 * 0x400 + low % 0x400 == 0x1_0000 + x % 0x10_0000 by { SplitBits(x); }
  }

  lemma SplitBits(x: nat)
    ensures (0xD800 + x / 0x400 % 0x400) % 0x400 * 0x400 + (0xDC00 + x % 0x400) % 0x400 == x % 0x10_0000
  {
    LowBits(x / 0x400 % 0x400);
    LowBits(x % 0x400);
    assert x / 0x400 % 0x400 * 0x400 + x % 0x400 == x % 0x10_0000;
  }

  lemma LowBits(a: nat)
    requires a < 0x400
    ensures (0xD800 + a) % 0x400 == a && (0xDC00 + a) % 0x400 == a
  {
  }

  lemma DecodePair(high: nat, low: nat, rest: Bytes)
    requires 0xD800 <= high <= 0xDBFF && low < 0x1_0000
    ensures DecodeText(UnicodeEscape(high) + (UnicodeEscape(low) + rest))
         == Prepend(Utf8.Encode(0x1_0000 + high % 0x400 * 0x400 + low % 0x400), DecodeText(rest))
  {
    hide Hex4, DecodeUnit, Utf8.Encode;
    var tail := UnicodeEscape(low) + rest;
    var s := UnicodeEscape(high) + tail;
    HexRoundTrip(high, tail);
    HexRoundTrip(low, rest);
    assert s[2..] == Hex4(high) + tail && s[2..][6..] == Hex4(low) + rest;
    assert s[2..][4] == BACKSLASH && s[2..][5] == LETTER_U;
    assert s[12..] == rest;
  }

  // ----- the character at the front of any bytes

  /** The scalar value that survives writing and reading back the front of `s`. */
  function FrontValue(s: Bytes): nat
    requires s != []
  {
    if ShortEscape(s[0]) != 0 then s[0] else Folded(Utf8ToCodepoint(s).0)
  }

  lemma FrontRoundTrip(s: Bytes, rest: Bytes)
    requires s != []
    ensures Utf8.IsScalar(FrontValue(s))
    ensures var (text, _) := EscapeFront(s);
            && ScanString(text + rest) == (ScanString(rest).0, |text| + ScanString(rest).1)
            && DecodeText(text + rest) == Prepend(Utf8.Encode(FrontValue(s)), DecodeText(rest))
  {
    hide ScanString, DecodeText, CodepointText, ShortEscape, Utf8.Encode;
    if ShortEscape(s[0]) != 0 {
      ShortScans(s[0], rest);
      ShortDecodes(s[0], rest);
    } else {
      CodepointNotSurrogate(s);
      PointRoundTrip(Utf8ToCodepoint(s).0, rest);
    }
  }

  lemma FrontScans(s: Bytes, rest: Bytes)
    requires s != []
    ensures ScanString(EscapeFront(s).0 + rest) == (ScanString(rest).0, |EscapeFront(s).0| + ScanString(rest).1)
  {
    hide ScanString, DecodeText, EscapeFront, FrontValue;
    FrontRoundTrip(s, rest);
  }

  lemma CodepointNotSurrogate(s: Bytes)
    requires s != [] && ShortEscape(s[0]) == 0
    ensures var cp := Utf8ToCodepoint(s).0;
            !(0xD800 <= cp <= 0xDFFF) && cp != QUOTE && cp != BACKSLASH && Utf8.IsScalar(Folded(cp))
  {
  }

  lemma ShortScans(c: Byte, rest: Bytes)
    requires ShortEscape(c) != 0
    ensures var text := [BACKSLASH, ShortEscape(c)];
            ScanString(text + rest) == (ScanString(rest).0, 2 + ScanString(rest).1)
  {
    hide ScanString;
    var s := [BACKSLASH, ShortEscape(c)] + rest;
    ScanPair(s);
    assert s[2..] == rest;
  }

  lemma ShortDecodes(c: Byte, rest: Bytes)
    requires ShortEscape(c) != 0
    ensures Utf8.IsScalar(c)
    ensures DecodeText([BACKSLASH, ShortEscape(c)] + rest) == Prepend(Utf8.Encode(c), DecodeText(rest))
  {
    var s := [BACKSLASH, ShortEscape(c)] + rest;
    assert Unescaped(ShortEscape(c)) == c && ShortEscape(c) != LETTER_U;
    assert Utf8.Encode(c) == [c];
    hide ShortEscape, Utf8.Encode, DecodePoint, Unescaped;
    assert s[0] == BACKSLASH && s[1] == ShortEscape(c) && s[2..] == rest;
  }

  /** A well-formed character is taken whole and survives. */
  lemma WellFormedFront(s: Bytes)
    requires Utf8.FrontLength(s) > 0
    ensures EscapeFront(s).1 == Utf8.FrontLength(s)
    ensures Utf8.Encode(FrontValue(s)) == s[..Utf8.FrontLength(s)]
  {
    if s[0] < 0x80 {
    } else if s[0] < 0xE0 {
      TwoBytes(s[0], s[1]);
    } else if s[0] < 0xF0 {
      ThreeBytes(s[0], s[1], s[2]);
    } else {
      FourBytes(s[0], s[1], s[2], s[3]);
    }
  }

  lemma TwoBytes(a: Byte, b: Byte)
    requires 0xC2 <= a <= 0xDF && Utf8.IsTail(b)
    ensures var cp := a % 0x20 * 0x40 + b % 0x40; 0x80 <= cp <= 0x7FF && Utf8.Encode(cp) == [a, b]
  {
  }

  lemma ThreeBytes(a: Byte, b: Byte, c: Byte)
    requires Utf8.ThreeByteHead(a, b) && Utf8.IsTail(c)
    ensures var cp := a % 0x10 * 0x1000 + b % 0x40 * 0x40 + c % 0x40;
            0x800 <= cp <= 0xFFFF && !(0xD800 <= cp <= 0xDFFF) && Utf8.Encode(cp) == [a, b, c]
  {
    hide Utf8.Encode;
    EncodeThree(a % 0x10, b % 0x40, c % 0x40);
  }

  lemma EncodeThree(x: nat, y: nat, z: nat)
    requires x < 0x10 && y < 0x40 && z < 0x40 && x * 0x40 + y >= 0x20
    ensures Utf8.Encode(x * 0x1000 + y * 0x40 + z) == [0xE0 + x, 0x80 + y, 0x80 + z]
  {
    LowDigits(x, y, z);
  }

  lemma LowDigits(x: nat, y: nat, z: nat)
    requires y < 0x40 && z < 0x40
    ensures var cp := x * 0x1000 + y * 0x40 + z;
            cp / 0x1000 == x && cp / 0x40 == x * 0x40 + y && cp / 0x40 % 0x40 == y && cp % 0x40 == z
  {
  }

  lemma FourBytes(a: Byte, b: Byte, c: Byte, d: Byte)
    requires Utf8.FourByteHead(a, b) && Utf8.IsTail(c) && Utf8.IsTail(d)
    ensures var cp := a % 8 * 0x4_0000 + b % 0x40 * 0x1000 + c % 0x40 * 0x40 + d % 0x40;
            0x1_0000 <= cp <= 0x10FFFF && Utf8.Encode(cp) == [a, b, c, d]
  {
    hide Utf8.Encode;
    EncodeFour(a % 8, b % 0x40, c % 0x40, d % 0x40);
  }

  lemma EncodeFour(w: nat, x: nat, y: nat, z: nat)
    requires w < 8 && x < 0x40 && y < 0x40 && z < 0x40
    requires var cp := w * 0x4_0000 + x * 0x1000 + y * 0x40 + z; 0x1_0000 <= cp <= 0x10FFFF
    ensures Utf8.Encode(w * 0x4_0000 + x * 0x1000 + y * 0x40 + z) == [0xF0 + w, 0x80 + x, 0x80 + y, 0x80 + z]
  {
    var cp := w * 0x4_0000 + x * 0x1000 + y * 0x40 + z;
    assert cp / 0x1000 == w * 0x40 + x && cp / 0x40 % 0x40 == y && cp % 0x40 == z by {
      LowDigits(w * 0x40 + x, y, z);
    }
    assert cp / 0x4_0000 == w && cp / 0x1000 % 0x40 == x by { HighDigits(w, x, y * 0x40 + z); }
  }

  lemma HighDigits(w: nat, x: nat, low: nat)
    requires x < 0x40 && low < 0x1000
    ensures (w * 0x4_0000 + x * 0x1000 + low) / 0x4_0000 == w
    ensures (w * 0x4_0000 + x * 0x1000 + low) / 0x1000 == w * 0x40 + x && (w * 0x40 + x) % 0x40 == x
  {
  }

  // ----- whole strings

  /** What the reader gets back from the quoted form of `s`. */
  function Repaired(s: Bytes): Bytes {
    if s == [] then [] else Utf8.Encode(FrontValue(s)) + Repaired(s[EscapeFront(s).1..])
  }

  lemma {:induction false} EscapedScans(s: Bytes, rest: Bytes)
    ensures ScanString(EscapedText(s) + rest) == (ScanString(rest).0, |EscapedText(s)| + ScanString(rest).1)
    decreases |s|
  {
    hide ScanString;
    if s == [] {
      assert EscapedText(s) + rest == rest;
    } else {
      hide EscapeFront;
      var (text, used) := EscapeFront(s);
      var tail := EscapedText(s[used..]);
      EscapedScans(s[used..], rest);
      FrontScans(s, tail + rest);
      assert text + (tail + rest) == EscapedText(s) + rest;
    }
  }

  lemma {:induction false} EscapedDecodes(s: Bytes)
    ensures DecodeText(EscapedText(s)) == Text(Repaired(s))
    decreases |s|
  {
    if s != [] {
      hide ScanString, DecodeText, EscapeFront, FrontValue, Utf8.Encode;
      var used := EscapeFront(s).1;
      EscapedDecodes(s[used..]);
      FrontRoundTrip(s, EscapedText(s[used..]));
    }
  }

  lemma {:induction false} RepairedIsWellFormed(s: Bytes)
    ensures Utf8.WellFormed(Repaired(s))
    decreases |s|
  {
    if s != [] {
      hide EscapeFront, Utf8.Encode, FrontValue, Utf8.FrontLength, ScanString, DecodeText;
      RepairedIsWellFormed(s[EscapeFront(s).1..]);
      FrontRoundTrip(s, []);
      Utf8.EncodeThenWellFormed(FrontValue(s), Repaired(s[EscapeFront(s).1..]));
    }
  }

  lemma FrontIsKept(s: Bytes)
    requires s != [] && Utf8.WellFormed(s)
    ensures var used := Utf8.FrontLength(s);
            && used > 0 && Utf8.WellFormed(s[used..]) && Repaired(s) == s[..used] + Repaired(s[used..])
  {
    hide EscapeFront, Utf8.Encode, FrontValue, Utf8.FrontLength;
    WellFormedFront(s);
  }

  lemma {:induction false} WellFormedIsKept(s: Bytes)
    requires Utf8.WellFormed(s)
    ensures Repaired(s) == s
    decreases |s|
  {
    if s != [] {
      hide Repaired, Utf8.WellFormed, Utf8.FrontLength;
      FrontIsKept(s);
      var used := Utf8.FrontLength(s);
      WellFormedIsKept(s[used..]);
      assert s == s[..used] + s[used..];
    }
  }

  /** Text that needs no escaping is what the escaping loop would write anyway. */
  lemma {:induction false} PlainIsEscaped(s: Bytes)
    requires forall i :: 0 <= i < |s| ==> !NeedsEscape(s[i])
    ensures EscapedText(s) == s
  {
    if s != [] {
      PlainFront(s);
      hide EscapeFront;
      PlainIsEscaped(s[1..]);
      assert s == [s[0]] + s[1..];
    }
  }

  lemma PlainFront(s: Bytes)
    requires s != [] && !NeedsEscape(s[0])
    ensures EscapeFront(s) == ([s[0]], 1)
  {
  }

  lemma QuotedIsEscaped(s: Bytes)
    ensures Quoted(s) == [QUOTE] + EscapedText(s) + [QUOTE]
  {
    if forall i :: 0 <= i < |s| ==> !NeedsEscape(s[i]) {
      PlainIsEscaped(s);
    }
  }

  /** For every byte string: scanning its quoted form from behind the opening quote stops
      exactly at the closing one, whatever follows; decoding what lies between succeeds and
      gives well-formed UTF-8; and well-formed input comes back unchanged. */
  lemma StringRoundTrip(s: Bytes, rest: Bytes)
    ensures |Quoted(s)| >= 2 && Quoted(s)[0] == QUOTE
    ensures ScanString(Quoted(s)[1..] + rest) == (true, |Quoted(s)| - 1)
    ensures var d := DecodeText(Quoted(s)[1..|Quoted(s)| - 1]);
            && d.Text? && Utf8.WellFormed(d.text)
            && (Utf8.WellFormed(s) ==> d.text == s)
  {
    hide ScanString, DecodeText, EscapedText, Repaired, Quoted;
    QuotedIsEscaped(s);
    EscapedScans(s, [QUOTE] + rest);
    ScanQuote(rest);
    EscapedDecodes(s);
    RepairedIsWellFormed(s);
    if Utf8.WellFormed(s) {
      WellFormedIsKept(s);
    }
    assert Quoted(s)[1..|Quoted(s)| - 1] == EscapedText(s);
    assert Quoted(s)[1..] + rest == EscapedText(s) + ([QUOTE] + rest);
  }
}
