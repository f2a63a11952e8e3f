/** The word macros of src/common/sha256.cpp, as shifts and ors, and that they are the
    functions of FIPS 180-4. */
module Sha256Words {
  import opened Bits
  import opened Bytes
  import opened ByteOrder
  import opened Fips180

  function ShiftRight(x: Word, n: nat): (r: Word) {
    QuotientAtMost(x, Pow2(n));
    x / Pow2(n)
  }

  /** A left shift loses the bits it moves out of the word. */
  function ShiftLeft(x: Word, n: nat): (r: Word) {
    Times(x, Pow2(n)) % TWO32
  }

  /** `SHA2_ROTR`: the two parts of the word, each shifted to the other's place, or-ed. */
  function Rotate(x: Word, n: nat): (r: Word)
    requires n <= 32
    ensures r == RotR(x, n)
  {
    RotatedParts(x, n);
    BitOr(ShiftRight(x, n), ShiftLeft(x, 32 - n))
  }

  function F1(x: Word): Word { Xor(Xor(Rotate(x, 2), Rotate(x, 13)), Rotate(x, 22)) }
  function F2(x: Word): Word { Xor(Xor(Rotate(x, 6), Rotate(x, 11)), Rotate(x, 25)) }
  function F3(x: Word): Word { Xor(Xor(Rotate(x, 7), Rotate(x, 18)), ShiftRight(x, 3)) }
  function F4(x: Word): Word { Xor(Xor(Rotate(x, 17), Rotate(x, 19)), ShiftRight(x, 10)) }

  /** `SHA2_PACK32`: four bytes shifted into place and or-ed. */
  function Pack32(b0: Byte, b1: Byte, b2: Byte, b3: Byte): (r: Word)
    ensures r == Pack(b0, b1, b2, b3)
  {
    PackedBytes(b0, b1, b2, b3);
    BitOr(BitOr(BitOr(b3, Times(b2, Pow2(8))), Times(b1, Pow2(16))), Times(b0, Pow2(24)))
  }

  /** `SHA2_UNPACK32`: each byte is the word shifted and truncated. */
  function Unpack32(x: Word): (b: Bytes)
    ensures b == BigEndian(x, 4)
  {
    UnpackedBytes(x);
    [ShiftRight(x, 24) % 256, ShiftRight(x, 16) % 256, ShiftRight(x, 8) % 256, x % 256]
  }

  // ----- the functions of the standard

  lemma F1IsBigSigma0(x: Word)
    ensures F1(x) == BigSigma0(x)
  {
    hide RotR, Xor;
  }

  lemma F2IsBigSigma1(x: Word)
    ensures F2(x) == BigSigma1(x)
  {
    hide RotR, Xor;
  }

  lemma F3IsSmallSigma0(x: Word)
    ensures F3(x) == SmallSigma0(x)
  {
    hide RotR, Xor, ShR, ShiftRight;
    ShiftIsShR(x, 3);
  }

  lemma F4IsSmallSigma1(x: Word)
    ensures F4(x) == SmallSigma1(x)
  {
    hide RotR, Xor, ShR, ShiftRight;
    ShiftIsShR(x, 10);
  }

  lemma NextWordIsMix(w2: Word, w7: Word, w15: Word, w16: Word)
    ensures Add(Add(Add(F4(w2), w7), F3(w15)), w16) == Mix(w2, w7, w15, w16)
  {
    hide F3, F4, SmallSigma0, SmallSigma1, Add;
    F4IsSmallSigma1(w2);
    F3IsSmallSigma0(w15);
  }

  lemma SumsAreTs(a: Word, b: Word, c: Word, e: Word, f: Word, g: Word, h: Word, k: Word, w: Word)
    ensures Add(Add(Add(Add(h, F2(e)), Ch(e, f, g)), k), w) == T1(e, f, g, h, k, w)
    ensures Add(F1(a), Maj(a, b, c)) == T2(a, b, c)
  {
    hide F1, F2, BigSigma0, BigSigma1, Add, Ch, Maj;
    F2IsBigSigma1(e);
    F1IsBigSigma0(a);
  }

  // ----- shifts and rotations

  lemma QuotientAtMost(x: nat, d: nat)
    requires d > 0
    ensures 0 <= x / d <= x
  {
    DivBounds(x, d);
    MulMonotone(1, d, x / d);
  }

  lemma DivideUnique(x: nat, d: nat, q: nat, r: nat)
    requires d > 0 && r < d && x == q * d + r
    ensures x / d == q && x % d == r
  {
    DivBounds(x, d);
    if x / d > q {
      MulMonotone(q + 1, x / d, d);
    } else if x / d < q {
      MulMonotone(x / d + 1, q, d);
    }
  }

  lemma Halved(x: nat, d: nat)
    requires d > 0
    ensures x / d / 2 == x / (2 * d)
    ensures x % (2 * d) == x % d + x / d % 2 * d
  {
    var q, r := x / d, x % d;
    DivBounds(x, d);
    var h, b := q / 2, q % 2;
    assert q * d == h * (2 * d) + b * d;
    DivideUnique(x, 2 * d, h, b * d + r);
  }

  /** Shifting bit by bit divides by a power of two. */
  lemma {:induction false} ShiftIsShR(x: Word, n: nat)
    ensures ShiftRight(x, n) == ShR(x, n)
  {
    if n > 0 {
      ShiftIsShR(x, n - 1);
      Halved(x, Pow2(n - 1));
    }
  }

  /** Rotating bit by bit exchanges the upper and the lower part of the word. */
  lemma {:induction false} RotRIsExchange(x: Word, n: nat)
    requires n <= 32
    ensures RotR(x, n) == x / Pow2(n) + Times(x % Pow2(n), Pow2(32 - n))
  {
    if n > 0 {
      RotRIsExchange(x, n - 1);
      TopBit(n);
      hide Times;
      OneBit(x, RotR(x, n - 1), Pow2(n - 1), Pow2(32 - n));
    }
  }

  lemma TopBit(n: nat)
    requires 0 < n <= 32
    ensures Pow2(n - 1) * Pow2(32 - n) == 0x8000_0000
  {
    WordWidth();
    Pow2Add(n - 1, 32 - n);
    assert Pow2(32) == 2 * Pow2(31);
  }

  /** One bit of rotation, on the two parts. */
  lemma OneBit(x: nat, y: nat, d: nat, e: nat)
    requires d > 0 && d * e == 0x8000_0000
    requires y == x / d + Times(x % d, 2 * e)
    ensures y / 2 + y % 2 * 0x8000_0000 == x / (2 * d) + Times(x % (2 * d), e)
  {
    Halved(x, d);
    var q, r := x / d, x % d;
    TwiceThat(r, e);
    AddBit(r, q % 2, d, e);
  }

  lemma TwiceThat(r: nat, e: nat)
    ensures Times(r, 2 * e) == 2 * Times(r, e)
  {
  }

  lemma AddBit(r: nat, bit: nat, d: nat, e: nat)
    requires bit < 2
    ensures Times(r + bit * d, e) == Times(r, e) + bit * (d * e)
  {
  }

  /** The parts are small enough not to overlap. */
  lemma Parts(x: Word, n: nat)
    requires n <= 32
    ensures x / Pow2(n) < Pow2(32 - n)
    ensures ShiftLeft(x, 32 - n) == Times(x % Pow2(n), Pow2(32 - n))
  {
    WordWidth();
    Pow2Add(32 - n, n);
    hide Pow2, Times;
    KeptPart(x, Pow2(n), Pow2(32 - n));
  }

  lemma KeptPart(x: Word, c: nat, p: nat)
    requires c > 0 && p > 0 && p * c == TWO32
    ensures x / c < p && Times(x, p) % TWO32 == Times(x % c, p)
  {
    DivBounds(x, c);
    SplitProduct(x, x / c, x % c, p, c, TWO32);
    var bottom := Times(x % c, p);
    assert bottom == x % c * p;
    hide Times;
    DivideUnique(Times(x, p), TWO32, x / c, bottom);
  }

  lemma RotatedParts(x: Word, n: nat)
    requires n <= 32
    ensures BitOr(ShiftRight(x, n), ShiftLeft(x, 32 - n)) == RotR(x, n)
  {
    hide Pow2, RotR, ShiftLeft, BitOr;
    var low, high := x / Pow2(n), x % Pow2(n);
    RotRIsExchange(x, n);
    Parts(x, n);
    BitOrDisjoint(high, low, 32 - n);
    BitOrSwap(high * Pow2(32 - n), low);
  }

  // ----- bytes

  lemma PackedBytes(b0: Byte, b1: Byte, b2: Byte, b3: Byte)
    ensures BitOr(BitOr(BitOr(b3, Times(b2, Pow2(8))), Times(b1, Pow2(16))), Times(b0, Pow2(24)))
         == Pack(b0, b1, b2, b3)
  {
    assert Pow2(8) == 0x100 && Pow2(16) == 0x1_0000 && Pow2(24) == 0x100_0000;
    hide Pow2, BitOr, Times;
    OrAbove(b3, b2, 8);
    OrAbove(b3 + b2 * 0x100, b1, 16);
    OrAbove(b3 + b2 * 0x100 + b1 * 0x1_0000, b0, 24);
  }

  lemma OrAbove(low: nat, high: nat, k: nat)
    requires low < Pow2(k)
    ensures BitOr(low, Times(high, Pow2(k))) == low + high * Pow2(k)
  {
    BitOrDisjoint(high, low, k);
    BitOrSwap(high * Pow2(k), low);
  }

  lemma UnpackedBytes(x: Word)
    ensures [ShiftRight(x, 24) % 256, ShiftRight(x, 16) % 256, ShiftRight(x, 8) % 256, x % 256] == BigEndian(x, 4)
  {
    assert Pow2(8) == 0x100 && Pow2(16) == 0x1_0000 && Pow2(24) == 0x100_0000;
    hide Pow2;
    assert x / 0x100 / 0x100 == x / 0x1_0000 && x / 0x1_0000 / 0x100 == x / 0x100_0000;
    BytesOf(x);
  }

  lemma BytesOf(x: nat)
    ensures BigEndian(x, 4) == [x / 0x100 / 0x100 / 0x100 % 256, x / 0x100 / 0x100 % 256, x / 0x100 % 256, x % 256]
  {
    assert BigEndian(x / 0x100 / 0x100, 2) == [x / 0x100 / 0x100 / 0x100 % 256, x / 0x100 / 0x100 % 256];
  }
}
