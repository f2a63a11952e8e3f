/** The byte order of numbers on the wire, and the host's conversions to and from it
    (src/network/packet.cpp:15-24). The host is little-endian. */
module ByteOrder {
  import opened Bytes
  import opened Sequences

  function Power(w: nat): (p: nat)
    ensures p > 0
  {
    if w == 0 then 1 else 256 * Power(w - 1)
  }

  function BigEndian(n: nat, w: nat): (b: Bytes)
    ensures |b| == w
  {
    if w == 0 then [] else BigEndian(n / 256, w - 1) + [n % 256]
  }

  function LittleEndian(n: nat, w: nat): (b: Bytes)
    ensures |b| == w
  {
    if w == 0 then [] else [n % 256] + LittleEndian(n / 256, w - 1)
  }

  function FromBig(b: Bytes): nat {
    if b == [] then 0 else FromBig(b[..|b| - 1]) * 256 + b[|b| - 1]
  }

  function FromLittle(b: Bytes): nat {
    if b == [] then 0 else b[0] + 256 * FromLittle(b[1..])
  }

  lemma {:induction false} BigRoundTrip(n: nat, w: nat)
    requires n < Power(w)
    ensures FromBig(BigEndian(n, w)) == n
  {
    if w > 0 {
      BigRoundTrip(n / 256, w - 1);
      var front := BigEndian(n / 256, w - 1);
      assert (front + [n % 256])[..w - 1] == front;
    }
  }

  lemma {:induction false} LittleRoundTrip(n: nat, w: nat)
    requires n < Power(w)
    ensures FromLittle(LittleEndian(n, w)) == n
  {
    if w > 0 {
      LittleRoundTrip(n / 256, w - 1);
      var rest := LittleEndian(n / 256, w - 1);
      assert ([n % 256] + rest)[1..] == rest;
    }
  }

  lemma {:induction false} BytesRoundTrip(b: Bytes)
    ensures LittleEndian(FromLittle(b), |b|) == b
  {
    if b != [] {
      BytesRoundTrip(b[1..]);
      assert [b[0]] + b[1..] == b;
    }
  }

  lemma {:induction false} FromLittleBound(b: Bytes)
    ensures FromLittle(b) < Power(|b|)
  {
    if b != [] {
      FromLittleBound(b[1..]);
    }
  }

  /** The two orders are each other's reversal. */
  lemma {:induction false} BigIsReversed(n: nat, w: nat)
    ensures BigEndian(n, w) == Reversed(LittleEndian(n, w))
  {
    if w > 0 {
      BigIsReversed(n / 256, w - 1);
      var rest := LittleEndian(n / 256, w - 1);
      assert ([n % 256] + rest)[1..] == rest;
    }
  }

  lemma {:induction false} FromBigIsReversed(b: Bytes)
    ensures FromBig(b) == FromLittle(Reversed(b))
  {
    if b != [] {
      var front, last := b[..|b| - 1], b[|b| - 1];
      FromBigIsReversed(front);
      assert front + [last] == b;
      ReversedSnoc(front, last);
      assert ([last] + Reversed(front))[1..] == Reversed(front);
    }
  }

  /** `htons`, `htonl` and back: the number whose host representation is the reversed one. */
  function Swap(n: nat, w: nat): nat {
    FromLittle(Reversed(LittleEndian(n, w)))
  }

  /** `htonll` and `ntohll`, from two 32-bit halves. */
  function Swap64(x: nat): nat
    requires x < Power(8)
  {
    Swap(x % 0x1_0000_0000, 4) * 0x1_0000_0000 + Swap(x / 0x1_0000_0000, 4)
  }

  /** What is put in memory after a conversion is the number in network order. */
  lemma SwapIsBig(n: nat, w: nat)
    ensures LittleEndian(Swap(n, w), w) == BigEndian(n, w)
  {
    BytesRoundTrip(Reversed(LittleEndian(n, w)));
    BigIsReversed(n, w);
  }

  /** And converting what was put there gives the number in network order. */
  lemma SwapReads(b: Bytes)
    ensures Swap(FromLittle(b), |b|) == FromBig(b)
  {
    BytesRoundTrip(b);
    FromBigIsReversed(b);
  }

  /** A number made of `low` and, above its `v` bytes, `high`. */
  function Wide(low: nat, v: nat, high: nat): nat {
    low + Power(v) * high
  }

  lemma WideStep(low: nat, v: nat, high: nat)
    requires v > 0
    ensures Wide(low, v, high) % 256 == low % 256
    ensures Wide(low, v, high) / 256 == Wide(low / 256, v - 1, high)
  {
    var t := Power(v - 1) * high;
    assert Power(v) * high == 256 * t;
  }

  lemma {:induction false} LittleSplit(low: nat, v: nat, high: nat, w: nat)
    requires low < Power(v)
    ensures LittleEndian(Wide(low, v, high), v + w) == LittleEndian(low, v) + LittleEndian(high, w)
  {
    if v > 0 {
      WideStep(low, v, high);
      LittleSplit(low / 256, v - 1, high, w);
      hide Wide;
      assert [low % 256] + (LittleEndian(low / 256, v - 1) + LittleEndian(high, w))
          == ([low % 256] + LittleEndian(low / 256, v - 1)) + LittleEndian(high, w);
    } else {
      assert [] + LittleEndian(high, w) == LittleEndian(high, w);
    }
  }

  lemma {:induction false} FromLittleConcat(a: Bytes, b: Bytes)
    ensures FromLittle(a + b) == FromLittle(a) + Power(|a|) * FromLittle(b)
  {
    if a == [] {
      assert [] + b == b;
    } else {
      assert (a + b)[1..] == a[1..] + b;
      FromLittleConcat(a[1..], b);
      Distribute(FromLittle(a[1..]), Power(|a| - 1), FromLittle(b));
    }
  }

  lemma Distribute(x: nat, p: nat, y: nat)
    ensures 256 * (x + p * y) == 256 * x + 256 * p * y
  {
  }

  lemma PowerFour()
    ensures Power(4) == 0x1_0000_0000
  {
    assert Power(1) == 256 && Power(2) == 65536;
    assert Power(3) == 16777216;
  }

  /** The 64-bit conversion made of two 32-bit ones is the reversal of all eight bytes. */
  lemma Swap64IsSwap(x: nat)
    requires x < Power(8)
    ensures Swap64(x) == Swap(x, 8)
  {
    hide Reversed, LittleEndian, FromLittle;
    PowerFour();
    var lowHalf, highHalf := x % 0x1_0000_0000, x / 0x1_0000_0000;
    LittleSplit(lowHalf, 4, highHalf, 4);
    var low, high := LittleEndian(lowHalf, 4), LittleEndian(highHalf, 4);
    ReversedConcat(low, high);
    FromLittleConcat(Reversed(high), Reversed(low));
  }
}
