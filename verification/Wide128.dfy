/** The portable 128-bit helpers of src/common/maths.cpp: leading-zero counts, the 64 by 64
    to 128 multiplication and the 128 by 64 division (Knuth's Algorithm D in base 2^32).
    Every machine operation is written out on naturals, with the wrap-around of the 64-bit
    type made explicit. */
module Wide128 {
  import opened Bits

  const TWO31: nat := 0x8000_0000
  const TWO32: nat := 0x1_0000_0000
  const TWO63: nat := 0x8000_0000_0000_0000
  const TWO64: nat := 0x1_0000_0000_0000_0000

  /** The value a `uint64_t` keeps of an integer. */
  function Wrap64(x: int): (r: nat)
    ensures r < TWO64
    ensures 0 <= x < TWO64 ==> r == x
  {
    x % TWO64
  }

  // ----- leading zeros

  /** Shifting `val` left by `cnt` moves its leading one to bit `width - 1`. */
  ghost predicate IsLeadingZeros(val: nat, cnt: nat, width: nat)
  {
    if val == 0 then cnt == width
    else cnt < width && Pow2(width - 1) <= Times(val, Pow2(cnt)) < Pow2(width)
  }

  lemma ShiftOnce(input: nat, cnt: nat, k: nat, f: nat)
    requires Pow2(k) == f
    ensures Times(input, Pow2(cnt + k)) == Times(input, Pow2(cnt)) * f
  {
    Pow2Add(cnt, k);
    hide Pow2;
    Regroup(input, Pow2(cnt), f);
  }

  lemma Regroup(x: nat, y: nat, z: nat)
    ensures x * (y * z) == x * y * z
  {
  }

  /** The bits of `val` at and above the bit of weight `m`, as the mask tests select them. */
  function Masked(val: nat, m: nat): (r: nat)
    requires m > 0
    ensures r == 0 <==> val < m
  {
    DivBounds(val, m);
    if val >= m then AtLeastOne(val, m); val / m * m else val / m * m
  }

  lemma AtLeastOne(val: nat, m: nat)
    requires 0 < m <= val
    ensures val / m * m > 0
  {
    DivBounds(val, m);
  }

  /** One halving step of the binary search: with the top `k` bits of the 32-bit register
      clear, `k` more zeros are counted and the register moves up by `k`. */
  method SkipZeros(val: nat, cnt: nat, k: nat, m: nat, f: nat, ghost input: nat) returns (val': nat, cnt': nat)
    requires Pow2(k) == f && m > 0 && f * m == TWO32
    requires val < TWO32 && val == Times(input, Pow2(cnt))
    ensures val' < TWO32 && val' == Times(input, Pow2(cnt'))
    ensures if val < m then val' == val * f && cnt' == cnt + k else val' == val && cnt' == cnt
  {
    hide Times, Pow2, Masked;
    val', cnt' := val, cnt;
    if Masked(val, m) == 0 {
      ShiftOnce(input, cnt, k, f);
      MulStrict(val, m, f);
      cnt' := cnt + k;
      val' := val * f % TWO32;
    }
  }

  method Clz32(input: nat) returns (cnt: nat)
    requires input < TWO32
    ensures IsLeadingZeros(input, cnt, 32)
  {
    hide Times, Pow2, Masked;
    SmallPowers();
    TimesOne(input);
    var val := input;
    cnt := 0;
    val, cnt := SkipZeros(val, cnt, 16, 0x1_0000, 0x1_0000, input);
    assert (val == 0 || val >= 0x1_0000) && cnt <= 16;
    val, cnt := SkipZeros(val, cnt, 8, 0x100_0000, 0x100, input);
    assert (val == 0 || val >= 0x100_0000) && cnt <= 24;
    val, cnt := SkipZeros(val, cnt, 4, 0x1000_0000, 0x10, input);
    assert (val == 0 || val >= 0x1000_0000) && cnt <= 28;
    val, cnt := SkipZeros(val, cnt, 2, 0x4000_0000, 4, input);
    assert (val == 0 || val >= 0x4000_0000) && cnt <= 30;
    val, cnt := SkipZeros(val, cnt, 1, TWO31, 2, input);
    assert (val == 0 || val >= TWO31) && cnt <= 31;
    TimesZero(input, Pow2(cnt));
    assert val == 0 ==> cnt == 31;
    if Masked(val, TWO31) == 0 {
      cnt := cnt + 1;
    }
  }

  lemma SmallPowers()
    ensures Pow2(1) == 2 && Pow2(2) == 4 && Pow2(4) == 0x10 && Pow2(8) == 0x100 && Pow2(16) == 0x1_0000
    ensures Pow2(31) == TWO31 && Pow2(32) == TWO32 && Pow2(63) == TWO63 && Pow2(64) == TWO64
  {
    WordPowers();
    hide Pow2;
    Pow2Add(32, 31);
    Pow2Add(32, 32);
  }

  lemma WordPowers()
    ensures Pow2(1) == 2 && Pow2(2) == 4 && Pow2(4) == 0x10 && Pow2(8) == 0x100 && Pow2(16) == 0x1_0000
    ensures Pow2(31) == TWO31 && Pow2(32) == TWO32
  {
    assert Pow2(8) == 0x100 && Pow2(16) == 0x1_0000 && Pow2(15) == 0x8000;
    hide Pow2;
    Pow2Add(16, 15);
    Pow2Add(16, 16);
  }

  lemma TimesOne(x: nat)
    ensures Times(x, Pow2(0)) == x
  {
  }

  lemma TimesZero(x: nat, k: nat)
    requires k > 0
    ensures Times(x, k) == 0 <==> x == 0
  {
  }

  method Clz64(input: nat) returns (cnt: nat)
    requires input < TWO64
    ensures IsLeadingZeros(input, cnt, 64)
  {
    hide IsLeadingZeros;
    var val := input;
    cnt := 0;
    if val / TWO32 == 0 {
      cnt := 32;
      var low := Clz32(val);
      LowWord(input, low);
      return cnt + low;
    } else {
      val := val / TWO32;
    }
    var low := Clz32(val);
    HighWord(input, low);
    return cnt + low;
  }

  lemma LowWord(input: nat, low: nat)
    requires input < TWO32 && IsLeadingZeros(input, low, 32)
    ensures IsLeadingZeros(input, 32 + low, 64)
  {
    hide Times, Pow2;
    SmallPowers();
    if input != 0 {
      ShiftOnce(input, low, 32, TWO32);
      assert low + 32 == 32 + low;
    }
  }

  lemma HighWord(input: nat, low: nat)
    requires TWO32 <= input < TWO64 && IsLeadingZeros(input / TWO32, low, 32)
    ensures IsLeadingZeros(input, low, 64)
  {
    hide Times, Pow2;
    SmallPowers();
    var high, rest := input / TWO32, input % TWO32;
    assert input == high * TWO32 + rest;
    Pow2Add(low, 32 - low);
    ScaledHigh(high, rest, TWO32, Pow2(low), Pow2(32 - low));
  }

  lemma ScaledHigh(high: nat, rest: nat, b: nat, p: nat, c: nat)
    requires rest < b && p * c == b && Times(high, p) < b && p > 0
    ensures Times(high, p) * b <= Times(high * b + rest, p) < b * b
  {
    hide Times;
    SplitScaled(high, rest, p, b);
    RoomAbove(high, p, c);
    ScaledBelow(rest, b, p);
    assert Times(b, p) == Times(p, b) by { TimesIs(b, p); TimesIs(p, b); }
    assert Times(high, p) * b + Times(p, b) == Times(Times(high, p) + p, b) by {
      TimesIs(p, b);
      TimesIs(Times(high, p) + p, b);
    }
    AtMost(Times(high, p) + p, b, b);
  }

  lemma RoomAbove(high: nat, p: nat, c: nat)
    requires p > 0 && Times(high, p) < p * c
    ensures Times(high, p) + p <= p * c
  {
    MultipleBelow(high, p, c);
  }

  lemma MultipleBelow(x: nat, p: nat, n: nat)
    requires p > 0 && x * p < p * n
    ensures (x + 1) * p <= p * n
  {
    if x >= n {
      MulMonotone(n, x, p);
    }
    MulMonotone(x + 1, n, p);
  }

  // ----- multiplication

  /** `mull128_u64`: the returned words are the exact 128-bit product, although the middle
      sum and the low word both wrap. */
  method Mull128(multiplier: nat, multiplicand: nat) returns (low: nat, high: nat)
    requires multiplier < TWO64 && multiplicand < TWO64
    ensures low < TWO64 && high < TWO64
    ensures high * TWO64 + low == multiplier * multiplicand
  {
    hide Times, Wrap64;
    var a, b := multiplier / TWO32, multiplier % TWO32;
    var c, d := multiplicand / TWO32, multiplicand % TWO32;
    var ad := Times(a, d);
    var bd := Times(b, d);
    var adbc := Wrap64(ad + Times(b, c));
    var adbcCarry := if adbc < ad then 1 else 0;
    var productLow := Wrap64(bd + Wrap64(adbc * TWO32));
    var productLowCarry := if productLow < bd then 1 else 0;
    high := Wrap64(Times(a, c) + adbc / TWO32 + adbcCarry * TWO32 + productLowCarry);
    low := productLow;
    ProductByDigits(multiplier, multiplicand, a, b, c, d);
    ProductBound(a, d, TWO32);
    ProductBound(b, d, TWO32);
    ProductBound(b, c, TWO32);
    ProductBound(multiplier, multiplicand, TWO64);
    CarriesAreExact(Times(multiplier, multiplicand), Times(a, c), ad, Times(b, c), bd);
    assert Times(multiplier, multiplicand) == multiplier * multiplicand by { TimesIs(multiplier, multiplicand); }
  }

  lemma TimesIs(x: nat, y: nat)
    ensures Times(x, y) == x * y
  {
  }

  lemma ProductBound(x: nat, y: nat, b: nat)
    requires x < b && y < b
    ensures Times(x, y) <= (b - 1) * (b - 1)
  {
    MulMonotone(x, b - 1, y);
    MulMonotone(y, b - 1, b - 1);
  }

  lemma ProductByDigits(x: nat, y: nat, a: nat, b: nat, c: nat, d: nat)
    requires x == a * TWO32 + b && y == c * TWO32 + d
    ensures Times(x, y) == Times(a, c) * TWO64 + (Times(a, d) + Times(b, c)) * TWO32 + Times(b, d)
  {
    Foil(a, b, c, d, TWO32);
  }

  lemma Foil(a: nat, b: nat, c: nat, d: nat, base: nat)
    ensures Times(a * base + b, c * base + d)
         == Times(a, c) * (base * base) + (Times(a, d) + Times(b, c)) * base + Times(b, d)
  {
    var y := c * base + d;
    assert a * base * y == base * (a * y);
    assert a * y == base * (a * c) + a * d;
    assert b * y == base * (b * c) + b * d;
    assert base * (base * (a * c)) == (a * c) * (base * base);
  }

  /** With the four partial products taken as given, the carries of the two wrapping sums
      account for everything the 64-bit additions drop. */
  lemma CarriesAreExact(xy: nat, ac: nat, ad: nat, bc: nat, bd: nat)
    requires xy == ac * TWO64 + (ad + bc) * TWO32 + bd && xy < TWO64 * TWO64
    requires ad < TWO64 && bc < TWO64 && bd < TWO64
    ensures var adbc := Wrap64(ad + bc);
            var low := Wrap64(bd + Wrap64(adbc * TWO32));
            var exact := ac + adbc / TWO32 + (if adbc < ad then 1 else 0) * TWO32 + (if low < bd then 1 else 0);
            exact < TWO64 && exact * TWO64 + low == xy
  {
    var adbc := Wrap64(ad + bc);
    CarryOfSum(ad, bc);
    var mid := Wrap64(adbc * TWO32);
    assert mid == adbc % TWO32 * TWO32 by { ShiftedLow(adbc); }
    CarryOfSum(bd, mid);
  }

  lemma CarryOfSum(x: nat, y: nat)
    requires x < TWO64 && y < TWO64
    ensures x + y == Wrap64(x + y) + (if Wrap64(x + y) < x then TWO64 else 0)
  {
  }

  lemma ShiftedLow(x: nat)
    ensures Wrap64(x * TWO32) == x % TWO32 * TWO32
  {
    var h, l := x / TWO32, x % TWO32;
    assert x * TWO32 == h * TWO64 + l * TWO32;
  }

  // ----- division

  /** The machine's unsigned division. */
  function Quot(x: nat, d: nat): nat
    requires d > 0
  {
    x / d
  }

  /** `q` is the quotient of `n` by `v`. */
  ghost predicate IsQuotient(q: nat, v: nat, n: nat)
  {
    Times(q, v) <= n < Times(q + 1, v)
  }

  /** What the correction loop keeps of a trial digit: it is the true digit or above it, and
      `rhat` is what it leaves of the upper dividend digits. */
  ghost predicate Trial(q: nat, rhat: nat, un: nat, next: nat, vn1: nat, vn0: nat)
  {
    && Times(q, vn1) + rhat == un
    && un * TWO32 + next < Times(q + 1, vn1 * TWO32 + vn0)
  }

  /** The digit step of Algorithm D on a normalised divisor `vn1 * 2^32 + vn0`: the trial
      digit is corrected at most twice and ends as the true quotient digit of
      `un * 2^32 + next`. */
  method QuotientDigit(un: nat, next: nat, vn1: nat, vn0: nat) returns (q: nat, ghost corrections: nat)
    requires TWO31 <= vn1 < TWO32 && vn0 < TWO32 && next < TWO32
    requires un < vn1 * TWO32 + vn0
    ensures q < TWO32
    ensures IsQuotient(q, vn1 * TWO32 + vn0, un * TWO32 + next)
    ensures corrections <= 2
  {
    hide Times, Quot, Trial, IsQuotient;
    q := Quot(un, vn1);
    var rhat: nat := Wrap64(un - Wrap64(Times(q, vn1)));
    FirstTrial(un, next, vn1, vn0);
    corrections := 0;
    while q >= TWO32 || Wrap64(Times(q, vn0)) > Wrap64(TWO32 * rhat + next)
      invariant q <= TWO32 + 1 - corrections
      invariant Trial(q, rhat, un, next, vn1, vn0)
      invariant corrections * TWO31 <= rhat < TWO32
      decreases q
    {
      DigitTooBig(q, rhat, un, next, vn1, vn0);
      q := Wrap64(q - 1);
      rhat := Wrap64(rhat + vn1);
      corrections := corrections + 1;
      if rhat >= TWO32 {
        BrokenOut(q, rhat, un, next, vn1, vn0);
        return;
      }
    }
    DigitFits(q, rhat, un, next, vn1, vn0);
  }

  lemma FirstTrial(un: nat, next: nat, vn1: nat, vn0: nat)
    requires TWO31 <= vn1 < TWO32 && vn0 < TWO32 && next < TWO32
    requires un < vn1 * TWO32 + vn0
    ensures var q := Quot(un, vn1);
            var rhat := Wrap64(un - Wrap64(Times(q, vn1)));
            q <= TWO32 + 1 && rhat < vn1 && Trial(q, rhat, un, next, vn1, vn0)
  {
    hide Times, Quot, Trial;
    var q := Quot(un, vn1);
    DivTimes(un, vn1);
    TrialDigitBound(un, vn1, vn0, q);
    TrialHolds(q, un - Times(q, vn1), un, next, vn1, vn0);
  }

  lemma DivTimes(x: nat, d: nat)
    requires d > 0
    ensures Times(Quot(x, d), d) <= x < Times(Quot(x, d), d) + d
  {
    DivBounds(x, d);
  }

  lemma TrialDigitBound(un: nat, vn1: nat, vn0: nat, q: nat)
    requires TWO31 <= vn1 && vn0 < TWO32
    requires un < vn1 * TWO32 + vn0 && Times(q, vn1) <= un
    ensures q <= TWO32 + 1
  {
    if q >= TWO32 + 2 {
      MulMonotone(TWO32 + 2, q, vn1);
    }
  }

  lemma TrialHolds(q: nat, rhat: nat, un: nat, next: nat, vn1: nat, vn0: nat)
    requires Times(q, vn1) + rhat == un && rhat < vn1 && next < TWO32
    ensures Trial(q, rhat, un, next, vn1, vn0)
  {
    SplitDivisor(q + 1, vn1, vn0, TWO32);
    assert Times(q + 1, vn1) == Times(q, vn1) + vn1;
  }

  lemma SplitDivisor(q: nat, vn1: nat, vn0: nat, base: nat)
    ensures Times(q, vn1 * base + vn0) == Times(q, vn1) * base + Times(q, vn0)
  {
    assert q * (vn1 * base) == q * vn1 * base;
  }

  /** The product compared in the loop guard compares the dividend with `q * v`; neither side
      wraps. */
  lemma GuardMeaning(q: nat, rhat: nat, un: nat, next: nat, vn1: nat, vn0: nat)
    requires Trial(q, rhat, un, next, vn1, vn0) && q <= TWO32 + 1 && vn0 < TWO32
    ensures Times(q, vn0) < TWO64
    ensures Times(q, vn1 * TWO32 + vn0) - (un * TWO32 + next) == Times(q, vn0) - (TWO32 * rhat + next)
  {
    SplitDivisor(q, vn1, vn0, TWO32);
    assert Times(q, vn0) < TWO64 by { ProductUpTo(q, vn0); }
  }

  lemma ProductUpTo(q: nat, vn0: nat)
    requires q <= TWO32 + 1 && vn0 < TWO32
    ensures Times(q, vn0) < TWO64
  {
    MulMonotone(q, TWO32 + 1, vn0);
  }

  lemma DigitTooBig(q: nat, rhat: nat, un: nat, next: nat, vn1: nat, vn0: nat)
    requires Trial(q, rhat, un, next, vn1, vn0) && un < vn1 * TWO32 + vn0
    requires next < TWO32 && rhat < TWO32 && vn0 < TWO32 && q <= TWO32 + 1
    requires q >= TWO32 || Wrap64(Times(q, vn0)) > Wrap64(TWO32 * rhat + next)
    ensures q > 0 && Trial(q - 1, rhat + vn1, un, next, vn1, vn0)
  {
    var v, n := vn1 * TWO32 + vn0, un * TWO32 + next;
    assert Times(q, v) > n by {
      hide Times;
      GuardMeaning(q, rhat, un, next, vn1, vn0);
      if q >= TWO32 {
        AtLeast(q, v, TWO32);
      }
    }
    assert q > 0 by { TimesZero(v, 1); }
    assert Times(q - 1, vn1) + vn1 == Times(q, vn1);
  }

  lemma AtLeast(q: nat, v: nat, k: nat)
    requires q >= k
    ensures Times(q, v) >= k * v
  {
    MulMonotone(k, q, v);
  }

  lemma DigitFits(q: nat, rhat: nat, un: nat, next: nat, vn1: nat, vn0: nat)
    requires Trial(q, rhat, un, next, vn1, vn0)
    requires rhat < TWO32 && next < TWO32 && vn0 < TWO32
    requires !(q >= TWO32 || Wrap64(Times(q, vn0)) > Wrap64(TWO32 * rhat + next))
    ensures IsQuotient(q, vn1 * TWO32 + vn0, un * TWO32 + next)
  {
    hide Times;
    GuardMeaning(q, rhat, un, next, vn1, vn0);
  }

  lemma BrokenOut(q: nat, rhat: nat, un: nat, next: nat, vn1: nat, vn0: nat)
    requires Trial(q, rhat, un, next, vn1, vn0)
    requires rhat >= TWO32 && q <= TWO32 && vn0 < TWO32
    requires un < vn1 * TWO32 + vn0 && next < TWO32
    ensures q < TWO32 && IsQuotient(q, vn1 * TWO32 + vn0, un * TWO32 + next)
  {
    hide Times;
    GuardMeaning(q, rhat, un, next, vn1, vn0);
    var v := vn1 * TWO32 + vn0;
    assert Times(q, vn0) <= TWO32 * vn0 by { AtMost(q, vn0, TWO32); }
    if q >= TWO32 {
      AtLeast(q, v, TWO32);
    }
  }

  lemma AtMost(q: nat, v: nat, k: nat)
    requires q <= k
    ensures Times(q, v) <= k * v
  {
    MulMonotone(q, k, v);
  }

  /** `div128_to_64`: the quotient and remainder of the 128-bit dividend, or both words at
      their maximum when the quotient would not fit. */
  method Div128To64(u1: nat, u0: nat, divisor: nat) returns (q: nat, r: nat, ghost corrections: nat)
    requires u1 < TWO64 && u0 < TWO64 && divisor < TWO64
    ensures q < TWO64 && r < TWO64
    ensures u1 < divisor ==> u1 * TWO64 + u0 == q * divisor + r && r < divisor
    ensures u1 >= divisor ==> q == TWO64 - 1 && r == TWO64 - 1
    ensures corrections <= 4
  {
    hide Times, Pow2, BitOr, IsLeadingZeros, IsQuotient;
    corrections := 0;
    if u1 >= divisor {
      return TWO64 - 1, TWO64 - 1, 0;
    }
    var s := Clz64(divisor);
    Normalized(u1, u0, divisor, s);
    var v, un64, un10 := divisor, u1, u0;
    if s > 0 {
      v := Wrap64(Times(divisor, Pow2(s)));
      un64 := BitOr(Wrap64(Times(u1, Pow2(s))), Shifted(u0, 64 - s));
      un10 := Wrap64(Times(u0, Pow2(s)));
    }
    assert TWO63 <= v < TWO64 && un64 < v;
    var vn1, vn0 := v / TWO32, v % TWO32;
    var un1, un0 := un10 / TWO32, un10 % TWO32;
    ghost var steps;
    var q1, q0;
    q1, corrections := QuotientDigit(un64, un1, vn1, vn0);
    var un21 := Wrap64(Wrap64(Wrap64(un64 * TWO32) + un1) - Wrap64(Times(q1, v)));
    MultiplyAndSubtract(un64, un1, q1, v);
    q0, steps := QuotientDigit(un21, un0, vn1, vn0);
    var rest := Wrap64(Wrap64(Wrap64(un21 * TWO32) + un0) - Wrap64(Times(q0, v)));
    MultiplyAndSubtract(un21, un0, q0, v);
    q := Wrap64(Wrap64(q1 * TWO32) + q0);
    r := Shifted(rest, s);
    QuotientAtMost(rest, Pow2(s));
    corrections := corrections + steps;
    DigitsCombine(un64, un1, un0, un21, v, q1, q0, rest);
    assert un64 * TWO64 + un10 == Times(q, v) + rest;
    Denormalized(u1 * TWO64 + u0, divisor, q, rest, s);
    assert Times(q, divisor) == q * divisor by { TimesIs(q, divisor); }
  }

  /** `x >> k`. */
  function Shifted(x: nat, k: nat): nat {
    Quot(x, Pow2(k))
  }

  lemma QuotientAtMost(x: nat, p: nat)
    requires p > 0
    ensures Quot(x, p) <= x
  {
    DivBounds(x, p);
    MulMonotone(1, p, x / p);
  }

  lemma MultiplyAndSubtract(un: nat, next: nat, q: nat, v: nat)
    requires IsQuotient(q, v, un * TWO32 + next) && v < TWO64
    ensures var rest := Wrap64(Wrap64(Wrap64(un * TWO32) + next) - Wrap64(Times(q, v)));
            rest == un * TWO32 + next - Times(q, v) && rest < v
  {
    assert Times(q + 1, v) == Times(q, v) + v;
    WrapDifference(un * TWO32, next, Times(q, v));
  }

  lemma WrapDifference(x: nat, d: nat, y: nat)
    requires 0 <= x + d - y < TWO64
    ensures Wrap64(Wrap64(Wrap64(x) + d) - Wrap64(y)) == x + d - y
  {
  }

  /** Shifting dividend and divisor left by the leading-zero count scales both by `2^s` and
      loses no bit. */
  lemma Normalized(u1: nat, u0: nat, divisor: nat, s: nat)
    requires u1 < divisor < TWO64 && u0 < TWO64 && IsLeadingZeros(divisor, s, 64)
    ensures var v := if s > 0 then Wrap64(Times(divisor, Pow2(s))) else divisor;
            var un64 := if s > 0 && s < 64 then BitOr(Wrap64(Times(u1, Pow2(s))), Shifted(u0, 64 - s)) else u1;
            var un10 := if s > 0 then Wrap64(Times(u0, Pow2(s))) else u0;
            && s < 64 && TWO63 <= v < TWO64 && v == Times(divisor, Pow2(s))
            && un64 < v && un10 < TWO64
            && un64 * TWO64 + un10 == Times(u1 * TWO64 + u0, Pow2(s))
  {
    hide Times, Pow2, BitOr, Shifted;
    SmallPowers();
    if s == 0 {
      TimesOne(divisor);
      TimesOne(u1 * TWO64 + u0);
    } else {
      var p, c := Pow2(s), Pow2(64 - s);
      Pow2Add(s, 64 - s);
      SplitLow(u0, p, c, s);
      ScaledBelow(u1, divisor, p);
      OrTop(u1, Shifted(u0, 64 - s), s);
      SplitScaled(u1, u0, p, TWO64);
    }
  }

  lemma SplitLow(u0: nat, p: nat, c: nat, s: nat)
    requires s < 64 && p == Pow2(s) && c == Pow2(64 - s) && p * c == TWO64 && u0 < TWO64
    ensures Shifted(u0, 64 - s) < p
    ensures Times(u0, p) == Shifted(u0, 64 - s) * TWO64 + Wrap64(Times(u0, p))
  {
    hide Pow2, Times;
    DivBounds(u0, c);
    SplitProduct(u0, u0 / c, u0 % c, p, c, TWO64);
    WrapMultiple(Times(u0, p), u0 / c, u0 % c * p);
  }

  lemma WrapMultiple(x: nat, k: nat, low: nat)
    requires x == k * TWO64 + low && low < TWO64
    ensures Wrap64(x) == low
  {
  }

  lemma ScaledBelow(u1: nat, divisor: nat, p: nat)
    requires u1 < divisor
    ensures Times(u1, p) + p <= Times(divisor, p)
  {
    MulMonotone(u1 + 1, divisor, p);
  }

  lemma OrTop(u1: nat, top: nat, s: nat)
    requires top < Pow2(s)
    ensures BitOr(Times(u1, Pow2(s)), top) == Times(u1, Pow2(s)) + top
  {
    BitOrDisjoint(u1, top, s);
  }

  lemma SplitScaled(u1: nat, u0: nat, p: nat, m: nat)
    ensures Times(u1 * m + u0, p) == Times(u1, p) * m + Times(u0, p)
  {
    assert (u1 * m) * p == u1 * p * m;
  }

  lemma DigitsCombine(un64: nat, un1: nat, un0: nat, un21: nat, v: nat, q1: nat, q0: nat, rest: nat)
    requires un21 == un64 * TWO32 + un1 - Times(q1, v)
    requires rest == un21 * TWO32 + un0 - Times(q0, v)
    ensures un64 * TWO64 + (un1 * TWO32 + un0) == Times(q1 * TWO32 + q0, v) + rest
  {
    SplitScaled(q1, q0, v, TWO32);
  }

  lemma Denormalized(dividend: nat, divisor: nat, q: nat, rest: nat, s: nat)
    requires Times(dividend, Pow2(s)) == Times(q, Times(divisor, Pow2(s))) + rest
    requires rest < Times(divisor, Pow2(s))
    ensures dividend == Times(q, divisor) + Shifted(rest, s) && Shifted(rest, s) < divisor
  {
    hide Pow2;
    ExactMultiple(dividend, divisor, q, rest, Pow2(s));
  }

  lemma ExactMultiple(dividend: nat, divisor: nat, q: nat, rest: nat, p: nat)
    requires p > 0 && dividend * p == q * (divisor * p) + rest && rest < divisor * p
    ensures dividend == q * divisor + rest / p && rest / p < divisor
  {
    var r := dividend - q * divisor;
    assert r * p == rest by {
      assert r * p == dividend * p - (q * divisor) * p;
      assert (q * divisor) * p == q * (divisor * p);
    }
    PositiveFactor(r, p);
    ExactQuotient(r, p);
    if r >= divisor {
      MulMonotone(divisor, r, p);
    }
  }

  lemma PositiveFactor(r: int, p: nat)
    requires r * p >= 0 && p > 0
    ensures r >= 0
  {
  }

  lemma ExactQuotient(r: nat, p: nat)
    requires p > 0
    ensures r * p / p == r
  {
    DivBounds(r * p, p);
    QuotientUnique(r, r * p / p, p, r * p % p);
  }

  lemma QuotientUnique(x: nat, q: nat, y: nat, r: nat)
    requires x * y == q * y + r && r < y
    ensures q == x && r == 0
  {
    if q < x {
      MulMonotone(q + 1, x, y);
    }
  }

  /** Dividing a product by one of its factors gives the other back. */
  method MultiplyThenDivide(x: nat, y: nat) returns (q: nat, r: nat)
    requires x < TWO64 && 0 < y < TWO64
    ensures q == x && r == 0
  {
    var low, high := Mull128(x, y);
    HighBelowFactor(x, y, low, high);
    ghost var steps;
    q, r, steps := Div128To64(high, low, y);
    QuotientUnique(x, q, y, r);
  }

  lemma HighBelowFactor(x: nat, y: nat, low: nat, high: nat)
    requires high * TWO64 + low == x * y && x < TWO64 && 0 < y
    ensures high < y
  {
    MulStrict(x, TWO64, y);
  }
}
