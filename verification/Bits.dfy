/** Machine words as naturals: products, powers of two and the bitwise or. */
module Bits {

  /** The exact product. Proofs hide its body where they do not reason about multiplication. */
  function Times(x: nat, y: nat): nat {
    x * y
  }

  function Pow2(n: nat): (r: nat)
    ensures r > 0
  {
    if n == 0 then 1 else 2 * Pow2(n - 1)
  }

  /** Bitwise or, bit by bit from the least significant end. */
  function BitOr(x: nat, y: nat): nat
    decreases x + y
  {
    if x == 0 && y == 0 then 0
    else (if x % 2 == 1 || y % 2 == 1 then 1 else 0) + 2 * BitOr(x / 2, y / 2)
  }

  lemma MulMonotone(x: nat, y: nat, k: nat)
    requires x <= y
    ensures x * k <= y * k
  {
  }

  lemma MulStrict(x: nat, y: nat, k: nat)
    requires x < y && k > 0
    ensures x * k < y * k
  {
  }

  lemma DivBounds(x: nat, d: nat)
    requires d > 0
    ensures x / d * d <= x < x / d * d + d
    ensures x == x / d * d + x % d
  {
  }

  lemma SplitProduct(u0: nat, top: nat, bottom: nat, p: nat, c: nat, m: nat)
    requires u0 == top * c + bottom && bottom < c && p * c == m && u0 < m && p > 0
    ensures top < p && Times(u0, p) == top * m + bottom * p && bottom * p < m
  {
    if top >= p {
      MulMonotone(p, top, c);
    }
    assert (top * c) * p == top * (p * c);
    MulStrict(bottom, c, p);
  }

  lemma {:induction false} Pow2Add(m: nat, n: nat)
    ensures Pow2(m + n) == Pow2(m) * Pow2(n)
  {
    if m == 0 {
    } else {
      Pow2Add(m - 1, n);
      calc {
        Pow2(m + n);
        2 * Pow2(m - 1 + n);
        2 * (Pow2(m - 1) * Pow2(n));
        Pow2(m) * Pow2(n);
      }
    }
  }

  /** Or-ing disjoint bit ranges is addition: the step the division's normalisation relies on. */
  lemma {:induction false} BitOrDisjoint(high: nat, low: nat, k: nat)
    requires low < Pow2(k)
    ensures BitOr(high * Pow2(k), low) == high * Pow2(k) + low
  {
    if k == 0 {
      assert low == 0;
      BitOrZero(high);
      assert high * Pow2(0) == high;
    } else {
      var half := high * Pow2(k - 1);
      assert high * Pow2(k) == 2 * half by {
        assert Pow2(k) == 2 * Pow2(k - 1);
      }
      BitOrDisjoint(high, low / 2, k - 1);
      assert (2 * half) / 2 == half && (2 * half) % 2 == 0;
      if half == 0 && low == 0 {
      } else {
        assert BitOr(2 * half, low) == low % 2 + 2 * BitOr(half, low / 2);
      }
    }
  }

  lemma {:induction false} BitOrZero(x: nat)
    ensures BitOr(x, 0) == x
  {
    if x != 0 {
      BitOrZero(x / 2);
    }
  }

  lemma {:induction false} BitOrSwap(x: nat, y: nat)
    ensures BitOr(x, y) == BitOr(y, x)
    decreases x + y
  {
    if x != 0 || y != 0 {
      BitOrSwap(x / 2, y / 2);
    }
  }
}
