/** Where the constants of SHA-256 come from (sections 4.2.2 and 5.3.3 of FIPS 180-4): the first
    32 bits of the fractional parts of the cube roots of the first sixty-four primes, and of the
    square roots of the first eight. */
module Sha256Constants {
  import opened Fips180

  const TWO64: nat := 0x1_0000_0000_0000_0000
  const TWO96: nat := 0x1_0000_0000_0000_0000_0000_0000

  const PRIMES: seq<seq<nat>> :=
    [[2, 3, 5, 7, 11, 13, 17, 19],
     [23, 29, 31, 37, 41, 43, 47, 53],
     [59, 61, 67, 71, 73, 79, 83, 89],
     [97, 101, 103, 107, 109, 113, 127, 131],
     [137, 139, 149, 151, 157, 163, 167, 173],
     [179, 181, 191, 193, 197, 199, 211, 223],
     [227, 229, 233, 239, 241, 251, 257, 263],
     [269, 271, 277, 281, 283, 293, 307, 311]]

  /** The first sixty-four primes, from 0. */
  function Prime(t: nat): nat
    requires t < 64
  {
    assert forall row :: 0 <= row < 8 ==> |PRIMES[row]| == 8;
    PRIMES[t / 8][t % 8]
  }

  function Cube(x: nat): nat {
    x * x * x
  }

  function Square(x: nat): nat {
    x * x
  }

  /** The first 32 fractional bits of the cube root of `p`, whose integer part is `whole`: the
      next number of 32 fractional bits is already too large. */
  predicate CubeRootBits(p: nat, whole: nat, bits: nat) {
    Cube(whole * TWO32 + bits) <= p * TWO96 < Cube(whole * TWO32 + bits + 1)
  }

  predicate SquareRootBits(p: nat, whole: nat, bits: nat) {
    Square(whole * TWO32 + bits) <= p * TWO64 < Square(whole * TWO32 + bits + 1)
  }

  /** The constant of a round is such bits of its prime. */
  ghost predicate IsRoot(t: nat)
    requires t < 64
  {
    exists whole :: CubeRootBits(Prime(t), whole, RoundConstant(t))
  }

  lemma Root(t: nat, whole: nat)
    requires t < 64 && CubeRootBits(Prime(t), whole, RoundConstant(t))
    ensures IsRoot(t)
  {
  }

  lemma Constants0()
    ensures forall t :: 0 <= t < 4 ==> IsRoot(t)
  {
    hide IsRoot;
    Root(0, 1);
    Root(1, 1);
    Root(2, 1);
    Root(3, 1);
  }

  lemma Constants1()
    ensures forall t :: 4 <= t < 8 ==> IsRoot(t)
  {
    hide IsRoot;
    Root(4, 2);
    Root(5, 2);
    Root(6, 2);
    Root(7, 2);
  }

  lemma Constants2()
    ensures forall t :: 8 <= t < 12 ==> IsRoot(t)
  {
    hide IsRoot;
    Root(8, 2);
    Root(9, 3);
    Root(10, 3);
    Root(11, 3);
  }

  lemma Constants3()
    ensures forall t :: 12 <= t < 16 ==> IsRoot(t)
  {
    hide IsRoot;
    Root(12, 3);
    Root(13, 3);
    Root(14, 3);
    Root(15, 3);
  }

  lemma Constants4()
    ensures forall t :: 16 <= t < 20 ==> IsRoot(t)
  {
    hide IsRoot;
    Root(16, 3);
    Root(17, 3);
    Root(18, 4);
    Root(19, 4);
  }

  lemma Constants5()
    ensures forall t :: 20 <= t < 24 ==> IsRoot(t)
  {
    hide IsRoot;
    Root(20, 4);
    Root(21, 4);
    Root(22, 4);
    Root(23, 4);
  }

  lemma Constants6()
    ensures forall t :: 24 <= t < 28 ==> IsRoot(t)
  {
    hide IsRoot;
    Root(24, 4);
    Root(25, 4);
    Root(26, 4);
    Root(27, 4);
  }

  lemma Constants7()
    ensures forall t :: 28 <= t < 32 ==> IsRoot(t)
  {
    hide IsRoot;
    Root(28, 4);
    Root(29, 4);
    Root(30, 5);
    Root(31, 5);
  }

  lemma Constants8()
    ensures forall t :: 32 <= t < 36 ==> IsRoot(t)
  {
    hide IsRoot;
    Root(32, 5);
    Root(33, 5);
    Root(34, 5);
    Root(35, 5);
  }

  lemma Constants9()
    ensures forall t :: 36 <= t < 40 ==> IsRoot(t)
  {
    hide IsRoot;
    Root(36, 5);
    Root(37, 5);
    Root(38, 5);
    Root(39, 5);
  }

  lemma Constants10()
    ensures forall t :: 40 <= t < 44 ==> IsRoot(t)
  {
    hide IsRoot;
    Root(40, 5);
    Root(41, 5);
    Root(42, 5);
    Root(43, 5);
  }

  lemma Constants11()
    ensures forall t :: 44 <= t < 48 ==> IsRoot(t)
  {
    hide IsRoot;
    Root(44, 5);
    Root(45, 5);
    Root(46, 5);
    Root(47, 6);
  }

  lemma Constants12()
    ensures forall t :: 48 <= t < 52 ==> IsRoot(t)
  {
    hide IsRoot;
    Root(48, 6);
    Root(49, 6);
    Root(50, 6);
    Root(51, 6);
  }

  lemma Constants13()
    ensures forall t :: 52 <= t < 56 ==> IsRoot(t)
  {
    hide IsRoot;
    Root(52, 6);
    Root(53, 6);
    Root(54, 6);
    Root(55, 6);
  }

  lemma Constants14()
    ensures forall t :: 56 <= t < 60 ==> IsRoot(t)
  {
    hide IsRoot;
    Root(56, 6);
    Root(57, 6);
    Root(58, 6);
    Root(59, 6);
  }

  lemma Constants15()
    ensures forall t :: 60 <= t < 64 ==> IsRoot(t)
  {
    hide IsRoot;
    Root(60, 6);
    Root(61, 6);
    Root(62, 6);
    Root(63, 6);
  }

  /** Every round constant is such bits of its prime. */
  lemma ConstantsAreRoots()
    ensures forall t :: 0 <= t < 64 ==> IsRoot(t)
  {
    hide IsRoot;
    Constants0();
    Constants1();
    Constants2();
    Constants3();
    Constants4();
    Constants5();
    Constants6();
    Constants7();
    Constants8();
    Constants9();
    Constants10();
    Constants11();
    Constants12();
    Constants13();
    Constants14();
    Constants15();
  }

  /** The initial value is such bits of the square roots of the first eight primes. */
  lemma InitialIsRoots()
    ensures forall i :: 0 <= i < 8 ==> exists whole :: SquareRootBits(Prime(i), whole, H0[i])
  {
    assert SquareRootBits(Prime(0), 1, H0[0]);
    assert SquareRootBits(Prime(1), 1, H0[1]);
    assert SquareRootBits(Prime(2), 2, H0[2]);
    assert SquareRootBits(Prime(3), 2, H0[3]);
    assert SquareRootBits(Prime(4), 3, H0[4]);
    assert SquareRootBits(Prime(5), 3, H0[5]);
    assert SquareRootBits(Prime(6), 4, H0[6]);
    assert SquareRootBits(Prime(7), 4, H0[7]);
  }
}
