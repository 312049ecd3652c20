/** What the functions and constants of SHA-512 are: sections 4.1.3, 4.2.3 and 5.3.5 of FIPS 180-4. */
module Sha512Functions {
  import opened Arith
  import opened Radix
  import opened MachineInts
  import opened Bits
  import opened Sha512

  // ---------------------------------------------------------------- the logical functions

  /** Each bit of x chooses the bit of y or the bit of z. */
  lemma ChBit(x: int, y: int, z: int, i: nat)
    ensures Bit(SHA2.ch(x, y, z), i) == if Bit(x, i) == 1 then Bit(y, i) else Bit(z, i)
  {
    XorBit(And(x, y), And(Not(x), z), i);
    AndBit(x, y, i);
    AndBit(Not(x), z, i);
    NotBit(x, i);
    BitIsDigit(x, i);
    BitIsDigit(y, i);
    BitIsDigit(z, i);
  }

  /** Each bit is the one that at least two of the three arguments have. */
  lemma MajBit(x: int, y: int, z: int, i: nat)
    ensures Bit(SHA2.maj(x, y, z), i) == if Bit(x, i) + Bit(y, i) + Bit(z, i) >= 2 then 1 else 0
  {
    XorBit(Xor(And(x, y), And(x, z)), And(y, z), i);
    XorBit(And(x, y), And(x, z), i);
    AndBit(x, y, i);
    AndBit(x, z, i);
    AndBit(y, z, i);
    BitIsDigit(x, i);
    BitIsDigit(y, i);
    BitIsDigit(z, i);
  }

  lemma RotrBit(x: u64, c: nat, i: nat)
    requires 0 < c < 64 && i < 64
    ensures Bit(Rotr(x, c), i) == Bit(x, Around(i, c, 64))
  {
    Pow2Words();
    RotatedBit(x, 64, R64, c, i);
  }

  lemma ThreeBits(a: int, b: int, c: int, i: nat)
    ensures Bit(Xor(Xor(a, b), c), i) == (Bit(a, i) + Bit(b, i) + Bit(c, i)) % 2
  {
    XorBit(Xor(a, b), c, i);
    XorBit(a, b, i);
  }

  lemma RotatedBits(x: u64, a: nat, b: nat, c: nat, i: nat)
    requires 0 < a < 64 && 0 < b < 64 && 0 < c < 64 && i < 64
    ensures Bit(Xor(Xor(Rotr(x, a), Rotr(x, b)), Rotr(x, c)), i)
      == (Bit(x, Around(i, a, 64)) + Bit(x, Around(i, b, 64)) + Bit(x, Around(i, c, 64))) % 2
  {
    ThreeBits(Rotr(x, a), Rotr(x, b), Rotr(x, c), i);
    RotrBit(x, a, i);
    RotrBit(x, b, i);
    RotrBit(x, c, i);
  }

  lemma ShiftedBits(x: u64, a: nat, b: nat, c: nat, i: nat)
    requires 0 < a < 64 && 0 < b < 64 && c < 64 && i < 64
    ensures Bit(Xor(Xor(Rotr(x, a), Rotr(x, b)), ShiftRight(x, c)), i)
      == (Bit(x, Around(i, a, 64)) + Bit(x, Around(i, b, 64)) + if i + c < 64 then Bit(x, i + c) else 0) % 2
  {
    ThreeBits(Rotr(x, a), Rotr(x, b), ShiftRight(x, c), i);
    RotrBit(x, a, i);
    RotrBit(x, b, i);
    ShiftRightBit(x, c, i);
    Pow2Words();
    if i + c >= 64 {
      HighBit(x, 64, i + c);
    }
  }

  /** Each bit is the parity of three bits of the argument, taken around the end of the word. */
  lemma BigSigma0Bits(x: u64, i: nat)
    requires i < 64
    ensures Bit(SHA2.bigSigma0(x), i) == (Bit(x, Around(i, 28, 64)) + Bit(x, Around(i, 34, 64)) + Bit(x, Around(i, 39, 64))) % 2
  {
    RotatedBits(x, 28, 34, 39, i);
  }

  lemma BigSigma1Bits(x: u64, i: nat)
    requires i < 64
    ensures Bit(SHA2.bigSigma1(x), i) == (Bit(x, Around(i, 14, 64)) + Bit(x, Around(i, 18, 64)) + Bit(x, Around(i, 41, 64))) % 2
  {
    RotatedBits(x, 14, 18, 41, i);
  }

  /** The third bit drops out at the end of the word. */
  lemma SmallSigma0Bits(x: u64, i: nat)
    requires i < 64
    ensures Bit(SHA2.smallSigma0(x), i) == (Bit(x, Around(i, 1, 64)) + Bit(x, Around(i, 8, 64)) + if i + 7 < 64 then Bit(x, i + 7) else 0) % 2
  {
    ShiftedBits(x, 1, 8, 7, i);
  }

  lemma SmallSigma1Bits(x: u64, i: nat)
    requires i < 64
    ensures Bit(SHA2.smallSigma1(x), i) == (Bit(x, Around(i, 19, 64)) + Bit(x, Around(i, 61, 64)) + if i + 6 < 64 then Bit(x, i + 6) else 0) % 2
  {
    ShiftedBits(x, 19, 61, 6, i);
  }

  lemma ShiftedOne(c: nat)
    ensures ShiftLeft(1, c) == Pow(2, c) && (c > 0 ==> ShiftRight(1, c) == 0)
  {
    ShiftLeftIsMul(1, c);
    if c > 0 {
      ShiftRightIsDiv(0, c - 1);
      DivModUnique(0, Pow(2, c - 1), 0, 0);
    }
  }

  lemma RotatedOne(c: nat, p: int)
    requires 0 < c < 64 && p == Pow(2, 64 - c)
    ensures Rotr(1, c) == p
  {
    ShiftedOne(c);
    ShiftedOne(64 - c);
    PowPositive(2, 64 - c);
    PowPositive(2, c - 1);
    PowAdd(2, c - 1, 64 - c);
    PowAdd(2, c, 64 - c);
    Pow2Words();
    MulLe(1, Pow(2, c - 1), p);
    DivModUnique(p, R64, 0, p);
    OrZero(p);
  }

  /** Powers of two with falling exponents are added. */
  lemma XorPowers(u: int, k: nat, p: int, x: int)
    requires p == Pow(2, k) && 0 <= x < p
    ensures Xor(u * p, x) == u * p + x
  {
    XorDisjoint(u, x, k);
  }

  lemma FewPowers()
    ensures Pow(2, 23) == 0x80_0000 && Pow(2, 25) == 0x200_0000 && Pow(2, 30) == 0x4000_0000
    ensures Pow(2, 36) == 0x10_0000_0000 && Pow(2, 46) == 0x4000_0000_0000 && Pow(2, 50) == 0x4_0000_0000_0000
  {
    SmallPowers();
    PowAdd(2, 8, 8);
    PowAdd(2, 16, 7);
    PowAdd(2, 23, 2);
    PowAdd(2, 25, 5);
    PowAdd(2, 30, 6);
    PowAdd(2, 30, 16);
    PowAdd(2, 46, 4);
  }

  lemma BigSigmasOfOne()
    ensures SHA2.bigSigma0(1) == 0x10_4200_0000 && SHA2.bigSigma1(1) == 0x4_4000_0080_0000
  {
    FewPowers();
    RotatedOne(28, 0x10_0000_0000);
    RotatedOne(34, 0x4000_0000);
    RotatedOne(39, 0x200_0000);
    XorPowers(1, 36, 0x10_0000_0000, 0x4000_0000);
    XorPowers(65, 30, 0x4000_0000, 0x200_0000);
    RotatedOne(14, 0x4_0000_0000_0000);
    RotatedOne(18, 0x4000_0000_0000);
    RotatedOne(41, 0x80_0000);
    XorPowers(1, 50, 0x4_0000_0000_0000, 0x4000_0000_0000);
    XorPowers(17, 46, 0x4000_0000_0000, 0x80_0000);
  }

  lemma TopPowers()
    ensures Pow(2, 3) == 8 && Pow(2, 45) == 0x2000_0000_0000 && Pow(2, 56) == 0x100_0000_0000_0000
  {
    FewPowers();
    SmallPowers();
    PowAdd(2, 50, 6);
    PowAdd(2, 45, 1);
  }

  lemma SmallSigmasOfOne()
    ensures SHA2.smallSigma0(1) == 0x8100_0000_0000_0000 && SHA2.smallSigma1(1) == 0x2000_0000_0008
  {
    Pow2Words();
    TopPowers();
    RotatedOne(1, 0x8000_0000_0000_0000);
    RotatedOne(8, 0x100_0000_0000_0000);
    XorPowers(1, 63, 0x8000_0000_0000_0000, 0x100_0000_0000_0000);
    RotatedOne(19, 0x2000_0000_0000);
    RotatedOne(61, 8);
    XorPowers(1, 45, 0x2000_0000_0000, 8);
    ShiftedOne(7);
    ShiftedOne(6);
    XorZero(0x8100_0000_0000_0000, 0);
    XorZero(0x2000_0000_0008, 0);
  }
}
