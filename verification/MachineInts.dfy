/** C machine integers, and bit operations on two's complement integers of any width. */
module MachineInts {
  import opened Arith
  import opened Radix

  type i64 = x: int | -0x8000_0000_0000_0000 <= x < 0x8000_0000_0000_0000
  type u64 = x: int | 0 <= x < 0x1_0000_0000_0000_0000
  type byte = x: int | 0 <= x < 256

  const R32: int := 0x1_0000_0000
  const R64: int := 0x1_0000_0000_0000_0000

  /** x is its own sign extension: all binary digits are equal. */
  predicate AllSign(x: int) { x == 0 || x == -1 }

  function Mag(x: int): nat { if x >= 0 then x else -1 - x }

  function Xor(x: int, y: int): int
    decreases Mag(x) + Mag(y)
  {
    if AllSign(x) && AllSign(y) then (if x == y then 0 else -1)
    else (if x % 2 == y % 2 then 0 else 1) + 2 * Xor(x / 2, y / 2)
  }

  function And(x: int, y: int): int
    decreases Mag(x) + Mag(y)
  {
    if AllSign(x) && AllSign(y) then (if x == -1 && y == -1 then -1 else 0)
    else (if x % 2 == 1 && y % 2 == 1 then 1 else 0) + 2 * And(x / 2, y / 2)
  }

  function Or(x: int, y: int): int
    decreases Mag(x) + Mag(y)
  {
    if AllSign(x) && AllSign(y) then (if x == 0 && y == 0 then 0 else -1)
    else (if x % 2 == 0 && y % 2 == 0 then 0 else 1) + 2 * Or(x / 2, y / 2)
  }

  function Not(x: int): int { -1 - x }

  /** The digit equation also holds where the recursion stops. */
  lemma {:induction false} XorUnfold(x: int, y: int)
    ensures Xor(x, y) == (if x % 2 == y % 2 then 0 else 1) + 2 * Xor(x / 2, y / 2)
  {
  }

  lemma XorDigits(x: int, y: int)
    ensures Xor(x, y) / 2 == Xor(x / 2, y / 2) && Xor(x, y) % 2 == if x % 2 == y % 2 then 0 else 1
  {
    XorUnfold(x, y);
  }

  lemma {:induction false} XorCancel(x: int, y: int)
    ensures Xor(x, Xor(x, y)) == y
    decreases Mag(x) + Mag(y)
  {
    XorDigits(x, y);
    XorDigits(x, Xor(x, y));
    if !(AllSign(x) && AllSign(y)) {
      XorCancel(x / 2, y / 2);
    }
  }

  lemma {:induction false} XorCommutes(x: int, y: int)
    ensures Xor(x, y) == Xor(y, x)
    decreases Mag(x) + Mag(y)
  {
    if !(AllSign(x) && AllSign(y)) {
      XorCommutes(x / 2, y / 2);
    }
  }

  lemma XorZero(x: int, y: int)
    ensures Xor(x, 0) == x
    ensures Xor(x, y) == 0 <==> x == y
  {
    XorWithZero(x);
    XorWithZero(y);
    XorWithItself(x);
    XorCancel(x, y);
  }

  lemma {:induction false} XorWithZero(x: int)
    ensures Xor(x, 0) == x
    decreases Mag(x)
  {
    if !AllSign(x) {
      XorWithZero(x / 2);
    }
  }

  lemma {:induction false} XorWithItself(x: int)
    ensures Xor(x, x) == 0
    decreases Mag(x)
  {
    if !AllSign(x) {
      XorWithItself(x / 2);
    }
  }

  lemma {:induction false} XorFits(x: int, y: int, n: nat)
    requires -Pow(2, n) <= x < Pow(2, n) && -Pow(2, n) <= y < Pow(2, n)
    ensures -Pow(2, n) <= Xor(x, y) < Pow(2, n)
    ensures x >= 0 && y >= 0 ==> Xor(x, y) >= 0
    decreases n
  {
    if n > 0 {
      XorFits(x / 2, y / 2, n - 1);
    }
  }

  lemma {:induction false} AndMask(y: int)
    ensures And(-1, y) == y && And(0, y) == 0
    decreases Mag(y)
  {
    if !AllSign(y) {
      AndMask(y / 2);
    }
  }

  lemma {:induction false} AndCommutes(x: int, y: int)
    ensures And(x, y) == And(y, x)
    decreases Mag(x) + Mag(y)
  {
    if !(AllSign(x) && AllSign(y)) {
      AndCommutes(x / 2, y / 2);
    }
  }

  lemma {:induction false} OrBits(x: int, y: int, n: nat)
    requires 0 <= x < Pow(2, n) && 0 <= y < Pow(2, n)
    ensures 0 <= Or(x, y) < Pow(2, n)
    ensures Or(x, y) == 0 <==> x == 0 && y == 0
    decreases n
  {
    if n > 0 {
      OrBits(x / 2, y / 2, n - 1);
    }
  }

  lemma Pow2Words()
    ensures Pow(2, 8) == 256 && Pow(2, 63) == 0x8000_0000_0000_0000 && Pow(2, 64) == 0x1_0000_0000_0000_0000
  {
    PowAdd(2, 8, 8);
    PowAdd(2, 16, 16);
    PowAdd(2, 31, 32);
    assert Pow(2, 8) == 256;
    assert Pow(2, 32) == 2 * Pow(2, 31);
  }

  /**
   * x ^ (c & (p ^ q)) with the mask c = ~(b-1) exchanges p and q exactly when b = 1,
   * and the masked difference is a 64-bit value again.
   */
  lemma MaskedSwap(p: i64, q: i64, b: i64)
    requires b == 0 || b == 1
    ensures var t := And(Not(b - 1), Xor(p, q));
      && -0x8000_0000_0000_0000 <= t < 0x8000_0000_0000_0000
      && Xor(p, t) == (if b == 1 then q else p)
      && Xor(q, t) == (if b == 1 then p else q)
  {
    Pow2Words();
    XorFits(p, q, 63);
    AndMask(Xor(p, q));
    XorCancel(p, q);
    XorCommutes(p, q);
    XorCancel(q, p);
    XorZero(p, q);
    XorZero(q, p);
  }

  // ---------------------------------------------------------------- masks and shifts with constants

  /** x & (2^k - 1) is the remainder modulo 2^k. */
  lemma {:induction false} AndLow(x: int, k: nat)
    ensures Pow(2, k) > 0 && And(x, Pow(2, k) - 1) == x % Pow(2, k)
    decreases k
  {
    PowPositive(2, k);
    AndUnfold(x, Pow(2, k) - 1);
    if k == 0 {
      AndZero(x);
    } else {
      AndLow(x / 2, k - 1);
      ModDouble(x, Pow(2, k - 1));
    }
  }

  lemma ModDouble(x: int, p: int)
    requires p > 0
    ensures x % (2 * p) == x % 2 + 2 * (x / 2 % p)
  {
    var q := x / 2 / p;
    assert x / 2 == q * p + x / 2 % p;
    assert x == q * (2 * p) + (x % 2 + 2 * (x / 2 % p)) by { MulAssoc(q, 2, p); MulAssoc(q, p, 2); }
    DivModUnique(x, 2 * p, q, x % 2 + 2 * (x / 2 % p));
  }

  lemma {:induction false} AndUnfold(x: int, y: int)
    ensures And(x, y) == (if x % 2 == 1 && y % 2 == 1 then 1 else 0) + 2 * And(x / 2, y / 2)
  {
  }

  lemma {:induction false} AndZero(x: int)
    ensures And(x, 0) == 0
    decreases Mag(x)
  {
    if !AllSign(x) {
      AndZero(x / 2);
    }
  }

  /** The low k bits of x ^ y and x | y only depend on the low k bits of x and y. */
  lemma {:induction false} XorLow(x: int, y: int, k: nat)
    ensures Pow(2, k) > 0 && Xor(x, y) % Pow(2, k) == Xor(x % Pow(2, k), y % Pow(2, k))
    decreases k
  {
    PowPositive(2, k);
    if k > 0 {
      PowPositive(2, k - 1);
      XorLow(x / 2, y / 2, k - 1);
      XorLowStep(x, y, Pow(2, k - 1), Pow(2, k));
    }
  }

  lemma XorLowStep(x: int, y: int, p: int, m: int)
    requires p > 0 && m == 2 * p && Xor(x / 2, y / 2) % p == Xor(x / 2 % p, y / 2 % p)
    ensures Xor(x, y) % m == Xor(x % m, y % m)
  {
    var z, d := Xor(x, y), if x % 2 == y % 2 then 0 else 1;
    LowHalf(x, p, m);
    LowHalf(y, p, m);
    LowHalf(z, p, m);
    XorUnfold(x, y);
    XorUnfold(x % m, y % m);
    FirstDigit(z, d, Xor(x / 2, y / 2));
  }

  lemma FirstDigit(z: int, d: int, h: int)
    requires z == d + 2 * h && 0 <= d <= 1
    ensures z % 2 == d && z / 2 == h
  {
  }

  lemma {:induction false} OrLow(x: int, y: int, k: nat)
    ensures Pow(2, k) > 0 && Or(x, y) % Pow(2, k) == Or(x % Pow(2, k), y % Pow(2, k))
    decreases k
  {
    PowPositive(2, k);
    if k > 0 {
      PowPositive(2, k - 1);
      OrLow(x / 2, y / 2, k - 1);
      OrLowStep(x, y, Pow(2, k - 1), Pow(2, k));
    }
  }

  lemma OrLowStep(x: int, y: int, p: int, m: int)
    requires p > 0 && m == 2 * p && Or(x / 2, y / 2) % p == Or(x / 2 % p, y / 2 % p)
    ensures Or(x, y) % m == Or(x % m, y % m)
  {
    var z, d := Or(x, y), if x % 2 == 0 && y % 2 == 0 then 0 else 1;
    LowHalf(x, p, m);
    LowHalf(y, p, m);
    LowHalf(z, p, m);
    OrUnfold(x, y);
    OrUnfold(x % m, y % m);
    FirstDigit(z, d, Or(x / 2, y / 2));
  }

  lemma LowHalf(x: int, p: int, m: int)
    requires p > 0 && m == 2 * p
    ensures x % m == x % 2 + 2 * (x / 2 % p)
    ensures x % m % 2 == x % 2 && x % m / 2 == x / 2 % p
  {
    ModDouble(x, p);
  }

  lemma {:induction false} OrUnfold(x: int, y: int)
    ensures Or(x, y) == (if x % 2 == 0 && y % 2 == 0 then 0 else 1) + 2 * Or(x / 2, y / 2)
  {
  }

  lemma {:induction false} OrZero(x: int)
    ensures Or(x, 0) == x && Or(0, x) == x
    decreases Mag(x)
  {
    if !AllSign(x) {
      OrZero(x / 2);
    }
  }

  /** x | 2^k sets bit k. */
  lemma {:induction false} OrPower(x: int, k: nat)
    ensures Pow(2, k) > 0 && Or(x, Pow(2, k)) == if x / Pow(2, k) % 2 == 1 then x else x + Pow(2, k)
    decreases k
  {
    PowPositive(2, k);
    if k == 0 {
      OrUnfold(x, 1);
      OrZero(x / 2);
    } else {
      var p := Pow(2, k - 1);
      OrPower(x / 2, k - 1);
      OrDouble(x, p);
      DivDiv(x, 2, p);
      OrPowerStep(x, p, Or(x / 2, p));
    }
  }

  lemma OrDouble(x: int, p: int)
    ensures Or(x, 2 * p) == x % 2 + 2 * Or(x / 2, p)
  {
    OrUnfold(x, 2 * p);
    assert 2 * p / 2 == p && 2 * p % 2 == 0;
  }

  lemma OrPowerStep(x: int, p: int, h: int)
    requires p > 0 && h == if x / 2 / p % 2 == 1 then x / 2 else x / 2 + p
    ensures x % 2 + 2 * h == if x / 2 / p % 2 == 1 then x else x + 2 * p
  {
  }

  lemma {:induction false} OrDisjoint(u: int, x: int, k: nat)
    requires 0 <= x < Pow(2, k)
    ensures Or(u * Pow(2, k), x) == u * Pow(2, k) + x
    decreases k
  {
    var p := u * Pow(2, k);
    OrUnfold(p, x);
    if k == 0 {
      OrZero(p);
    } else {
      OrDisjoint(u, x / 2, k - 1);
      MulAssoc(u, 2, Pow(2, k - 1));
      MulAssoc(2, u, Pow(2, k - 1));
    }
  }

  /** (u << 8) | x */
  lemma OrByte(u: int, x: byte)
    ensures Or(u * 256, x) == u * 256 + x
  {
    assert Pow(2, 8) == 256;
    OrDisjoint(u, x, 8);
  }

  /** (u << 8) | x on 64 bits, when no bit is lost. */
  function ShiftIn(u: u64, x: byte): (v: u64)
    requires u < 0x100_0000_0000_0000
    ensures v == u * 256 + x
  {
    OrByte(u, x);
    assert u * 256 % R64 == u * 256;
    Or(u * 256 % R64, x)
  }

  lemma {:induction false} XorDisjoint(u: int, x: int, k: nat)
    requires 0 <= x < Pow(2, k)
    ensures Xor(u * Pow(2, k), x) == u * Pow(2, k) + x
    decreases k
  {
    var p := u * Pow(2, k);
    XorUnfold(p, x);
    if k == 0 {
      XorWithZero(p);
    } else {
      XorDisjoint(u, x / 2, k - 1);
      MulAssoc(u, 2, Pow(2, k - 1));
      MulAssoc(2, u, Pow(2, k - 1));
    }
  }

  lemma DivDiv(x: int, a: int, b: int)
    requires a > 0 && b > 0
    ensures a * b > 0 && x / a / b == x / (a * b)
  {
    var q, r := x / a / b, x % a + a * (x / a % b);
    MulPositive(a, b);
    HornerBound(x % a, x / a % b, b, a);
    assert x == a * (x / a) + x % a;
    assert x / a == b * q + x / a % b;
    MulDistrib(a, b * q, x / a % b);
    MulAssoc(a, b, q);
    DivModUnique(x, a * b, q, r);
  }

  lemma SmallPowers()
    ensures Pow(2, 0) == 1 && Pow(2, 1) == 2 && Pow(2, 2) == 4 && Pow(2, 3) == 8
    ensures Pow(2, 4) == 16 && Pow(2, 5) == 32 && Pow(2, 6) == 64 && Pow(2, 7) == 128 && Pow(2, 8) == 256
  {
    assert Pow(2, 2) == 4;
    assert Pow(2, 4) == 16;
    assert Pow(2, 6) == 64;
  }

  /** Clearing the low three bits of a byte. */
  lemma Clear3(x: byte)
    ensures And(x, 248) == x - x % 8
  {
    AndEven(x, 124);
    AndEven(x / 2, 62);
    AndEven(x / 2 / 2, 31);
    assert And(x / 2 / 2 / 2, 31) == x / 2 / 2 / 2 % 32 by { MaskAt(x / 2 / 2 / 2, 5, 32); }
    LowThree(x);
  }

  lemma LowThree(x: byte)
    ensures 2 * (2 * (2 * (x / 2 / 2 / 2 % 32))) == x - x % 8
  {
  }

  lemma AndEven(x: int, y: int)
    ensures And(x, 2 * y) == 2 * And(x / 2, y)
  {
    AndUnfold(x, 2 * y);
  }

  /** Clearing the low two bits of a byte. */
  lemma Clear2(x: byte)
    ensures And(x, 252) == x - x % 4
  {
    AndEven(x, 126);
    AndEven(x / 2, 63);
    assert And(x / 2 / 2, 63) == x / 2 / 2 % 64 by { MaskAt(x / 2 / 2, 6, 64); }
    LowTwo(x);
  }

  lemma LowTwo(x: byte)
    ensures 2 * (2 * (x / 2 / 2 % 64)) == x - x % 4
  {
  }

  /** (x & 127) | 64 forces bit 6 and clears bit 7. */
  lemma Force6(x: byte)
    ensures And(x, 127) == x % 128 && Or(x % 128, 64) == x % 64 + 64
  {
    assert And(x, 127) == x % 128 by { MaskAt(x, 7, 128); }
    SetAt(x % 128, 6, 64);
    Bit6(x);
  }

  lemma Bit6(x: byte)
    ensures (if x % 128 / 64 % 2 == 1 then x % 128 else x % 128 + 64) == x % 64 + 64
  {
  }

  lemma MaskAt(x: int, k: nat, p: int)
    requires 0 <= k <= 8 && p == [1, 2, 4, 8, 16, 32, 64, 128, 256][k]
    ensures And(x, p - 1) == x % p
  {
    SmallPowers();
    AndLow(x, k);
  }

  lemma SetAt(x: int, k: nat, p: int)
    requires 0 <= k <= 8 && p == [1, 2, 4, 8, 16, 32, 64, 128, 256][k]
    ensures Or(x, p) == if x / p % 2 == 1 then x else x + p
  {
    SmallPowers();
    OrPower(x, k);
  }

  /** x & 248 */
  function ClearLow(x: byte): (y: byte)
    ensures y == x - x % 8
  {
    Clear3(x);
    And(x, 248)
  }

  /** x & 127 | 64 */
  function ForceHigh(x: byte): (y: byte)
    ensures y == x % 64 + 64
  {
    Force6(x);
    Or(And(x, 127), 64)
  }

  /** Bit t of k. */
  function Bit(k: int, t: nat): int {
    PowPositive(2, t);
    k / Pow(2, t) % 2
  }

  /** Bit r of digit q is bit 8q + r of the number. */
  lemma BitOfBytes(z: seq<byte>, i: nat)
    requires i / 8 < |z|
    ensures Pow(2, i % 8) > 0 && Pow(2, i) > 0
    ensures z[i / 8] / Pow(2, i % 8) % 2 == Val(z, 256) / Pow(2, i) % 2
  {
    var q, r := i / 8, i % 8;
    PowPositive(2, i);
    PowPositive(2, r);
    DigitsAbove(z, q);
    PowOfIndex(i, q, r);
    DivDiv(Val(z, 256), Pow(256, q), Pow(2, r));
    BitOfDigit(z[q], Val(z[q + 1..], 256), r);
  }

  lemma PowOfIndex(i: nat, q: nat, r: nat)
    requires i == 8 * q + r
    ensures Pow(2, i) == Pow(256, q) * Pow(2, r)
  {
    PowMul(2, 8, q);
    assert Pow(2, 8) == 256;
    PowAdd(2, 8 * q, r);
  }

  lemma DigitsAbove(z: seq<byte>, q: nat)
    requires q < |z|
    ensures Pow(256, q) > 0 && Val(z, 256) / Pow(256, q) == z[q] as int + 256 * Val(z[q + 1..], 256)
  {
    var low, high, p := Val(z[..q], 256), Val(z[q..], 256), Pow(256, q);
    PowPositive(256, q);
    ValSplit(z, q, 256);
    ValBound(z[..q], 256);
    assert Val(z, 256) == low + p * high && 0 <= low < p;
    DivOfSum(low, p, high);
    assert z[q..][1..] == z[q + 1..];
  }

  lemma DivOfSum(r: int, m: int, h: int)
    requires 0 <= r < m
    ensures (r + m * h) / m == h && (r + m * h) % m == r
  {
    DivModUnique(r + m * h, m, h, r);
  }

  lemma BitOfDigit(d: int, h: int, r: nat)
    requires r < 8
    ensures Pow(2, r) > 0 && (d + 256 * h) / Pow(2, r) % 2 == d / Pow(2, r) % 2
  {
    PowPositive(2, r);
    PowAdd(2, r, 8 - r);
    SmallPowers();
    var p := Pow(2, r);
    HigherDigits(d, h, p, Pow(2, 7 - r), d / p, d % p);
    EvenAway(d / p, Pow(2, 7 - r) * h);
  }

  lemma HigherDigits(d: int, h: int, p: int, e: int, q: int, r: int)
    requires p > 0 && p * (2 * e) == 256 && d == q * p + r && 0 <= r < p
    ensures (d + 256 * h) / p == q + 2 * (e * h)
  {
    assert 256 * h == p * (2 * (e * h)) by { MulAssoc(p, 2 * e, h); MulAssoc(2, e, h); }
    MulDistrib(p, q, 2 * (e * h));
    DivModUnique(d + 256 * h, p, q + 2 * (e * h), r);
  }

  lemma EvenAway(q: int, k: int)
    ensures (q + 2 * k) % 2 == q % 2
  {
  }

  // ---------------------------------------------------------------- shifts

  /** x >> k, one bit at a time; floor division also for negative x. */
  function ShiftRight(x: int, k: nat): int
    decreases k, x
  {
    if k == 0 then x else ShiftRight(x / 2, k - 1)
  }

  /** x << k before any truncation. */
  function ShiftLeft(x: int, k: nat): int
    decreases k, x
  {
    if k == 0 then x else ShiftLeft(2 * x, k - 1)
  }

  lemma {:induction false} ShiftRightIsDiv(x: int, k: nat)
    ensures Pow(2, k) > 0 && ShiftRight(x, k) == x / Pow(2, k)
    decreases k
  {
    PowPositive(2, k);
    if k > 0 {
      PowPositive(2, k - 1);
      ShiftRightIsDiv(x / 2, k - 1);
      DivDiv(x, 2, Pow(2, k - 1));
    }
  }

  lemma {:induction false} ShiftLeftIsMul(x: int, k: nat)
    ensures ShiftLeft(x, k) == x * Pow(2, k)
    decreases k
  {
    if k > 0 {
      ShiftLeftIsMul(2 * x, k - 1);
      MulAssoc(x, 2, Pow(2, k - 1));
    }
  }
}
