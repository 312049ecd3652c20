/** The bit operations, bit by bit. */
module Bits {
  import opened Arith
  import opened Radix
  import opened MachineInts

  lemma BitIsDigit(x: int, i: nat)
    ensures 0 <= Bit(x, i) <= 1
  {
    PowPositive(2, i);
  }

  /** Bit i is bit i - 1 of the half. */
  lemma BitStep(x: int, i: nat)
    ensures Bit(x, 0) == x % 2 && (i > 0 ==> Bit(x, i) == Bit(x / 2, i - 1))
  {
    assert Pow(2, 0) == 1;
    if i > 0 {
      PowPositive(2, i - 1);
      DivDiv(x, 2, Pow(2, i - 1));
    }
  }

  lemma {:induction false} AndBit(x: int, y: int, i: nat)
    ensures Bit(And(x, y), i) == if Bit(x, i) == 1 && Bit(y, i) == 1 then 1 else 0
    decreases i
  {
    BitStep(x, i);
    BitStep(y, i);
    BitStep(And(x, y), i);
    AndUnfold(x, y);
    FirstDigit(And(x, y), if x % 2 == 1 && y % 2 == 1 then 1 else 0, And(x / 2, y / 2));
    if i > 0 {
      AndBit(x / 2, y / 2, i - 1);
    }
  }

  lemma {:induction false} OrBit(x: int, y: int, i: nat)
    ensures Bit(Or(x, y), i) == if Bit(x, i) == 1 || Bit(y, i) == 1 then 1 else 0
    decreases i
  {
    BitStep(x, i);
    BitStep(y, i);
    BitStep(Or(x, y), i);
    OrUnfold(x, y);
    FirstDigit(Or(x, y), if x % 2 == 0 && y % 2 == 0 then 0 else 1, Or(x / 2, y / 2));
    if i > 0 {
      OrBit(x / 2, y / 2, i - 1);
    }
  }

  lemma {:induction false} XorBit(x: int, y: int, i: nat)
    ensures Bit(Xor(x, y), i) == (Bit(x, i) + Bit(y, i)) % 2
    decreases i
  {
    BitStep(x, i);
    BitStep(y, i);
    BitStep(Xor(x, y), i);
    XorUnfold(x, y);
    FirstDigit(Xor(x, y), if x % 2 == y % 2 then 0 else 1, Xor(x / 2, y / 2));
    if i > 0 {
      XorBit(x / 2, y / 2, i - 1);
    }
  }

  lemma {:induction false} NotBit(x: int, i: nat)
    ensures Bit(Not(x), i) == 1 - Bit(x, i)
    decreases i
  {
    BitStep(x, i);
    BitStep(Not(x), i);
    if i > 0 {
      assert Not(x) / 2 == Not(x / 2);
      NotBit(x / 2, i - 1);
    }
  }

  lemma {:induction false} ShiftRightBit(x: int, c: nat, i: nat)
    ensures Bit(ShiftRight(x, c), i) == Bit(x, i + c)
    decreases c
  {
    if c > 0 {
      ShiftRightBit(x / 2, c - 1, i);
      BitStep(x, i + c);
    }
  }

  lemma {:induction false} ShiftLeftBit(x: int, c: nat, i: nat)
    ensures Bit(ShiftLeft(x, c), i) == if i < c then 0 else Bit(x, i - c)
    decreases c
  {
    if c > 0 {
      ShiftLeftBit(2 * x, c - 1, i);
      if i + 1 >= c {
        BitStep(2 * x, i + 1 - c);
        assert 2 * x / 2 == x;
      }
    }
  }

  /** Truncation leaves the low bits. */
  lemma {:induction false} TruncatedBit(x: int, n: nat, m: int, i: nat)
    requires m == Pow(2, n) > 0
    ensures Bit(x % m, i) == if i < n then Bit(x, i) else 0
    decreases n
  {
    if n == 0 {
      ZeroBit(i);
    } else {
      var p := Pow(2, n - 1);
      PowPositive(2, n - 1);
      LowHalf(x, p, m);
      BitStep(x, i);
      BitStep(x % m, i);
      if i > 0 {
        TruncatedBit(x / 2, n - 1, p, i - 1);
      }
    }
  }

  lemma {:induction false} ZeroBit(i: nat)
    ensures Bit(0, i) == 0
  {
    BitStep(0, i);
    if i > 0 {
      ZeroBit(i - 1);
    }
  }

  lemma HighBit(x: int, n: nat, i: nat)
    requires 0 <= x < Pow(2, n) && i >= n
    ensures Bit(x, i) == 0
  {
    var m := Pow(2, n);
    TruncatedBit(x, n, m, i);
    DivModUnique(x, m, 0, x);
  }

  /** A number is determined by its bits. */
  lemma {:induction false} SameBits(x: int, y: int, n: nat)
    requires 0 <= x < Pow(2, n) && 0 <= y < Pow(2, n) && forall i :: 0 <= i < n ==> Bit(x, i) == Bit(y, i)
    ensures x == y
    decreases n
  {
    if n > 0 {
      BitStep(x, 0);
      BitStep(y, 0);
      forall i | 0 <= i < n - 1
        ensures Bit(x / 2, i) == Bit(y / 2, i)
      {
        BitStep(x, i + 1);
        BitStep(y, i + 1);
      }
      SameBits(x / 2, y / 2, n - 1);
    }
  }

  /** The place i + c in a circle of n. */
  function Around(i: nat, c: nat, n: nat): nat
    requires i < n && c <= n
  {
    if i + c < n then i + c else i + c - n
  }

  /** (x >> c) | (x << (n - c)) on n bits moves bit i + c to i, around the end. */
  lemma RotatedBit(x: int, n: nat, m: int, c: nat, i: nat)
    requires m == Pow(2, n) && 0 <= x < m && 0 < c < n && i < n
    ensures Bit(Or(ShiftRight(x, c), ShiftLeft(x, n - c) % m), i) == Bit(x, Around(i, c, n))
  {
    var l := ShiftLeft(x, n - c);
    TruncatedBit(l, n, m, i);
    OrBit(ShiftRight(x, c), l % m, i);
    ShiftRightBit(x, c, i);
    ShiftLeftBit(x, n - c, i);
    BitIsDigit(x, Around(i, c, n));
    if i + c >= n {
      HighBit(x, n, i + c);
    }
  }

  /** (x << c) | (x >> (n - c)) on n bits. */
  lemma RotatedLeftBit(x: int, n: nat, m: int, c: nat, i: nat)
    requires m == Pow(2, n) && 0 <= x < m && 0 < c < n && i < n
    ensures Bit(Or(ShiftLeft(x, c) % m, ShiftRight(x, n - c)), i) == Bit(x, Around(i, n - c, n))
  {
    var l, r := ShiftLeft(x, c) % m, ShiftRight(x, n - c);
    RotatedBit(x, n, m, n - c, i);
    OrBit(l, r, i);
    OrBit(r, l, i);
  }

  /** The low and the high digits are combined apart. */
  lemma {:induction false} AndSplit(a: int, b: int, x: int, y: int, n: nat, p: int)
    requires p == Pow(2, n) && 0 <= a < p && 0 <= b < p
    ensures And(a + p * x, b + p * y) == And(a, b) + p * And(x, y)
    decreases n
  {
    if n > 0 {
      var h := Pow(2, n - 1);
      AndSplit(a / 2, b / 2, x, y, n - 1, h);
      AndUnfold(a, b);
      AndUnfold(a + p * x, b + p * y);
      HalfOfSum(a, p, h, x);
      HalfOfSum(b, p, h, y);
      MulAssoc(2, h, And(x, y));
    }
  }

  lemma HalfOfSum(a: int, p: int, h: int, x: int)
    requires p == 2 * h
    ensures (a + p * x) / 2 == a / 2 + h * x && (a + p * x) % 2 == a % 2
  {
    MulAssoc(2, h, x);
  }
}
