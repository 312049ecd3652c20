/** Square-and-multiply with a fixed exponent: inv25519 and pow2523. */
module FieldPower {
  import opened Arith
  import opened MachineInts
  import opened Field25519

  /** x^n modulo p. */
  function FPow(x: int, n: nat): int {
    Pow(x, n) % P
  }

  lemma FPowSquare(x: int, n: nat)
    ensures FMul(FPow(x, n), FPow(x, n)) == FPow(x, 2 * n)
  {
    PowAdd(x, n, n);
    ModMul(Pow(x, n), Pow(x, n), P);
  }

  lemma FPowTimes(x: int, n: nat)
    ensures FMul(FPow(x, n), x % P) == FPow(x, n + 1)
  {
    PowAdd(x, n, 1);
    assert Pow(x, 1) == x;
    ModMul(Pow(x, n), x, P);
  }

  /** The exponent before step a of inv25519: ones, but for the two skipped multiplications. */
  ghost function InvExponent(a: int): int
    requires -1 <= a <= 253
  {
    var ones := Pow(2, 254 - a);
    if a >= 4 then ones - 1 else if a >= 2 then ones - 1 - Pow(2, 3 - a) else ones - 1 - Pow(2, 3 - a) - Pow(2, 1 - a)
  }

  lemma InvExponentStep(a: int)
    requires 0 <= a <= 253
    ensures InvExponent(a - 1) == 2 * InvExponent(a) + (if a != 2 && a != 4 then 1 else 0)
    ensures InvExponent(a) >= 1
  {
    PowPositive(2, 253 - a);
    if a < 4 {
      PowAdd(2, 251, 3 - a);
      assert Pow(2, 4 - a) == 2 * Pow(2, 3 - a);
      PowPositive(2, 3 - a);
      Pow2Mono(4, 251);
    }
  }

  lemma {:induction false} Pow2Mono(m: nat, n: nat)
    requires m <= n
    ensures Pow(2, m) <= Pow(2, n)
    decreases n
  {
    if m < n {
      Pow2Mono(m, n - 1);
      PowPositive(2, n - 1);
    }
  }

  lemma Pow2Join(m: nat, n: nat, x: int, y: int)
    requires Pow(2, m) == x && Pow(2, n) == y
    ensures Pow(2, m + n) == x * y
  {
    PowAdd(2, m, n);
  }

  lemma Pow2_255()
    ensures Pow(2, 255) == P + 19 && 8 * Pow(2, 252) == P + 19
  {
    var w := 0x1_0000_0000_0000_0000;
    assert Pow(2, 8) == 0x100 && Pow(2, 4) == 0x10 && Pow(2, 3) == 8;
    Pow2Join(8, 8, 0x100, 0x100);
    Pow2Join(16, 8, 0x1_0000, 0x100);
    Pow2Join(24, 4, 0x100_0000, 0x10);
    Pow2Join(28, 4, 0x1000_0000, 0x10);
    Pow2Join(32, 32, 0x1_0000_0000, 0x1_0000_0000);
    Pow2Join(64, 64, w, w);
    Pow2Join(128, 64, w * w, w);
    Pow2Join(192, 32, w * w * w, 0x1_0000_0000);
    Pow2Join(224, 28, w * w * w * 0x1_0000_0000, 0x1000_0000);
    Pow2Join(252, 3, w * w * w * 0x1_0000_0000 * 0x1000_0000, 8);
  }

  /** inv25519: i^(p-2); `o` may be `i`. */
  method Inv25519(o: array<i64>, i: array<i64>)
    requires o.Length == 16 && Small(i[..])
    modifies o
    ensures Reduced(o[..])
    ensures Fe(o) == FPow(old(Fe(i)), P - 2)
  {
    var c := new i64[16];
    Set25519(c, i);
    ghost var x := Fe(i);
    assert c[..] == i[..];
    assert Pow(x, 1) == x;
    var a := 253;
    while a >= 0
      modifies c
      invariant -1 <= a <= 253
      invariant Small(c[..]) && (a < 253 ==> Reduced(c[..]))
      invariant InvExponent(a) >= 1 && Fe(c) == FPow(x, InvExponent(a))
      decreases a
    {
      InvExponentStep(a);
      FPowSquare(x, InvExponent(a));
      FPowTimes(x, 2 * InvExponent(a));
      S(c, c);
      if a != 2 && a != 4 {
        M(c, c, i);
      }
      a := a - 1;
    }
    Pow2_255();
    Set25519(o, c);
    assert o[..] == c[..];
  }

  /** pow2523: i^(2^252 - 3). */
  method Pow2523(o: array<i64>, i: array<i64>)
    requires o.Length == 16 && Small(i[..])
    modifies o
    ensures Reduced(o[..])
    ensures Fe(o) == FPow(old(Fe(i)), (P - 5) / 8)
  {
    var c := new i64[16];
    Set25519(c, i);
    ghost var x := Fe(i);
    assert c[..] == i[..];
    assert Pow(x, 1) == x;
    var a := 250;
    while a >= 0
      modifies c
      invariant -1 <= a <= 250
      invariant Small(c[..]) && (a < 250 ==> Reduced(c[..]))
      invariant RootExponent(a) >= 1 && Fe(c) == FPow(x, RootExponent(a))
      decreases a
    {
      RootExponentStep(a);
      FPowSquare(x, RootExponent(a));
      FPowTimes(x, 2 * RootExponent(a));
      S(c, c);
      if a != 1 {
        M(c, c, i);
      }
      a := a - 1;
    }
    Pow2_255();
    Set25519(o, c);
    assert o[..] == c[..];
  }

  ghost function RootExponent(a: int): int
    requires -1 <= a <= 250
  {
    Pow(2, 251 - a) - 1 - (if a >= 1 then 0 else Pow(2, 0 - a))
  }

  lemma RootExponentStep(a: int)
    requires 0 <= a <= 250
    ensures RootExponent(a - 1) == 2 * RootExponent(a) + (if a != 1 then 1 else 0)
    ensures RootExponent(a - 1) >= 1
  {
    PowPositive(2, 250 - a);
    PowPositive(2, 251 - a);
    if a < 1 {
      Pow2Mono(3, 251);
    }
  }
}
