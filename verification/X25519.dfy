/** crypto_scalarmult against the Montgomery ladder of RFC 7748, section 5. */
module X25519 {
  import opened Arith
  import opened Radix
  import opened MachineInts
  import opened LittleEndian
  import opened Field25519
  import opened FieldCodec
  import opened FieldPower

  // ---------------------------------------------------------------- RFC 7748, section 5

  datatype Ladder = Ladder(x2: int, z2: int, x3: int, z3: int)

  const A24: int := 121665

  function CSwap(swap: int, s: Ladder): Ladder {
    if swap == 1 then Ladder(s.x3, s.z3, s.x2, s.z2) else s
  }

  /** The body of the loop between the conditional swaps. */
  function LadderStep(x1: int, s: Ladder): Ladder {
    var a, b := FAdd(s.x2, s.z2), FSub(s.x2, s.z2);
    var aa, bb := FMul(a, a), FMul(b, b);
    var e := FSub(aa, bb);
    var c, d := FAdd(s.x3, s.z3), FSub(s.x3, s.z3);
    var da, cb := FMul(d, a), FMul(c, b);
    var sum, diff := FAdd(da, cb), FSub(da, cb);
    Ladder(FMul(aa, bb), FMul(e, FAdd(aa, FMul(A24, e))), FMul(sum, sum), FMul(x1, FMul(diff, diff)))
  }

  /** State after the iterations t = 254 .. n, with the swap still pending as in the RFC. */
  function RfcLoop(k: int, x1: int, n: int): (Ladder, int)
    requires 0 <= n <= 255
    decreases 255 - n
  {
    if n == 255 then (Ladder(1, 0, x1, 1), 0)
    else
      var (s, swap) := RfcLoop(k, x1, n + 1);
      var kt := Bit(k, n);
      (LadderStep(x1, CSwap((swap + kt) % 2, s)), kt)
  }

  function DecodeScalar(n: seq<byte>): seq<byte>
    requires |n| == 32
  {
    n[31 := n[31] % 64 + 64][0 := n[0] - n[0] % 8]
  }

  /** The function X25519(k, u) on 32-byte strings. */
  function Rfc7748(n: seq<byte>, u: seq<byte>): seq<byte>
    requires |n| == 32 && |u| == 32
  {
    var t := Settled(LE(DecodeScalar(n)), LE(u) % R255 % P, 0);
    Bytes(FMul(t.x2, FPow(t.z2, P - 2)), 32)
  }

  // ---------------------------------------------------------------- tweetnacl.c

  ghost predicate Apart(a: array<i64>, b: array<i64>, c: array<i64>, d: array<i64>, e: array<i64>, f: array<i64>) {
    && a != b && a != c && a != d && a != e && a != f
    && b != c && b != d && b != e && b != f
    && c != d && c != e && c != f
    && d != e && d != f
    && e != f
    && e.Length == 16 && f.Length == 16
  }

  ghost predicate Bounded(a: array<i64>, b: array<i64>, c: array<i64>, d: array<i64>)
    reads a, b, c, d
  {
    Within(a[..], 65574) && Within(b[..], 65574) && Within(c[..], 65574) && Within(d[..], 65574)
  }

  ghost function View(a: array<i64>, b: array<i64>, c: array<i64>, d: array<i64>): Ladder
    reads a, b, c, d
  {
    Ladder(Fe(a), Fe(c), Fe(b), Fe(d))
  }

  /** The first half of an iteration: sums, differences, and the four products. */
  method FirstHalf(a: array<i64>, b: array<i64>, c: array<i64>, d: array<i64>, e: array<i64>, f: array<i64>)
    requires Apart(a, b, c, d, e, f) && Bounded(a, b, c, d)
    modifies a, b, c, d, e, f
    ensures Reduced(a[..]) && Reduced(c[..]) && Reduced(d[..]) && Reduced(f[..]) && b.Length == 16
    ensures var x2, z2, x3, z3 := old(Fe(a)), old(Fe(c)), old(Fe(b)), old(Fe(d));
      && Fe(d) == FMul(FAdd(x2, z2), FAdd(x2, z2))
      && Fe(f) == FMul(FSub(x2, z2), FSub(x2, z2))
      && Fe(a) == FMul(FAdd(x3, z3), FSub(x2, z2))
      && Fe(c) == FMul(FSub(x3, z3), FAdd(x2, z2))
  {
    A(e, a, c, 65574, 65574);
    Z(a, a, c, 65574, 65574);
    A(c, b, d, 65574, 65574);
    Z(b, b, d, 65574, 65574);
    S(d, e);
    S(f, a);
    M(a, c, a);
    M(c, b, e);
  }

  method SecondHalf(a: array<i64>, b: array<i64>, c: array<i64>, d: array<i64>, e: array<i64>, f: array<i64>, x: array<i64>, k: array<i64>)
    requires Apart(a, b, c, d, e, f) && b.Length == 16
    requires x !in {a, b, c, d, e, f} && k !in {a, b, c, d, e, f}
    requires Reduced(a[..]) && Reduced(c[..]) && Reduced(d[..]) && Reduced(f[..])
    requires Small(x[..]) && Small(k[..])
    modifies a, b, c, d, e, f
    ensures Reduced(a[..]) && Reduced(b[..]) && Reduced(c[..]) && Reduced(d[..])
    ensures var aa, bb, cb, da := old(Fe(d)), old(Fe(f)), old(Fe(a)), old(Fe(c));
      var e := FSub(aa, bb);
      && Fe(a) == FMul(aa, bb)
      && Fe(c) == FMul(e, FAdd(FMul(e, Fe(k)), aa))
      && Fe(b) == FMul(FAdd(cb, da), FAdd(cb, da))
      && Fe(d) == FMul(FMul(FSub(cb, da), FSub(cb, da)), Fe(x))
  {
    A(e, a, c, 65574, 65574);
    Z(a, a, c, 65574, 65574);
    S(b, a);
    Z(c, d, f, 65574, 65574);
    M(a, c, k);
    A(a, a, d, 65574, 65574);
    M(c, c, a);
    M(a, d, f);
    M(d, b, x);
    S(b, e);
  }

  lemma StepMatches(x1: int, s: Ladder)
    ensures var a, b := FAdd(s.x2, s.z2), FSub(s.x2, s.z2);
      var aa, bb, cb, da := FMul(a, a), FMul(b, b), FMul(FAdd(s.x3, s.z3), b), FMul(FSub(s.x3, s.z3), a);
      var e := FSub(aa, bb);
      LadderStep(x1, s) == Ladder(FMul(aa, bb), FMul(e, FAdd(FMul(e, A24), aa)), FMul(FAdd(cb, da), FAdd(cb, da)), FMul(FMul(FSub(cb, da), FSub(cb, da)), x1))
  {
    var a, b := FAdd(s.x2, s.z2), FSub(s.x2, s.z2);
    var cb, da := FMul(FAdd(s.x3, s.z3), b), FMul(FSub(s.x3, s.z3), a);
    OppositeSquares(cb, da);
    var e := FSub(FMul(a, a), FMul(b, b));
    FMulCommutes(e, A24);
    FMulCommutes(FMul(FSub(cb, da), FSub(cb, da)), x1);
    assert FAdd(cb, da) == FAdd(da, cb);
    assert FAdd(FMul(e, A24), FMul(a, a)) == FAdd(FMul(a, a), FMul(e, A24));
  }

  lemma FMulCommutes(x: int, y: int)
    ensures FMul(x, y) == FMul(y, x)
  {
    assert x * y == y * x;
  }

  lemma OppositeSquares(x: int, y: int)
    ensures FMul(FSub(x, y), FSub(x, y)) == FMul(FSub(y, x), FSub(y, x))
  {
    ModMul(x - y, x - y, P);
    ModMul(y - x, y - x, P);
    assert (x - y) * (x - y) == (y - x) * (y - x);
  }

  method LadderIteration(a: array<i64>, b: array<i64>, c: array<i64>, d: array<i64>, e: array<i64>, f: array<i64>, x: array<i64>, k: array<i64>, r: int)
    requires Apart(a, b, c, d, e, f) && Bounded(a, b, c, d) && 0 <= r <= 1
    requires x !in {a, b, c, d, e, f} && k !in {a, b, c, d, e, f}
    requires Small(x[..]) && Small(k[..]) && Fe(k) == A24
    modifies a, b, c, d, e, f
    ensures Bounded(a, b, c, d)
    ensures View(a, b, c, d) == CSwap(r, LadderStep(Fe(x), CSwap(r, old(View(a, b, c, d)))))
  {
    Sel25519(a, b, r);
    Sel25519(c, d, r);
    ghost var s := View(a, b, c, d);
    StepMatches(Fe(x), s);
    FirstHalf(a, b, c, d, e, f);
    SecondHalf(a, b, c, d, e, f, x, k);
    assert View(a, b, c, d) == LadderStep(Fe(x), s);
    Sel25519(a, b, r);
    Sel25519(c, d, r);
  }

  /** The ladder state with the pending swap carried out. */
  function Settled(k: int, x1: int, n: int): Ladder
    requires 0 <= n <= 255
  {
    var (s, swap) := RfcLoop(k, x1, n);
    CSwap(swap, s)
  }

  /** Undoing each swap at once, as the code does, or merging it with the next one, as the RFC does. */
  lemma SwapsCompose(k: int, x1: int, n: nat)
    requires n < 255
    ensures Settled(k, x1, n) == CSwap(Bit(k, n), LadderStep(x1, CSwap(Bit(k, n), Settled(k, x1, n + 1))))
  {
    var (s, swap) := RfcLoop(k, x1, n + 1);
    assert swap in {0, 1};
    assert CSwap((swap + Bit(k, n)) % 2, s) == CSwap(Bit(k, n), CSwap(swap, s));
  }

  /** The clamped copy z of the scalar n. */
  method ClampScalar(n: seq<byte>) returns (z: array<byte>)
    requires |n| == 32
    ensures fresh(z) && z[..] == DecodeScalar(n)
  {
    z := new byte[32];
    for i := 0 to 31
      invariant z[..i] == n[..i]
    {
      z[i] := n[i];
    }
    z[31] := ForceHigh(n[31]);
    assert z[..] == n[31 := n[31] % 64 + 64];
    z[0] := ClearLow(z[0]);
    assert z[..] == n[31 := n[31] % 64 + 64][0 := n[0] - n[0] % 8];
  }

  /** The 255 iterations, from bit 254 down to bit 0. */
  method LadderLoop(a: array<i64>, b: array<i64>, c: array<i64>, d: array<i64>, e: array<i64>, f: array<i64>, x: array<i64>, k: array<i64>, z: array<byte>)
    requires Apart(a, b, c, d, e, f) && Bounded(a, b, c, d) && z.Length == 32
    requires x !in {a, b, c, d, e, f} && k !in {a, b, c, d, e, f}
    requires Small(x[..]) && Small(k[..]) && Fe(k) == A24
    requires View(a, b, c, d) == Ladder(1, 0, Fe(x), 1)
    modifies a, b, c, d, e, f
    ensures Bounded(a, b, c, d)
    ensures View(a, b, c, d) == Settled(LE(z[..]), Fe(x), 0)
  {
    ghost var zs, u := z[..], Fe(x);
    var i := 254;
    while i >= 0
      modifies a, b, c, d, e, f
      invariant -1 <= i <= 254
      invariant Bounded(a, b, c, d)
      invariant View(a, b, c, d) == Settled(LE(zs), u, i + 1)
      decreases i
    {
      BitOfBytes(zs, i);
      ShiftRightIsDiv(z[i / 8], i % 8);
      var r := ShiftRight(z[i / 8], i % 8) % 2;
      SwapsCompose(LE(zs), u, i);
      LadderIteration(a, b, c, d, e, f, x, k, r);
      i := i - 1;
    }
  }

  /** _121665 */
  method ConstantA24() returns (k: array<i64>)
    ensures fresh(k) && Small(k[..]) && Fe(k) == A24
  {
    k := new i64[16](j => if j == 0 then 0xDB41 else if j == 1 then 1 else 0);
    ValZeros(k[..][1..][1..], B16);
    assert Val(k[..][1..], B16) == 1;
  }

  /** b = x, a = d = 1, c = 0, and the constant 121665. */
  method LadderInit(x: array<i64>) returns (a: array<i64>, b: array<i64>, c: array<i64>, d: array<i64>, e: array<i64>, f: array<i64>, k: array<i64>)
    requires Within(x[..], 65574)
    ensures fresh(a) && fresh(b) && fresh(c) && fresh(d) && fresh(e) && fresh(f) && fresh(k)
    ensures Apart(a, b, c, d, e, f) && Bounded(a, b, c, d) && k !in {a, b, c, d, e, f}
    ensures Small(k[..]) && Fe(k) == A24
    ensures View(a, b, c, d) == Ladder(1, 0, Fe(x), 1)
  {
    a := SmallConstant(1);
    c := SmallConstant(0);
    d := SmallConstant(1);
    k := ConstantA24();
    b, e, f := new i64[16], new i64[16], new i64[16];
    Set25519(b, x);
    assert b[..] == x[..];
  }

  /** crypto_scalarmult computes the function X25519 of the RFC. */
  method CryptoScalarmult(q: array<byte>, n: seq<byte>, p: seq<byte>)
    requires q.Length == 32 && |n| == 32 && |p| == 32
    modifies q
    ensures q[..] == Rfc7748(n, p)
  {
    var z := ClampScalar(n);
    var x := new i64[16];
    Unpack25519(x, p);
    var a, b, c, d, e, f, k := LadderInit(x);
    LadderLoop(a, b, c, d, e, f, x, k, z);
    Finish(q, a, c);
  }

  /** x2 * z2^(p-2), packed; the inverse is taken in place. */
  method Finish(q: array<byte>, a: array<i64>, c: array<i64>)
    requires q.Length == 32 && Small(a[..]) && Small(c[..])
    modifies q
    ensures q[..] == Bytes(FMul(Fe(a), FPow(Fe(c), P - 2)), 32)
  {
    var x16, x32 := new i64[16], new i64[16];
    Set25519(x16, a);
    Set25519(x32, c);
    assert x16[..] == a[..] && x32[..] == c[..];
    Inv25519(x32, x32);
    M(x16, x16, x32);
    Pack25519(q, x16);
    assert q[..] == q[..32];
  }
}
