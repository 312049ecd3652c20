/** Reduction of 512-bit scalars modulo the group order L: modL and reduce. */
module Scalar {
  import opened Arith
  import opened Radix
  import opened MachineInts
  import opened LittleEndian

  const L: int := 0x10000000_00000000_00000000_00000000_14def9de_a2f79cd6_5812631a_5cf5d3ed
  const LOW: int := 0x14def9de_a2f79cd6_5812631a_5cf5d3ed

  const L0: seq<byte> := [0xed, 0xd3, 0xf5, 0x5c, 0x1a, 0x63, 0x12, 0x58]
  const L8: seq<byte> := [0xd6, 0x9c, 0xf7, 0xa2, 0xde, 0xf9, 0xde, 0x14]
  const L_BYTES: seq<byte> := L0 + L8 + seq(15, _ => 0) + [0x10]

  lemma OrderBytes()
    ensures |L_BYTES| == 32 && Val(L_BYTES[..20], 256) == LOW && Val(L_BYTES, 256) == L
    ensures forall k :: 16 <= k < 20 ==> L_BYTES[k] == 0
  {
    var z4, z15 := seq(4, _ => 0), seq(15, _ => 0);
    ValZeros(z4, 256);
    ValZeros(z15, 256);
    LowBytes();
    ValAppend(L0 + L8, z4, 256);
    assert L_BYTES[..20] == L0 + L8 + z4;
    ValAppend(L0 + L8, z15, 256);
    ValSnoc(L0 + L8 + z15, 0x10, 256);
    Pow256();
    assert Pow(256, 32) == 256 * Pow(256, 31);
  }

  lemma LowBytes()
    ensures Val(L0 + L8, 256) == LOW
  {
    assert Val(L0, 256) == 0x5812_631a_5cf5_d3ed by { Octet(L0); }
    assert Val(L8, 256) == 0x14de_f9de_a2f7_9cd6 by { Octet(L8); }
    ValAppend(L0, L8, 256);
    assert Pow(256, 8) == 0x1_0000_0000_0000_0000;
  }

  lemma Octet(s: seq<int>)
    requires |s| == 8
    ensures Val(s, 256) == s[0] + 0x100 * s[1] + 0x1_0000 * s[2] + 0x100_0000 * s[3] + 0x1_0000_0000 * s[4]
      + 0x100_0000_0000 * s[5] + 0x1_0000_0000_0000 * s[6] + 0x100_0000_0000_0000 * s[7]
  {
    ValFour(s[..4], 256);
    ValFour(s[4..], 256);
    ValSplit(s, 4, 256);
    assert Pow(256, 4) == 0x1_0000_0000;
  }

  // ---------------------------------------------------------------- folding the high digits

  const RAW: int := 0x20_0000

  /**
   * Digits n .. 63 are folded away.  The twenty digits below n - 12 were just normalised to
   * [-128, 127]; the ones above took one more carry of at most 1 since.
   */
  ghost predicate Ready(s: seq<int>, n: int) {
    && |s| == 64 && 32 <= n <= 64
    && (forall k :: n <= k < 64 ==> s[k] == 0)
    && (forall k :: 0 <= k < 64 && k != 51 ==> -RAW <= s[k] <= RAW)
    && (if n == 64 then -RAW <= s[51] <= RAW else -2 * RAW <= s[51] <= 2 * RAW)
    && (n < 64 ==> forall k :: n - 32 <= k < n - 12 ==> -128 <= s[k] <= 127)
    && (n < 64 ==> forall k :: n - 12 <= k <= 50 ==> -129 <= s[k] <= 128)
  }

  /** Bound on the carry after k digits; it dies out over the four zero bytes of L. */
  function CarryBound(k: int, first: bool): int {
    if k <= 16 then 0x800_0000
    else if first then (if k == 17 then 0x10_0000 else 0x8000)
    else if k == 17 then 0x8_0000 else if k == 18 then 0x800 else if k == 19 then 8 else 1
  }

  lemma CarryStays(k: int, first: bool, d: int, c: int, p: int)
    requires 0 <= k < 20 && -RAW <= d <= RAW
    requires -CarryBound(k, first) <= c <= CarryBound(k, first)
    requires if k < 16 then -0x4_0000_0000 <= p <= 0x4_0000_0000 else p == 0
    requires k >= 16 && !first ==> -128 <= d <= 127
    ensures -CarryBound(k + 1, first) <= (d + (c - p) + 128) / 256 <= CarryBound(k + 1, first)
  {
  }

  lemma DigitProduct(x: int, l: int)
    requires -2 * RAW <= x <= 2 * RAW && 0 <= l < 256
    ensures -0x4_0000_0000 <= 16 * x * l <= 0x4_0000_0000 && (l == 0 ==> 16 * x * l == 0)
  {
    MulLe(16 * x, 32 * RAW, l);
    MulLe(-32 * RAW, 16 * x, l);
  }

  lemma StepValue(s: seq<int>, j: nat, c: int, p: int, c': int)
    requires j < |s|
    ensures Val(s[j := s[j] + (c - p) - c' * 256], 256) + c' * Pow(256, j + 1) == Val(s, 256) + c * Pow(256, j) - p * Pow(256, j)
  {
    ValUpdate(s, j, s[j] + (c - p) - c' * 256, 256);
    var w := Pow(256, j);
    assert (c - p - c' * 256) * w == c * w - p * w - c' * (256 * w) by {
      MulDistrib(w, c - p, c' * 256);
      MulDistrib(w, c, p);
      MulAssoc(c', 256, w);
    }
  }

  lemma RowValue(x: int, v: int, l: int, pk: int, pi: int)
    ensures 16 * x * (v + l * pk) * pi == 16 * x * v * pi + (16 * x * l) * (pk * pi)
  {
    MulDistrib(16 * x, v, l * pk);
    MulDistrib(pi, 16 * x * v, 16 * x * (l * pk));
    MulAssoc(16 * x, l, pk);
    MulAssoc(16 * x * l, pk, pi);
  }

  /** Subtract 16 * x[i] * L[0..20] from digits i - 32 .. i - 13, carrying with signed digits. */
  method FoldRow(x: array<i64>, i: nat) returns (carry: i64)
    requires x.Length == 64 && 32 <= i < 64 && Ready(x[..], i + 1)
    modifies x
    ensures forall k :: 0 <= k < i - 32 || i - 12 <= k < 64 ==> x[k] == old(x[k])
    ensures forall k :: i - 32 <= k < i - 12 ==> -128 <= x[k] <= 127
    ensures -CarryBound(20, i == 63) <= carry <= CarryBound(20, i == 63)
    ensures Val(x[..], 256) + carry * Pow(256, i - 12) == old(Val(x[..], 256)) - 16 * old(x[i]) * LOW * Pow(256, i - 32)
  {
    ghost var s0: seq<int>, v0, xi, first := x[..], Val(x[..], 256), x[i], i == 63;
    ghost var k: nat := 0;
    OrderBytes();
    carry := 0;
    var j := i - 32;
    while j < i - 12
      invariant i - 32 <= j <= i - 12 && k == j - (i - 32)
      invariant forall k :: 0 <= k < i - 32 || j <= k < 64 ==> x[k] == s0[k]
      invariant forall k :: i - 32 <= k < j ==> -128 <= x[k] <= 127
      invariant -CarryBound(k, first) <= carry <= CarryBound(k, first)
      invariant Subtracted(Val(x[..], 256), carry, v0, xi, Val(L_BYTES[..k], 256), i, j)
    {
      ghost var v, c := Val(x[..], 256), carry;
      carry := RowStep(x, i, j, carry);
      OneMoreSubtracted(Val(x[..], 256), carry, v, c, v0, xi, i, j, k);
      j, k := j + 1, k + 1;
    }
  }

  /** The part `low` of the row, which ends below digit j, is subtracted from v0 up to the carry into digit j. */
  ghost predicate Subtracted(v: int, c: int, v0: int, x: int, low: int, i: nat, j: nat)
    requires i >= 32
  {
    v + c * Pow(256, j) == v0 - 16 * x * low * Pow(256, i - 32)
  }

  lemma OneMoreSubtracted(v': int, c': int, v: int, c: int, v0: int, x: int, i: nat, j: nat, k: nat)
    requires i >= 32 && k < 20 && j == k + (i - 32) && |L_BYTES| == 32
    requires Subtracted(v, c, v0, x, Val(L_BYTES[..k], 256), i, j)
    requires v' + c' * Pow(256, j + 1) == v + c * Pow(256, j) - 16 * x * L_BYTES[j - (i - 32)] * Pow(256, j)
    ensures Subtracted(v', c', v0, x, Val(L_BYTES[..k + 1], 256), i, j + 1)
  {
    RowPrefix(x, k, i, j);
  }

  lemma RowPrefix(x: int, k: nat, i: nat, j: nat)
    requires k < 20 && i >= 32 && j == k + (i - 32)
    ensures |L_BYTES| == 32
    ensures 16 * x * Val(L_BYTES[..k + 1], 256) * Pow(256, i - 32)
         == 16 * x * Val(L_BYTES[..k], 256) * Pow(256, i - 32) + 16 * x * L_BYTES[k] * Pow(256, j)
  {
    ValPrefixStep(L_BYTES, k, 256);
    PowAdd(256, k, i - 32);
    RowValue(x, Val(L_BYTES[..k], 256), L_BYTES[k], Pow(256, k), Pow(256, i - 32));
  }

  /** One digit: x[j] -= 16 * x[i] * L[k], then keep the signed low byte and carry the rest. */
  method RowStep(x: array<i64>, i: nat, j: nat, c: i64) returns (carry: i64)
    requires x.Length == 64 && 32 <= i < 64 && i - 32 <= j < i - 12 && |L_BYTES| == 32
    requires forall k :: 16 <= k < 20 ==> L_BYTES[k] == 0
    requires -2 * RAW <= x[i] <= 2 * RAW && -RAW <= x[j] <= RAW
    requires j >= i - 16 && i < 63 ==> -128 <= x[j] <= 127
    requires -CarryBound(j - (i - 32), i == 63) <= c <= CarryBound(j - (i - 32), i == 63)
    modifies x
    ensures forall k :: 0 <= k < 64 && k != j ==> x[k] == old(x[k])
    ensures -128 <= x[j] <= 127
    ensures -CarryBound(j + 1 - (i - 32), i == 63) <= carry <= CarryBound(j + 1 - (i - 32), i == 63)
    ensures Val(x[..], 256) + carry * Pow(256, j + 1) == old(Val(x[..], 256)) + c * Pow(256, j) - 16 * old(x[i]) * L_BYTES[j - (i - 32)] * Pow(256, j)
  {
    ghost var s: seq<int>, k := x[..], j - (i - 32);
    DigitProduct(x[i], L_BYTES[k]);
    CarryStays(k, i == 63, s[j], c, 16 * x[i] * L_BYTES[k]);
    var product: i64 := 16 * x[i] * L_BYTES[j - (i - 32)];
    x[j] := x[j] + (c - product);
    carry := (x[j] + 128) / 256;
    x[j] := x[j] - carry * 256;
    assert x[..] == s[j := s[j] + (c - product) - carry * 256];
    StepValue(s, j, c, product, carry);
  }

  method FoldDigit(x: array<i64>, i: nat)
    requires x.Length == 64 && 32 <= i < 64 && Ready(x[..], i + 1)
    modifies x
    ensures Ready(x[..], i)
    ensures Val(x[..], 256) == old(Val(x[..], 256)) - old(x[i]) * Pow(256, i - 32) * (16 * L)
  {
    ghost var s0: seq<int> := x[..];
    var carry := FoldRow(x, i);
    ghost var s1: seq<int> := x[..];
    x[i - 12] := x[i - 12] + carry;
    x[i] := 0;
    assert x[..] == s1[i - 12 := s1[i - 12] + carry][i := 0];
    CloseRow(s1, i, carry);
    FoldTotal(s0[i], i);
  }

  lemma CloseRow(s: seq<int>, i: nat, c: int)
    requires 12 <= i < |s|
    ensures Val(s[i - 12 := s[i - 12] + c][i := 0], 256) == Val(s, 256) + c * Pow(256, i - 12) - s[i] * Pow(256, i)
  {
    ValUpdate(s, i - 12, s[i - 12] + c, 256);
    ValUpdate(s[i - 12 := s[i - 12] + c], i, 0, 256);
  }

  /** 16 * LOW + 2^256 = 16 * L. */
  lemma FoldTotal(x: int, i: nat)
    requires i >= 32
    ensures 16 * x * LOW * Pow(256, i - 32) + x * Pow(256, i) == x * Pow(256, i - 32) * (16 * L)
  {
    Pow256();
    PowAdd(256, 32, i - 32);
    var w := Pow(256, i - 32);
    assert 16 * x * LOW * w == (16 * LOW) * (x * w) by { MulAssoc(16 * LOW, x, w); }
    assert x * (Pow(256, 32) * w) == Pow(256, 32) * (x * w);
  }

  // ---------------------------------------------------------------- the last 256 bits

  /** What the folding leaves: 32 signed digits, each at most 129 in size. */
  ghost predicate Folded(s: seq<int>) {
    |s| == 64 && (forall k :: 0 <= k < 32 ==> -129 <= s[k] <= 128) && (forall k :: 32 <= k < 64 ==> s[k] == 0)
  }

  /** Subtracting floor(x[31] / 16) * L leaves a value in (-L, L). */
  lemma QuotientIsExact(s: seq<int>)
    requires |s| == 32 && forall k :: 0 <= k < 32 ==> -129 <= s[k] <= 128
    ensures -L < Val(s, 256) - s[31] / 16 * L < L
  {
    ValPrefixStep(s, 31, 256);
    assert s[..32] == s;
    ValAbsBound(s[..31], 256, -129, 128);
    Pow256();
    assert Pow(256, 31) == R256 / 256;
    TopDigit(s[31]);
    TopQuotient(Val(s[..31], 256), s[31]);
  }

  lemma TopQuotient(low: int, d: int)
    requires -129 <= d <= 128 && -129 * (R256 / 256 - 1) <= 255 * low <= 128 * (R256 / 256 - 1)
    ensures -L < low + d * (R256 / 256) - d / 16 * L < L
  {
    TopDigit(d);
    QuotientLeft(low, d, d / 16, d % 16, R256 / 256);
  }

  lemma QuotientLeft(low: int, d: int, q: int, r: int, w: int)
    requires d == 16 * q + r && 0 <= r < 16 && -9 <= q <= 8 && w == R256 / 256
    requires -129 * (w - 1) <= 255 * low <= 128 * (w - 1)
    ensures -L < low + d * w - q * L < L
  {
    assert 16 * w + LOW == L;
    Leftover(low, q, r, w);
    MulLe(0, r, w);
    MulLe(r, 15, w);
    MulLe(-9, q, LOW);
    MulLe(q, 8, LOW);
  }

  lemma Leftover(low: int, q: int, r: int, w: int)
    ensures low + (16 * q + r) * w - q * (16 * w + LOW) == low + r * w - q * LOW
  {
  }

  lemma TopDigit(d: int)
    requires -129 <= d <= 128
    ensures d == 16 * (d / 16) + d % 16 && 0 <= d % 16 < 16 && -9 <= d / 16 <= 8
  {
  }

  /** x[0..32] -= (x[31] >> 4) * L with a carry chain that leaves bytes and returns the sign. */
  method SubtractMultiple(x: array<i64>) returns (carry: i64)
    requires x.Length == 64 && Folded(x[..])
    modifies x
    ensures forall k :: 0 <= k < 32 ==> 0 <= x[k] < 256
    ensures forall k :: 32 <= k < 64 ==> x[k] == 0
    ensures var w := old(Val(x[..32], 256)) - old(x[31]) / 16 * L;
      Val(x[..32], 256) + carry * R256 == w && 0 <= Val(x[..32], 256) < R256
    ensures carry == -1 || carry == 0
  {
    ghost var s0: seq<int>, q := x[..32], x[31] / 16;
    carry := 0;
    OrderBytes();
    for j := 0 to 32
      invariant forall k :: 0 <= k < j ==> 0 <= x[k] < 256
      invariant forall k :: j <= k < 32 ==> x[k] == s0[k]
      invariant forall k :: 32 <= k < 64 ==> x[k] == 0
      invariant -0x1000 <= carry <= 0x1000
      invariant Val(x[..32], 256) + carry * Pow(256, j) == Val(s0, 256) - q * Val(L_BYTES[..j], 256)
    {
      carry := QuotientStep(x, j, carry);
      QuotientPrefix(q, j);
    }
    assert L_BYTES[..32] == L_BYTES;
    QuotientIsExact(s0);
    ValBound(x[..32], 256);
    Pow256();
  }

  lemma QuotientPrefix(q: int, j: nat)
    requires j < 32
    ensures |L_BYTES| == 32 && q * Val(L_BYTES[..j + 1], 256) == q * Val(L_BYTES[..j], 256) + (q * L_BYTES[j]) * Pow(256, j)
  {
    ValPrefixStep(L_BYTES, j, 256);
    MulDistrib(q, Val(L_BYTES[..j], 256), L_BYTES[j] * Pow(256, j));
    MulAssoc(q, L_BYTES[j], Pow(256, j));
  }

  method QuotientStep(x: array<i64>, j: nat, c: i64) returns (carry: i64)
    requires x.Length == 64 && j < 32 && |L_BYTES| == 32
    requires -129 <= x[j] <= 128 && -129 <= x[31] <= 128 && -0x1000 <= c <= 0x1000
    modifies x
    ensures forall k :: 0 <= k < 64 && k != j ==> x[k] == old(x[k])
    ensures 0 <= x[j] < 256 && -0x1000 <= carry <= 0x1000
    ensures Val(x[..32], 256) + carry * Pow(256, j + 1)
         == old(Val(x[..32], 256)) + c * Pow(256, j) - old(x[31]) / 16 * L_BYTES[j] * Pow(256, j)
  {
    ghost var s: seq<int> := x[..32];
    ByteProduct(x[31] / 16, L_BYTES[j]);
    var product: i64 := x[31] / 16 * L_BYTES[j];
    x[j] := x[j] + (c - product);
    carry := x[j] / 256;
    x[j] := x[j] % 256;
    assert x[..32] == s[j := s[j] + (c - product) - carry * 256];
    StepValue(s, j, c, product, carry);
  }

  lemma ByteProduct(q: int, l: int)
    requires -9 <= q <= 8 && 0 <= l < 256
    ensures -0x900 <= q * l <= 0x900
  {
    MulLe(q, 9, l);
    MulLe(-9, q, l);
  }

  /** x[j] -= carry * L[j], then the bytes are carried out into r. */
  method AddBackAndStore(r: array<byte>, off: nat, x: array<i64>, carry: i64)
    requires x.Length == 64 && off + 32 <= r.Length && carry in {-1, 0}
    requires forall k :: 0 <= k < 32 ==> 0 <= x[k] < 256
    requires forall k :: 32 <= k < 64 ==> x[k] == 0
    modifies r, x
    ensures LE(r[off..off + 32]) == (old(Val(x[..32], 256)) - carry * L) % R256
    ensures r[..off] == old(r[..off]) && r[off + 32..] == old(r[off + 32..])
  {
    ghost var s0: seq<int> := x[..32];
    OrderBytes();
    for j := 0 to 32
      modifies x
      invariant forall k :: 0 <= k < j ==> x[k] == s0[k] - carry * L_BYTES[k]
      invariant forall k :: j <= k < 32 ==> x[k] == s0[k]
      invariant forall k :: 32 <= k < 64 ==> x[k] == 0
    {
      x[j] := x[j] - carry * L_BYTES[j];
    }
    ValLinear(s0, L_BYTES, x[..32], -carry, 256);
    Store(r, off, x);
  }

  /** The value is split between the bytes stored and the digits still to be stored. */
  ghost predicate Storing(bytes: seq<byte>, digits: seq<int>, v: int) {
    LE(bytes) + Pow(256, |bytes|) * Val(digits, 256) == v
  }

  method StoreOne(r: array<byte>, off: nat, x: array<i64>, i: nat, ghost v: int)
    requires x.Length == 64 && off + 32 <= r.Length && i < 32 && 0 <= x[i] < 520 && 0 <= x[i + 1] < 512
    requires Storing(r[off..off + i], x[i..33], v)
    modifies r, x
    ensures Storing(r[off..off + i + 1], x[i + 1..33], v) && 0 <= x[i + 1] < 520
    ensures forall k :: 0 <= k < 64 && k != i + 1 ==> x[k] == old(x[k])
    ensures forall k :: 0 <= k < r.Length && k != off + i ==> r[k] == old(r[k])
  {
    ghost var t: seq<int>, bytes := x[i..33], r[off..off + i];
    x[i + 1] := x[i + 1] + x[i] / 256;
    r[off + i] := x[i] % 256;
    assert r[off..off + i + 1] == bytes + [t[0] % 256];
    assert x[i + 1..33] == t[1..][0 := t[1] + t[0] / 256];
    StoreStep(bytes, t, i);
  }

  method Store(r: array<byte>, off: nat, x: array<i64>)
    requires x.Length == 64 && off + 32 <= r.Length
    requires forall k :: 0 <= k < 32 ==> 0 <= x[k] < 512
    requires x[32] == 0
    modifies r, x
    ensures LE(r[off..off + 32]) == old(Val(x[..32], 256)) % R256
    ensures r[..off] == old(r[..off]) && r[off + 32..] == old(r[off + 32..])
  {
    ghost var v := Val(x[..32], 256);
    assert x[0..33] == x[..32] + [0] && r[off..off] == [];
    ValSnoc(x[..32], 0, 256);
    for i := 0 to 32
      invariant forall k :: i < k < 33 ==> 0 <= x[k] < 512
      invariant 0 <= x[i] < 520
      invariant Storing(r[off..off + i], x[i..33], v)
      invariant forall k :: 0 <= k < r.Length && !(off <= k < off + 32) ==> r[k] == old(r[k])
    {
      StoreOne(r, off, x, i, v);
    }
    assert x[32..33] == [x[32]];
    StoredValue(r[off..off + 32], x[32], v);
  }

  lemma StoredValue(bytes: seq<byte>, top: int, v: int)
    requires |bytes| == 32 && Storing(bytes, [top], v)
    ensures LE(bytes) == v % R256
  {
    ValBound(bytes, 256);
    Pow256();
    assert Val([top], 256) == top;
    DivOfSum(LE(bytes), R256, top);
  }

  lemma StoreStep(bytes: seq<byte>, t: seq<int>, i: nat)
    requires |bytes| == i && |t| >= 2
    ensures LE(bytes + [t[0] % 256]) + Pow(256, i + 1) * Val(t[1..][0 := t[1] + t[0] / 256], 256) == LE(bytes) + Pow(256, i) * Val(t, 256)
  {
    ValSnoc(bytes, t[0] % 256, 256);
    ValUpdate(t[1..], 0, t[1] + t[0] / 256, 256);
    CarriedOn(Pow(256, i), Val(t[1..], 256), t[0] / 256, t[0] % 256);
  }

  lemma CarriedOn(w: int, u: int, q: int, r: int)
    ensures w * (256 * q + r + 256 * u) == r * w + (256 * w) * (u + q)
  {
    MulDistrib(256 * w, u, q);
    MulDistrib(w, 256 * q + r, 256 * u);
    MulDistrib(w, 256 * q, r);
  }

  /** modL: the 64 signed digits of x modulo L, as 32 canonical bytes of r from `off`. */
  method ModL(r: array<byte>, off: nat, x: array<i64>)
    requires x.Length == 64 && off + 32 <= r.Length
    requires forall k :: 0 <= k < 64 ==> -RAW <= x[k] <= RAW
    modifies r, x
    ensures r[off..off + 32] == Bytes(old(Val(x[..], 256)) % L, 32)
    ensures r[..off] == old(r[..off]) && r[off + 32..] == old(r[off + 32..])
  {
    ghost var v := Val(x[..], 256);
    var i := 63;
    while i >= 32
      modifies x
      invariant 31 <= i <= 63 && Ready(x[..], i + 1)
      invariant Val(x[..], 256) % L == v % L
      decreases i
    {
      ghost var k := -(x[i] * Pow(256, i - 32) * 16);
      ModOfMultiple(Val(x[..], 256), k, L);
      MulAssoc(x[i] * Pow(256, i - 32), 16, L);
      FoldDigit(x, i);
      i := i - 1;
    }
    HighDigitsGone(x[..]);
    FinishModL(r, off, x);
  }

  method FinishModL(r: array<byte>, off: nat, x: array<i64>)
    requires x.Length == 64 && off + 32 <= r.Length && Folded(x[..])
    modifies r, x
    ensures r[off..off + 32] == Bytes(old(Val(x[..32], 256)) % L, 32)
    ensures r[..off] == old(r[..off]) && r[off + 32..] == old(r[off + 32..])
  {
    ghost var low: seq<int> := x[..32];
    ghost var v, q := Val(low, 256), low[31] / 16;
    QuotientIsExact(low);
    var carry := SubtractMultiple(x);
    ghost var b := Val(x[..32], 256);
    AddBackAndStore(r, off, x, carry);
    SignedResidue(v, q, b, carry);
    Pow256();
    BytesUnique(r[off..off + 32], v % L);
  }

  lemma HighDigitsGone(s: seq<int>)
    requires |s| == 64 && forall k :: 32 <= k < 64 ==> s[k] == 0
    ensures Val(s, 256) == Val(s[..32], 256)
  {
    ValSplit(s, 32, 256);
    ValZeros(s[32..], 256);
  }

  lemma SignedResidue(v: int, q: int, b: int, carry: int)
    requires -L < v - q * L < L && carry in {-1, 0} && 0 <= b < R256 && b + carry * R256 == v - q * L
    ensures (b - carry * L) % R256 == v % L
  {
    var w := q + carry;
    var r := v - w * L;
    assert r == v - q * L - carry * L && b - carry * L == -carry * R256 + r;
    DivModUnique(v, L, w, r);
    DivModUnique(b - carry * L, R256, -carry, r);
  }

  /** reduce: a 64-byte string modulo L; the upper half is cleared. */
  method Reduce(r: array<byte>)
    requires r.Length == 64
    modifies r
    ensures r[..32] == Bytes(LE(old(r[..])) % L, 32)
    ensures forall k :: 32 <= k < 64 ==> r[k] == 0
  {
    ghost var v := LE(r[..]);
    var x := Widen(r);
    ghost var digits: seq<int> := x[..];
    for i := 0 to 64
      modifies r
      invariant forall k :: 0 <= k < i ==> r[k] == 0
    {
      r[i] := 0;
    }
    assert x[..] == digits;
    ModL(r, 0, x);
    assert r[0..0 + 32] == r[..32];
    assert forall k :: 32 <= k < 64 ==> r[k] == r[0 + 32..][k - 32];
  }

  method Widen(r: array<byte>) returns (x: array<i64>)
    requires r.Length == 64
    ensures fresh(x) && x.Length == 64 && forall k :: 0 <= k < 64 ==> 0 <= x[k] < 256
    ensures Val(x[..], 256) == LE(r[..])
  {
    x := new i64[64];
    ghost var bytes: seq<int> := r[..];
    for i := 0 to 64
      invariant forall k :: 0 <= k < i ==> x[k] == bytes[k]
    {
      x[i] := r[i];
    }
    assert x[..] == bytes;
  }
}
