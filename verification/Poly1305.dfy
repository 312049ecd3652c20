/** crypto_onetimeauth against Poly1305 of RFC 8439, section 2.5. */
module Poly1305 {
  import opened Arith
  import opened Radix
  import opened MachineInts
  import opened LittleEndian

  const P130: int := 0x3_ffffffff_ffffffff_ffffffff_fffffffb
  const R136: int := 0x100_00000000_00000000_00000000_00000000
  const R128: int := 0x1_00000000_00000000_00000000_00000000

  // ---------------------------------------------------------------- RFC 8439, section 2.5

  function Clamp(k: seq<byte>): seq<byte>
    requires |k| == 16
  {
    seq(16, i requires 0 <= i < 16 =>
      if i in {3, 7, 11, 15} then k[i] % 16 else if i in {4, 8, 12} then k[i] - k[i] % 4 else k[i])
  }

  /** The accumulator after all blocks of msg; each block gets a 1 byte on top. */
  function Accumulate(msg: seq<byte>, r: int, acc: int): int
    decreases |msg|
  {
    if |msg| == 0 then acc
    else
      var n := if |msg| < 16 then |msg| else 16;
      Accumulate(msg[n..], r, (acc + LE(msg[..n] + [1])) * r % P130)
  }

  function KeyR(key: seq<byte>): int
    requires |key| == 32
  {
    LE(Clamp(key[..16]))
  }

  function KeyS(key: seq<byte>): int
    requires |key| == 32
  {
    LE(key[16..])
  }

  function Digest(msg: seq<byte>, r: int): int {
    Accumulate(msg, r, 0)
  }

  function Tag(msg: seq<byte>, key: seq<byte>): (t: seq<byte>)
    requires |key| == 32
    ensures |t| == 16
  {
    Bytes((Digest(msg, KeyR(key)) + KeyS(key)) % R128, 16)
  }

  // ---------------------------------------------------------------- 17-byte numbers

  lemma Pow17()
    ensures Pow(256, 16) == R128 && Pow(256, 17) == R136
  {
    Pow256();
    assert Pow(256, 17) == 256 * Pow(256, 16);
  }

  ghost predicate Is17(s: seq<int>) {
    |s| == 17 && Digits(s, 256)
  }

  /** add1305: 17-byte addition, the carry out of the top byte is dropped. */
  method Add1305(h: array<u64>, c: seq<u64>)
    requires Is17(h[..]) && Is17(c)
    modifies h
    ensures Is17(h[..])
    ensures Val(h[..], 256) == (old(Val(h[..], 256)) + Val(c, 256)) % (R136)
  {
    ghost var hs: seq<int> := h[..];
    var u: u64 := 0;
    for j := 0 to 17
      invariant 0 <= u <= 1
      invariant forall k :: 0 <= k < j ==> 0 <= h[k] < 256
      invariant forall k :: j <= k < 17 ==> h[k] == hs[k]
      invariant Val(h[..j], 256) + u * Pow(256, j) == Val(hs[..j], 256) + Val(c[..j], 256)
    {
      ghost var t: seq<int>, u0 := h[..j], u;
      u := u + h[j] + c[j];
      h[j] := u % 256;
      u := u / 256;
      assert h[..j + 1] == t + [h[j]];
      AddStep(t, hs, c, j, u0);
    }
    assert hs[..17] == hs && c[..17] == c && h[..17] == h[..];
    ValBound(h[..], 256);
    Pow17();
    DivOfSum(Val(h[..], 256), R136, u);
  }

  lemma AddStep(t: seq<int>, a: seq<int>, b: seq<int>, j: nat, u: int)
    requires |t| == j < |a| == |b|
    requires Val(t, 256) + u * Pow(256, j) == Val(a[..j], 256) + Val(b[..j], 256)
    ensures var w := u + a[j] + b[j];
      Val(t + [w % 256], 256) + w / 256 * Pow(256, j + 1) == Val(a[..j + 1], 256) + Val(b[..j + 1], 256)
  {
    var w := u + a[j] + b[j];
    ValSnoc(t, w % 256, 256);
    ValPrefixStep(a, j, 256);
    ValPrefixStep(b, j, 256);
    CarryOut(w, Pow(256, j));
    assert w * Pow(256, j) == u * Pow(256, j) + a[j] * Pow(256, j) + b[j] * Pow(256, j) by {
      MulDistrib(Pow(256, j), u + a[j], b[j]);
      MulDistrib(Pow(256, j), u, a[j]);
    }
  }

  lemma CarryOut(w: int, p: int)
    ensures w % 256 * p + w / 256 * (256 * p) == w * p
  {
    MulDistrib(p, w % 256, 256 * (w / 256));
    MulAssoc(w / 256, 256, p);
  }

  // ---------------------------------------------------------------- the product modulo 2^130 - 5

  /** Row j of the product: r shifted up by j bytes, what passes byte 17 re-enters times 320. */
  function Row(r: seq<int>, j: nat): (s: seq<int>)
    requires |r| == 17 && j < 17
    ensures |s| == 17
  {
    seq(17, i requires 0 <= i < 17 => if j <= i then r[i - j] else 320 * r[i + 17 - j])
  }

  lemma RowParts(r: seq<int>, j: nat)
    requires |r| == 17 && j < 17
    ensures Val(Row(r, j), 256) == 320 * Val(r[17 - j..], 256) + Pow(256, j) * Val(r[..17 - j], 256)
  {
    var high, zeros := r[17 - j..], seq(j, _ => 0);
    ValZeros(zeros, 256);
    var scaled := seq(j, i requires 0 <= i < j => 320 * high[i]);
    ValLinear(zeros, high, scaled, 320, 256);
    assert Row(r, j) == scaled + r[..17 - j];
    ValAppend(scaled, r[..17 - j], 256);
  }

  lemma RowValue(r: seq<int>, j: nat)
    requires |r| == 17 && j < 17
    ensures Val(Row(r, j), 256) % P130 == (Pow(256, j) * Val(r, 256)) % P130
  {
    RowParts(r, j);
    ValSplit(r, 17 - j, 256);
    PowAdd(256, j, 17 - j);
    Pow17();
    Wrap(Pow(256, j), Pow(256, 17 - j), Val(r[..17 - j], 256), Val(r[17 - j..], 256), Val(Row(r, j), 256), Val(r, 256));
  }

  /** 2^136 = 320 modulo 2^130 - 5. */
  lemma Wrap(w: int, q: int, a: int, b: int, x: int, y: int)
    requires w * q == R136 && x == 320 * b + w * a && y == a + q * b
    ensures x % P130 == (w * y) % P130
  {
    MulDistrib(w, a, q * b);
    MulAssoc(w, q, b);
    ModOfMultiple(320 * b + w * a, 64 * b, P130);
  }

  /** Sum of the first n rows, each times its byte of h. */
  function Rows(h: seq<int>, r: seq<int>, n: nat): (s: seq<int>)
    requires |h| == |r| == 17 && n <= 17
    ensures |s| == 17
  {
    if n == 0 then seq(17, _ => 0)
    else
      var t, row := Rows(h, r, n - 1), Row(r, n - 1);
      seq(17, i requires 0 <= i < 17 => t[i] + h[n - 1] * row[i])
  }

  lemma {:induction false} RowsValue(h: seq<int>, r: seq<int>, n: nat)
    requires |h| == |r| == 17 && n <= 17
    ensures Val(Rows(h, r, n), 256) % P130 == (Val(h[..n], 256) * Val(r, 256)) % P130
  {
    if n == 0 {
      ValZeros(Rows(h, r, 0), 256);
    } else {
      RowsValue(h, r, n - 1);
      var d := h[n - 1];
      ValLinear(Rows(h, r, n - 1), Row(r, n - 1), Rows(h, r, n), d, 256);
      RowValue(r, n - 1);
      ValPrefixStep(h, n - 1, 256);
      RowsStep(Val(Rows(h, r, n - 1), 256), Val(Row(r, n - 1), 256), d, Pow(256, n - 1), Val(h[..n - 1], 256), Val(r, 256));
    }
  }

  lemma RowsStep(t: int, row: int, d: int, w: int, v: int, r: int)
    requires t % P130 == (v * r) % P130 && row % P130 == (w * r) % P130
    ensures (t + d * row) % P130 == ((v + d * w) * r) % P130
  {
    ScaledResidue(row, w * r, d);
    SumResidue(t, d * row, v * r, d * (w * r));
    MulDistrib(r, v, d * w);
    MulAssoc(d, w, r);
  }

  lemma ScaledResidue(x: int, y: int, d: int)
    requires x % P130 == y % P130
    ensures (d * x) % P130 == (d * y) % P130
  {
    ModMul(d, x, P130);
    ModMul(d, y, P130);
  }

  lemma SumResidue(a: int, b: int, c: int, d: int)
    requires a % P130 == c % P130 && b % P130 == d % P130
    ensures (a + b) % P130 == (c + d) % P130
  {
    ModAdd(a, b, P130);
    ModAdd(c, d, P130);
  }

  lemma {:induction false} RowsBound(h: seq<int>, r: seq<int>, n: nat, i: nat)
    requires Is17(h) && Is17(r) && n <= 17 && i < 17
    ensures 0 <= Rows(h, r, n)[i] <= n * 20808000
  {
    if n > 0 {
      RowsBound(h, r, n - 1, i);
      var x := Row(r, n - 1)[i];
      assert 0 <= x <= 81600;
      MulLe(0, x, h[n - 1]);
      MulLe(x, 81600, h[n - 1]);
      MulLe(h[n - 1], 255, 81600);
    }
  }

  method Multiply(h: array<u64>, r: seq<u64>) returns (x: array<u64>)
    requires Is17(h[..]) && Is17(r)
    ensures fresh(x) && x.Length == 17 && x[..] == Rows(h[..], r, 17)
    ensures forall k :: 0 <= k < 17 ==> 0 <= x[k] < 0x2000_0000
  {
    x := new u64[17];
    ghost var hs, rows := h[..], Rows(h[..], r, 17);
    for i := 0 to 17
      invariant forall k :: 0 <= k < i ==> x[k] == rows[k] && 0 <= x[k] < 0x2000_0000
    {
      assert h[..] == hs;
      x[i] := Column(h, r, i, rows);
    }
    assert x[..] == rows && h[..] == hs;
  }

  /** x[i]: the inner loop over j. */
  method Column(h: array<u64>, r: seq<u64>, i: nat, ghost rows: seq<int>) returns (x: u64)
    requires Is17(h[..]) && Is17(r) && i < 17 && rows == Rows(h[..], r, 17)
    ensures x == rows[i] && 0 <= x < 0x2000_0000
  {
    x := 0;
    for j := 0 to 17
      invariant x == Rows(h[..], r, j)[i] && 0 <= x < 0x2000_0000
    {
      var c: u64 := if j <= i then r[i - j] else 320 * r[i + 17 - j];
      assert c == Row(r, j)[i];
      RowsBound(h[..], r, j + 1, i);
      RowsUnfold(h[..], r, j, i);
      x := x + h[j] * c;
    }
  }

  lemma RowsUnfold(h: seq<int>, r: seq<int>, j: nat, i: nat)
    requires |h| == |r| == 17 && j < 17 && i < 17
    ensures Rows(h, r, j + 1)[i] == Rows(h, r, j)[i] + h[j] * Row(r, j)[i]
  {
  }

  /** Sixteen carries starting from u; the excess comes back, with h[16] added. */
  method CarryLow(h: array<u64>, u0: u64) returns (u: u64)
    requires h.Length == 17 && 0 <= u0 < 0x1_0000_0000 && forall k :: 0 <= k < 17 ==> 0 <= h[k] < 0x2000_0000
    modifies h
    ensures forall k :: 0 <= k < 16 ==> 0 <= h[k] < 256
    ensures h[16] == old(h[16]) && 0 <= u < 0x2400_0000
    ensures Val(h[..16], 256) + u * R128 == u0 + old(Val(h[..], 256))
  {
    ghost var hs: seq<int> := h[..];
    u := u0;
    for j := 0 to 16
      invariant 0 <= u < 0x1_0000_0000
      invariant j >= 1 ==> u < 0x300_0000
      invariant forall k :: 0 <= k < j ==> 0 <= h[k] < 256
      invariant forall k :: j <= k < 17 ==> h[k] == hs[k]
      invariant Val(h[..j], 256) + u * Pow(256, j) == u0 + Val(hs[..j], 256)
    {
      ghost var t: seq<int>, c := h[..j], u;
      u := u + h[j];
      h[j] := u % 256;
      u := u / 256;
      assert h[..j + 1] == t + [h[j]];
      LowStep(t, hs, j, c, u0);
    }
    ValPrefixStep(hs, 16, 256);
    assert hs[..17] == hs;
    Pow17();
    u := u + h[16];
  }

  lemma LowStep(t: seq<int>, a: seq<int>, j: nat, u: int, v: int)
    requires |t| == j < |a|
    requires Val(t, 256) + u * Pow(256, j) == v + Val(a[..j], 256)
    ensures var w := u + a[j];
      Val(t + [w % 256], 256) + w / 256 * Pow(256, j + 1) == v + Val(a[..j + 1], 256)
  {
    var w := u + a[j];
    ValSnoc(t, w % 256, 256);
    ValPrefixStep(a, j, 256);
    CarryOut(w, Pow(256, j));
    MulDistrib(Pow(256, j), u, a[j]);
  }

  /** u += h[16] was done; h[16] = u & 3, and five times the rest goes to the bottom. */
  method Squeeze(h: array<u64>)
    requires h.Length == 17 && forall k :: 0 <= k < 17 ==> 0 <= h[k] < 0x2000_0000
    modifies h
    ensures Is17(h[..]) && h[16] <= 4
    ensures Val(h[..], 256) % P130 == old(Val(h[..], 256)) % P130
    ensures 0 <= Val(h[..], 256) < P130 + 0x1_0000_0000_0000
  {
    ghost var v := Val(h[..], 256);
    var u := CarryLow(h, 0);
    ghost var u1, low, hs: seq<int> := u, Val(h[..16], 256), h[..];
    h[16] := u % 4;
    assert h[..] == hs[..16] + [u1 % 4] && hs[..16] == h[..16];
    TopByte(h[..]);
    SecondCarry(h, 5 * (u / 4));
    Fold130(v, low, u1);
    LowRange(hs);
    SmallTop(h[..], low, u1);
  }

  lemma LowRange(hs: seq<int>)
    requires |hs| == 17 && Digits(hs[..16], 256)
    ensures 0 <= Val(hs[..16], 256) < R128
  {
    TopByte(hs);
  }

  method SecondCarry(h: array<u64>, u0: u64)
    requires h.Length == 17 && 0 <= u0 < 0x1_0000_0000 && forall k :: 0 <= k < 17 ==> 0 <= h[k] < 0x2000_0000
    modifies h
    ensures h.Length == 17 && Digits(h[..16], 256) && Val(h[..], 256) == u0 + old(Val(h[..], 256))
  {
    var u := CarryLow(h, u0);
    ghost var low := h[..16];
    h[16] := u;
    assert h[..16] == low;
    TopByte(h[..]);
  }

  lemma TopByte(h: seq<int>)
    requires |h| == 17
    ensures Val(h, 256) == Val(h[..16], 256) + h[16] * R128
    ensures Digits(h[..16], 256) ==> 0 <= Val(h[..16], 256) < R128
  {
    ValPrefixStep(h, 16, 256);
    assert h[..17] == h;
    Pow17();
    if Digits(h[..16], 256) {
      ValBound(h[..16], 256);
    }
  }

  lemma SmallTop(h: seq<int>, low: int, u: int)
    requires |h| == 17 && 0 <= low < R128 && 0 <= u < 0x2400_0000 && Digits(h[..16], 256)
    requires Val(h, 256) == low + u % 4 * R128 + 5 * (u / 4)
    ensures 0 <= h[16] <= 4 && 0 <= Val(h, 256) < P130 + 0x1_0000_0000_0000
  {
    TopByte(h);
  }

  lemma Fold130(v: int, low: int, u: int)
    requires v == low + u * R128
    ensures (low + u % 4 * R128 + 5 * (u / 4)) % P130 == v % P130
  {
    assert v == low + u % 4 * R128 + 5 * (u / 4) + u / 4 * P130;
    ModOfMultiple(low + u % 4 * R128 + 5 * (u / 4), u / 4, P130);
  }

  // ---------------------------------------------------------------- the message loop

  method LoadBytes(m: array<byte>, off: nat, n: nat) returns (c: array<u64>, j: nat)
    requires off + n <= m.Length
    ensures fresh(c) && c.Length == 17 && j == if n < 16 then n else 16
    ensures forall k :: 0 <= k < 17 ==> c[k] == if k < j then m[off + k] else 0
  {
    c := new u64[17](_ => 0);
    j := 0;
    while j < 16 && j < n
      invariant j <= 16 && j <= n
      invariant forall k :: 0 <= k < 17 ==> c[k] == if k < j then m[off + k] else 0
    {
      c[j] := m[off + j];
      j := j + 1;
    }
  }

  /** c = the next block of at most 16 bytes, a 1 on top, zeros above. */
  method LoadBlock(m: array<byte>, off: nat, n: nat) returns (c: array<u64>, j: nat)
    requires off + n <= m.Length
    ensures fresh(c) && Is17(c[..]) && j == (if n < 16 then n else 16)
    ensures Val(c[..], 256) == LE(m[off..off + j] + [1]) && 0 <= Val(c[..], 256) < 2 * R128
  {
    c, j := LoadBytes(m, off, n);
    ghost var s := m[off..off + j];
    assert forall k :: 0 <= k < j ==> c[k] == s[k];
    c[j] := 1;
    BlockValue(c[..], s);
  }

  lemma BlockValue(c: seq<int>, s: seq<byte>)
    requires |c| == 17 && |s| <= 16 && forall k :: 0 <= k < 17 ==> c[k] == if k < |s| then s[k] else if k == |s| then 1 else 0
    ensures Val(c, 256) == LE(s + [1]) && 0 <= Val(c, 256) < 2 * R128
  {
    var block: seq<int>, zeros := s + [1], c[|s| + 1..];
    assert c == block + zeros;
    ValAppend(block, zeros, 256);
    ValZeros(zeros, 256);
    BlockBound(s);
  }

  lemma BlockBound(block: seq<byte>)
    requires |block| <= 16
    ensures 0 <= LE(block + [1]) < 2 * R128
  {
    ValSnoc(block, 1, 256);
    ValBound(block, 256);
    PowAdd(256, |block|, 16 - |block|);
    PowPositive(256, 16 - |block|);
    PowPositive(256, |block|);
    MulLe(1, Pow(256, 16 - |block|), Pow(256, |block|));
    Pow17();
  }

  /** What h carries between blocks: the accumulator modulo p, below 2p. */
  ghost predicate Holds(h: seq<int>, acc: int) {
    Is17(h) && 0 <= Val(h, 256) < P130 + 0x1_0000_0000_0000 && Val(h, 256) % P130 == acc % P130
  }

  method AbsorbBlock(h: array<u64>, r: seq<u64>, m: array<byte>, off: nat, n: nat, ghost acc: int) returns (j: nat)
    requires off + n <= m.Length && Is17(r) && Holds(h[..], acc)
    modifies h
    ensures j == if n < 16 then n else 16
    ensures Holds(h[..], (acc + LE(m[off..off + j] + [1])) * Val(r, 256))
  {
    ghost var before := Val(h[..], 256);
    j := AddBlock(h, m, off, n);
    ghost var block := LE(m[off..off + j] + [1]);
    SumResidue(before, block, acc, block);
    ProductResidueOf(before + block, acc + block, Val(r, 256));
    MultiplyInto(h, r);
  }

  method AddBlock(h: array<u64>, m: array<byte>, off: nat, n: nat) returns (j: nat)
    requires off + n <= m.Length && Is17(h[..]) && 0 <= Val(h[..], 256) < P130 + 0x1_0000_0000_0000
    modifies h
    ensures j == (if n < 16 then n else 16) && Is17(h[..])
    ensures Val(h[..], 256) == old(Val(h[..], 256)) + LE(m[off..off + j] + [1])
  {
    ghost var before, hs := Val(h[..], 256), h[..];
    var c;
    c, j := LoadBlock(m, off, n);
    assert h[..] == hs;
    NoWrap(before, Val(c[..], 256));
    Add1305(h, c[..]);
  }

  lemma NoWrap(a: int, b: int)
    requires 0 <= a < P130 + 0x1_0000_0000_0000 && 0 <= b < 2 * R128
    ensures (a + b) % R136 == a + b
  {
  }

  method MultiplyInto(h: array<u64>, r: seq<u64>)
    requires Is17(h[..]) && Is17(r)
    modifies h
    ensures Holds(h[..], old(Val(h[..], 256)) * Val(r, 256))
  {
    ghost var hs: seq<int> := h[..];
    var x := Multiply(h, r);
    RowsValue(hs, r, 17);
    assert hs[..17] == hs;
    CopyLimbs(h, x);
    Squeeze(h);
  }

  lemma ProductResidueOf(x: int, y: int, r: int)
    requires x % P130 == y % P130
    ensures (x * r) % P130 == (y * r) % P130
  {
    ModMul(x, r, P130);
    ModMul(y, r, P130);
  }

  method CopyLimbs(h: array<u64>, x: array<u64>)
    requires h.Length == 17 && x.Length == 17
    modifies h
    ensures h[..] == old(x[..])
  {
    for i := 0 to 17
      invariant forall k :: 0 <= k < i ==> h[k] == old(x[k])
      invariant forall k :: i <= k < 17 ==> x[k] == old(x[k])
    {
      h[i] := x[i];
    }
  }

  // ---------------------------------------------------------------- the final freeze

  /** h ^= s & (g ^ h): h stays for s = 0 and becomes g for s = all ones. */
  method SelectBy(h: array<u64>, g: array<u64>, s: u64)
    requires h != g && h.Length == 17 && g.Length == 17 && (s == 0 || s == 0xffff_ffff_ffff_ffff)
    modifies h
    ensures h[..] == if s == 0 then old(h[..]) else g[..]
  {
    ghost var hs := h[..];
    for j := 0 to 17
      modifies h
      invariant forall k :: 0 <= k < j ==> h[k] == (if s == 0 then hs[k] else g[k])
      invariant forall k :: j <= k < 17 ==> h[k] == hs[k]
    {
      MaskedSelect(h[j], g[j], s);
      h[j] := Xor(h[j], And(s, Xor(g[j], h[j])));
    }
  }

  /** The top bit of v - p on 17 bytes is set exactly when v < p. */
  lemma FrozenValue(v: int, hs: seq<int>)
    requires 0 <= v < P130 + 0x1_0000_0000_0000 && Is17(hs) && Val(hs, 256) == (v + (R136 - P130)) % R136
    ensures hs[16] / 128 == if v < P130 then 1 else 0
    ensures v % P130 == if v < P130 then v else Val(hs, 256)
  {
    TopByte(hs);
    WithoutP(v);
  }

  lemma WithoutP(v: int)
    requires 0 <= v < P130 + 0x1_0000_0000_0000
    ensures (v + (R136 - P130)) % R136 == if v < P130 then v + (R136 - P130) else v - P130
    ensures v % P130 == if v < P130 then v else v - P130
  {
  }

  /** h - p is selected unless it is negative, by a mask made of the top bit. */
  method Freeze(h: array<u64>)
    requires Is17(h[..]) && 0 <= Val(h[..], 256) < P130 + 0x1_0000_0000_0000
    modifies h
    ensures Is17(h[..]) && Val(h[..], 256) == old(Val(h[..], 256)) % P130
  {
    var g := new u64[17];
    CopyLimbs(g, h);
    ghost var v, gs := Val(h[..], 256), h[..];
    assert g[..] == gs;
    MinusP();
    Add1305(h, MINUS_P);
    FrozenValue(v, h[..]);
    var top: int := h[16] / 128;
    var s: u64 := (0 - top) % 0x1_0000_0000_0000_0000;
    SelectBy(h, g, s);
  }

  const MINUS_P: seq<u64> := [5] + seq(15, _ => 0) + [252]

  lemma MinusP()
    ensures Is17(MINUS_P) && Val(MINUS_P, 256) == R136 - P130
  {
    ValZeros(seq(15, _ => 0), 256);
    ValAppend([5], seq(15, _ => 0), 256);
    assert Val([5], 256) == 5;
    ValSnoc([5] + seq(15, _ => 0), 252, 256);
    Pow17();
  }

  /** h ^ (s & (g ^ h)) is h for s = 0 and g for s = all ones. */
  lemma MaskedSelect(h: u64, g: u64, s: u64)
    requires s == 0 || s == 0xffff_ffff_ffff_ffff
    ensures Xor(h, And(s, Xor(g, h))) == if s == 0 then h else g
  {
    var d := Xor(g, h);
    if s == 0 {
      AndMask(d);
      XorZero(h, g);
    } else {
      AllOnes(g, h);
      XorCommutes(g, h);
      XorCancel(h, g);
    }
  }

  lemma AllOnes(g: u64, h: u64)
    ensures And(0xffff_ffff_ffff_ffff, Xor(g, h)) == Xor(g, h)
  {
    Pow2Words();
    XorFits(g, h, 64);
    OnesMask(Xor(g, h), 0xffff_ffff_ffff_ffff);
  }

  lemma OnesMask(d: int, ones: int)
    requires ones == Pow(2, 64) - 1 && 0 <= d <= ones
    ensures And(ones, d) == d
  {
    AndLow(d, 64);
    DivModUnique(d, Pow(2, 64), 0, d);
    AndCommutes(ones, d);
  }

  /** r = the clamped first half of the key, as 17 digits. */
  method LoadKey(k: array<byte>, off: nat) returns (r: array<u64>)
    requires off + 32 <= k.Length
    ensures fresh(r) && Is17(r[..])
    ensures Val(r[..], 256) == KeyR(k[off..off + 32])
  {
    assert k[off..off + 32][..16] == k[off..off + 16];
    r := new u64[17](_ => 0);
    ghost var ks := k[off..off + 16];
    for j := 0 to 16
      invariant forall i :: 0 <= i < j ==> r[i] == ks[i]
      invariant forall i :: j <= i < 17 ==> r[i] == 0
    {
      r[j] := k[off + j];
    }
    ClampInPlace(r);
    assert forall i :: 0 <= i < 16 ==> r[i] == Clamp(ks)[i];
    assert r[..] == Clamp(ks) + [0];
    ValSnoc(Clamp(ks), 0, 256);
  }

  function Low4(x: int): (y: int)
    requires 0 <= x < 256
    ensures y == x % 16
  {
    MaskAt(x, 4, 16);
    And(x, 15)
  }

  function Clear2Low(x: int): (y: int)
    requires 0 <= x < 256
    ensures y == x - x % 4 && 0 <= y < 256
  {
    Clear2(x);
    And(x, 252)
  }

  /** r[3] &= 15, r[4] &= 252, and so on. */
  method ClampInPlace(r: array<u64>)
    requires r.Length == 17 && forall i :: 0 <= i < 17 ==> 0 <= r[i] < 256
    modifies r
    ensures r[3] == old(r[3]) % 16 && r[7] == old(r[7]) % 16 && r[11] == old(r[11]) % 16 && r[15] == old(r[15]) % 16
    ensures r[4] == old(r[4] - r[4] % 4) && r[8] == old(r[8] - r[8] % 4) && r[12] == old(r[12] - r[12] % 4)
    ensures forall i :: 0 <= i < 17 && i !in {3, 4, 7, 8, 11, 12, 15} ==> r[i] == old(r[i])
  {
    r[3] := Low4(r[3]);
    r[4] := Clear2Low(r[4]);
    r[7] := Low4(r[7]);
    r[8] := Clear2Low(r[8]);
    r[11] := Low4(r[11]);
    r[12] := Clear2Low(r[12]);
    r[15] := Low4(r[15]);
  }

  /** crypto_onetimeauth; `out` and the key may lie in the same buffer. */
  method CryptoOnetimeauth(out: array<byte>, outOff: nat, m: array<byte>, mOff: nat, n: nat, k: array<byte>, kOff: nat)
    requires outOff + 16 <= out.Length && mOff + n <= m.Length && kOff + 32 <= k.Length
    modifies out
    ensures out[outOff..outOff + 16] == Tag(old(m[mOff..mOff + n]), old(k[kOff..kOff + 32]))
    ensures out[..outOff] == old(out[..outOff]) && out[outOff + 16..] == old(out[outOff + 16..])
  {
    ghost var msg, key := m[mOff..mOff + n], k[kOff..kOff + 32];
    var h := ComputeDigest(m, mOff, n, k, kOff);
    assert k[kOff + 16..kOff + 32] == key[16..];
    AddSecondHalf(out, outOff, h, k, kOff);
  }

  /** The frozen accumulator of the message. */
  method ComputeDigest(m: array<byte>, mOff: nat, n: nat, k: array<byte>, kOff: nat) returns (h: array<u64>)
    requires mOff + n <= m.Length && kOff + 32 <= k.Length
    ensures fresh(h) && Is17(h[..]) && 0 <= Val(h[..], 256) < P130
    ensures Val(h[..], 256) == Digest(m[mOff..mOff + n], KeyR(k[kOff..kOff + 32]))
  {
    ghost var msg, rv := m[mOff..mOff + n], KeyR(k[kOff..kOff + 32]);
    var r := LoadKey(k, kOff);
    h := new u64[17](_ => 0);
    ValZeros(h[..], 256);
    assert m[mOff..mOff + n] == msg;
    AbsorbAll(h, r[..], m, mOff, n, msg, rv);
    DigestRange(msg, rv);
    Freeze(h);
  }

  lemma DigestRange(msg: seq<byte>, r: int)
    ensures 0 <= Digest(msg, r) < P130 && Digest(msg, r) % P130 == Digest(msg, r)
  {
    AccumulateRange(msg, r, 0);
  }

  lemma {:induction false} AccumulateRange(msg: seq<byte>, r: int, acc: int)
    requires 0 <= acc < P130
    ensures 0 <= Accumulate(msg, r, acc) < P130
    decreases |msg|
  {
    if |msg| > 0 {
      var n := if |msg| < 16 then |msg| else 16;
      AccumulateRange(msg[n..], r, (acc + LE(msg[..n] + [1])) * r % P130);
    }
  }

  method AbsorbAll(h: array<u64>, r: seq<u64>, m: array<byte>, mOff: nat, len: nat, ghost msg: seq<byte>, ghost rv: int)
    requires Is17(r) && Is17(h[..]) && Val(h[..], 256) == 0 && mOff + len <= m.Length
    requires msg == m[mOff..mOff + len] && rv == Val(r, 256)
    modifies h
    ensures Holds(h[..], Digest(msg, rv))
  {
    var off: nat, n: nat := mOff, len;
    ghost var acc := 0;
    while n > 0
      invariant off + n == mOff + len && off >= mOff
      invariant Holds(h[..], acc)
      invariant Accumulate(m[off..off + n], rv, acc) == Digest(msg, rv)
      decreases n
    {
      var j;
      j, acc := AbsorbStep(h, r, m, off, n, acc);
      off, n := off + j, n - j;
    }
    assert m[off..off + n] == [];
  }

  method AbsorbStep(h: array<u64>, r: seq<u64>, m: array<byte>, off: nat, n: nat, ghost acc: int) returns (j: nat, ghost next: int)
    requires off + n <= m.Length && Is17(r) && Holds(h[..], acc) && n > 0
    modifies h
    ensures 0 < j <= n && Holds(h[..], next)
    ensures Accumulate(m[off + j..off + n], Val(r, 256), next) == Accumulate(m[off..off + n], Val(r, 256), acc)
  {
    ghost var rest, rv := m[off..off + n], Val(r, 256);
    j := AbsorbBlock(h, r, m, off, n, acc);
    assert rest[..j] == m[off..off + j] && rest[j..] == m[off + j..off + n];
    ghost var sum := (acc + LE(rest[..j] + [1])) * rv;
    next := sum % P130;
    ModIdem(sum, P130);
  }

  /** c = the second half of the key. */
  method LoadSecondHalf(k: array<byte>, kOff: nat) returns (c: array<u64>)
    requires kOff + 32 <= k.Length
    ensures fresh(c) && Is17(c[..]) && Val(c[..], 256) == KeyS(k[kOff..kOff + 32]) && 0 <= Val(c[..], 256) < R128
  {
    ghost var ks: seq<int> := k[kOff..kOff + 32][16..];
    c := new u64[17](_ => 0);
    for j := 0 to 16
      modifies c
      invariant forall i :: 0 <= i < j ==> c[i] == ks[i]
      invariant c[16] == 0
    {
      c[j] := k[j + kOff + 16];
    }
    assert c[..] == ks + [0];
    ValSnoc(ks, 0, 256);
    ValBound(ks, 256);
    Pow17();
  }

  /** out[j] = h[j] for the low sixteen bytes. */
  method StoreTag(out: array<byte>, outOff: nat, h: array<u64>)
    requires outOff + 16 <= out.Length && Is17(h[..])
    modifies out
    ensures out[outOff..outOff + 16] == h[..16]
    ensures out[..outOff] == old(out[..outOff]) && out[outOff + 16..] == old(out[outOff + 16..])
  {
    for j := 0 to 16
      modifies out
      invariant forall i :: 0 <= i < j ==> out[outOff + i] == h[i]
      invariant forall i :: 0 <= i < out.Length && !(outOff <= i < outOff + 16) ==> out[i] == old(out[i])
    {
      out[outOff + j] := h[j];
    }
  }

  /** out = the low sixteen bytes of h + s. */
  method AddSecondHalf(out: array<byte>, outOff: nat, h: array<u64>, k: array<byte>, kOff: nat)
    requires outOff + 16 <= out.Length && kOff + 32 <= k.Length
    requires Is17(h[..]) && 0 <= Val(h[..], 256) < P130
    modifies out, h
    ensures out[outOff..outOff + 16] == Bytes((old(Val(h[..], 256)) + old(KeyS(k[kOff..kOff + 32]))) % R128, 16)
    ensures out[..outOff] == old(out[..outOff]) && out[outOff + 16..] == old(out[outOff + 16..])
  {
    ghost var v, s, hs := Val(h[..], 256), KeyS(k[kOff..kOff + 32]), h[..];
    var c := LoadSecondHalf(k, kOff);
    assert h[..] == hs;
    NoWrap(v, s);
    Add1305(h, c[..]);
    StoreTag(out, outOff, h);
    LowSixteen(h[..], v + s, out[outOff..outOff + 16]);
  }

  lemma LowSixteen(h: seq<u64>, v: int, s: seq<byte>)
    requires Is17(h) && Val(h, 256) == v && s == h[..16]
    ensures s == Bytes(v % R128, 16)
  {
    TopByte(h);
    LowBytes(Val(h[..16], 256), h[16]);
    Pow256();
    BytesUnique(s, v % R128);
  }

  lemma LowBytes(low: int, top: int)
    requires 0 <= low < R128
    ensures (low + top * R128) % R128 == low
  {
    ModOfMultiple(low, top, R128);
  }

  /** crypto_onetimeauth_verify: 0 exactly when h is the tag. */
  method CryptoOnetimeauthVerify(h: seq<byte>, m: array<byte>, mOff: nat, n: nat, k: array<byte>) returns (r: int)
    requires |h| == 16 && mOff + n <= m.Length && k.Length >= 32
    ensures r == if h == Tag(m[mOff..mOff + n], k[..32]) then 0 else -1
  {
    var x := new byte[16];
    CryptoOnetimeauth(x, 0, m, mOff, n, k, 0);
    assert x[..][..16] == x[0..0 + 16] && k[0..0 + 32] == k[..32] && h[..16] == h;
    r := Vn(h, x[..], 16);
  }
}
