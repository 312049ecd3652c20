/** The 16-limb representation of integers modulo 2^255 - 19. */
module Field25519 {
  import opened Arith
  import opened Radix
  import opened MachineInts
  import opened LittleEndian

  const P: int := 0x7fffffff_ffffffff_ffffffff_ffffffff_ffffffff_ffffffff_ffffffff_ffffffed
  const B16: int := 65536

  lemma PowB16()
    ensures Pow(B16, 15) * B16 == Pow(B16, 16) == R256
    ensures Pow(B16, 15) == 0x1_00000000_00000000_00000000_00000000_00000000_00000000_00000000_0000
  {
    assert Pow(B16, 4) == 0x1_0000_0000_0000_0000;
    PowAdd(B16, 4, 4);
    PowAdd(B16, 8, 8);
    PowAdd(B16, 15, 1);
    assert Pow(B16, 1) == B16;
  }

  /** Value of the limbs. */
  ghost function V(a: array<i64>): int
    reads a
  {
    Val(a[..], B16)
  }

  /** Moving `c` units of 2^16 from limb i to limb i + 1 keeps the value. */
  lemma CarryKeepsValue(s: seq<int>, i: nat, c: int)
    requires i + 1 < |s|
    ensures Val(s[i + 1 := s[i + 1] + c][i := s[i] - c * B16], B16) == Val(s, B16)
  {
    var t := s[i + 1 := s[i + 1] + c];
    ValUpdate(s, i + 1, s[i + 1] + c, B16);
    ValUpdate(t, i, s[i] - c * B16, B16);
    var p := Pow(B16, i);
    assert c * (B16 * p) + (-(c * B16)) * p == 0 by { MulAssoc(c, B16, p); }
  }

  /** The fold 2^256 = 38 (mod p) that the top carry goes through. */
  function Folded(v: int): int {
    v % R256 + 38 * (v / R256)
  }

  lemma FoldedKeepsResidue(v: int)
    ensures Folded(v) % P == v % P
  {
    assert Folded(v) == v + (-2 * (v / R256)) * P;
    ModOfMultiple(v, -2 * (v / R256), P);
  }

  /** After fifteen carries the top limb holds the whole excess over 2^256. */
  lemma TopCarry(s: seq<int>)
    requires |s| == 16 && Digits(s[..15], B16)
    ensures Val(s, B16) / R256 == s[15] / 65536
  {
    ValSplit(s, 15, B16);
    ValBound(s[..15], B16);
    PowB16();
    assert s[15..] == [s[15]];
    assert Val([s[15]], B16) == s[15];
    var low := Val(s[..15], B16) + Pow(B16, 15) * (s[15] % 65536);
    DivModUnique(Val(s, B16), R256, s[15] / 65536, low);
  }

  lemma FoldStep(s: seq<int>)
    requires |s| == 16 && Digits(s[..15], B16)
    ensures var c := s[15] / 65536;
      && c == Val(s, B16) / R256
      && Val(s[0 := s[0] + 38 * c][15 := s[15] - c * B16], B16) == Folded(Val(s, B16))
  {
    TopCarry(s);
    var c := s[15] / 65536;
    ValUpdate(s, 0, s[0] + 38 * c, B16);
    ValUpdate(s[0 := s[0] + 38 * c], 15, s[15] - c * B16, B16);
    PowB16();
  }

  /** The largest limbs that a carry round takes. */
  const WIDE: int := 0x4000_0000_0000_0000

  /** Limbs of size at most n. */
  ghost predicate Within(s: seq<int>, n: int) {
    |s| == 16 && forall k :: 0 <= k < 16 ==> -n <= s[k] <= n
  }

  /** One carry from limb i to limb i + 1. */
  method CarryLimb(o: array<i64>, i: nat)
    requires o.Length == 16 && i < 15
    requires -0x4001_0000_0000_0000 <= o[i] <= 0x4001_0000_0000_0000 && -WIDE <= o[i + 1] <= WIDE
    modifies o
    ensures V(o) == old(V(o)) && 0 <= o[i] < 65536 && -0x4001_0000_0000_0000 <= o[i + 1] <= 0x4001_0000_0000_0000
    ensures forall k :: 0 <= k < 16 && k != i && k != i + 1 ==> o[k] == old(o[k])
  {
    ghost var s: seq<int> := o[..];
    o[i] := o[i] + 65536;
    var c: i64 := o[i] / 65536;
    o[i + 1] := o[i + 1] + c - 1;
    o[i] := o[i] - c * 65536;
    assert o[..] == s[i + 1 := s[i + 1] + (c - 1)][i := s[i] - (c - 1) * B16];
    CarryKeepsValue(s, i, c - 1);
  }

  /** The last carry goes to limb 0, times 38. */
  method CarryTop(o: array<i64>)
    requires o.Length == 16 && forall k :: 0 <= k < 15 ==> 0 <= o[k] < 65536
    requires -0x4001_0000_0000_0000 <= o[15] <= 0x4001_0000_0000_0000
    modifies o
    ensures V(o) == Folded(old(V(o))) && 0 <= o[15] < 65536 && 0 <= o[0] - 38 * (old(V(o)) / R256) < 65536
    ensures forall k :: 1 <= k < 15 ==> o[k] == old(o[k])
  {
    ghost var s: seq<int> := o[..];
    FoldStep(s);
    o[15] := o[15] + 65536;
    var c: i64 := o[15] / 65536;
    var fold: i64 := 37 * (c - 1);
    o[0] := o[0] + c - 1 + fold;
    o[15] := o[15] - c * 65536;
    assert c - 1 == s[15] / 65536;
    assert o[..] == s[0 := s[0] + 38 * (s[15] / 65536)][15 := s[15] - s[15] / 65536 * B16];
  }

  /** car25519: sixteen carries in a ring, the last one folded back times 38. */
  method Car25519(o: array<i64>)
    requires o.Length == 16
    requires Within(o[..], WIDE)
    modifies o
    ensures forall k :: 1 <= k < 16 ==> 0 <= o[k] < 65536
    ensures 0 <= o[0] - 38 * (old(V(o)) / R256) < 65536
    ensures V(o) == Folded(old(V(o)))
  {
    ghost var v, s := V(o), o[..];
    for i := 0 to 15
      invariant V(o) == v
      invariant forall k :: 0 <= k < i ==> 0 <= o[k] < 65536
      invariant forall k :: i < k < 16 ==> o[k] == s[k]
      invariant -0x4001_0000_0000_0000 <= o[i] <= 0x4001_0000_0000_0000
    {
      CarryLimb(o, i);
    }
    CarryTop(o);
  }

  // ---------------------------------------------------------------- products

  /** The residue a gf stands for. */
  ghost function Fe(a: array<i64>): int
    reads a
  {
    V(a) % P
  }

  function FAdd(x: int, y: int): int { (x + y) % P }
  function FSub(x: int, y: int): int { (x - y) % P }
  function FMul(x: int, y: int): int { (x * y) % P }

  /** What M demands of each limb of its inputs. */
  ghost predicate Small(s: seq<int>) {
    |s| == 16 && forall k :: 0 <= k < 16 ==> -0x400_0000 < s[k] < 0x400_0000
  }

  /** What M delivers. */
  ghost predicate Reduced(s: seq<int>) {
    |s| == 16 && -38 <= s[0] < 65574 && forall k :: 1 <= k < 16 ==> 0 <= s[k] < 65536
  }

  /** Two carry rounds bring any representable value into reduced form. */
  method CarTwice(o: array<i64>)
    requires o.Length == 16
    requires Within(o[..], WIDE)
    modifies o
    ensures Reduced(o[..])
    ensures Fe(o) == old(Fe(o))
  {
    ghost var s: seq<int> := o[..];
    Car25519(o);
    TopBound(s);
    ghost var t: seq<int> := o[..];
    NextTop(t, 38 * (Val(s, B16) / R256));
    FoldedKeepsResidue(Val(s, B16));
    Car25519(o);
    FoldedKeepsResidue(Val(t, B16));
  }

  lemma TopBound(s: seq<int>)
    requires |s| == 16
    requires Within(s, WIDE)
    ensures -0x8000_0000_0000 <= Val(s, B16) / R256 <= 0x8000_0000_0000
  {
    ValAbsBound(s, B16, -0x4000_0000_0000_0000, 0x4000_0000_0000_0000);
    PowB16();
  }

  lemma NextTop(t: seq<int>, d: int)
    requires |t| == 16 && -0x40_0000_0000_0000 <= d <= 0x40_0000_0000_0000
    requires 0 <= t[0] - d < 65536 && forall k :: 1 <= k < 16 ==> 0 <= t[k] < 65536
    ensures -1 <= Val(t, B16) / R256 <= 1
  {
    var u := t[0 := t[0] - d];
    ValUpdate(t, 0, t[0] - d, B16);
    ValBound(u, B16);
    PowB16();
  }

  const TERM: int := 0x10_0000_0000_0000

  /** M: schoolbook product into 31 limbs, fold by 38, two carries.  `o` may be `a` or `b`. */
  method M(o: array<i64>, a: array<i64>, b: array<i64>)
    requires o.Length == 16 && Small(a[..]) && Small(b[..])
    modifies o
    ensures Reduced(o[..])
    ensures Fe(o) == FMul(old(Fe(a)), old(Fe(b)))
  {
    ghost var product := FMul(Fe(a), Fe(b));
    var t := Product(a, b);
    FoldHigh(t);
    ghost var folded: seq<int> := t[..16];
    for i := 0 to 16
      modifies o
      invariant forall k :: 0 <= k < i ==> o[k] == t[k]
    {
      o[i] := t[i];
    }
    assert o[..] == folded;
    CarTwice(o);
  }

  lemma FMulOfValues(x: int, y: int)
    ensures (x * y) % P == FMul(x % P, y % P)
  {
    ModMul(x, y, P);
  }

  method Product(a: array<i64>, b: array<i64>) returns (t: array<i64>)
    requires Small(a[..]) && Small(b[..])
    ensures fresh(t) && t.Length == 31 && Val(t[..], B16) % P == FMul(Fe(a), Fe(b))
    ensures forall k :: 0 <= k < 31 ==> -16 * TERM <= t[k] <= 16 * TERM
  {
    t := new i64[31](_ => 0);
    ghost var xs: seq<int>, w := a[..], V(b);
    FMulOfValues(V(a), w);
    ValZeros(t[..], B16);
    for i := 0 to 16
      invariant Val(t[..], B16) == Val(xs[..i], B16) * w
      invariant forall k :: 0 <= k < 31 ==> (0 - i) * TERM <= t[k] <= i * TERM
    {
      AddRow(t, a, b, i);
      ValPrefixStep(xs, i, B16);
      RowTotal(Val(xs[..i], B16), xs[i] * Pow(B16, i), w);
    }
    assert xs[..16] == xs;
  }

  lemma RowTotal(v: int, d: int, w: int)
    ensures (v + d) * w == v * w + d * w
  {
  }

  /** t[0..16] += 38 * t[16..31] keeps the residue. */
  method FoldHigh(t: array<i64>)
    requires t.Length == 31
    requires forall k :: 0 <= k < 31 ==> -16 * TERM <= t[k] <= 16 * TERM
    modifies t
    ensures Val(t[..16], B16) % P == old(Val(t[..], B16)) % P
    ensures Within(t[..16], WIDE)
  {
    ghost var s: seq<int> := t[..];
    for i := 0 to 15
      invariant forall k :: 0 <= k < i ==> t[k] == s[k] + 38 * s[k + 16]
      invariant forall k :: i <= k < 31 ==> t[k] == s[k]
    {
      var c: i64 := 38 * t[i + 16];
      t[i] := t[i] + c;
    }
    ghost var high := s[16..] + [0];
    ValLinear(s[..16], high, t[..16], 38, B16);
    ValSnoc(s[16..], 0, B16);
    ValSplit(s, 16, B16);
    PowB16();
    ModOfMultiple(Val(t[..16], B16), 2 * Val(s[16..], B16), P);
  }

  method AddRow(t: array<i64>, a: array<i64>, b: array<i64>, i: nat)
    requires i < 16 && t.Length == 31 && Small(a[..]) && Small(b[..]) && t != a && t != b
    requires forall k :: 0 <= k < 31 ==> (0 - i) * TERM <= t[k] <= i * TERM
    modifies t
    ensures Val(t[..], B16) == old(Val(t[..], B16)) + a[i] * Pow(B16, i) * Val(b[..], B16)
    ensures forall k :: 0 <= k < 31 ==> (0 - i - 1) * TERM <= t[k] <= (i + 1) * TERM
  {
    ghost var t0 := Val(t[..], B16);
    ghost var ys: seq<int> := b[..];
    for j := 0 to 16
      invariant Val(t[..], B16) == t0 + a[i] * Pow(B16, i) * Val(ys[..j], B16)
      invariant forall k :: 0 <= k < 31 ==> (if i <= k < i + j then 0 - i - 1 else 0 - i) * TERM <= t[k] <= (if i <= k < i + j then i + 1 else i) * TERM
    {
      ghost var s: seq<int> := t[..];
      ProductBound(a[i], b[j]);
      var p: i64 := a[i] * b[j];
      t[i + j] := t[i + j] + p;
      assert t[..] == s[i + j := s[i + j] + p];
      ValUpdate(s, i + j, s[i + j] + p, B16);
      PowAdd(B16, i, j);
      ValPrefixStep(ys, j, B16);
      RowStep(a[i], Pow(B16, i), Val(ys[..j], B16), b[j], Pow(B16, j));
    }
    assert ys[..16] == ys;
  }

  lemma ProductBound(x: int, y: int)
    requires -0x400_0000 < x < 0x400_0000 && -0x400_0000 < y < 0x400_0000
    ensures -TERM <= x * y <= TERM
  {
    var b := 0x400_0000;
    if y >= 0 {
      MulLe(-b, x, y);
      MulLe(x, b, y);
    } else {
      MulLe(-b, x, -y);
      MulLe(x, b, -y);
    }
  }

  lemma RowStep(x: int, p: int, v: int, y: int, q: int)
    ensures x * p * (v + y * q) == x * p * v + (x * y) * (p * q)
  {
    MulDistrib(x * p, v, y * q);
    MulSwap(x, p, y, q);
  }

  method S(o: array<i64>, a: array<i64>)
    requires o.Length == 16 && Small(a[..])
    modifies o
    ensures Reduced(o[..])
    ensures Fe(o) == FMul(old(Fe(a)), old(Fe(a)))
  {
    M(o, a, a);
  }

  // ---------------------------------------------------------------- sums, copies, selection

  /** A: limb-wise sum, no carry; it stays inside M's input bound when the sizes do. */
  method A(o: array<i64>, a: array<i64>, b: array<i64>, ghost m: int, ghost n: int)
    requires o.Length == 16 && Within(a[..], m) && Within(b[..], n) && m + n < 0x8000_0000_0000_0000
    modifies o
    ensures Within(o[..], m + n) && (m + n < 0x400_0000 ==> Small(o[..]))
    ensures Fe(o) == FAdd(old(Fe(a)), old(Fe(b)))
  {
    ghost var xs: seq<int>, ys: seq<int> := a[..], b[..];
    for i := 0 to 16
      invariant forall k :: 0 <= k < i ==> o[k] == xs[k] + ys[k]
      invariant forall k :: i <= k < 16 ==> a[k] == xs[k] && b[k] == ys[k]
    {
      o[i] := a[i] + b[i];
    }
    ValLinear(xs, ys, o[..], 1, B16);
    ModAdd(Val(xs, B16), Val(ys, B16), P);
  }

  /** Z: limb-wise difference, no borrow. */
  method Z(o: array<i64>, a: array<i64>, b: array<i64>, ghost m: int, ghost n: int)
    requires o.Length == 16 && Within(a[..], m) && Within(b[..], n) && m + n < 0x8000_0000_0000_0000
    modifies o
    ensures Within(o[..], m + n) && (m + n < 0x400_0000 ==> Small(o[..]))
    ensures Fe(o) == FSub(old(Fe(a)), old(Fe(b)))
  {
    ghost var xs: seq<int>, ys: seq<int> := a[..], b[..];
    for i := 0 to 16
      invariant forall k :: 0 <= k < i ==> o[k] == xs[k] - ys[k]
      invariant forall k :: i <= k < 16 ==> a[k] == xs[k] && b[k] == ys[k]
    {
      o[i] := a[i] - b[i];
    }
    ValLinear(xs, ys, o[..], -1, B16);
    ModSub(Val(xs, B16), Val(ys, B16), P);
  }

  method Set25519(r: array<i64>, a: array<i64>)
    requires r.Length == 16 && a.Length == 16
    modifies r
    ensures r[..] == old(a[..])
  {
    for i := 0 to 16
      invariant forall k :: 0 <= k < i ==> r[k] == old(a[k])
      invariant forall k :: i <= k < 16 ==> a[k] == old(a[k])
    {
      r[i] := a[i];
    }
  }

  /** sel25519: exchanges p and q limb by limb exactly when b = 1, with a mask and no branch. */
  method Sel25519(p: array<i64>, q: array<i64>, b: int)
    requires p.Length == 16 && q.Length == 16 && 0 <= b <= 1
    modifies p, q
    ensures p[..] == if b == 1 then old(q[..]) else old(p[..])
    ensures q[..] == if b == 1 then old(p[..]) else old(q[..])
  {
    ghost var xs, ys := p[..], q[..];
    var c: i64 := Not(b - 1);
    for i := 0 to 16
      invariant forall k :: 0 <= k < i ==> p[k] == (if b == 1 then ys[k] else xs[k])
      invariant forall k :: 0 <= k < i ==> q[k] == (if b == 1 then xs[k] else ys[k])
      invariant forall k :: i <= k < 16 ==> p[k] == xs[k] && q[k] == ys[k]
    {
      MaskedSwap(p[i], q[i], b);
      var t: i64 := And(c, Xor(p[i], q[i]));
      p[i] := Xor(p[i], t);
      q[i] := Xor(q[i], t);
    }
  }

  /** gf0 and gf1 */
  method SmallConstant(n: int) returns (r: array<i64>)
    requires n == 0 || n == 1
    ensures fresh(r) && Within(r[..], n) && Fe(r) == n
  {
    r := new i64[16](i => if i == 0 then n else 0);
    ValZeros(r[..][1..], B16);
  }
}
