/** Bytes to limbs and back: unpack25519, pack25519 and what is decided on packed values. */
module FieldCodec {
  import opened Arith
  import opened Radix
  import opened MachineInts
  import opened LittleEndian
  import opened Field25519

  const R255: int := P + 19

  /** unpack25519: the top bit of the last byte is dropped. */
  method Unpack25519(o: array<i64>, n: seq<byte>)
    requires o.Length == 16 && |n| == 32
    modifies o
    ensures forall k :: 0 <= k < 16 ==> 0 <= o[k] < 65536
    ensures V(o) == LE(n) % R255
  {
    for i := 0 to 16
      invariant forall k :: 0 <= k < i ==> o[k] == (n[2 * k] as int) + 256 * (n[2 * k + 1] as int)
    {
      o[i] := (n[2 * i] as int) + 256 * (n[2 * i + 1] as int);
    }
    ghost var s: seq<int> := o[..];
    ValPairs(s, n, 256);
    o[15] := o[15] % 0x8000;
    TopBitDropped(s);
    assert o[..] == s[15 := s[15] % 0x8000];
  }

  lemma TopBitDropped(s: seq<int>)
    requires |s| == 16 && Digits(s, B16)
    ensures Val(s[15 := s[15] % 0x8000], B16) == Val(s, B16) % R255
  {
    var t := s[15 := s[15] % 0x8000];
    ValUpdate(s, 15, s[15] % 0x8000, B16);
    PowB16();
    ValBound(t[..15], B16);
    ValSplit(t, 15, B16);
    assert t[15..] == [t[15]] && Val([t[15]], B16) == t[15];
    DivModUnique(Val(s, B16), R255, s[15] / 0x8000, Val(t, B16));
  }

  /** m = t - p, limb by limb with a borrow. */
  method SubtractP(t: array<i64>, m: array<i64>)
    requires t != m && t.Length == 16 && m.Length == 16 && Digits(t[..], B16)
    modifies m
    ensures Digits(m[..15], B16) && t[15] - 0x8000 <= m[15] <= t[15] - 0x7fff
    ensures Val(m[..16], B16) == Val(t[..15], B16) - (Pow(B16, 15) - 19) + (t[15] - 0x7fff) * Pow(B16, 15)
  {
    ghost var ts: seq<int> := t[..];
    m[0] := t[0] - 0xffed;
    ValPrefixStep(m[..], 0, B16);
    ValPrefixStep(ts, 0, B16);
    for i := 1 to 15
      modifies m
      invariant Digits(m[..i - 1], B16) && -65536 <= m[i - 1] < 65536
      invariant Val(m[..i], B16) == Val(ts[..i], B16) - (Pow(B16, i) - 19)
    {
      BorrowLimb(m, i, t[i] - 0xffff);
      BorrowTotal(ts, i);
    }
    BorrowLimb(m, 15, t[15] - 0x7fff);
    assert ts[..15] == t[..15];
  }

  /** m = t - p, and its sign. */
  method Difference(t: array<i64>, m: array<i64>)
    requires t != m && t.Length == 16 && m.Length == 16 && Digits(t[..], B16)
    modifies m
    ensures V(m) == V(t) - P && -0x8000 <= m[15] < 0x8001
    ensures if m[15] >= 0 then V(t) >= P && Digits(m[..], B16) else V(t) < P
  {
    SubtractP(t, m);
    ghost var ts: seq<int>, ms: seq<int> := t[..], m[..];
    assert ms[..15] == m[..15] && ms[..16] == m[..16] && ts[..15] == t[..15];
    SubtractionSign(ts, ms);
  }

  /** One round of pack25519: t becomes t - p when that is not negative. */
  method ReduceOnce(t: array<i64>, m: array<i64>)
    requires t != m && t.Length == 16 && m.Length == 16 && Digits(t[..], B16)
    modifies t, m
    ensures Digits(t[..], B16)
    ensures V(t) == if old(V(t)) >= P then old(V(t)) - P else old(V(t))
  {
    ghost var ts := t[..];
    Difference(t, m);
    assert t[..] == ts;
    var b := m[15] / 65536 % 2;
    Sel25519(t, m, 1 - b);
  }

  lemma BorrowTotal(ts: seq<int>, i: nat)
    requires i < |ts|
    ensures Val(ts[..i + 1], B16) - (Pow(B16, i + 1) - 19) == Val(ts[..i], B16) - (Pow(B16, i) - 19) + (ts[i] - 0xffff) * Pow(B16, i)
  {
    ValPrefixStep(ts, i, B16);
    MulDistrib(Pow(B16, i), ts[i], 0xffff);
  }

  /** The top limb of t - p is negative exactly when t < p. */
  lemma SubtractionSign(ts: seq<int>, ms: seq<int>)
    requires |ts| == |ms| == 16 && Digits(ts, B16) && Digits(ms[..15], B16)
    requires ts[15] - 0x8000 <= ms[15] <= ts[15] - 0x7fff
    requires Val(ms[..16], B16) == Val(ts[..15], B16) - (Pow(B16, 15) - 19) + (ts[15] - 0x7fff) * Pow(B16, 15)
    ensures Val(ms, B16) == Val(ts, B16) - P
    ensures if ms[15] >= 0 then Val(ts, B16) >= P && Digits(ms, B16) else Val(ts, B16) < P
  {
    var w := Pow(B16, 15);
    ValPrefixStep(ts, 15, B16);
    ValPrefixStep(ms, 15, B16);
    assert ts[..16] == ts && ms[..16] == ms;
    PowB16();
    ValBound(ms[..15], B16);
    TakenFromTop(Val(ts[..15], B16), ts[15], w, Val(ms, B16));
    SignOfTop(Val(ms[..15], B16), ms[15], w);
    assert forall k :: 0 <= k < 15 ==> ms[..15][k] == ms[k];
  }

  lemma TakenFromTop(low: int, top: int, w: int, v: int)
    requires v == low - (w - 19) + (top - 0x7fff) * w && 0x8000 * w - 19 == P
    ensures v == low + top * w - P
  {
    MulDistrib(w, top, 0x7fff);
  }

  lemma SignOfTop(low: int, top: int, w: int)
    requires 0 <= low < w
    ensures low + top * w >= 0 <==> top >= 0
  {
    if top >= 0 {
      MulLe(0, top, w);
    } else {
      MulLe(top, -1, w);
    }
  }

  /** m[i] = d - borrow of limb i - 1, whose digit is then masked to 16 bits. */
  method BorrowLimb(m: array<i64>, i: nat, d: int)
    requires 1 <= i < 16 && m.Length == 16 && -65535 <= d <= 65535
    requires Digits(m[..i - 1], B16) && -65536 <= m[i - 1] < 65536
    modifies m
    ensures Digits(m[..i], B16) && d - 1 <= m[i] <= d
    ensures Val(m[..i + 1], B16) == old(Val(m[..i], B16)) + d * Pow(B16, i)
  {
    ghost var s: seq<int> := m[..i];
    m[i] := d - m[i - 1] / 65536 % 2;
    m[i - 1] := m[i - 1] % 65536;
    ghost var b := s[i - 1] / 65536 % 2;
    assert m[..i] == s[i - 1 := s[i - 1] + b * B16];
    ghost var ms: seq<int> := m[..];
    assert ms[..i] == m[..i] && ms[..i + 1] == m[..i + 1];
    BorrowValue(s, ms, i, b, d);
  }

  lemma BorrowValue(s: seq<int>, ms: seq<int>, i: nat, b: int, d: int)
    requires 1 <= i == |s| < |ms| && ms[..i] == s[i - 1 := s[i - 1] + b * B16] && ms[i] == d - b
    ensures Val(ms[..i + 1], B16) == Val(s, B16) + d * Pow(B16, i)
  {
    ValUpdate(s, i - 1, s[i - 1] + b * B16, B16);
    ValPrefixStep(ms, i, B16);
    Lent(b, d, Pow(B16, i - 1));
  }

  lemma Lent(b: int, d: int, p: int)
    ensures b * B16 * p + (d - b) * (B16 * p) == d * (B16 * p)
  {
    MulAssoc(b, B16, p);
    MulDistrib(B16 * p, d, b);
  }

  /** Three carry rounds leave sixteen digits of a value in [0, 2^256). */
  method CarThrice(t: array<i64>)
    requires t.Length == 16
    requires Within(t[..], WIDE)
    modifies t
    ensures Digits(t[..], B16) && 0 <= V(t) < R256
    ensures Fe(t) == old(Fe(t))
  {
    ghost var v := V(t);
    TopBound(t[..]);
    Car25519(t);
    ghost var v1 := V(t);
    NextTop(t[..], 38 * (v / R256));
    Car25519(t);
    ghost var v2 := V(t);
    Car25519(t);
    FoldedThrice(v);
    assert Digits(t[..], B16);
  }

  lemma FoldedThrice(v: int)
    requires -0x8000_0000_0000 <= v / R256 <= 0x8000_0000_0000
    ensures var w := Folded(Folded(v)); 0 <= w < R256 && w / R256 == 0 && Folded(w) == w && w % P == v % P
  {
    FoldedKeepsResidue(v);
    FoldedKeepsResidue(Folded(v));
  }

  /** Two conditional subtractions reach the canonical residue. */
  method Freeze(t: array<i64>)
    requires t.Length == 16 && Digits(t[..], B16) && 0 <= V(t) < R256
    modifies t
    ensures Digits(t[..], B16) && V(t) == old(Fe(t))
  {
    var m := new i64[16];
    ghost var v := V(t);
    for j := 0 to 2
      modifies t, m
      invariant Digits(t[..], B16)
      invariant 0 <= V(t) < (if j == 0 then R256 else if j == 1 then P + 38 else P)
      invariant V(t) == v || V(t) == v - P || V(t) == v - 2 * P
    {
      ghost var w := V(t);
      ValBound(t[..], B16);
      ReduceOnce(t, m);
    }
  }

  /** pack25519: the canonical encoding of the residue of n. */
  method Pack25519(o: array<byte>, n: array<i64>)
    requires o.Length >= 32 && n.Length == 16
    requires Within(n[..], WIDE)
    modifies o
    ensures o[..32] == Bytes(Fe(n), 32)
    ensures o[32..] == old(o[32..])
  {
    var t := new i64[16];
    Set25519(t, n);
    assert t[..] == n[..];
    CarThrice(t);
    Freeze(t);
    WriteLimbs(o, t);
  }

  method WriteLimbs(o: array<byte>, t: array<i64>)
    requires o.Length >= 32 && Digits(t[..], B16) && t.Length == 16
    modifies o
    ensures o[..32] == Bytes(V(t), 32)
    ensures o[32..] == old(o[32..])
  {
    ghost var ts: seq<int> := t[..];
    for i := 0 to 16
      invariant forall k :: 0 <= k < i ==> ts[k] == (o[2 * k] as int) + 256 * (o[2 * k + 1] as int)
      invariant o[32..] == old(o[32..])
    {
      o[2 * i] := t[i] % 256;
      o[2 * i + 1] := t[i] / 256;
    }
    ValPairs(ts, o[..32], 256);
    ValBound(ts, B16);
    PowB16();
    Pow256();
    BytesUnique(o[..32], V(t));
  }

  /** neq25519: 0 exactly when the two residues are equal. */
  method Neq25519(a: array<i64>, b: array<i64>) returns (r: int)
    requires Within(a[..], WIDE) && Within(b[..], WIDE)
    ensures r == if Fe(a) == Fe(b) then 0 else -1
  {
    var c, d := new byte[32], new byte[32];
    Pack25519(c, a);
    Pack25519(d, b);
    assert c[..] == c[..32] && d[..] == d[..32];
    r := Vn(c[..], d[..], 32);
    Pow256();
    BytesValue(Fe(a), 32);
    BytesValue(Fe(b), 32);
  }

  /** par25519: the parity of the canonical residue. */
  method Par25519(a: array<i64>) returns (r: int)
    requires Within(a[..], WIDE)
    ensures r == Fe(a) % 2
  {
    var d := new byte[32];
    Pack25519(d, a);
    r := d[0] % 2;
    Pow256();
    BytesValue(Fe(a), 32);
    assert d[..32][0] == d[0];
    LowBit(d[..32]);
  }

  /** Unpacking and packing again gives the bytes back exactly when they are the canonical encoding of a residue. */
  lemma UnpackThenPack(n: seq<byte>)
    requires |n| == 32
    ensures Bytes(LE(n) % R255 % P, 32) == n <==> LE(n) < P
  {
    Pow256();
    ValBound(n, 256);
    BytesValue(LE(n) % R255 % P, 32);
    if LE(n) < P {
      DivModUnique(LE(n), R255, 0, LE(n));
      DivModUnique(LE(n), P, 0, LE(n));
      BytesUnique(n, LE(n));
    }
  }
}
