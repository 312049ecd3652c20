/** crypto_sign_keypair and crypto_sign of tweetnacl.c against RFC 8032 section 5.1, and crypto_sign_open. */
module Sign {
  import opened Arith
  import opened Radix
  import opened MachineInts
  import opened LittleEndian
  import opened Field25519
  import opened EdwardsLaw
  import opened Edwards
  import opened Scalar
  import opened Wrappers
  import Group
  import Sha512
  import X25519

  // ---------------------------------------------------------------- RFC 8032, sections 5.1.5 and 5.1.6, and the test of the code

  type Hash64 = s: seq<byte> | |s| == 64 witness seq(64, _ => 0)

  type Bytes32 = s: seq<byte> | |s| == 32 witness seq(32, _ => 0)

  function Sha512Hash(m: seq<byte>): Hash64 {
    Sha512.Sha512(m)
  }

  /** The bytes of a multiple of the base point, as scalarbase and pack compute them. */
  ghost function BaseMultiple(s: seq<byte>): Bytes32
  {
    Packed(Ladder(LE(s), BASE_EXT, 0).0)
  }

  /** The bytes that crypto_sign_open compares with R: [h](-A) + [S]B, packed. */
  ghost function Expected(a: Point, h: seq<byte>, s: seq<byte>): Bytes32
  {
    Packed(RfcSum(Ladder(LE(h), Ext(a.x, a.y, 1, FMul(a.x, a.y)), 0).0, Ladder(LE(s), BASE_EXT, 0).0))
  }

  /** S = r + h a modulo the order. */
  function Response(r: seq<byte>, h: seq<byte>, a: seq<byte>): Bytes32
  {
    Bytes((LE(r) + LE(h) * LE(a)) % L, 32)
  }

  ghost function UnpackedOrNone(pk: seq<byte>): Option<Point> {
    if |pk| == 32 then Unpacked(pk) else None
  }

  /** What the scheme is made of: hash function, multiples of the base point, the bytes compared with R, the second half
      of a signature, decoded and negated public keys. */
  datatype Scheme = Scheme(
    hash: seq<byte> -> Hash64,
    base: seq<byte> -> Bytes32,
    expected: (Point, seq<byte>, seq<byte>) -> Bytes32,
    respond: (seq<byte>, seq<byte>, seq<byte>) -> Bytes32,
    unpack: seq<byte> -> Option<Point>)

  ghost const ED25519: Scheme := Scheme(Sha512Hash, BaseMultiple, Expected, Response, UnpackedOrNone)

  /** sch is Ed25519, folded. */
  ghost predicate IsEd25519(sch: Scheme) {
    && (forall m: seq<byte> {:trigger Sha512.Sha512(m)} :: sch.hash(m) == Sha512.Sha512(m))
    && (forall s: seq<byte> {:trigger BaseMultiple(s)} :: sch.base(s) == BaseMultiple(s))
    && (forall a, h: seq<byte>, s: seq<byte> {:trigger Expected(a, h, s)} :: sch.expected(a, h, s) == Expected(a, h, s))
    && (forall r: seq<byte>, h: seq<byte>, a: seq<byte> {:trigger Response(r, h, a)} :: sch.respond(r, h, a) == Response(r, h, a))
    && (forall pk: seq<byte> {:trigger UnpackedOrNone(pk)} :: sch.unpack(pk) == UnpackedOrNone(pk))
  }

  lemma SchemeImplemented()
    ensures IsEd25519(ED25519)
  {
  }

  /** The pruned lower half of the hashed secret. */
  function Secret(sch: Scheme, sk: seq<byte>): (s: seq<byte>)
    requires |sk| >= 32
    ensures |s| == 32
  {
    X25519.DecodeScalar(sch.hash(sk[..32])[..32])
  }

  /** A hash read as a little-endian number and taken modulo the order of the base point. */
  function HashScalar(sch: Scheme, m: seq<byte>): (s: seq<byte>)
    ensures |s| == 32
  {
    Bytes(LE(sch.hash(m)) % L, 32)
  }

  function PublicKey(sch: Scheme, seed: seq<byte>): (pk: seq<byte>)
    requires |seed| == 32
    ensures |pk| == 32
  {
    sch.base(Secret(sch, seed))
  }

  function Nonce(sch: Scheme, sk: seq<byte>, m: seq<byte>): (r: seq<byte>)
    requires |sk| == 64
    ensures |r| == 32
  {
    HashScalar(sch, sch.hash(sk[..32])[32..] + m)
  }

  /** R, then S = r + H(R, A, M) a modulo the order, then the message. */
  function Signed(sch: Scheme, sk: seq<byte>, m: seq<byte>): (sm: seq<byte>)
    requires |sk| == 64
    ensures |sm| == |m| + 64
  {
    var r := Nonce(sch, sk, m);
    var h := HashScalar(sch, sch.base(r) + sk[32..] + m);
    sch.base(r) + sch.respond(r, h, Secret(sch, sk)) + m
  }

  /** The message of a signed message, if the bytes compared with R for the second half s are R. */
  function OpenedWith(sch: Scheme, pk: seq<byte>, sm: seq<byte>, s: seq<byte>): (m: Option<seq<byte>>)
    requires |pk| == 32
  {
    if |sm| < 64 || sch.unpack(pk).None? then None
    else
      var h := HashScalar(sch, sm[..32] + pk + sm[64..]);
      if sm[..32] == sch.expected(sch.unpack(pk).value, h, s) then Some(sm[64..]) else None
  }

  /** The message of a signed message, if crypto_sign_open accepts it. Module Acceptance says what that means and how it
      differs from section 5.1.7. */
  function Opened(sch: Scheme, pk: seq<byte>, sm: seq<byte>): (m: Option<seq<byte>>)
    requires |pk| == 32
  {
    if |sm| < 64 then None else OpenedWith(sch, pk, sm, sm[32..64])
  }

  // ---------------------------------------------------------------- what is signed is accepted

  /** The base point has order L: with Curve(), what is taken from mathematics. */
  ghost predicate BaseOrder() {
    forall n: nat {:trigger BaseTimes(n)} :: n == L ==> BaseTimes(n) == ZERO
  }

  ghost function BaseTimes(n: nat): Point {
    Group.Times(Points(), n, BASE)
  }

  lemma BaseMultipleEncodes(s: seq<byte>)
    requires Curve() && |s| == 32
    ensures LE(s) >= 0 && OnCurve(BaseTimes(LE(s))) && BaseMultiple(s) == Encode(BaseTimes(LE(s)))
  {
    BaseOnCurve();
    BaseRepresents();
    ScalarMultiple(s, BASE_EXT, BASE);
    PointsFormGroup();
    Group.TimesHas(Points(), LE(s), BASE);
    PackedPoint(Ladder(LE(s), BASE_EXT, 0).0, BaseTimes(LE(s)));
  }

  /** The bytes compared with R are the encoding of [h]a + [s]B. */
  lemma ExpectedEncodes(a: Point, h: seq<byte>, s: seq<byte>)
    requires Curve() && OnCurve(a) && |h| == |s| == 32
    ensures LE(h) >= 0 && LE(s) >= 0
    ensures Expected(a, h, s) == Encode(Add(Group.Times(Points(), LE(h), a), BaseTimes(LE(s))))
  {
    var e := Ext(a.x, a.y, 1, FMul(a.x, a.y));
    AffineRepresents(a);
    BaseOnCurve();
    BaseRepresents();
    ScalarMultiple(h, e, a);
    ScalarMultiple(s, BASE_EXT, BASE);
    PointsFormGroup();
    Group.TimesHas(Points(), LE(h), a);
    Group.TimesHas(Points(), LE(s), BASE);
    var u, v := Ladder(LE(h), e, 0).0, Ladder(LE(s), BASE_EXT, 0).0;
    SumRepresents(u, v, Group.Times(Points(), LE(h), a), BaseTimes(LE(s)));
    PackedPoint(RfcSum(u, v), Add(Group.Times(Points(), LE(h), a), BaseTimes(LE(s))));
  }

  function ScalarOf(s: seq<byte>): nat {
    ValBound(s, 256);
    LE(s)
  }

  /** [h](-A) + [S]B = [r]B for a public key A = [a]B and S = r + h a. */
  lemma ResponsePoints(a: nat, r: nat, h: nat, s: nat)
    requires Curve() && BaseOrder() && h * a >= 0 && s == (h * a + r) % L
    ensures Add(Group.Times(Points(), h, Neg(BaseTimes(a))), BaseTimes(s)) == BaseTimes(r)
    ensures OnCurve(BaseTimes(a)) && OnCurve(Neg(BaseTimes(a)))
  {
    PointsFormGroup();
    BaseOnCurve();
    Group.TimesHas(Points(), a, BASE);
    NegOnCurve(BaseTimes(a));
    var n: nat := L;
    assert BaseTimes(n) == ZERO;
    Group.SignatureEquation(Points(), BASE, n, a, r, h, s);
  }

  lemma ResponseAccepted(a: seq<byte>, r: seq<byte>, h: seq<byte>, s: seq<byte>)
    requires Curve() && BaseOrder() && |a| == |r| == |h| == |s| == 32
    requires ScalarOf(h) * ScalarOf(a) >= 0 && ScalarOf(s) == (ScalarOf(h) * ScalarOf(a) + ScalarOf(r)) % L
    ensures OnCurve(BaseTimes(ScalarOf(a))) && Expected(Neg(BaseTimes(ScalarOf(a))), h, s) == BaseMultiple(r)
  {
    ResponsePoints(ScalarOf(a), ScalarOf(r), ScalarOf(h), ScalarOf(s));
    BaseMultipleEncodes(r);
    ExpectedEncodes(Neg(BaseTimes(ScalarOf(a))), h, s);
  }

  /** The second half of a signature, as a number. */
  lemma ResponseNumber(a: seq<byte>, r: seq<byte>, h: seq<byte>, s: seq<byte>)
    requires s == Response(r, h, a)
    ensures ScalarOf(h) * ScalarOf(a) >= 0 && ScalarOf(s) == (ScalarOf(h) * ScalarOf(a) + ScalarOf(r)) % L
  {
    NonNegative(ScalarOf(h), ScalarOf(a));
    var v := (LE(r) + LE(h) * LE(a)) % L;
    BytesOfResidue(v, s);
  }

  lemma NonNegative(x: nat, y: nat)
    ensures x * y >= 0
  {
  }

  lemma BytesOfResidue(v: int, s: seq<byte>)
    requires 0 <= v < L && s == Bytes(v, 32)
    ensures LE(s) == v
  {
    Pow256();
    BytesValue(v, 32);
  }

  /** The key pair's public key unpacks to -A. */
  lemma KeyUnpacks(a: seq<byte>)
    requires Curve() && |a| == 32
    ensures UnpackedOrNone(BaseMultiple(a)) == Some(Neg(BaseTimes(ScalarOf(a))))
  {
    BaseMultipleEncodes(a);
    UnpackedEncoding(BaseTimes(ScalarOf(a)));
  }

  lemma OpenedWhen(sch: Scheme, pk: seq<byte>, a: Point, r: seq<byte>, s: seq<byte>, m: seq<byte>)
    requires |pk| == |r| == |s| == 32 && sch.unpack(pk) == Some(a) && r == sch.expected(a, HashScalar(sch, r + pk + m), s)
    ensures Opened(sch, pk, r + s + m) == Some(m)
  {
    var sm := r + s + m;
    assert sm[..32] == r && sm[32..64] == s && sm[64..] == m;
  }

  /** What makes a signature acceptable: public keys unpack to -A, and R is what is expected for the response. */
  lemma SchemeAccepts(sch: Scheme, a: seq<byte>, r: seq<byte>, h: seq<byte>)
    requires IsEd25519(sch) && Curve() && BaseOrder() && |a| == |r| == |h| == 32
    ensures var k := Neg(BaseTimes(ScalarOf(a)));
      sch.unpack(sch.base(a)) == Some(k) && sch.expected(k, h, sch.respond(r, h, a)) == sch.base(r)
  {
    KeyUnpacks(a);
    ResponseNumber(a, r, h, Response(r, h, a));
    ResponseAccepted(a, r, h, Response(r, h, a));
  }

  /** Whatever crypto_sign makes with a key pair of crypto_sign_keypair, crypto_sign_open accepts with the public key,
      and gives the same message back. */
  lemma SignThenOpen(sch: Scheme, seed: seq<byte>, m: seq<byte>)
    requires IsEd25519(sch) && Curve() && BaseOrder() && |seed| == 32
    ensures Opened(sch, PublicKey(sch, seed), Signed(sch, seed + PublicKey(sch, seed), m)) == Some(m)
  {
    var pk := PublicKey(sch, seed);
    var sk := seed + pk;
    assert sk[..32] == seed[..32] && sk[32..] == pk;
    var a, r := Secret(sch, seed), Nonce(sch, sk, m);
    var h := HashScalar(sch, sch.base(r) + pk + m);
    SchemeAccepts(sch, a, r, h);
    OpenedWhen(sch, pk, Neg(BaseTimes(ScalarOf(a))), sch.base(r), sch.respond(r, h, a), m);
  }

  // ---------------------------------------------------------------- tweetnacl.c

  method HashInto(ghost sch: Scheme, d: array<byte>, m: seq<byte>)
    requires d.Length == 64 && |m| < R64 && IsEd25519(sch)
    modifies d
    ensures d[..] == sch.hash(m)
  {
    Sha512.CryptoHash(d, m);
  }

  /** d[0] &= 248; d[31] &= 127; d[31] |= 64 */
  method ClampHash(d: array<byte>)
    requires d.Length == 64
    modifies d
    ensures d[..32] == X25519.DecodeScalar(old(d[..32])) && d[32..] == old(d[32..])
  {
    ghost var s: seq<byte>, rest := d[..32], d[32..];
    d[0] := ClearLow(d[0]);
    d[31] := ForceHigh(d[31]);
    assert d[..32] == s[31 := s[31] % 64 + 64][0 := s[0] - s[0] % 8];
    assert d[32..] == rest;
  }

  /** crypto_hash of the first half of the secret key, clamped. */
  method ExpandSecret(ghost sch: Scheme, sk: seq<byte>) returns (d: array<byte>)
    requires |sk| >= 32 && IsEd25519(sch)
    ensures fresh(d) && d.Length == 64 && d[..32] == Secret(sch, sk) && d[32..] == sch.hash(sk[..32])[32..]
  {
    d := new byte[64];
    HashInto(sch, d, sk[..32]);
    assert d[..32] == sch.hash(sk[..32])[..32] && d[32..] == sch.hash(sk[..32])[32..];
    ClampHash(d);
  }

  /** scalarbase, then pack. */
  method PackBaseMultiple(out: array<byte>, s: seq<byte>)
    requires out.Length >= 32 && |s| == 32
    modifies out
    ensures out[..32] == BaseMultiple(s) && out[32..] == old(out[32..])
  {
    var p := NewPoint();
    Scalarbase(p, s);
    Pack(out, p);
  }

  method BaseMultipleInto(ghost sch: Scheme, out: array<byte>, s: seq<byte>)
    requires out.Length >= 32 && |s| == 32 && IsEd25519(sch)
    modifies out
    ensures out[..32] == sch.base(s) && out[32..] == old(out[32..])
  {
    PackBaseMultiple(out, s);
  }

  /** crypto_hash, then reduce; only the first half of h is used afterwards. */
  method HashReduced(ghost sch: Scheme, m: seq<byte>) returns (h: seq<byte>)
    requires |m| < R64 && IsEd25519(sch)
    ensures h == HashScalar(sch, m)
  {
    var d := new byte[64];
    HashInto(sch, d, m);
    Reduce(d);
    h := d[..32];
  }

  /** crypto_sign_keypair; seed is what randombytes gave. */
  method CryptoSignKeypair(ghost sch: Scheme, pk: array<byte>, sk: array<byte>, seed: seq<byte>)
    requires pk != sk && pk.Length == 32 && sk.Length == 64 && |seed| == 32 && IsEd25519(sch)
    modifies pk, sk
    ensures pk[..] == PublicKey(sch, seed) && sk[..] == seed + PublicKey(sch, seed)
  {
    CopyTo(sk, 0, seed);
    assert sk[0..0 + 32] == sk[..32];
    assert sk[..][..32] == seed[..32];
    var d := ExpandSecret(sch, sk[..]);
    BaseMultipleInto(sch, pk, d[..32]);
    assert pk[..] == pk[..32];
    CopyTo(sk, 32, pk[..]);
    assert sk[..] == sk[..32] + sk[32..64];
  }

  /** Copies s to sm[off..]. */
  method CopyTo(sm: array<byte>, off: nat, s: seq<byte>)
    requires off + |s| <= sm.Length
    modifies sm
    ensures sm[off..off + |s|] == s
    ensures sm[..off] == old(sm[..off]) && sm[off + |s|..] == old(sm[off + |s|..])
  {
    for i := 0 to |s|
      invariant sm[off..off + i] == s[..i]
      invariant sm[..off] == old(sm[..off]) && sm[off + |s|..] == old(sm[off + |s|..])
    {
      sm[off + i] := s[i];
    }
  }

  /** x = r + h d as 64 digits. */
  method Convolve(r: seq<byte>, h: seq<byte>, d: seq<byte>) returns (x: array<i64>)
    requires |r| == |h| == |d| == 32
    ensures fresh(x) && x.Length == 64 && Val(x[..], 256) == LE(r) + LE(h) * LE(d)
    ensures forall k :: 0 <= k < 64 ==> 0 <= x[k] <= RAW
  {
    x := new i64[64](i => if 0 <= i < 32 then r[i] else 0);
    Loaded(x[..], r);
    for i := 0 to 32
      invariant Val(x[..], 256) == LE(r) + Val(h[..i], 256) * LE(d)
      invariant forall k :: 0 <= k < 64 ==> 0 <= x[k] <= 255 + i * 65025
    {
      ConvolveRow(x, h[i], d, i);
      ValPrefixStep(h, i, 256);
      RowTotal(Val(h[..i], 256), (h[i] as int) * Pow(256, i), LE(d));
    }
    assert h[..32] == h;
  }

  lemma Loaded(x: seq<int>, r: seq<byte>)
    requires |x| == 64 && |r| == 32 && forall i :: 0 <= i < 64 ==> x[i] == if i < 32 then r[i] else 0
    ensures Val(x, 256) == LE(r)
  {
    assert x == r + x[32..];
    ValAppend(r, x[32..], 256);
    ValZeros(x[32..], 256);
  }

  method ConvolveRow(x: array<i64>, hi: byte, d: seq<byte>, i: nat)
    requires x.Length == 64 && |d| == 32 && i < 32
    requires forall k :: 0 <= k < 64 ==> 0 <= x[k] <= 255 + i * 65025
    modifies x
    ensures Val(x[..], 256) == old(Val(x[..], 256)) + hi * Pow(256, i) * LE(d)
    ensures forall k :: 0 <= k < 64 ==> 0 <= x[k] <= 255 + (i + 1) * 65025
  {
    ghost var v0 := Val(x[..], 256);
    for j := 0 to 32
      invariant Val(x[..], 256) == v0 + hi * Pow(256, i) * Val(d[..j], 256)
      invariant forall k :: 0 <= k < 64 ==> 0 <= x[k] <= (if i <= k < i + j then 255 + (i + 1) * 65025 else 255 + i * 65025)
    {
      ghost var s: seq<int> := x[..];
      ByteProduct(hi, d[j]);
      var p: i64 := (hi as int) * d[j];
      x[i + j] := x[i + j] + p;
      assert x[..] == s[i + j := s[i + j] + p];
      ValUpdate(s, i + j, s[i + j] + p, 256);
      PowAdd(256, i, j);
      ValPrefixStep(d, j, 256);
      Field25519.RowStep(hi, Pow(256, i), Val(d[..j], 256), d[j], Pow(256, j));
    }
    assert d[..32] == d;
  }

  lemma ByteProduct(x: byte, y: byte)
    ensures 0 <= (x as int) * y <= 65025
  {
    MulLe(0, x, y);
    MulLe(x, 255, y);
  }

  /** S goes to sm[32..64]. */
  method WriteResponse(ghost sch: Scheme, sm: array<byte>, r: seq<byte>, h: seq<byte>, d: seq<byte>)
    requires sm.Length >= 64 && |r| == |h| == |d| == 32 && IsEd25519(sch)
    modifies sm
    ensures sm[32..64] == sch.respond(r, h, d) && sm[..32] == old(sm[..32]) && sm[64..] == old(sm[64..])
  {
    var x := Convolve(r, h, d);
    StoreResidue(sm, x, LE(r) + LE(h) * LE(d));
    assert sch.respond(r, h, d) == Response(r, h, d);
  }

  method StoreResidue(sm: array<byte>, x: array<i64>, ghost v: int)
    requires sm.Length >= 64 && x.Length == 64 && Val(x[..], 256) == v && forall k :: 0 <= k < 64 ==> -RAW <= x[k] <= RAW
    modifies sm, x
    ensures sm[32..64] == Bytes(v % L, 32) && sm[..32] == old(sm[..32]) && sm[64..] == old(sm[64..])
  {
    ModL(sm, 32, x);
    assert sm[32..32 + 32] == sm[32..64];
  }

  lemma Prefixed(s: seq<byte>, t: seq<byte>, n: nat, prefix: seq<byte>)
    requires |s| == |t| >= n + 64 && |prefix| == 32 && t[32..32 + 32] == prefix && t[32 + 32..] == s[32 + 32..]
    ensures t[32..n + 64] == prefix + s[64..n + 64] && t[64..] == s[64..]
  {
    assert t[64..n + 64] == s[64..][..n];
  }

  /** The nonce: the hash of the second half of d, put in front of the message, and the message. */
  method NonceFrom(ghost sch: Scheme, sm: array<byte>, n: nat, prefix: seq<byte>) returns (r: seq<byte>)
    requires sm.Length >= n + 64 && n + 64 < R64 && |prefix| == 32 && IsEd25519(sch)
    modifies sm
    ensures r == HashScalar(sch, prefix + old(sm[64..n + 64])) && sm[64..] == old(sm[64..])
  {
    ghost var before := sm[..];
    CopyTo(sm, 32, prefix);
    Prefixed(before, sm[..], n, prefix);
    r := HashReduced(sch, sm[32..n + 64]);
  }

  /** R, and the public half of the key after it. */
  method WriteFront(ghost sch: Scheme, sm: array<byte>, r: seq<byte>, pk: seq<byte>)
    requires sm.Length >= 64 && |r| == |pk| == 32 && IsEd25519(sch)
    modifies sm
    ensures sm[..64] == sch.base(r) + pk && sm[64..] == old(sm[64..])
  {
    ghost var tail := sm[64..];
    BaseMultipleInto(sch, sm, r);
    assert sm[64..] == sm[32..][32..];
    ghost var top := sm[..32];
    CopyTo(sm, 32, pk);
    assert sm[..64] == sm[..32] + sm[32..64];
  }

  /** Byte k at `to` after bytes were copied upwards, one after the other, from `from` in the same buffer. */
  function CopiedByte(buf: seq<byte>, from: nat, to: nat, k: nat): byte
    requires from + k < |buf|
    decreases k
  {
    if from < to <= from + k then CopiedByte(buf, from, to, k - (to - from)) else buf[from + k]
  }

  function CopiedUp(buf: seq<byte>, from: nat, to: nat, n: nat): (s: seq<byte>)
    requires from + n <= |buf|
    ensures |s| == n
  {
    seq(n, k requires 0 <= k < n => CopiedByte(buf, from, to, k))
  }

  /** The copy is the original if and only if it does not start behind it, or the original repeats itself at the distance. */
  lemma CopiedUpExactly(buf: seq<byte>, from: nat, to: nat, n: nat)
    requires from + n <= |buf|
    ensures var m := buf[from..from + n];
      CopiedUp(buf, from, to, n) == m <==> (from < to ==> forall j :: 0 <= j < n - (to - from) ==> m[j] == m[j + (to - from)])
  {
    var c, m, p := CopiedUp(buf, from, to, n), buf[from..from + n], to - from;
    if from < to {
      if c == m {
        forall j | 0 <= j < n - p
          ensures m[j] == m[j + p]
        {
          assert c[j + p] == c[j];
        }
      }
      if forall j :: 0 <= j < n - p ==> m[j] == m[j + p] {
        forall k | 0 <= k < n
          ensures c[k] == m[k]
        {
          RepeatedByte(buf, from, to, n, k);
        }
      }
    }
  }

  lemma {:induction false} RepeatedByte(buf: seq<byte>, from: nat, to: nat, n: nat, k: nat)
    requires from + n <= |buf| && k < n && from < to
    requires var m := buf[from..from + n]; forall j :: 0 <= j < n - (to - from) ==> m[j] == m[j + (to - from)]
    ensures CopiedByte(buf, from, to, k) == buf[from + k]
    decreases k
  {
    if to <= from + k {
      var m, j := buf[from..from + n], k - (to - from);
      RepeatedByte(buf, from, to, n, j);
      assert m[j] == m[j + (to - from)] == buf[from + k];
    }
  }

  /** What arrives when n bytes are copied upwards from src, which may be the buffer itself. */
  ghost function Arriving(same: bool, src: seq<byte>, from: nat, to: nat, n: nat): (s: seq<byte>)
    requires from + n <= |src|
    ensures |s| == n
  {
    if same then CopiedUp(src, from, to, n) else src[from..from + n]
  }

  /** FOR(i,n) dst[to+i] = src[from+i] */
  method CopyUp(dst: array<byte>, to: nat, src: array<byte>, from: nat, n: nat)
    requires to + n <= dst.Length && from + n <= src.Length
    modifies dst
    ensures dst[to..to + n] == Arriving(dst == src, old(src[..]), from, to, n)
    ensures dst[..to] == old(dst[..to]) && dst[to + n..] == old(dst[to + n..])
  {
    ghost var buf, d0 := src[..], dst[..];
    ghost var c := Arriving(dst == src, buf, from, to, n);
    for i := 0 to n
      invariant forall k :: 0 <= k < i ==> dst[to + k] == c[k]
      invariant forall k :: 0 <= k < dst.Length && !(to <= k < to + i) ==> dst[k] == d0[k]
    {
      if dst == src && from < to <= from + i {
        assert src[from + i] == dst[to + (from + i - to)] == c[from + i - to];
      } else if dst == src {
        assert src[from + i] == d0[from + i];
      }
      dst[to + i] := src[from + i];
    }
    assert forall k :: 0 <= k < n ==> dst[to..to + n][k] == c[k];
  }

  /** crypto_sign; the message may lie in the buffer of the signed message. */
  method CryptoSign(ghost sch: Scheme, sm: array<byte>, m: array<byte>, mOff: nat, n: nat, sk: seq<byte>) returns (smlen: nat)
    requires sm.Length >= n + 64 && mOff + n <= m.Length && n + 64 < R64 && |sk| == 64 && IsEd25519(sch)
    modifies sm
    ensures smlen == n + 64 && sm[smlen..] == old(sm[smlen..])
    ensures sm[..smlen] == Signed(sch, sk, Arriving(m == sm, old(m[..]), mOff, 64, n))
  {
    ghost var rest, msg := sm[n + 64..], Arriving(m == sm, m[..], mOff, 64, n);
    var d := ExpandSecret(sch, sk);
    smlen := n + 64;
    CopyUp(sm, 64, m, mOff, n);
    assert sm[64..] == msg + rest by { assert sm[64..] == sm[64..64 + n] + sm[64 + n..]; }
    var r := StartSignature(sch, sm, n, msg, sk, d[32..64], rest);
    FinishSignature(sch, sm, n, msg, sk, r, d[..32], rest);
  }

  method StartSignature(ghost sch: Scheme, sm: array<byte>, n: nat, ghost m: seq<byte>, sk: seq<byte>, prefix: seq<byte>, ghost rest: seq<byte>)
      returns (r: seq<byte>)
    requires |m| == n && sm.Length >= n + 64 && n + 64 < R64 && |sk| == 64 && IsEd25519(sch)
    requires prefix == sch.hash(sk[..32])[32..] && sm[64..] == m + rest
    modifies sm
    ensures |r| == 32 && r == Nonce(sch, sk, m) && sm[..64] == sch.base(r) + sk[32..] && sm[64..] == m + rest
  {
    assert sm[64..n + 64] == sm[64..][..n];
    r := NonceFrom(sch, sm, n, prefix);
    WriteFront(sch, sm, r, sk[32..64]);
  }

  lemma FrontAndRest(a: seq<byte>, b: seq<byte>, m: seq<byte>, rest: seq<byte>, sm: seq<byte>)
    requires |a| == |b| == 32 && |sm| >= |m| + 64 && sm[..64] == a + b && sm[64..] == m + rest
    ensures sm[..|m| + 64] == a + b + m && sm[|m| + 64..] == rest && sm[..32] == a
  {
    assert sm == a + b + m + rest;
  }

  method FinishSignature(ghost sch: Scheme, sm: array<byte>, n: nat, ghost m: seq<byte>, sk: seq<byte>, r: seq<byte>, a: seq<byte>, ghost rest: seq<byte>)
    requires |m| == n && sm.Length >= n + 64 && n + 64 < R64 && |sk| == 64 && |r| == 32 && IsEd25519(sch)
    requires r == Nonce(sch, sk, m) && a == Secret(sch, sk)
    requires sm[..64] == sch.base(r) + sk[32..] && sm[64..] == m + rest
    modifies sm
    ensures sm[..n + 64] == Signed(sch, sk, m) && sm[n + 64..] == rest
  {
    ghost var top := sch.base(r);
    FrontAndRest(top, sk[32..], m, rest, sm[..]);
    assert sm[..][..n + 64] == sm[..n + 64] && sm[..][..32] == sm[..32];
    var h := HashReduced(sch, sm[..n + 64]);
    RespondAndJoin(sch, sm, m, r, h, a, top, rest);
  }

  method RespondAndJoin(ghost sch: Scheme, sm: array<byte>, ghost m: seq<byte>, r: seq<byte>, h: seq<byte>, a: seq<byte>, ghost top: seq<byte>, ghost rest: seq<byte>)
    requires IsEd25519(sch) && |r| == |h| == |a| == |top| == 32 && sm.Length >= |m| + 64 && sm[..32] == top && sm[64..] == m + rest
    modifies sm
    ensures sm[..|m| + 64] == top + sch.respond(r, h, a) + m && sm[|m| + 64..] == rest
  {
    WriteResponse(sch, sm, r, h, a);
    assert sm[..64] == sm[..32] + sm[32..64];
    FrontAndRest(top, sch.respond(r, h, a), m, rest, sm[..]);
    assert sm[..][..|m| + 64] == sm[..|m| + 64] && sm[..][..64] == sm[..64];
  }

  /** [h]q + [s]B, packed; q is used up. */
  method PackSum(q: Gf4, ghost a: Point, h: seq<byte>, s: seq<byte>) returns (t: array<byte>)
    requires Proper(q) && Normal(q) && View(q) == Ext(a.x, a.y, 1, FMul(a.x, a.y)) && |h| == |s| == 32
    modifies Limbs(q)
    ensures fresh(t) && t.Length == 32 && t[..] == Expected(a, h, s)
  {
    var p := NewPoint();
    Scalarmult(p, q, h);
    Scalarbase(q, s);
    AddPoints(p, q);
    t := new byte[32];
    Pack(t, p);
    assert t[..] == t[..32];
  }

  method PackExpected(ghost sch: Scheme, q: Gf4, ghost a: Point, h: seq<byte>, s: seq<byte>) returns (t: array<byte>)
    requires Proper(q) && Normal(q) && IsKey(q, a) && |h| == |s| == 32 && IsEd25519(sch)
    modifies Limbs(q)
    ensures fresh(t) && t.Length == 32 && t[..] == sch.expected(a, h, s)
  {
    t := PackSum(q, a, h, s);
  }

  /** The coordinates that unpackneg leaves for a. */
  ghost predicate IsKey(q: Gf4, a: Point)
    reads q.x, q.y, q.z, q.t
  {
    View(q) == Ext(a.x, a.y, 1, FMul(a.x, a.y))
  }

  method UnpackKey(ghost sch: Scheme, q: Gf4, pk: seq<byte>) returns (ok: int)
    requires Proper(q) && |pk| == 32 && IsEd25519(sch)
    modifies Limbs(q)
    ensures ok == if sch.unpack(pk).Some? then 0 else -1
    ensures ok == 0 ==> Normal(q) && IsKey(q, sch.unpack(pk).value)
  {
    ok := UnpackNeg(q, pk);
    assert sch.unpack(pk) == UnpackedOrNone(pk);
  }

  /** m = R, then the public key, then the message: what is hashed again. In place, this also changes sm. */
  method Reassemble(m: array<byte>, sm: array<byte>, n: nat, pk: seq<byte>)
    requires 64 <= n <= sm.Length && n <= m.Length && |pk| == 32
    modifies m
    ensures m[..n] == old(sm[..32]) + pk + old(sm[64..n]) && m[n..] == old(m[n..])
    ensures sm[..32] == old(sm[..32]) && sm[64..n] == old(sm[64..n])
  {
    ghost var s := sm[..n];
    CopyUp(m, 0, sm, 0, n);
    ghost var before := m[..];
    assert before[..n] == s by {
      assert m[0..0 + n] == before[..n];
    }
    CopyTo(m, 32, pk);
    KeyPutIn(before, m[..], n, pk);
  }

  lemma KeyPutIn(s: seq<byte>, t: seq<byte>, n: nat, pk: seq<byte>)
    requires 64 <= n <= |s| == |t| && |pk| == 32
    requires t[..32] == s[..32] && t[32..32 + 32] == pk && t[32 + 32..] == s[32 + 32..]
    ensures t[..n] == s[..32] + pk + s[64..n] && t[64..n] == s[64..n] && t[n..] == s[n..]
  {
    assert t[64..n] == t[64..][..n - 64] && s[64..n] == s[64..][..n - 64];
    assert t[n..] == t[64..][n - 64..] && s[n..] == s[64..][n - 64..];
    assert t[..n] == t[..32] + t[32..64] + t[64..n];
  }

  /** crypto_sign_open: the message and its length, or -1 with the length field at its largest value. In place, the public
      key has overwritten the second half of the signature when that is read. */
  method CryptoSignOpen(ghost sch: Scheme, m: array<byte>, sm: array<byte>, n: nat, pk: seq<byte>) returns (r: int, mlen: u64)
    requires n <= sm.Length && n <= m.Length && n < R64 && |pk| == 32 && IsEd25519(sch)
    modifies m
    ensures m != sm ==> r == if Opened(sch, pk, old(sm[..n])).Some? then 0 else -1
    ensures m == sm ==> r == if OpenedWith(sch, pk, old(sm[..n]), pk).Some? then 0 else -1
    ensures mlen == if r == 0 then n - 64 else 0xffff_ffff_ffff_ffff
    ensures r == 0 ==> n >= 64 && m[..n - 64] == old(sm[64..n])
    ensures r != 0 && n >= 64 && sch.unpack(pk).Some? ==> m[..n - 64] == seq(n - 64, _ => 0)
    ensures m[n..] == old(m[n..])
  {
    if n < 64 {
      return -1, 0xffff_ffff_ffff_ffff;
    }
    var q := NewPoint();
    var ok := UnpackKey(sch, q, pk);
    if ok != 0 {
      return -1, 0xffff_ffff_ffff_ffff;
    }
    ghost var a, s := sch.unpack(pk).value, sm[..n];
    Reassemble(m, sm, n, pk);
    var t := Recompute(sch, q, a, m, sm, n, pk, s);
    r, mlen := Deliver(m, sm, n, t, s);
  }

  /** Hash, scalar multiples and their sum: what is compared with R. */
  method Recompute(ghost sch: Scheme, q: Gf4, ghost a: Point, m: array<byte>, sm: array<byte>, n: nat, pk: seq<byte>, ghost s: seq<byte>)
      returns (t: array<byte>)
    requires 64 <= n <= sm.Length && n <= m.Length && n < R64 && |pk| == 32 && IsEd25519(sch) && |s| == n
    requires Proper(q) && Normal(q) && IsKey(q, a)
    requires m[..n] == s[..32] + pk + s[64..] && (m != sm ==> sm[..n] == s)
    modifies Limbs(q)
    ensures fresh(t) && t.Length == 32
    ensures t[..] == sch.expected(a, HashScalar(sch, s[..32] + pk + s[64..]), if m == sm then pk else s[32..64])
  {
    var h := HashReduced(sch, m[..n]);
    assert sm[32..64] == sm[..n][32..64];
    t := PackExpected(sch, q, a, h, sm[32..64]);
  }

  /** The comparison with R, and the message or zeros. */
  method Deliver(m: array<byte>, sm: array<byte>, n: nat, t: array<byte>, ghost s: seq<byte>) returns (r: int, mlen: u64)
    requires 64 <= n <= sm.Length && n <= m.Length && n < R64 && t.Length == 32 && |s| == n
    requires sm[..32] == s[..32] && sm[64..n] == s[64..]
    modifies m
    ensures r == if s[..32] == t[..] then 0 else -1
    ensures mlen == if r == 0 then n - 64 else 0xffff_ffff_ffff_ffff
    ensures m[..n - 64] == if r == 0 then s[64..] else seq(n - 64, _ => 0)
    ensures m[n..] == old(m[n..])
  {
    var bad := Vn(sm[..32], t[..], 32);
    assert sm[..32][..32] == s[..32] && t[..][..32] == t[..];
    if bad != 0 {
      CopyTo(m, 0, seq(n - 64, _ => 0));
      assert m[0..0 + (n - 64)] == m[..n - 64] && m[n - 64..][64..] == m[n..];
      return -1, 0xffff_ffff_ffff_ffff;
    }
    CopyUp(m, 0, sm, 64, n - 64);
    assert m[0..0 + (n - 64)] == m[..n - 64] && m[n - 64..][64..] == m[n..];
    r, mlen := 0, n - 64;
  }
}
