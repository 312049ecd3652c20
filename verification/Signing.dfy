/** Keys and signatures of Ed25519 written out, and what the nonce and the challenge depend on. */
module Signing {
  import opened Arith
  import opened Radix
  import opened MachineInts
  import opened LittleEndian
  import opened PrimeField
  import opened EdwardsLaw
  import opened Edwards
  import opened Scalar
  import opened Sign
  import opened BasePoint
  import opened Acceptance
  import Group
  import X25519
  import FieldPower

  // ---------------------------------------------------------------- RFC 8032, sections 5.1.5 and 5.1.6

  const R248: int := 0x1000000_00000000_00000000_00000000_00000000_00000000_00000000_00000000

  const R254: int := 64 * R248

  /** Bits 0, 1, 2 and 255 are cleared, bit 254 is set. */
  function Pruned(v: nat): nat {
    R254 + (v % R254 - v % 8)
  }

  lemma PrunedParts(v: nat, low: int, mid: int, top: int)
    requires v == low + 256 * mid + R248 * top && 0 <= low < 256 && mid >= 0 && low + 256 * mid < R248 && 0 <= top < 256
    ensures Pruned(v) == (low - low % 8) + 256 * mid + R248 * (top % 64 + 64)
  {
    var rest := low + 256 * mid + R248 * (top % 64);
    assert v == top / 64 * R254 + rest;
    DivModUnique(v, R254, top / 64, rest);
    DivModUnique(v, 8, low / 8 + 32 * mid + R248 / 8 * top, low % 8);
  }

  lemma EndBytes(n: seq<byte>)
    requires |n| == 32
    ensures LE(n) == n[0] + 256 * LE(n[1..31]) + R248 * n[31] && 0 <= n[0] + 256 * LE(n[1..31]) < R248
  {
    assert n == n[..31] + [n[31]] && n[..31][1..] == n[1..31];
    ValSnoc(n[..31], n[31], 256);
    ValBound(n[..31], 256);
    Pow248();
  }

  lemma Pow248()
    ensures Pow(256, 31) == R248
  {
    assert Pow(256, 7) == 0x1000000_00000000 * 0x1 && Pow(256, 8) == 0x1_00000000_00000000;
    PowAdd(256, 8, 8);
    PowAdd(256, 16, 7);
    PowAdd(256, 23, 8);
  }

  /** Decoding a scalar is pruning its number. */
  lemma DecodedScalar(n: seq<byte>)
    requires |n| == 32
    ensures LE(X25519.DecodeScalar(n)) == Pruned(ScalarOf(n))
  {
    var t := X25519.DecodeScalar(n);
    EndBytes(n);
    EndBytes(t);
    assert t[1..31] == n[1..31];
    ValBound(n[1..31], 256);
    PrunedParts(LE(n), n[0], LE(n[1..31]), n[31]);
  }

  /** L is 2^252 + 27742317777372353535851937790883648493. */
  lemma OrderValue()
    ensures L == Pow(2, 252) + 27742317777372353535851937790883648493
  {
    FieldPower.Pow2_255();
  }

  /** Section 5.1.5: the secret scalar. */
  function SecretNumber(hash: seq<byte> -> Hash64, seed: seq<byte>): nat {
    Pruned(ScalarOf(hash(seed)[..32]))
  }

  /** Section 5.1.5: the public key, for the base point b. */
  ghost function RfcPublicKey(hash: seq<byte> -> Hash64, b: Point, seed: seq<byte>): seq<byte> {
    Encode(PointMultiple(SecretNumber(hash, seed), b))
  }

  ghost function PointMultiple(n: nat, b: Point): Point {
    Group.Times(Points(), n, b)
  }

  /** Section 5.1.6: R, S and the message; the nonce is the hash of the upper half of the hashed seed and the message. */
  ghost function RfcSigned(hash: seq<byte> -> Hash64, b: Point, seed: seq<byte>, m: seq<byte>): seq<byte> {
    RfcSignature(hash, b, SecretNumber(hash, seed), RfcPublicKey(hash, b, seed), ScalarOf(hash(hash(seed)[32..64] + m)), m)
  }

  ghost function RfcSignature(hash: seq<byte> -> Hash64, b: Point, a: nat, key: seq<byte>, r: nat, m: seq<byte>): seq<byte> {
    RfcFront(b, r) + RfcResponse(a, r, ScalarOf(hash(RfcFront(b, r) + key + m))) + m
  }

  /** R = [r]B, with r reduced modulo the order. */
  ghost function RfcFront(b: Point, r: nat): seq<byte> {
    Encode(PointMultiple(r % L, b))
  }

  /** S = r + k a modulo the order. */
  function RfcResponse(a: nat, r: nat, k: nat): seq<byte> {
    Bytes((r + k * a) % L, 32)
  }

  lemma KeyIsRfc(sch: Scheme, seed: seq<byte>, b: Point)
    requires IsEd25519(sch) && Curve() && |seed| == 32 && IsBasePoint(b)
    ensures PublicKey(sch, seed) == RfcPublicKey(sch.hash, b, seed)
    ensures ScalarOf(Secret(sch, seed)) == SecretNumber(sch.hash, seed)
  {
    assert seed[..32] == seed;
    DecodedScalar(sch.hash(seed)[..32]);
    KeyOfBasePoint(sch, seed, b);
  }

  /** The bytes of a multiple of the base point for a hash reduced modulo its order. */
  lemma HashMultiple(sch: Scheme, m: seq<byte>, b: Point)
    requires IsEd25519(sch) && Curve() && IsBasePoint(b)
    ensures LE(HashScalar(sch, m)) == ScalarOf(sch.hash(m)) % L
    ensures sch.base(HashScalar(sch, m)) == RfcFront(b, ScalarOf(sch.hash(m)))
  {
    var s := HashScalar(sch, m);
    HashNumber(sch, m);
    OnlyBasePoint(b);
    BaseMultipleEncodes(s);
    assert sch.base(s) == BaseMultiple(s);
  }

  /** What crypto_sign makes with a key pair of crypto_sign_keypair is the signature of the RFC. */
  lemma SignedIsRfc(sch: Scheme, seed: seq<byte>, m: seq<byte>, b: Point)
    requires IsEd25519(sch) && Curve() && |seed| == 32 && IsBasePoint(b)
    ensures Signed(sch, seed + PublicKey(sch, seed), m) == RfcSigned(sch.hash, b, seed, m)
  {
    var pk := PublicKey(sch, seed);
    KeyParts(seed, pk);
    UpperHalf(sch.hash(seed));
    KeyIsRfc(sch, seed, b);
    SignedBy(sch, seed + pk, pk, m, sch.hash(seed)[32..64] + m);
    ResponseIsRfc(sch, sch.hash(seed)[32..64] + m, pk, Secret(sch, seed), SecretNumber(sch.hash, seed), m, b);
  }

  lemma SignedBy(sch: Scheme, sk: seq<byte>, pk: seq<byte>, m: seq<byte>, input: seq<byte>)
    requires |sk| == 64 && sk[32..] == pk && input == sch.hash(sk[..32])[32..] + m
    ensures var r := HashScalar(sch, input);
      Signed(sch, sk, m) == sch.base(r) + sch.respond(r, HashScalar(sch, sch.base(r) + pk + m), Secret(sch, sk)) + m
  {
  }

  lemma KeyParts(seed: seq<byte>, pk: seq<byte>)
    requires |seed| == |pk| == 32
    ensures var sk := seed + pk; sk[..32] == seed == seed[..32] && sk[32..] == pk
  {
  }

  lemma UpperHalf(h: Hash64)
    ensures h[32..] == h[32..64]
  {
  }

  lemma ResponseIsRfc(sch: Scheme, input: seq<byte>, pk: seq<byte>, a: seq<byte>, n: nat, m: seq<byte>, b: Point)
    requires IsEd25519(sch) && Curve() && IsBasePoint(b) && LE(a) == n
    ensures var r, x := HashScalar(sch, input), ScalarOf(sch.hash(input));
      && sch.base(r) == RfcFront(b, x)
      && sch.respond(r, HashScalar(sch, sch.base(r) + pk + m), a) == RfcResponse(n, x, ScalarOf(sch.hash(RfcFront(b, x) + pk + m)))
  {
    HashMultiple(sch, input, b);
    ResponseOfHashes(sch, input, sch.base(HashScalar(sch, input)) + pk + m, a, n);
  }

  lemma ResponseOfHashes(sch: Scheme, x: seq<byte>, y: seq<byte>, a: seq<byte>, n: nat)
    requires IsEd25519(sch) && LE(a) == n
    ensures sch.respond(HashScalar(sch, x), HashScalar(sch, y), a) == RfcResponse(n, ScalarOf(sch.hash(x)), ScalarOf(sch.hash(y)))
  {
    var r, k := HashScalar(sch, x), HashScalar(sch, y);
    HashNumber(sch, x);
    HashNumber(sch, y);
    assert sch.respond(r, k, a) == Response(r, k, a);
    ResponseNumbers(r, k, a, ScalarOf(sch.hash(x)), ScalarOf(sch.hash(y)), n);
  }

  lemma HashNumber(sch: Scheme, x: seq<byte>)
    ensures LE(HashScalar(sch, x)) == ScalarOf(sch.hash(x)) % L
  {
    BytesOfResidue(ScalarOf(sch.hash(x)) % L, HashScalar(sch, x));
  }

  lemma ResponseNumbers(r: seq<byte>, k: seq<byte>, a: seq<byte>, x: nat, y: nat, n: nat)
    requires LE(r) == x % L && LE(k) == y % L && LE(a) == n
    ensures Response(r, k, a) == RfcResponse(n, x, y)
  {
    ReducedSum(x, y, n, L);
  }

  lemma ReducedSum(r: int, k: int, a: int, n: int)
    requires n > 0
    ensures (r % n + k % n * a) % n == (r + k * a) % n
  {
    ModAdd(r, k * a, n);
    ModAdd(r % n, k % n * a, n);
    ModIdem(r, n);
    ProductResidue(k, a, n, k / n, k % n, 0, a);
  }

  // ---------------------------------------------------------------- what a nonce depends on

  /** x and y are different inputs with the same hash modulo the order. */
  predicate Collide(sch: Scheme, x: seq<byte>, y: seq<byte>) {
    x != y && ScalarOf(sch.hash(x)) % L == ScalarOf(sch.hash(y)) % L
  }

  /** The secret prefix: the upper half of the hashed seed. */
  function Prefix(sch: Scheme, sk: seq<byte>): seq<byte>
    requires |sk| >= 32
  {
    sch.hash(sk[..32])[32..64]
  }

  lemma JoinedDiffer(p: seq<byte>, m: seq<byte>, q: seq<byte>, n: seq<byte>)
    requires |p| == |q| && (p != q || m != n)
    ensures p + m != q + n
  {
    assert (p + m)[..|p|] == p && (p + m)[|p|..] == m;
    assert (q + n)[..|q|] == q && (q + n)[|q|..] == n;
  }

  lemma SameScalar(sch: Scheme, x: seq<byte>, y: seq<byte>)
    ensures HashScalar(sch, x) == HashScalar(sch, y) <==> ScalarOf(sch.hash(x)) % L == ScalarOf(sch.hash(y)) % L
  {
    HashNumber(sch, x);
    HashNumber(sch, y);
  }

  /** For any hash: two messages, or two prefixes, with one nonce are a collision of the hash. */
  lemma NonceCollision(sch: Scheme, sk: seq<byte>, m: seq<byte>, sk': seq<byte>, m': seq<byte>)
    requires |sk| == |sk'| == 64 && (m != m' || Prefix(sch, sk) != Prefix(sch, sk'))
    ensures Nonce(sch, sk, m) == Nonce(sch, sk', m') <==> Collide(sch, Prefix(sch, sk) + m, Prefix(sch, sk') + m')
  {
    var p, q := Prefix(sch, sk), Prefix(sch, sk');
    assert p == sch.hash(sk[..32])[32..] && q == sch.hash(sk'[..32])[32..];
    JoinedDiffer(p, m, q, m');
    SameScalar(sch, p + m, q + m');
  }

  /** The same for the challenge: two different R, public keys or messages with one challenge are a collision. */
  lemma ChallengeCollision(sch: Scheme, pk: seq<byte>, sm: seq<byte>, pk': seq<byte>, sm': seq<byte>)
    requires |pk| == |pk'| == 32 && |sm| >= 64 && |sm'| >= 64
    requires sm[..32] != sm'[..32] || pk != pk' || sm[64..] != sm'[64..]
    ensures Challenge(sch, pk, sm) % L == Challenge(sch, pk', sm') % L
      <==> Collide(sch, sm[..32] + pk + sm[64..], sm'[..32] + pk' + sm'[64..])
  {
    if sm[..32] != sm'[..32] || pk != pk' {
      JoinedDiffer(sm[..32], pk, sm'[..32], pk');
    }
    JoinedDiffer(sm[..32] + pk, sm[64..], sm'[..32] + pk', sm'[64..]);
  }

  // ---------------------------------------------------------------- what R depends on

  /** With L prime, multiples of B are equal exactly for factors that are congruent modulo L. */
  lemma BaseInjective(r: nat, s: nat)
    requires Curve() && BaseOrder() && IsPrime(L)
    ensures BaseTimes(r) == BaseTimes(s) <==> r % L == s % L
  {
    PointsFormGroup();
    BaseOnCurve();
    var n: nat := L;
    assert BaseTimes(n) == ZERO;
    if s <= r {
      Group.MultiplesDiffer(Points(), BASE, n, r, s);
    } else {
      Group.MultiplesDiffer(Points(), BASE, n, s, r);
    }
  }

  lemma SameFront(sch: Scheme, r: seq<byte>, s: seq<byte>)
    requires IsEd25519(sch) && Curve() && BaseOrder() && IsPrime(L) && |r| == |s| == 32 && LE(r) < L && LE(s) < L
    ensures sch.base(r) == sch.base(s) <==> r == s
  {
    assert sch.base(r) == BaseMultiple(r) && sch.base(s) == BaseMultiple(s);
    BaseMultipleEncodes(r);
    BaseMultipleEncodes(s);
    if BaseMultiple(r) == BaseMultiple(s) {
      EncodingUnique(BaseTimes(LE(r)), BaseTimes(LE(s)));
      BaseInjective(ScalarOf(r), ScalarOf(s));
      DivModUnique(LE(r), L, 0, LE(r));
      DivModUnique(LE(s), L, 0, LE(s));
      ValInjective(r, s, 256);
    }
  }

  lemma FirstHalf(sch: Scheme, sk: seq<byte>, m: seq<byte>)
    requires |sk| == 64
    ensures Signed(sch, sk, m)[..32] == sch.base(Nonce(sch, sk, m))
  {
    var r := Nonce(sch, sk, m);
    SignedParts(sch.base(r), sch.respond(r, HashScalar(sch, sch.base(r) + sk[32..] + m), Secret(sch, sk)), m);
  }

  /** Signatures of two messages, or with two prefixes, have the same R exactly when the hash collides on them. */
  lemma SameR(sch: Scheme, sk: seq<byte>, m: seq<byte>, sk': seq<byte>, m': seq<byte>)
    requires IsEd25519(sch) && Curve() && BaseOrder() && IsPrime(L)
    requires |sk| == |sk'| == 64 && (m != m' || Prefix(sch, sk) != Prefix(sch, sk'))
    ensures Signed(sch, sk, m)[..32] == Signed(sch, sk', m')[..32] <==> Collide(sch, Prefix(sch, sk) + m, Prefix(sch, sk') + m')
  {
    var r, s := Nonce(sch, sk, m), Nonce(sch, sk', m');
    HashNumber(sch, sch.hash(sk[..32])[32..] + m);
    HashNumber(sch, sch.hash(sk'[..32])[32..] + m');
    FirstHalf(sch, sk, m);
    FirstHalf(sch, sk', m');
    SameFront(sch, r, s);
    NonceCollision(sch, sk, m, sk', m');
  }
}
