/** What it means that crypto_sign_open of tweetnacl.c accepts, against the verification of RFC 8032 section 5.1.7. */
module Acceptance {
  import opened Arith
  import opened Radix
  import opened MachineInts
  import opened LittleEndian
  import opened Field25519
  import opened FieldCodec
  import opened PrimeField
  import opened EdwardsLaw
  import opened Edwards
  import opened Scalar
  import opened Wrappers
  import opened Sign
  import Group

  // ---------------------------------------------------------------- acceptance in the group

  /** The hash of R, the public key and the message as a number: the k of section 5.1.7. */
  function Challenge(sch: Scheme, pk: seq<byte>, sm: seq<byte>): nat
    requires |sm| >= 64
  {
    ScalarOf(sch.hash(sm[..32] + pk + sm[64..]))
  }

  /** [n]a */
  ghost function PointTimes(n: nat, a: Point): Point {
    Group.Times(Points(), n, a)
  }

  lemma ChallengeReduced(sch: Scheme, pk: seq<byte>, sm: seq<byte>)
    requires |sm| >= 64
    ensures ScalarOf(HashScalar(sch, sm[..32] + pk + sm[64..])) == Challenge(sch, pk, sm) % L
  {
    BytesOfResidue(Challenge(sch, pk, sm) % L, HashScalar(sch, sm[..32] + pk + sm[64..]));
  }

  /** R is the encoding of [k mod L]a + [S]B, for the point a that the public key unpacks to. */
  ghost predicate EncodesSum(sch: Scheme, pk: seq<byte>, sm: seq<byte>, a: Point)
    requires |sm| >= 64
  {
    sm[..32] == Encode(Add(PointTimes(Challenge(sch, pk, sm) % L, a), BaseTimes(ScalarOf(sm[32..64]))))
  }

  /** A signed message is accepted if and only if the public key unpacks and R encodes the sum. */
  lemma AcceptanceMeans(sch: Scheme, pk: seq<byte>, sm: seq<byte>)
    requires IsEd25519(sch) && Curve() && |pk| == 32
    ensures Opened(sch, pk, sm) ==
      if |sm| >= 64 && Unpacked(pk).Some? && EncodesSum(sch, pk, sm, Unpacked(pk).value) then Some(sm[64..]) else None
  {
    assert sch.unpack(pk) == UnpackedOrNone(pk);
    if Unpacked(pk).Some? {
      UnpackedOnCurve(pk);
    }
    if |sm| >= 64 && Unpacked(pk).Some? {
      var a, h, s := Unpacked(pk).value, HashScalar(sch, sm[..32] + pk + sm[64..]), sm[32..64];
      ChallengeReduced(sch, pk, sm);
      ExpectedEncodes(a, h, s);
      assert sch.expected(a, h, s) == Expected(a, h, s);
    }
  }

  // ---------------------------------------------------------------- RFC 8032, sections 5.1.3 and 5.1.7

  /** The decoding of a point: y below p in the low 255 bits, the parity of x on top. */
  ghost predicate DecodesTo(p: seq<byte>, a: Point)
    requires |p| == 32
  {
    OnCurve(a) && LE(p) % R255 == a.y && p[31] / 128 == a.x % 2
  }

  /** [S]B = R + [k]A */
  ghost predicate Equation(k: nat, a: Point, r: Point, s: nat) {
    BaseTimes(s) == Add(r, PointTimes(k, a))
  }

  /** [8][S]B = [8]R + [8][k]A */
  ghost predicate CofactorEquation(k: nat, a: Point, r: Point, s: nat) {
    PointTimes(8, BaseTimes(s)) == Add(PointTimes(8, r), PointTimes(8, PointTimes(k, a)))
  }

  /** The verification of section 5.1.7 with the equation that it calls sufficient: S is below the order, R and A decode,
      and the equation holds for k. */
  ghost predicate RfcAccepts(pk: seq<byte>, sm: seq<byte>, k: nat)
    requires |pk| == 32
  {
    && |sm| >= 64 && ScalarOf(sm[32..64]) < L
    && exists a, r :: DecodesTo(pk, a) && DecodesTo(sm[..32], r) && Equation(k, a, r, ScalarOf(sm[32..64]))
  }

  /** The same with the cofactor, the equation that the section asks for. */
  ghost predicate RfcAcceptsCofactor(pk: seq<byte>, sm: seq<byte>, k: nat)
    requires |pk| == 32
  {
    && |sm| >= 64 && ScalarOf(sm[32..64]) < L
    && exists a, r :: DecodesTo(pk, a) && DecodesTo(sm[..32], r) && CofactorEquation(k, a, r, ScalarOf(sm[32..64]))
  }

  /** The public keys that the RFC decodes, among those that unpackneg accepts: y is below p, and the sign bit is clear
      where x is zero. */
  predicate Canonical(pk: seq<byte>)
    requires |pk| == 32
  {
    var y := LE(pk) % R255;
    y < P && (y == 1 || y == P - 1 ==> pk[31] < 128)
  }

  lemma DecodesIsEncoding(p: seq<byte>, a: Point)
    requires |p| == 32
    ensures DecodesTo(p, a) <==> OnCurve(a) && p == Encode(a)
  {
    if DecodesTo(p, a) {
      TopBit(p);
      ByteRange(p);
      assert LE(p) == a.y + R255 * (a.x % 2);
      InRange(a);
      EncodesBack(p, a, a.x % 2);
    } else if OnCurve(a) && p == Encode(a) {
      InRange(a);
      EncodingNumber(a);
      EncodingParts(p, a.y, a.x % 2);
      DivModUnique(LE(p), R255, a.x % 2, a.y);
    }
  }

  /** Different points have different encodings. */
  lemma EncodingUnique(a: Point, b: Point)
    requires IsPrime(P) && OnCurve(a) && OnCurve(b) && Encode(a) == Encode(b)
    ensures a == b
  {
    DecodesIsEncoding(Encode(a), a);
    DecodesIsEncoding(Encode(a), b);
    SameY(a, b);
    InRange(a);
    ParityFlips(a.x);
  }

  lemma NegTwice(a: Point)
    requires OnCurve(a)
    ensures Neg(Neg(a)) == a
  {
    InRange(a);
    ParityFlips(a.x);
    ParityFlips(Neg(a).x);
  }

  /** The RFC decodes a public key if and only if unpackneg accepts it and it is canonical; then the point that unpackneg
      gives is the opposite of the decoded one. */
  lemma KeyDecodes(pk: seq<byte>, a: Point)
    requires IsPrime(P) && |pk| == 32
    ensures DecodesTo(pk, a) <==> Unpacked(pk) == Some(Neg(a)) && OnCurve(a) && Canonical(pk)
  {
    DecodesIsEncoding(pk, a);
    if DecodesTo(pk, a) {
      UnpackedEncoding(a);
      XIsZero(a);
    } else if Unpacked(pk) == Some(Neg(a)) && OnCurve(a) && Canonical(pk) {
      NegTwice(a);
      UnpackedOnCurve(pk);
      XIsZero(Neg(a));
      DivModUnique(LE(pk) % R255, P, 0, LE(pk) % R255);
      UnpackedCanonical(pk);
    }
  }

  /** [k](-A) + [S]B = R is [S]B = R + [k]A. */
  lemma EquationTransposed(k: nat, a: Point, r: Point, s: nat)
    requires Curve() && OnCurve(a) && OnCurve(r)
    ensures Add(PointTimes(k, Neg(a)), BaseTimes(s)) == r <==> Equation(k, a, r, s)
  {
    var g := Points();
    PointsFormGroup();
    BaseOnCurve();
    NegOnCurve(a);
    Group.TimesHas(g, k, a);
    Group.TimesHas(g, k, Neg(a));
    Group.TimesHas(g, s, BASE);
    Group.TimesNeg(g, k, a);
    Group.Transposed(g, PointTimes(k, Neg(a)), PointTimes(k, a), BaseTimes(s), r);
  }

  lemma SumOnCurve(k: nat, a: Point, s: nat)
    requires Curve() && OnCurve(a)
    ensures OnCurve(Add(PointTimes(k, a), BaseTimes(s)))
  {
    PointsFormGroup();
    BaseOnCurve();
    Group.TimesHas(Points(), k, a);
    Group.TimesHas(Points(), s, BASE);
    Closed(PointTimes(k, a), BaseTimes(s));
  }

  /** The point R. */
  lemma SumDecodes(sch: Scheme, pk: seq<byte>, sm: seq<byte>, a: Point, r: Point)
    requires Curve() && |pk| == 32 && |sm| >= 64 && OnCurve(a) && DecodesTo(sm[..32], r)
    ensures EncodesSum(sch, pk, sm, Neg(a)) <==> Equation(Challenge(sch, pk, sm) % L, a, r, ScalarOf(sm[32..64]))
  {
    var k, s := Challenge(sch, pk, sm) % L, ScalarOf(sm[32..64]);
    var t := Add(PointTimes(k, Neg(a)), BaseTimes(s));
    EquationTransposed(k, a, r, s);
    NegOnCurve(a);
    SumOnCurve(k, Neg(a), s);
    DecodesIsEncoding(sm[..32], r);
    if Encode(t) == Encode(r) {
      EncodingUnique(t, r);
    }
  }

  /** The RFC accepts, with k reduced as section 5.1.6 reduces it, if and only if crypto_sign_open does, S is below the
      order and the public key is canonical. */
  lemma RfcAcceptsExactly(sch: Scheme, pk: seq<byte>, sm: seq<byte>)
    requires IsEd25519(sch) && Curve() && |pk| == 32 && |sm| >= 64
    ensures RfcAccepts(pk, sm, Challenge(sch, pk, sm) % L)
      <==> Opened(sch, pk, sm).Some? && ScalarOf(sm[32..64]) < L && Canonical(pk)
  {
    AcceptanceMeans(sch, pk, sm);
    var k, s := Challenge(sch, pk, sm) % L, ScalarOf(sm[32..64]);
    if RfcAccepts(pk, sm, k) {
      var a, r :| DecodesTo(pk, a) && DecodesTo(sm[..32], r) && Equation(k, a, r, s);
      KeyDecodes(pk, a);
      NegOnCurve(a);
      SumDecodes(sch, pk, sm, a, r);
    } else if Opened(sch, pk, sm).Some? && s < L && Canonical(pk) {
      UnpackedOnCurve(pk);
      OpenedAccepted(sch, pk, sm, Neg(Unpacked(pk).value));
    }
  }

  lemma OpenedAccepted(sch: Scheme, pk: seq<byte>, sm: seq<byte>, a: Point)
    requires Curve() && |pk| == 32 && |sm| >= 64 && ScalarOf(sm[32..64]) < L && Canonical(pk)
    requires Unpacked(pk).Some? && a == Neg(Unpacked(pk).value)
    requires OnCurve(Unpacked(pk).value) && EncodesSum(sch, pk, sm, Unpacked(pk).value)
    ensures RfcAccepts(pk, sm, Challenge(sch, pk, sm) % L)
  {
    var k, s := Challenge(sch, pk, sm) % L, ScalarOf(sm[32..64]);
    NegOnCurve(Unpacked(pk).value);
    NegTwice(Unpacked(pk).value);
    KeyDecodes(pk, a);
    var r := Add(PointTimes(k, Neg(a)), BaseTimes(s));
    SumOnCurve(k, Neg(a), s);
    EquationTransposed(k, a, r, s);
    DecodesIsEncoding(sm[..32], r);
  }

  // ---------------------------------------------------------------- the challenge without reduction

  /** Keys of the order of the base point: the reduction of k changes nothing. */
  lemma SubgroupKey(k: nat, a: Point)
    requires Curve() && OnCurve(a) && KilledBy(L, a)
    ensures PointTimes(k, a) == PointTimes(k % L, a)
  {
    PointsFormGroup();
    var n: nat := L;
    assert PointTimes(n, a) == ZERO;
    Group.TimesResidue(Points(), k, n, a);
  }

  /** [n]a = 0 */
  ghost predicate KilledBy(n: nat, a: Point) {
    forall m: nat {:trigger PointTimes(m, a)} :: m == n ==> PointTimes(m, a) == ZERO
  }

  /** For S below the order and a key that decodes, crypto_sign_open and the RFC agree when the reduction of k does not
      change [k]A; when it does, they never both accept. */
  lemma UnreducedChallenge(sch: Scheme, pk: seq<byte>, sm: seq<byte>, a: Point)
    requires IsEd25519(sch) && Curve() && |pk| == 32 && |sm| >= 64 && DecodesTo(pk, a) && ScalarOf(sm[32..64]) < L
    ensures var k := Challenge(sch, pk, sm);
      if PointTimes(k, a) == PointTimes(k % L, a) then RfcAccepts(pk, sm, k) <==> Opened(sch, pk, sm).Some?
      else !(RfcAccepts(pk, sm, k) && Opened(sch, pk, sm).Some?)
  {
    var k := Challenge(sch, pk, sm);
    RfcAcceptsExactly(sch, pk, sm);
    KeyDecodes(pk, a);
    if PointTimes(k, a) == PointTimes(k % L, a) {
      if RfcAccepts(pk, sm, k) {
        AcceptsSame(pk, sm, k, k % L, a);
      }
      if RfcAccepts(pk, sm, k % L) {
        AcceptsSame(pk, sm, k % L, k, a);
      }
    } else if RfcAccepts(pk, sm, k) && RfcAccepts(pk, sm, k % L) {
      var r := AcceptedPoint(pk, sm, k, a);
      var q := AcceptedPoint(pk, sm, k % L, a);
      SameKey(sm[..32], r, q);
      SameChallenge(k, k % L, a, r, ScalarOf(sm[32..64]));
    }
  }

  lemma AcceptsSame(pk: seq<byte>, sm: seq<byte>, k: nat, j: nat, a: Point)
    requires IsPrime(P) && |pk| == 32 && DecodesTo(pk, a) && PointTimes(k, a) == PointTimes(j, a) && RfcAccepts(pk, sm, k)
    ensures RfcAccepts(pk, sm, j)
  {
    var r := AcceptedPoint(pk, sm, k, a);
    assert Equation(j, a, r, ScalarOf(sm[32..64]));
  }

  /** The point R of an accepted message. */
  lemma AcceptedPoint(pk: seq<byte>, sm: seq<byte>, k: nat, a: Point) returns (r: Point)
    requires IsPrime(P) && |pk| == 32 && RfcAccepts(pk, sm, k) && DecodesTo(pk, a)
    ensures DecodesTo(sm[..32], r) && Equation(k, a, r, ScalarOf(sm[32..64]))
  {
    var b, q :| DecodesTo(pk, b) && DecodesTo(sm[..32], q) && Equation(k, b, q, ScalarOf(sm[32..64]));
    SameKey(pk, a, b);
    r := q;
  }

  lemma SameChallenge(k: nat, j: nat, a: Point, r: Point, s: nat)
    requires Curve() && OnCurve(a) && OnCurve(r) && Equation(k, a, r, s) && Equation(j, a, r, s)
    ensures PointTimes(k, a) == PointTimes(j, a)
  {
    PointsFormGroup();
    Group.TimesHas(Points(), k, a);
    Group.TimesHas(Points(), j, a);
    Group.LeftCancelled(Points(), r, PointTimes(k, a), PointTimes(j, a));
  }

  /** For keys of the order of the base point they agree if and only if S is below the order. */
  lemma RfcAcceptsSubgroupKey(sch: Scheme, pk: seq<byte>, sm: seq<byte>, a: Point)
    requires IsEd25519(sch) && Curve() && |pk| == 32 && |sm| >= 64 && DecodesTo(pk, a) && KilledBy(L, a)
    ensures RfcAccepts(pk, sm, Challenge(sch, pk, sm)) <==> Opened(sch, pk, sm).Some? && ScalarOf(sm[32..64]) < L
  {
    if ScalarOf(sm[32..64]) < L {
      SubgroupKey(Challenge(sch, pk, sm), a);
      UnreducedChallenge(sch, pk, sm, a);
    }
  }

  lemma SameKey(pk: seq<byte>, a: Point, b: Point)
    requires IsPrime(P) && |pk| == 32 && DecodesTo(pk, a) && DecodesTo(pk, b)
    ensures a == b
  {
    DecodesIsEncoding(pk, a);
    DecodesIsEncoding(pk, b);
    EncodingUnique(a, b);
  }

  /** The keys of crypto_sign_keypair are such keys. */
  lemma GeneratedKey(sch: Scheme, seed: seq<byte>)
    requires IsEd25519(sch) && Curve() && BaseOrder() && |seed| == 32
    ensures var a := BaseTimes(ScalarOf(Secret(sch, seed))); DecodesTo(PublicKey(sch, seed), a) && KilledBy(L, a)
  {
    var s := Secret(sch, seed);
    var a := BaseTimes(ScalarOf(s));
    BaseMultipleEncodes(s);
    assert sch.base(s) == BaseMultiple(s);
    DecodesIsEncoding(PublicKey(sch, seed), a);
    PointsFormGroup();
    BaseOnCurve();
    var n: nat := L;
    assert BaseTimes(n) == ZERO;
    Group.MultipleKilled(Points(), BASE, n, ScalarOf(s));
  }

  /** The order of the whole group is eight times L. */
  ghost predicate GroupOrder() {
    forall a :: OnCurve(a) ==> KilledBy(8 * L, a)
  }

  /** What crypto_sign_open accepts satisfies the equation with the cofactor and the unreduced k, for every key, as soon as
      S is below the order and the key is canonical. */
  lemma AcceptedHasCofactorEquation(sch: Scheme, pk: seq<byte>, sm: seq<byte>)
    requires IsEd25519(sch) && Curve() && GroupOrder() && |pk| == 32 && Opened(sch, pk, sm).Some?
    requires ScalarOf(sm[32..64]) < L && Canonical(pk)
    ensures RfcAcceptsCofactor(pk, sm, Challenge(sch, pk, sm))
  {
    RfcAcceptsExactly(sch, pk, sm);
    var k, s := Challenge(sch, pk, sm), ScalarOf(sm[32..64]);
    var a, r :| DecodesTo(pk, a) && DecodesTo(sm[..32], r) && Equation(k % L, a, r, s);
    TimesEight(k, a, r, s);
  }

  lemma TimesEight(k: nat, a: Point, r: Point, s: nat)
    requires Curve() && OnCurve(a) && OnCurve(r) && KilledBy(8 * L, a) && Equation(k % L, a, r, s)
    ensures CofactorEquation(k, a, r, s)
  {
    var g, n: nat := Points(), L;
    PointsFormGroup();
    Group.TimesHas(g, k % n, a);
    Group.TimesDistributes(g, 8, r, PointTimes(k % n, a));
    var c: nat := 8;
    assert PointTimes(c * n, a) == ZERO;
    Group.CofactorResidue(g, c, k, n, a);
  }

  // ---------------------------------------------------------------- S at or above the order

  /** If r, s, m opens and t is s plus the order, then r, t, m opens, and the other way round. The RFC refuses r, t, m. */
  lemma SecondResponse(sch: Scheme, pk: seq<byte>, r: seq<byte>, s: seq<byte>, t: seq<byte>, m: seq<byte>)
    requires IsEd25519(sch) && Curve() && BaseOrder() && |pk| == |r| == |s| == |t| == 32 && LE(t) == LE(s) + L
    ensures Opened(sch, pk, r + s + m) == Opened(sch, pk, r + t + m)
    ensures !RfcAccepts(pk, r + t + m, Challenge(sch, pk, r + t + m))
  {
    var u, v := r + s + m, r + t + m;
    SignedParts(r, s, m);
    SignedParts(r, t, m);
    SameMultiple(ScalarOf(s), ScalarOf(t));
    AcceptanceMeans(sch, pk, u);
    AcceptanceMeans(sch, pk, v);
    assert Challenge(sch, pk, u) == Challenge(sch, pk, v);
  }

  lemma SignedParts(r: seq<byte>, s: seq<byte>, m: seq<byte>)
    requires |r| == |s| == 32
    ensures var sm := r + s + m; sm[..32] == r && sm[32..64] == s && sm[64..] == m
  {
  }

  lemma SameMultiple(s: nat, t: nat)
    requires Curve() && BaseOrder() && t == s + L
    ensures BaseTimes(t) == BaseTimes(s)
  {
    PointsFormGroup();
    BaseOnCurve();
    var n: nat := L;
    assert BaseTimes(n) == ZERO;
    Group.TimesAdd(Points(), s + n, s, n, BASE);
    Group.TimesHas(Points(), s, BASE);
    assert Group.Neutral(Points(), BaseTimes(s));
  }

  /** Every signature made with a generated key has such a second one. */
  lemma SignatureHasSecond(sch: Scheme, seed: seq<byte>, m: seq<byte>) returns (t: seq<byte>)
    requires IsEd25519(sch) && Curve() && BaseOrder() && |seed| == 32
    ensures var pk := PublicKey(sch, seed);
      var sm := Signed(sch, seed + pk, m);
      && |t| == 32 && ScalarOf(sm[32..64]) < L && LE(t) == LE(sm[32..64]) + L
      && Opened(sch, pk, sm[..32] + t + m) == Some(m)
  {
    var pk := PublicKey(sch, seed);
    var sm := Signed(sch, seed + pk, m);
    SignThenOpen(sch, seed, m);
    ResponseInRange(sch, seed + pk, m);
    t := AboveOrder(sm[32..64]);
    SecondFor(sch, pk, sm, t);
  }

  lemma AboveOrder(s: seq<byte>) returns (t: seq<byte>)
    requires |s| == 32 && LE(s) < L
    ensures |t| == 32 && LE(t) == LE(s) + L
  {
    t := Bytes(LE(s) + L, 32);
    ValBound(s, 256);
    Pow256();
    BytesValue(LE(s) + L, 32);
  }

  lemma SecondFor(sch: Scheme, pk: seq<byte>, sm: seq<byte>, t: seq<byte>)
    requires IsEd25519(sch) && Curve() && BaseOrder() && |pk| == |t| == 32 && |sm| >= 64 && LE(t) == LE(sm[32..64]) + L
    ensures Opened(sch, pk, sm[..32] + t + sm[64..]) == Opened(sch, pk, sm)
  {
    assert sm == sm[..32] + sm[32..64] + sm[64..];
    SecondResponse(sch, pk, sm[..32], sm[32..64], t, sm[64..]);
  }

  lemma ResponseInRange(sch: Scheme, sk: seq<byte>, m: seq<byte>)
    requires IsEd25519(sch) && |sk| == 64
    ensures ScalarOf(Signed(sch, sk, m)[32..64]) < L && Signed(sch, sk, m)[64..] == m
  {
    var r := Nonce(sch, sk, m);
    var h, a := HashScalar(sch, sch.base(r) + sk[32..] + m), Secret(sch, sk);
    SignedParts(sch.base(r), sch.respond(r, h, a), m);
    assert sch.respond(r, h, a) == Response(r, h, a);
    ResponseBelowOrder(r, h, a);
  }

  lemma ResponseBelowOrder(r: seq<byte>, h: seq<byte>, a: seq<byte>)
    ensures LE(Response(r, h, a)) < L
  {
    BytesOfResidue((LE(r) + LE(h) * LE(a)) % L, Response(r, h, a));
  }
}
