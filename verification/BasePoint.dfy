/** Which point B is, and the key pairs it gives. */
module BasePoint {
  import opened MachineInts
  import opened PrimeField
  import opened Field25519
  import opened Congruence
  import opened EdwardsLaw
  import opened Edwards
  import opened Sign
  import Group

  /** B as section 5.1 of RFC 8032 describes it: the point with y = 4/5 and a positive, that is even, x. */
  ghost predicate IsBasePoint(b: Point) {
    OnCurve(b) && Eq(5 * b.y, 4) && b.x % 2 == 0
  }

  lemma BaseIsPoint()
    ensures IsBasePoint(BASE)
  {
    BaseOnCurve();
    EqIs(5 * BASE_Y, 4);
  }

  /** There is one such point, and the limbs of X and Y are its coordinates. */
  lemma OnlyBasePoint(b: Point)
    requires IsPrime(P)
    ensures IsBasePoint(b) <==> b == BASE
  {
    BaseIsPoint();
    if IsBasePoint(b) {
      EqIs(5, 0);
      EqCancel(5, b.y, BASE.y);
      EqSame(b.y, BASE.y);
      SameY(BASE, b);
      ParityFlips(BASE.x);
    }
  }

  /** The public key is the encoding of [a]B for the secret scalar a. */
  lemma KeyOfBasePoint(sch: Scheme, seed: seq<byte>, b: Point)
    requires IsEd25519(sch) && Curve() && |seed| == 32 && IsBasePoint(b)
    ensures PublicKey(sch, seed) == Encode(Group.Times(Points(), ScalarOf(Secret(sch, seed)), b))
  {
    OnlyBasePoint(b);
    BaseMultipleEncodes(Secret(sch, seed));
    assert sch.base(Secret(sch, seed)) == BaseMultiple(Secret(sch, seed));
  }

  /** scalarbase computes [s]B for every 256-bit s. */
  lemma ScalarbaseMultiple(s: seq<byte>, b: Point)
    requires Curve() && |s| == 32 && IsBasePoint(b)
    ensures Represents(Ladder(ScalarOf(s), BASE_EXT, 0).0, Group.Times(Points(), ScalarOf(s), b))
  {
    OnlyBasePoint(b);
    BaseRepresents();
    ScalarMultiple(s, BASE_EXT, BASE);
  }
}
