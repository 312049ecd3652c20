/** Congruence modulo 2^255 - 19, inverses and quotients. */
module Congruence {
  import opened Arith
  import opened PrimeField
  import opened Field25519
  import opened FieldPower

  // ---------------------------------------------------------------- residues, folded

  /** Proofs about polynomials only use the laws of congruence. The remainder itself, and the digits of the large
      constants, are seen where a value Shown(k) is mentioned: in EqIs and in the lemmas that say what a constant is. */
  predicate Shown(k: nat) {
    k >= 0
  }

  ghost predicate IsRes(a: int, r: int) {
    forall k {:trigger Shown(k)} :: Shown(k) ==> r == a % P
  }

  /** a modulo p. */
  ghost function Res(a: int): int {
    assert IsRes(a, a % P);
    var r :| IsRes(a, r);
    r
  }

  ghost predicate Eq(a: int, b: int) {
    Res(a) == Res(b)
  }

  lemma EqIs(a: int, b: int)
    ensures Eq(a, b) <==> a % P == b % P
  {
    assert Shown(0);
  }

  /** A residue that is at least 0 and below p, with the bounds folded like the remainder. */
  ghost predicate InField(a: int) {
    forall k {:trigger Shown(k)} :: Shown(k) ==> 0 <= a < P
  }

  lemma FieldRange(a: int)
    ensures InField(a) <==> 0 <= a < P
  {
    assert Shown(0);
  }

  lemma EqMul(a: int, b: int, c: int, d: int)
    requires Eq(a, b) && Eq(c, d)
    ensures Eq(a * c, b * d)
  {
    EqIs(a, b);
    EqIs(c, d);
    EqIs(a * c, b * d);
    ModMul(a, c, P);
    ModMul(b, d, P);
  }

  lemma EqAdd(a: int, b: int, c: int, d: int)
    requires Eq(a, b) && Eq(c, d)
    ensures Eq(a + c, b + d) && Eq(a - c, b - d)
  {
    EqIs(a, b);
    EqIs(c, d);
    EqIs(a + c, b + d);
    EqIs(a - c, b - d);
    ModAdd(a, c, P);
    ModAdd(b, d, P);
    ModSub(a, c, P);
    ModSub(b, d, P);
  }

  lemma EqRes(a: int)
    ensures Eq(a % P, a)
  {
    EqIs(a % P, a);
    ModIdem(a, P);
  }

  /** Congruent residues are equal. */
  lemma EqSame(a: int, b: int)
    requires InField(a) && InField(b) && Eq(a, b)
    ensures a == b
  {
    FieldRange(a);
    FieldRange(b);
    EqIs(a, b);
    DivModUnique(a, P, 0, a);
    DivModUnique(b, P, 0, b);
  }

  lemma SmallNumbers()
    ensures !Eq(1, 0) && !Eq(2, 0) && !Eq(4, 0) && !Eq(1, -1) && !Eq(-1, 0)
  {
    EqIs(1, 0);
    EqIs(2, 0);
    EqIs(4, 0);
    EqIs(1, -1);
    EqIs(-1, 0);
  }

  /** FMul is multiplication. */
  lemma MulEq(x: int, y: int, a: int, b: int)
    requires Eq(x, a) && Eq(y, b)
    ensures Eq(FMul(x, y), a * b)
  {
    EqMul(x, a, y, b);
    EqRes(x * y);
  }

  // ---------------------------------------------------------------- inverses and powers

  lemma EqInverse(w: int) returns (b: int)
    requires IsPrime(P) && !Eq(w, 0)
    ensures Eq(w * b, 1)
  {
    EqIs(w, 0);
    b := InverseOf(w, P);
    EqIs(w * b, 1);
  }

  lemma EqCancel(a: int, x: int, y: int)
    requires IsPrime(P) && !Eq(a, 0) && Eq(a * x, a * y)
    ensures Eq(x, y)
  {
    EqIs(a, 0);
    EqIs(a * x, a * y);
    EqIs(x, y);
    Cancel(a, x, y, P);
  }

  /** No zero divisors. */
  lemma NonZeroProduct(a: int, b: int)
    requires IsPrime(P) && !Eq(a, 0) && !Eq(b, 0)
    ensures !Eq(a * b, 0)
  {
    if Eq(a * b, 0) {
      assert a * 0 == 0;
      EqCancel(a, b, 0);
    }
  }

  lemma {:induction false} PowResidue(x: int, n: nat)
    ensures Eq(Pow(x % P, n), Pow(x, n))
  {
    if n > 0 {
      PowResidue(x, n - 1);
      EqRes(x);
      EqMul(x % P, x, Pow(x % P, n - 1), Pow(x, n - 1));
    }
  }

  lemma PowersOf(x: int, y: int, n: nat)
    requires Eq(x, y)
    ensures Eq(Pow(x, n), Pow(y, n))
  {
    EqIs(x, y);
    PowResidue(x, n);
    PowResidue(y, n);
  }

  /** Fermat's little theorem. */
  lemma FermatFor(q: int, n: nat)
    requires IsPrime(P) && !Eq(q, 0) && n == P - 1
    ensures Eq(Pow(q, n), 1)
  {
    EqIs(q, 0);
    Fermat(q % P, P);
    EqIs(Pow(q % P, n), 1);
    PowResidue(q, n);
  }

  // ---------------------------------------------------------------- division

  ghost predicate IsQuotient(r: int, u: int, v: int) {
    InField(r) && Eq(v * r, u)
  }

  /** The residue that gives u when multiplied by v. */
  ghost function Div(u: int, v: int): (r: int)
    ensures InField(r)
    ensures (exists q :: IsQuotient(q, u, v)) ==> IsQuotient(r, u, v)
  {
    if exists q :: IsQuotient(q, u, v) then
      var q :| IsQuotient(q, u, v);
      q
    else
      FieldRange(0);
      0
  }

  /** Division by a power, as RFC 8032 section 5.1.1 computes inverses. */
  lemma PowerQuotient(u: int, v: int)
    requires IsPrime(P) && !Eq(v, 0)
    ensures IsQuotient(FMul(u, FPow(v, P - 2)), u, v)
  {
    FermatFor(v, P - 1);
    var w, r := Pow(v, P - 2), FMul(u, FPow(v, P - 2));
    assert Pow(v, P - 1) == v * w;
    EqRes(w);
    MulEq(u, FPow(v, P - 2), u, w);
    EqMul(v, v, r, u * w);
    Regroup(v, u, w);
    EqMul(u, u, v * w, 1);
  }

  lemma Regroup(v: int, u: int, w: int)
    ensures v * (u * w) == u * (v * w)
  {
  }

  lemma Quotient(u: int, v: int)
    requires IsPrime(P) && !Eq(v, 0)
    ensures Eq(v * Div(u, v), u)
  {
    PowerQuotient(u, v);
  }

  lemma DivUnique(u: int, v: int, r: int)
    requires IsPrime(P) && !Eq(v, 0) && Eq(v * r, u)
    ensures Eq(r, Div(u, v)) && (InField(r) ==> Div(u, v) == r)
  {
    Quotient(u, v);
    EqCancel(v, r, Div(u, v));
    if InField(r) {
      EqSame(r, Div(u, v));
    }
  }
}
