/** What follows from the primality of a modulus: inverses, no zero divisors, Fermat's little theorem. */
module PrimeField {
  import opened Arith

  ghost predicate IsPrime(p: int) {
    p > 1 && forall a {:trigger p % a} :: 1 < a < p ==> p % a != 0
  }

  // ---------------------------------------------------------------- inverses

  /** Every residue but zero has an inverse. */
  lemma {:induction false} Inverse(a: int, p: int) returns (b: int)
    requires IsPrime(p) && 0 < a < p
    ensures a * b % p == 1
    decreases a
  {
    if a == 1 {
      b := 1;
      DivModUnique(1, p, 0, 1);
    } else {
      var q, r := p / a, p % a;
      var c := Inverse(r, p);
      b := -q * c;
      assert a * q == p - r by {
        assert p == q * a + r;
      }
      MulAssoc(a, -q, c);
      Negated(a, q);
      assert a * b == (r - p) * c;
      MulDistrib(c, r, p);
      ModOfMultiple(r * c, -c, p);
      assert (r - p) * c == r * c + (-c) * p;
    }
  }

  lemma Negated(a: int, q: int)
    ensures a * -q == -(a * q)
  {
  }

  lemma InverseOf(a: int, p: int) returns (b: int)
    requires IsPrime(p) && a % p != 0
    ensures a * b % p == 1
  {
    b := Inverse(a % p, p);
    ModMul(a, b, p);
    ModIdem(a, p);
    ModMul(a % p, b, p);
  }

  /** A factor that is not zero can be cancelled. */
  lemma Cancel(a: int, x: int, y: int, p: int)
    requires IsPrime(p) && a % p != 0 && a * x % p == a * y % p
    ensures x % p == y % p
  {
    var b := InverseOf(a, p);
    Uncover(a, b, x, p);
    Uncover(a, b, y, p);
    ModMul(b, a * x, p);
    ModMul(b, a * y, p);
  }

  lemma Uncover(a: int, b: int, x: int, p: int)
    requires p > 1 && a * b % p == 1
    ensures b * (a * x) % p == x % p
  {
    MulAssoc(b, a, x);
    ModMul(b * a, x, p);
    ModIdem(x, p);
  }

  // ---------------------------------------------------------------- Fermat's little theorem

  /** Binomial coefficients by the rule of Pascal. */
  function Choose(n: nat, k: nat): nat
    decreases n, k
  {
    if k == 0 then 1 else if n == 0 then 0 else Choose(n - 1, k - 1) + Choose(n - 1, k)
  }

  lemma {:induction false} ChooseAbove(n: nat, k: nat)
    requires k > n
    ensures Choose(n, k) == 0
    decreases n
  {
    if n > 0 {
      ChooseAbove(n - 1, k - 1);
      ChooseAbove(n - 1, k);
    }
  }

  lemma {:induction false} Absorb(n: nat, k: nat)
    requires n > 0 && k > 0
    ensures k * Choose(n, k) == n * Choose(n - 1, k - 1)
    decreases n
  {
    var m := n - 1;
    if m == 0 {
      if k > 1 {
        ChooseAbove(1, k);
        ChooseAbove(0, k - 1);
      }
    } else {
      Absorb(m, k);
      if k > 1 {
        Absorb(m, k - 1);
        AbsorbSum(n, k, Choose(m, k - 1), Choose(m, k), Choose(m - 1, k - 2), Choose(m - 1, k - 1));
      } else {
        assert Choose(m, 0) == 1 && Choose(m - 1, 0) == 1;
      }
    }
  }

  lemma AbsorbSum(n: int, k: int, a: int, b: int, c: int, d: int)
    requires k * b == (n - 1) * d && (k - 1) * a == (n - 1) * c && a == c + d
    ensures k * (a + b) == n * a
  {
    MulDistrib(k, a, b);
    MulDistrib(n - 1, c, d);
  }

  /** The first m + 1 terms of the binomial expansion of (x + 1)^n. */
  function Terms(x: int, n: nat, m: nat): int {
    if m == 0 then 1 else Terms(x, n, m - 1) + Choose(n, m) * Pow(x, m)
  }

  lemma {:induction false} TermsStep(x: int, n: nat, m: nat)
    ensures Terms(x, n + 1, m + 1) == x * Terms(x, n, m) + Terms(x, n, m + 1)
    decreases m
  {
    var a, b, p := Choose(n, m), Choose(n, m + 1), Pow(x, m);
    assert Choose(n + 1, m + 1) == a + b;
    if m > 0 {
      TermsStep(x, n, m - 1);
      MulDistrib(x, Terms(x, n, m - 1), a * p);
    } else {
      assert Terms(x, n + 1, 0) == Terms(x, n, 0) == 1;
    }
    PascalTerm(x, p, a, b);
  }

  lemma PascalTerm(x: int, p: int, a: int, b: int)
    ensures (a + b) * (x * p) == x * (a * p) + b * (x * p)
  {
    MulSwap(1, x, a, p);
    MulDistrib(x * p, a, b);
  }

  lemma OneMoreFactor(x: int, t: int)
    ensures (x + 1) * t == x * t + t
  {
  }

  lemma LastTerm(x: int, n: nat)
    requires n > 0
    ensures Terms(x, n - 1, n) == Terms(x, n - 1, n - 1)
  {
    ChooseAbove(n - 1, n);
    Zeroed(Choose(n - 1, n), Pow(x, n));
  }

  lemma Zeroed(c: int, q: int)
    requires c == 0
    ensures c * q == 0
  {
  }

  lemma {:induction false} Binomial(x: int, n: nat)
    ensures Pow(x + 1, n) == Terms(x, n, n)
  {
    if n > 0 {
      Binomial(x, n - 1);
      TermsStep(x, n - 1, n - 1);
      LastTerm(x, n);
      OneMoreFactor(x, Terms(x, n - 1, n - 1));
    }
  }

  lemma PrimeDividesChoose(p: int, k: nat)
    requires IsPrime(p) && 0 < k < p
    ensures Choose(p, k) % p == 0
  {
    Absorb(p, k);
    ZeroFactor(k, Choose(p, k), Choose(p - 1, k - 1), p);
  }

  lemma ZeroFactor(k: int, c: int, n: int, p: int)
    requires IsPrime(p) && 0 < k < p && k * c == p * n
    ensures c % p == 0
  {
    DivModUnique(p * n, p, n, 0);
    DivModUnique(k, p, 0, k);
    DivModUnique(0, p, 0, 0);
    assert k * 0 == 0;
    Cancel(k, c, 0, p);
  }

  lemma {:induction false} MiddleTermsVanish(x: int, p: int, m: nat)
    requires IsPrime(p) && m < p
    ensures Terms(x, p, m) % p == 1
    decreases m
  {
    DivModUnique(1, p, 0, 1);
    if m > 0 {
      MiddleTermsVanish(x, p, m - 1);
      PrimeDividesChoose(p, m);
      VanishingTerm(Terms(x, p, m - 1), Choose(p, m), Pow(x, m), p);
    }
  }

  lemma VanishingTerm(t: int, c: int, q: int, p: int)
    requires p > 1 && c % p == 0
    ensures (t + c * q) % p == t % p
  {
    var k := c / p;
    assert c * q == k * q * p by {
      assert c == k * p;
      MulAssoc(k, p, q);
      MulAssoc(k, q, p);
    }
    ModOfMultiple(t, k * q, p);
  }

  lemma {:induction false} ChooseAll(n: nat)
    ensures Choose(n, n) == 1
  {
    if n > 0 {
      ChooseAll(n - 1);
      ChooseAbove(n - 1, n);
    }
  }

  /** (x + 1)^p = x^p + 1 modulo p. */
  lemma FreshmansDream(x: int, p: int)
    requires IsPrime(p)
    ensures Pow(x + 1, p) % p == (Pow(x, p) + 1) % p
  {
    Binomial(x, p);
    ChooseAll(p);
    MiddleTermsVanish(x, p, p - 1);
    ModAdd(Terms(x, p, p - 1), Pow(x, p), p);
    ModAdd(1, Pow(x, p), p);
    DivModUnique(1, p, 0, 1);
  }

  lemma {:induction false} PowerOfResidue(x: nat, p: int)
    requires IsPrime(p)
    ensures Pow(x, p) % p == x % p
    decreases x
  {
    if x == 0 {
      assert Pow(0, p) == 0 * Pow(0, p - 1);
    } else {
      PowerOfResidue(x - 1, p);
      FreshmansDream(x - 1, p);
      ModAdd(Pow(x - 1, p), 1, p);
      ModAdd(x - 1, 1, p);
    }
  }

  /** Fermat's little theorem. */
  lemma Fermat(x: int, p: int)
    requires IsPrime(p) && 0 < x < p
    ensures Pow(x, p - 1) % p == 1
  {
    PowerOfResidue(x, p);
    DivModUnique(x, p, 0, x);
    assert Pow(x, p) == x * Pow(x, p - 1);
    Cancel(x, Pow(x, p - 1), 1, p);
    DivModUnique(1, p, 0, 1);
  }
}
