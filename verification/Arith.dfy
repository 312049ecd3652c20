/** Powers and residues: the integer arithmetic every limb proof stands on. */
module Arith {

  function Pow(b: int, e: nat): int {
    if e == 0 then 1 else b * Pow(b, e - 1)
  }

  lemma {:induction false} PowPositive(b: int, e: nat)
    requires b > 0
    ensures Pow(b, e) > 0
  {
    if e > 0 {
      PowPositive(b, e - 1);
      MulPositive(b, Pow(b, e - 1));
    }
  }

  lemma {:induction false} PowAdd(b: int, m: nat, n: nat)
    ensures Pow(b, m + n) == Pow(b, m) * Pow(b, n)
  {
    if m == 0 {
    } else {
      PowAdd(b, m - 1, n);
      MulAssoc(b, Pow(b, m - 1), Pow(b, n));
    }
  }

  lemma {:induction false} PowMul(b: int, m: nat, n: nat)
    ensures m * n >= 0 && Pow(b, m * n) == Pow(Pow(b, m), n)
  {
    if n == 0 {
      assert m * n == 0;
    } else {
      PowMul(b, m, n - 1);
      assert m * n == m + m * (n - 1);
      PowAdd(b, m, m * (n - 1));
    }
  }

  lemma {:induction false} PowOfProduct(a: int, b: int, n: nat)
    ensures Pow(a * b, n) == Pow(a, n) * Pow(b, n)
  {
    if n > 0 {
      PowOfProduct(a, b, n - 1);
      MulSwap(a, b, Pow(a, n - 1), Pow(b, n - 1));
    }
  }

  lemma MulPositive(a: int, b: int)
    requires a > 0 && b > 0
    ensures a * b > 0
  {
  }

  lemma MulAssoc(a: int, b: int, c: int)
    ensures (a * b) * c == a * (b * c)
  {
  }

  lemma MulSwap(a: int, b: int, x: int, y: int)
    ensures (a * b) * (x * y) == (a * x) * (b * y)
  {
    MulAssoc(a, b, x * y);
    MulAssoc(b, x, y);
    MulAssoc(x, b, y);
    MulAssoc(a, x, b * y);
  }

  lemma MulDistrib(a: int, b: int, c: int)
    ensures a * (b + c) == a * b + a * c && a * (b - c) == a * b - a * c
  {
  }

  lemma MulLe(a: int, b: int, k: int)
    requires a <= b && k >= 0
    ensures a * k <= b * k
  {
  }

  /** Quotient and remainder are determined by the usual equation. */
  lemma DivModUnique(a: int, m: int, q: int, r: int)
    requires m > 0 && 0 <= r < m && a == q * m + r
    ensures a / m == q && a % m == r
  {
    var q', r' := a / m, a % m;
    assert a == q' * m + r';
    assert (q' - q) * m == r - r';
    if q' > q {
      MulLe(1, q' - q, m);
    } else if q' < q {
      MulLe(q' - q, -1, m);
    }
  }

  lemma ModOfMultiple(a: int, k: int, m: int)
    requires m > 0
    ensures (a + k * m) % m == a % m
  {
    assert a + k * m == (a / m + k) * m + a % m;
    DivModUnique(a + k * m, m, a / m + k, a % m);
  }

  lemma ModAdd(a: int, b: int, m: int)
    requires m > 0
    ensures (a + b) % m == (a % m + b % m) % m
  {
    var k := a / m + b / m;
    assert a + b == a % m + b % m + k * m by {
      assert k * m == (a / m) * m + (b / m) * m;
    }
    ModOfMultiple(a % m + b % m, k, m);
  }

  lemma ModSub(a: int, b: int, m: int)
    requires m > 0
    ensures (a - b) % m == (a % m - b % m) % m
  {
    var k := a / m - b / m;
    assert a - b == a % m - b % m + k * m by {
      assert k * m == (a / m) * m - (b / m) * m;
    }
    ModOfMultiple(a % m - b % m, k, m);
  }

  lemma ModMul(a: int, b: int, m: int)
    requires m > 0
    ensures (a * b) % m == ((a % m) * (b % m)) % m
  {
    ProductResidue(a, b, m, a / m, a % m, b / m, b % m);
  }

  lemma ProductResidue(a: int, b: int, m: int, qa: int, ra: int, qb: int, rb: int)
    requires m > 0 && a == qa * m + ra && b == qb * m + rb
    ensures (a * b) % m == (ra * rb) % m
  {
    var k := a * qb + rb * qa;
    ProductExpanded(a, m, qa, ra, qb, rb);
    ModOfMultiple(ra * rb, k, m);
  }

  lemma ProductExpanded(a: int, m: int, qa: int, ra: int, qb: int, rb: int)
    requires a == qa * m + ra
    ensures a * (qb * m + rb) == ra * rb + (a * qb + rb * qa) * m
  {
    MulDistrib(a, qb * m, rb);
    MulAssoc(a, qb, m);
    MulDistrib(rb, qa * m, ra);
    MulAssoc(rb, qa, m);
    MulDistrib(m, a * qb, rb * qa);
  }

  lemma ModIdem(a: int, m: int)
    requires m > 0
    ensures 0 <= a % m < m && (a % m) % m == a % m
  {
    DivModUnique(a % m, m, 0, a % m);
  }
}
