/** Multiples in a commutative group, for any set of elements and any operation. */
module Group {
  import opened Arith
  import opened MachineInts
  import PrimeField

  datatype Ops<!T> = Ops(add: (T, T) -> T, zero: T, neg: T -> T, has: T -> bool)

  ghost predicate Closed<T>(g: Ops<T>, a: T, b: T) {
    g.has(a) && g.has(b) ==> g.has(g.add(a, b))
  }

  ghost predicate Assoc<T>(g: Ops<T>, a: T, b: T, c: T) {
    g.has(a) && g.has(b) && g.has(c) ==> g.add(g.add(a, b), c) == g.add(a, g.add(b, c))
  }

  ghost predicate Commutes<T>(g: Ops<T>, a: T, b: T) {
    g.add(a, b) == g.add(b, a)
  }

  ghost predicate Neutral<T>(g: Ops<T>, a: T) {
    g.has(a) ==> g.add(a, g.zero) == a
  }

  ghost predicate Opposite<T>(g: Ops<T>, a: T) {
    g.has(a) ==> g.has(g.neg(a)) && g.add(a, g.neg(a)) == g.zero
  }

  ghost predicate Laws<T(!new)>(g: Ops<T>) {
    && g.has(g.zero)
    && (forall a, b :: Closed(g, a, b))
    && (forall a, b, c :: Assoc(g, a, b, c))
    && (forall a, b :: Commutes(g, a, b))
    && (forall a :: Neutral(g, a))
    && (forall a :: Opposite(g, a))
  }

  /** [n]a */
  ghost function Times<T>(g: Ops<T>, n: nat, a: T): T
    decreases n
  {
    if n == 0 then g.zero else g.add(Times(g, n - 1, a), a)
  }

  lemma {:induction false} TimesHas<T(!new)>(g: Ops<T>, n: nat, a: T)
    requires Laws(g) && g.has(a)
    ensures g.has(Times(g, n, a))
  {
    if n > 0 {
      TimesHas(g, n - 1, a);
      assert Closed(g, Times(g, n - 1, a), a);
    }
  }

  lemma Single<T(!new)>(g: Ops<T>, a: T)
    requires Laws(g) && g.has(a)
    ensures Times(g, 1, a) == a
  {
    assert Times(g, 1, a) == g.add(Times(g, 0, a), a);
    assert Commutes(g, g.zero, a) && Neutral(g, a);
  }

  /** [k]a = [m]a + [n]a for k = m + n */
  lemma {:induction false} TimesAdd<T(!new)>(g: Ops<T>, k: nat, m: nat, n: nat, a: T)
    requires Laws(g) && g.has(a) && k == m + n
    ensures Times(g, k, a) == g.add(Times(g, m, a), Times(g, n, a))
    decreases n
  {
    TimesHas(g, m, a);
    if n == 0 {
      assert Neutral(g, Times(g, m, a));
    } else {
      TimesAdd(g, k - 1, m, n - 1, a);
      TimesHas(g, n - 1, a);
      assert Assoc(g, Times(g, m, a), Times(g, n - 1, a), a);
    }
  }

  lemma {:induction false} TimesTimes<T(!new)>(g: Ops<T>, m: nat, n: nat, a: T)
    requires Laws(g) && g.has(a)
    ensures m * n >= 0 && Times(g, m * n, a) == Times(g, m, Times(g, n, a))
    decreases m
  {
    if m == 0 {
      assert m * n == 0;
    } else {
      TimesTimes(g, m - 1, n, a);
      MulDistrib(n, m - 1, 1);
      TimesAdd(g, m * n, (m - 1) * n, n, a);
    }
  }

  lemma {:induction false} TimesZero<T(!new)>(g: Ops<T>, n: nat)
    requires Laws(g)
    ensures Times(g, n, g.zero) == g.zero
  {
    if n > 0 {
      TimesZero(g, n - 1);
      assert Neutral(g, g.zero);
    }
  }

  /** [n](-a) + [n]a = 0 */
  lemma {:induction false} TimesNeg<T(!new)>(g: Ops<T>, n: nat, a: T)
    requires Laws(g) && g.has(a)
    ensures g.add(Times(g, n, g.neg(a)), Times(g, n, a)) == g.zero
    decreases n
  {
    assert Opposite(g, a);
    if n == 0 {
      assert Neutral(g, g.zero);
    } else {
      var u, v := Times(g, n - 1, g.neg(a)), Times(g, n - 1, a);
      TimesNeg(g, n - 1, a);
      TimesHas(g, n - 1, a);
      TimesHas(g, n - 1, g.neg(a));
      assert Commutes(g, v, a) && Commutes(g, a, g.neg(a));
      Cancelled(g, u, g.neg(a), a, v);
    }
  }

  /** (u + b) + (a + v) = u + v when b + a = 0. */
  lemma Cancelled<T(!new)>(g: Ops<T>, u: T, b: T, a: T, v: T)
    requires Laws(g) && g.has(u) && g.has(b) && g.has(a) && g.has(v) && g.add(b, a) == g.zero
    ensures g.add(g.add(u, b), g.add(a, v)) == g.add(u, v)
  {
    assert Closed(g, a, v);
    assert Assoc(g, u, b, g.add(a, v)) && Assoc(g, b, a, v);
    assert Commutes(g, g.zero, v) && Neutral(g, v);
  }

  /** A multiple that vanishes can be left out. */
  lemma VanishingPart<T(!new)>(g: Ops<T>, k: nat, z: nat, r: nat, a: T)
    requires Laws(g) && g.has(a) && Times(g, z, a) == g.zero && k == z + r
    ensures Times(g, k, a) == Times(g, r, a)
  {
    TimesAdd(g, k, z, r, a);
    TimesHas(g, r, a);
    assert Commutes(g, g.zero, Times(g, r, a)) && Neutral(g, Times(g, r, a));
  }

  /** The part of k above its residue vanishes. */
  lemma AboveResidue<T(!new)>(g: Ops<T>, b: T, k: nat, n: nat) returns (z: nat)
    requires Laws(g) && g.has(b) && n > 0 && Times(g, n, b) == g.zero
    ensures z + k % n == k && Times(g, z, b) == g.zero
  {
    var q := k / n;
    z := q * n;
    TimesTimes(g, q, n, b);
    TimesZero(g, q);
  }

  /** Multiples of an element of order n only depend on the residue modulo n. */
  lemma TimesResidue<T(!new)>(g: Ops<T>, k: nat, n: int, a: T)
    requires Laws(g) && g.has(a) && n > 0 && Times(g, n, a) == g.zero
    ensures Times(g, k % n, a) == Times(g, k, a)
  {
    var z := AboveResidue(g, a, k, n);
    VanishingPart(g, k, z, k % n, a);
  }

  /** One step of double-and-add: from [n]a and [n+1]a to [2n+b]a and [2n+b+1]a. */
  lemma DoubleAndAdd<T(!new)>(g: Ops<T>, n: nat, a: T)
    requires Laws(g) && g.has(a)
    ensures g.add(Times(g, n, a), Times(g, n, a)) == Times(g, 2 * n, a)
    ensures g.add(Times(g, n + 1, a), Times(g, n, a)) == g.add(Times(g, n, a), Times(g, n + 1, a)) == Times(g, 2 * n + 1, a)
    ensures g.add(Times(g, n + 1, a), Times(g, n + 1, a)) == Times(g, 2 * n + 2, a)
  {
    TimesAdd(g, 2 * n, n, n, a);
    TimesAdd(g, 2 * n + 1, n + 1, n, a);
    TimesAdd(g, 2 * n + 1, n, n + 1, a);
    TimesAdd(g, 2 * n + 2, n + 1, n + 1, a);
  }

  /** [s]b = [h][a]b + [r]b when s = h a + r modulo the order of b. */
  lemma ResponseSplits<T(!new)>(g: Ops<T>, b: T, n: int, a: nat, r: nat, h: nat, s: nat, key: T)
    requires Laws(g) && g.has(b) && n > 0 && Times(g, n, b) == g.zero && key == Times(g, a, b)
    requires h * a >= 0 && s == (h * a + r) % n
    ensures Times(g, s, b) == g.add(Times(g, h, key), Times(g, r, b))
  {
    var m: nat := h * a;
    var k := m + r;
    assert Times(g, k, b) == Times(g, s, b) by { TimesResidue(g, k, n, b); }
    assert Times(g, m, b) == Times(g, h, key) by { TimesTimes(g, h, a, b); }
    assert Times(g, k, b) == g.add(Times(g, m, b), Times(g, r, b)) by { TimesAdd(g, k, m, r, b); }
  }

  /** (-u) + (u + v) = v, where -u is any element that gives zero with u. */
  lemma Restored<T(!new)>(g: Ops<T>, w: T, u: T, v: T)
    requires Laws(g) && g.has(w) && g.has(u) && g.has(v) && g.add(w, u) == g.zero
    ensures g.add(w, g.add(u, v)) == v
  {
    assert Assoc(g, w, u, v);
    assert Commutes(g, g.zero, v) && Neutral(g, v);
  }

  /** The equation a signature is verified by: s = h a + r modulo the order of b, and [a]b is the public key. */
  lemma SignatureEquation<T(!new)>(g: Ops<T>, b: T, n: int, a: nat, r: nat, h: nat, s: nat)
    requires Laws(g) && g.has(b) && n > 0 && Times(g, n, b) == g.zero
    requires h * a >= 0 && s == (h * a + r) % n
    ensures g.add(Times(g, h, g.neg(Times(g, a, b))), Times(g, s, b)) == Times(g, r, b)
  {
    var key := Times(g, a, b);
    ResponseSplits(g, b, n, a, r, h, s, key);
    TimesHas(g, a, b);
    TimesHas(g, h, key);
    TimesHas(g, r, b);
    assert Opposite(g, key);
    TimesHas(g, h, g.neg(key));
    TimesNeg(g, h, key);
    Restored(g, Times(g, h, g.neg(key)), Times(g, h, key), Times(g, r, b));
  }

  /** Adding the opposite x of y to both sides. */
  lemma Transposed<T(!new)>(g: Ops<T>, x: T, y: T, s: T, r: T)
    requires Laws(g) && g.has(x) && g.has(y) && g.has(s) && g.has(r) && g.add(x, y) == g.zero
    ensures g.add(x, s) == r <==> s == g.add(r, y)
  {
    assert Commutes(g, x, y) && Commutes(g, r, y);
    if s == g.add(r, y) {
      Restored(g, x, y, r);
    }
    if g.add(x, s) == r {
      Restored(g, y, x, s);
    }
  }

  lemma LeftCancelled<T(!new)>(g: Ops<T>, r: T, x: T, y: T)
    requires Laws(g) && g.has(r) && g.has(x) && g.has(y) && g.add(r, x) == g.add(r, y)
    ensures x == y
  {
    assert Opposite(g, r) && Commutes(g, r, g.neg(r));
    Restored(g, g.neg(r), r, x);
    Restored(g, g.neg(r), r, y);
  }

  /** (a + b) + (c + d) = (a + c) + (b + d) */
  lemma Interchange<T(!new)>(g: Ops<T>, a: T, b: T, c: T, d: T)
    requires Laws(g) && g.has(a) && g.has(b) && g.has(c) && g.has(d)
    ensures g.add(g.add(a, b), g.add(c, d)) == g.add(g.add(a, c), g.add(b, d))
  {
    assert Closed(g, c, d) && Closed(g, b, d);
    assert Assoc(g, a, b, g.add(c, d)) && Assoc(g, b, c, d) && Commutes(g, b, c);
    assert Assoc(g, c, b, d) && Assoc(g, a, c, g.add(b, d));
  }

  /** [n](a + b) = [n]a + [n]b */
  lemma {:induction false} TimesDistributes<T(!new)>(g: Ops<T>, n: nat, a: T, b: T)
    requires Laws(g) && g.has(a) && g.has(b)
    ensures Times(g, n, g.add(a, b)) == g.add(Times(g, n, a), Times(g, n, b))
  {
    if n == 0 {
      assert Neutral(g, g.zero);
    } else {
      TimesDistributes(g, n - 1, a, b);
      TimesHas(g, n - 1, a);
      TimesHas(g, n - 1, b);
      Interchange(g, Times(g, n - 1, a), Times(g, n - 1, b), a, b);
    }
  }

  /** [c][k]a = [c][k mod n]a when [c n]a = 0. */
  lemma CofactorResidue<T(!new)>(g: Ops<T>, c: nat, k: nat, n: int, a: T)
    requires Laws(g) && g.has(a) && n > 0 && c * n >= 0 && Times(g, c * n, a) == g.zero
    ensures Times(g, c, Times(g, k, a)) == Times(g, c, Times(g, k % n, a))
  {
    var q: nat, r: nat := k / n, k % n;
    assert k == q * n + r;
    ScaledQuotient(c, k, q, r, n);
    KilledPart(g, c, k, q, r, c * n, a);
  }

  lemma KilledPart<T(!new)>(g: Ops<T>, c: nat, k: nat, q: nat, r: nat, cn: nat, a: T)
    requires Laws(g) && g.has(a) && Times(g, cn, a) == g.zero
    requires c * r >= 0 && q * cn >= 0 && c * k >= 0 && c * k == q * cn + c * r
    ensures Times(g, c, Times(g, k, a)) == Times(g, c, Times(g, r, a))
  {
    var cr: nat := c * r;
    TimesTimes(g, c, k, a);
    TimesTimes(g, c, r, a);
    TimesTimes(g, q, cn, a);
    TimesZero(g, q);
    VanishingPart(g, c * k, q * cn, cr, a);
  }

  lemma ScaledQuotient(c: nat, k: nat, q: nat, r: nat, n: nat)
    requires k == q * n + r
    ensures c * r >= 0 && c * n >= 0 && q * (c * n) + c * r == c * k
  {
    MulAssoc(q, c, n);
    MulAssoc(c, q, n);
    MulDistrib(c, q * n, r);
  }

  /** Every multiple of b is killed by the order of b. */
  lemma MultipleKilled<T(!new)>(g: Ops<T>, b: T, n: nat, m: nat)
    requires Laws(g) && g.has(b) && Times(g, n, b) == g.zero
    ensures Times(g, n, Times(g, m, b)) == g.zero
  {
    TimesTimes(g, n, m, b);
    TimesTimes(g, m, n, b);
    TimesZero(g, m);
    assert n * m == m * n;
  }

  /** A multiple of an element of prime order vanishes only where it must. */
  lemma PrimeOrder<T(!new)>(g: Ops<T>, b: T, n: nat, d: nat)
    requires Laws(g) && g.has(b) && b != g.zero && PrimeField.IsPrime(n) && Times(g, n, b) == g.zero && Times(g, d, b) == g.zero
    ensures d % n == 0
  {
    if d % n != 0 {
      var e, k := InverseFactor(d, n);
      InverseMultiple(g, b, n, d, e, k);
    }
  }

  lemma InverseFactor(d: nat, n: nat) returns (e: nat, k: nat)
    requires PrimeField.IsPrime(n) && d % n != 0
    ensures k == e * d && k % n == 1
  {
    var c := PrimeField.InverseOf(d, n);
    e := c % n;
    k := e * d;
    ReducedFactor(c, d, n, e, k);
  }

  lemma ReducedFactor(c: int, d: int, n: int, e: int, k: int)
    requires n > 0 && e == c % n && k == e * d && d * c % n == 1
    ensures k % n == 1
  {
    assert c * d == d * c;
    ProductResidue(c, d, n, c / n, e, 0, d);
  }

  lemma InverseMultiple<T(!new)>(g: Ops<T>, b: T, n: nat, d: nat, e: nat, k: nat)
    requires Laws(g) && g.has(b) && n > 0 && Times(g, n, b) == g.zero && Times(g, d, b) == g.zero && k == e * d && k % n == 1
    ensures b == g.zero
  {
    TimesTimes(g, e, d, b);
    TimesZero(g, e);
    TimesResidue(g, k, n, b);
    Single(g, b);
  }

  /** Multiples of an element of prime order are equal exactly for congruent factors. */
  lemma MultiplesDiffer<T(!new)>(g: Ops<T>, b: T, n: nat, r: nat, s: nat)
    requires Laws(g) && g.has(b) && b != g.zero && PrimeField.IsPrime(n) && Times(g, n, b) == g.zero && s <= r
    ensures Times(g, r, b) == Times(g, s, b) <==> r % n == s % n
  {
    var d: nat := r - s;
    TimesAdd(g, r, s, d, b);
    TimesHas(g, s, b);
    TimesHas(g, d, b);
    if Times(g, r, b) == Times(g, s, b) {
      assert Neutral(g, Times(g, s, b));
      LeftCancelled(g, Times(g, s, b), Times(g, d, b), g.zero);
      PrimeOrder(g, b, n, d);
      ModSum(s, d, n);
    }
    if r % n == s % n {
      TimesResidue(g, r, n, b);
      TimesResidue(g, s, n, b);
    }
  }

  lemma ModSum(s: nat, d: nat, n: nat)
    requires n > 0 && d % n == 0
    ensures (s + d) % n == s % n
  {
    ModOfMultiple(s, d / n, n);
  }

  // ---------------------------------------------------------------- the ladder

  /** One iteration of double-and-add with two swaps: they select which of the two values is doubled. */
  function LadderStep<E>(sum: (E, E) -> E, b: int, p: E, q: E): (E, E) {
    if b == 1 then (sum(p, q), sum(q, q)) else (sum(p, p), sum(q, p))
  }

  /** p and q after the iterations for the bits 255 .. i of k. */
  function Ladder<E>(sum: (E, E) -> E, zero: E, k: int, q: E, i: nat): (E, E)
    requires i <= 256
    decreases 256 - i
  {
    if i == 256 then (zero, q)
    else
      var (u, v) := Ladder(sum, zero, k, q, i + 1);
      LadderStep(sum, Bit(k, i), u, v)
  }

  /** The values of type E stand for elements, and sum for the operation. */
  ghost predicate SumAt<E, T>(g: Ops<T>, sum: (E, E) -> E, rep: (E, T) -> bool, e: E, f: E, a: T, b: T) {
    g.has(a) && g.has(b) && rep(e, a) && rep(f, b) ==> rep(sum(e, f), g.add(a, b))
  }

  ghost predicate Computes<E(!new), T(!new)>(g: Ops<T>, sum: (E, E) -> E, rep: (E, T) -> bool) {
    forall e, f, a, b :: SumAt(g, sum, rep, e, f, a, b)
  }

  lemma StepMultiples<E(!new), T(!new)>(g: Ops<T>, sum: (E, E) -> E, rep: (E, T) -> bool, b: int, u: E, v: E, n: nat, a: T)
    requires Laws(g) && Computes(g, sum, rep) && g.has(a) && 0 <= b <= 1
    requires rep(u, Times(g, n, a)) && rep(v, Times(g, n + 1, a))
    ensures var (x, y) := LadderStep(sum, b, u, v); rep(x, Times(g, 2 * n + b, a)) && rep(y, Times(g, 2 * n + b + 1, a))
  {
    TimesHas(g, n, a);
    TimesHas(g, n + 1, a);
    DoubleAndAdd(g, n, a);
    var c, d := Times(g, n, a), Times(g, n + 1, a);
    assert SumAt(g, sum, rep, u, u, c, c) && SumAt(g, sum, rep, u, v, c, d);
    assert SumAt(g, sum, rep, v, u, d, c) && SumAt(g, sum, rep, v, v, d, d);
  }

  lemma BitStep(k: int, i: nat)
    requires k >= 0
    ensures Pow(2, i) > 0 && Pow(2, i + 1) > 0
    ensures k / Pow(2, i) == 2 * (k / Pow(2, i + 1)) + Bit(k, i) && k / Pow(2, i + 1) >= 0
  {
    PowPositive(2, i);
    PowPositive(2, i + 1);
    DivDiv(k, Pow(2, i), 2);
    DivNatural(k, Pow(2, i + 1));
  }

  lemma DivNatural(k: int, p: int)
    requires k >= 0 && p > 0
    ensures k / p >= 0
  {
  }

  /** The ladder keeps p = [k >> i]a and q = p + a. */
  lemma {:induction false} LadderMultiples<E(!new), T(!new)>(g: Ops<T>, sum: (E, E) -> E, rep: (E, T) -> bool, zero: E, k: nat, q: E, a: T, i: nat)
    requires Laws(g) && Computes(g, sum, rep) && g.has(a) && rep(zero, g.zero) && rep(q, a)
    requires k < Pow(2, 256) && i <= 256
    ensures Pow(2, i) > 0 && k / Pow(2, i) >= 0
    ensures var (u, v), n := Ladder(sum, zero, k, q, i), k / Pow(2, i); rep(u, Times(g, n, a)) && rep(v, Times(g, n + 1, a))
    decreases 256 - i
  {
    PowPositive(2, i);
    DivNatural(k, Pow(2, i));
    if i == 256 {
      DivModUnique(k, Pow(2, i), 0, k);
      Single(g, a);
    } else {
      BitStep(k, i);
      LadderMultiples(g, sum, rep, zero, k, q, a, i + 1);
      var (u, v) := Ladder(sum, zero, k, q, i + 1);
      StepMultiples(g, sum, rep, Bit(k, i), u, v, k / Pow(2, i + 1), a);
    }
  }
}
