/** The function X25519 computes multiples of points: the ladder of RFC 7748 on the curve of Ed25519. */
module Montgomery {
  import opened Arith
  import opened Radix
  import opened MachineInts
  import opened LittleEndian
  import opened PrimeField
  import opened Field25519
  import opened FieldCodec
  import opened FieldPower
  import opened Congruence
  import opened EdwardsLaw
  import opened X25519
  import Edwards
  import Group

  // ---------------------------------------------------------------- u-coordinates

  /** u = (1 + y) / (1 - y), the map of RFC 7748 section 4.1; zero where there is no quotient. */
  ghost function U(a: Point): (u: int)
    ensures InField(u)
  {
    Div(1 + a.y, 1 - a.y)
  }

  /** The polynomials in Stands, DifferenceY and HasU are seen where a value Unfolded(k) is mentioned. */
  predicate Unfolded(k: nat) {
    k >= 0
  }

  /** x / z is the u-coordinate of a, in a form that covers the neutral point: x - z = y (x + z) and x + z is not zero. */
  ghost predicate Stands(x: int, z: int, a: Point) {
    forall k {:trigger Unfolded(k)} :: Unfolded(k) ==> !Eq(x + z, 0) && Eq(x - z, a.y * (x + z))
  }

  /** A number that is not zero, and neither are twice and half of it. */
  lemma Twice(x: int)
    requires IsPrime(P)
    ensures Eq(2 * x, 0) <==> Eq(x, 0)
  {
    SmallNumbers();
    if Eq(x, 0) {
      EqMul(2, 2, x, 0);
    } else {
      NonZeroProduct(2, x);
    }
  }

  lemma EqSub(a: int, b: int)
    ensures Eq(a, b) <==> Eq(a - b, 0)
  {
    if Eq(a, b) {
      EqAdd(a, b, b, b);
    }
    if Eq(a - b, 0) {
      EqAdd(a - b, 0, b, b);
    }
  }

  lemma FieldSums(x: int, y: int, a: int, b: int)
    requires Eq(x, a) && Eq(y, b)
    ensures Eq(FAdd(x, y), a + b) && Eq(FSub(x, y), a - b)
  {
    EqAdd(x, a, y, b);
    EqRes(x + y);
    EqRes(x - y);
  }

  /** One step of the ladder as polynomials: a, b, c, d are the sums and differences x2 + z2, x2 - z2, x3 + z3, x3 - z3. */
  lemma StepPolynomials(x1: int, s: Ladder, a: int, b: int, c: int, d: int)
    requires Eq(s.x2 + s.z2, a) && Eq(s.x2 - s.z2, b) && Eq(s.x3 + s.z3, c) && Eq(s.x3 - s.z3, d)
    ensures var t := LadderStep(x1, s);
      && Eq(t.x2, (a * a) * (b * b)) && Eq(t.z2, (a * a - b * b) * (a * a + A24 * (a * a - b * b)))
      && Eq(t.x3, (d * a + c * b) * (d * a + c * b)) && Eq(t.z3, x1 * ((d * a - c * b) * (d * a - c * b)))
  {
    FieldSums(s.x2, s.z2, s.x2, s.z2);
    FieldSums(s.x3, s.z3, s.x3, s.z3);
    var fa, fb, fc, fd := FAdd(s.x2, s.z2), FSub(s.x2, s.z2), FAdd(s.x3, s.z3), FSub(s.x3, s.z3);
    Doubling(fa, fb, a, b);
    MulEq(fd, fa, d, a);
    MulEq(fc, fb, c, b);
    FieldSums(FMul(fd, fa), FMul(fc, fb), d * a, c * b);
    var sum, diff := FAdd(FMul(fd, fa), FMul(fc, fb)), FSub(FMul(fd, fa), FMul(fc, fb));
    MulEq(sum, sum, d * a + c * b, d * a + c * b);
    MulEq(diff, diff, d * a - c * b, d * a - c * b);
    MulEq(x1, FMul(diff, diff), x1, (d * a - c * b) * (d * a - c * b));
  }

  lemma Doubling(fa: int, fb: int, a: int, b: int)
    requires Eq(fa, a) && Eq(fb, b)
    ensures var aa, bb := FMul(fa, fa), FMul(fb, fb);
      var e := FSub(aa, bb);
      && Eq(FMul(aa, bb), (a * a) * (b * b))
      && Eq(FMul(e, FAdd(aa, FMul(A24, e))), (a * a - b * b) * (a * a + A24 * (a * a - b * b)))
  {
    var aa, bb := FMul(fa, fa), FMul(fb, fb);
    MulEq(fa, fa, a, a);
    MulEq(fb, fb, b, b);
    MulEq(aa, bb, a * a, b * b);
    FieldSums(aa, bb, a * a, b * b);
    var e := FSub(aa, bb);
    MulEq(A24, e, A24, a * a - b * b);
    FieldSums(aa, FMul(A24, e), a * a, A24 * (a * a - b * b));
    MulEq(e, FAdd(aa, FMul(A24, e)), a * a - b * b, a * a + A24 * (a * a - b * b));
  }

  // ---------------------------------------------------------------- the curve once more

  /** X (1 + d y^2) = y^2 - 1 for X = x^2. */
  lemma SquareOfX(a: Point)
    requires OnCurve(a)
    ensures Eq((a.x * a.x) * (1 + D * (a.y * a.y)), a.y * a.y - 1)
  {
    var x, y := a.x * a.x, a.y * a.y;
    SquareOfProduct(a.x, a.y);
    var t := D * (x * y);
    EqAdd(y - x, 1 + t, x - 1, x - 1);
    Distributed(x, y, D);
    assert y - x + (x - 1) == y - 1 && 1 + t + (x - 1) == x + t;
  }

  lemma Distributed(x: int, y: int, d: int)
    ensures x * (1 + d * y) == x + d * (x * y)
  {
    assert x * (d * y) == d * (x * y);
  }

  lemma FactorNonZero(y: int)
    requires IsPrime(P)
    ensures !Eq(1 + D * (y * y), 0)
  {
    Edwards.RatioValues(y);
    Edwards.DenominatorNonZero(y);
  }

  /** d (A24 + 1) = -A24: the Montgomery curve with A = 4 A24 + 2 and the Edwards curve are the same. */
  lemma CoefficientsMeet()
    ensures Eq((A24 + 1) * D, -A24) && !Eq(A24 + 1, 0)
  {
    DIsValue();
    EqIs(A24 + 1, 0);
  }

  // ---------------------------------------------------------------- doubling

  /** Numerator and denominator of y of the double, times (1 + A24)(1 + d y^2). */
  lemma DoubleNumerator(y: int, x: int, d: int, c: int)
    requires Eq(x * (1 + d * y), y - 1) && Eq((c + 1) * d, -c)
    ensures Eq((c + 1) * (1 + d * y) * (y + x), 2 * y - 1 - c * ((1 - y) * (1 - y)))
  {
    var h := 1 + d * y;
    EqAdd(h * y, h * y, x * h, y - 1);
    EqMul(c + 1, c + 1, h * y + x * h, h * y + (y - 1));
    EqMul((c + 1) * d, -c, y * y, y * y);
    var rest := (c + 1) * (2 * y - 1);
    EqAdd(rest, rest, (c + 1) * d * (y * y), -c * (y * y));
    NumeratorTerms(y, x, d, c);
  }

  lemma NumeratorTerms(y: int, x: int, d: int, c: int)
    ensures (c + 1) * (1 + d * y) * (y + x) == (c + 1) * ((1 + d * y) * y + x * (1 + d * y))
    ensures (c + 1) * ((1 + d * y) * y + (y - 1)) == (c + 1) * (2 * y - 1) + (c + 1) * d * (y * y)
    ensures (c + 1) * (2 * y - 1) + -c * (y * y) == 2 * y - 1 - c * ((1 - y) * (1 - y))
  {
  }

  lemma DoubleDenominator(y: int, x: int, d: int, c: int)
    requires Eq(x * (1 + d * y), y - 1) && Eq((c + 1) * d, -c)
    ensures Eq((c + 1) * (1 + d * y) * (1 - d * (x * y)), 1 + c * ((1 - y) * (1 - y)))
  {
    var h := 1 + d * y;
    EqMul(d * y, d * y, x * h, y - 1);
    EqAdd(h, h, d * y * (x * h), d * y * (y - 1));
    EqMul(c + 1, c + 1, h - d * y * (x * h), h - d * y * (y - 1));
    EqMul((c + 1) * d, -c, 2 * y - y * y, 2 * y - y * y);
    EqAdd(c + 1, c + 1, (c + 1) * d * (2 * y - y * y), -c * (2 * y - y * y));
    DenominatorTerms(y, x, d, c);
  }

  lemma DenominatorTerms(y: int, x: int, d: int, c: int)
    ensures (c + 1) * (1 + d * y) * (1 - d * (x * y)) == (c + 1) * (1 + d * y - d * y * (x * (1 + d * y)))
    ensures (c + 1) * (1 + d * y - d * y * (y - 1)) == c + 1 + (c + 1) * d * (2 * y - y * y)
    ensures c + 1 + -c * (2 * y - y * y) == 1 + c * ((1 - y) * (1 - y))
  {
  }

  /** A sum and a difference that are multiples of denominator and numerator of y. */
  lemma Rescaled(sum: int, diff: int, k: int, den: int, num: int, y: int)
    requires IsPrime(P) && Eq(sum, k * den) && Eq(diff, k * num) && Eq(den * y, num) && !Eq(k, 0) && !Eq(den, 0)
    ensures !Eq(sum, 0) && Eq(diff, y * sum)
  {
    NonZeroProduct(k, den);
    EqMul(k, k, den * y, num);
    EqMul(y, y, sum, k * den);
    assert y * (k * den) == k * (den * y);
  }

  /** The doubled coordinates, for b = y a: Y = y^2, and g = a^4. */
  lemma DoubledCoordinates(a: int, y: int, c: int, g: int)
    requires g == (a * a) * (a * a)
    ensures var b, w := y * a, y * y;
      var x, z := (a * a) * (b * b), (a * a - b * b) * (a * a + c * (a * a - b * b));
      && x + z == g * (1 + c * ((1 - w) * (1 - w))) && x - z == g * (2 * w - 1 - c * ((1 - w) * (1 - w)))
  {
    var b, w, m := y * a, y * y, a * a;
    SquareOfProduct(y, a);
    assert b * b == w * m;
    OneLess(m, w);
    ScaledPair(m, w, c, 1 - w);
  }

  lemma OneLess(m: int, w: int)
    ensures m - w * m == m * (1 - w) && m * (w * m) == (m * m) * w
  {
  }

  lemma ScaledPair(m: int, w: int, c: int, v: int)
    requires v == 1 - w
    ensures (m * v) * (m + c * (m * v)) == (m * m) * (v + c * (v * v))
    ensures (m * m) * w + (m * m) * (v + c * (v * v)) == (m * m) * (1 + c * (v * v))
    ensures (m * m) * w - (m * m) * (v + c * (v * v)) == (m * m) * (2 * w - 1 - c * (v * v))
  {
    assert c * (m * v) == m * (c * v);
    assert (m * v) * (m + m * (c * v)) == (m * m) * (v * (1 + c * v));
  }

  lemma DoubledSum(x: int, z: int, a: int, b: int, y: int, g: int, w: int)
    requires b == y * a && g == (a * a) * (a * a) && w == y * y
    requires Eq(x, (a * a) * (b * b)) && Eq(z, (a * a - b * b) * (a * a + A24 * (a * a - b * b)))
    ensures Eq(x + z, g * (1 + A24 * ((1 - w) * (1 - w)))) && Eq(x - z, g * (2 * w - 1 - A24 * ((1 - w) * (1 - w))))
  {
    DoubledCoordinates(a, y, A24, g);
    EqAdd(x, (a * a) * (b * b), z, (a * a - b * b) * (a * a + A24 * (a * a - b * b)));
  }

  /** The first half of a step doubles. */
  lemma DoubledStands(x1: int, s: Ladder, p: Point)
    requires IsPrime(P) && OnCurve(p) && Stands(s.x2, s.z2, p)
    ensures var t := LadderStep(x1, s); Stands(t.x2, t.z2, Add(p, p))
  {
    var a := s.x2 + s.z2;
    var b, g := p.y * a, (a * a) * (a * a);
    SumAndDifference(s.x2, s.z2, p);
    StepPolynomials(x1, s, a, b, s.x3 + s.z3, s.x3 - s.z3);
    var t := LadderStep(x1, s);
    DoubledSum(t.x2, t.z2, a, b, p.y, g, p.y * p.y);
    DoubleQuotient(p, g, t.x2 + t.z2, t.x2 - t.z2);
    NonZeroProduct(a, a);
    NonZeroProduct(a * a, a * a);
    DoubleStands(p, g, t.x2 + t.z2, t.x2 - t.z2);
    StandsWhen(t.x2, t.z2, Add(p, p));
  }

  lemma SumAndDifference(x: int, z: int, p: Point)
    requires Stands(x, z, p)
    ensures !Eq(x + z, 0) && Eq(x - z, p.y * (x + z))
  {
    assert Unfolded(0);
  }

  lemma StandsWhen(x: int, z: int, p: Point)
    requires !Eq(x + z, 0) && Eq(x - z, p.y * (x + z))
    ensures Stands(x, z, p)
  {
  }

  ghost function DoubleScale(p: Point): int {
    (A24 + 1) * (1 + D * (p.y * p.y))
  }

  lemma DoubleQuotient(p: Point, g: int, sum: int, diff: int)
    requires IsPrime(P) && OnCurve(p)
    requires var w := p.y * p.y;
      Eq(sum, g * (1 + A24 * ((1 - w) * (1 - w)))) && Eq(diff, g * (2 * w - 1 - A24 * ((1 - w) * (1 - w))))
    ensures Eq(sum, g * DoubleScale(p) * (1 - Delta(p, p))) && Eq(diff, g * DoubleScale(p) * (p.y * p.y + p.x * p.x))
  {
    var w, x, k := p.y * p.y, p.x * p.x, DoubleScale(p);
    SquareOfX(p);
    CoefficientsMeet();
    DoubleNumerator(w, x, D, A24);
    DoubleDenominator(w, x, D, A24);
    SquareOfProduct(p.x, p.y);
    EqMul(g, g, 1 + A24 * ((1 - w) * (1 - w)), k * (1 - D * (x * w)));
    EqMul(g, g, 2 * w - 1 - A24 * ((1 - w) * (1 - w)), k * (w + x));
    MulAssoc(g, k, 1 - D * (x * w));
    MulAssoc(g, k, w + x);
  }

  lemma DoubleStands(p: Point, g: int, sum: int, diff: int)
    requires IsPrime(P) && OnCurve(p) && !Eq(g, 0)
    requires Eq(sum, g * DoubleScale(p) * (1 - Delta(p, p))) && Eq(diff, g * DoubleScale(p) * (p.y * p.y + p.x * p.x))
    ensures !Eq(sum, 0) && Eq(diff, Add(p, p).y * sum)
  {
    CoefficientsMeet();
    FactorNonZero(p.y);
    NonZeroProduct(A24 + 1, 1 + D * (p.y * p.y));
    NonZeroProduct(g, DoubleScale(p));
    Complete(p, p);
    SumQuotients(p, p);
    Rescaled(sum, diff, g * DoubleScale(p), 1 - Delta(p, p), p.y * p.y + p.x * p.x, Add(p, p).y);
  }

  // ---------------------------------------------------------------- differential addition

  /** With s = y1 y2, v = x1 x2: the products of numerators and denominators of the sum and the difference. */
  lemma FactorPairs(s: int, v: int, d: int)
    ensures var e := d * (s * v);
      && (1 - e + (s + v)) * (1 + e + (s - v)) == (1 + s) * (1 + s) - (v * v) * ((1 - d * s) * (1 - d * s))
      && (1 - e - (s + v)) * (1 + e - (s - v)) == (1 - s) * (1 - s) - (v * v) * ((1 + d * s) * (1 + d * s))
  {
    var e := d * (s * v);
    assert e == v * (d * s);
    DifferenceOfSquares(1 + s, v - e);
    DifferenceOfSquares(1 - s, v + e);
    assert v - e == v * (1 - d * s) && v + e == v * (1 + d * s);
    SquareOfProduct(v, 1 - d * s);
    SquareOfProduct(v, 1 + d * s);
  }

  lemma DifferenceOfSquares(a: int, b: int)
    ensures (a + b) * (a - b) == a * a - b * b
  {
  }

  /** For w = s^2 and q the sum of two squares with the product w. */
  lemma SumFactor(s: int, q: int, d: int, w: int)
    requires w == s * s
    ensures (1 + s) * (1 + s) * (1 + d * q + d * d * w) - (w - q + 1) * ((1 - d * s) * (1 - d * s)) == (1 + d) * (1 + d * w) * (q + 2 * s)
  {
    assert (1 + s) * (1 + s) == 1 + 2 * s + w;
    assert (1 - d * s) * (1 - d * s) == 1 - 2 * (d * s) + d * d * w by { SquareOfProduct(d, s); }
    ConstantTerms(s, q, w);
    LinearTerms(s, q, d, w);
    SquareTerms(s, q, d * d, w);
    ThreeProducts(s, q, d, w);
  }

  lemma ConstantTerms(s: int, q: int, w: int)
    ensures (1 + 2 * s + w) - (w - q + 1) == q + 2 * s
  {
  }

  lemma LinearTerms(s: int, q: int, d: int, w: int)
    ensures (1 + 2 * s + w) * (d * q) + (w - q + 1) * (2 * (d * s)) == d * ((1 + w) * (q + 2 * s))
  {
    assert (1 + 2 * s + w) * q + (w - q + 1) * (2 * s) == (1 + w) * (q + 2 * s);
    assert (1 + 2 * s + w) * (d * q) == d * ((1 + 2 * s + w) * q);
    assert (w - q + 1) * (2 * (d * s)) == d * ((w - q + 1) * (2 * s));
  }

  lemma SquareTerms(s: int, q: int, e: int, w: int)
    ensures (1 + 2 * s + w) * (e * w) - (w - q + 1) * (e * w) == e * (w * (q + 2 * s))
  {
    assert (1 + 2 * s + w) * (e * w) - (w - q + 1) * (e * w) == (2 * s + q) * (e * w);
  }

  lemma ThreeProducts(s: int, q: int, d: int, w: int)
    ensures (1 + 2 * s + w) * (1 + d * q + d * d * w) == (1 + 2 * s + w) + (1 + 2 * s + w) * (d * q) + (1 + 2 * s + w) * (d * d * w)
    ensures (w - q + 1) * (1 - 2 * (d * s) + d * d * w) == (w - q + 1) - (w - q + 1) * (2 * (d * s)) + (w - q + 1) * (d * d * w)
    ensures (1 + d) * (1 + d * w) * (q + 2 * s) == (q + 2 * s) + d * ((1 + w) * (q + 2 * s)) + d * d * (w * (q + 2 * s))
  {
    ThreeTimes(1 + 2 * s + w, d * q, d * d * w);
    ThreeTimes(w - q + 1, -2 * (d * s), d * d * w);
    NegatedFactor(w - q + 1, 2 * (d * s));
    TwoFactors(d, w, q + 2 * s);
  }

  lemma ThreeTimes(k: int, a: int, b: int)
    ensures k * (1 + a + b) == k + k * a + k * b
  {
  }

  lemma NegatedFactor(k: int, a: int)
    ensures k * -a == -(k * a)
  {
  }

  lemma TwoFactors(d: int, w: int, z: int)
    ensures (1 + d) * (1 + d * w) * z == z + d * ((1 + w) * z) + d * d * (w * z)
  {
    MulAssoc(d, d, w);
    assert (1 + d) * (1 + d * w) == 1 + (d * (1 + w) + d * d * w);
    MulAssoc(d, 1 + w, z);
    MulAssoc(d * d, w, z);
  }

  /** (x1 x2)^2 (1 + d y1^2)(1 + d y2^2) = (y1^2 - 1)(y2^2 - 1), multiplied out. */
  lemma ProductOfSquares(p: Point, q: Point)
    requires OnCurve(p) && OnCurve(q)
    ensures var s, v, r := p.y * q.y, p.x * q.x, p.y * p.y + q.y * q.y;
      Eq((v * v) * (1 + D * r + D * D * (s * s)), s * s - r + 1)
  {
    SquareOfX(p);
    SquareOfX(q);
    var a, b, c, e := p.x * p.x, p.y * p.y, q.x * q.x, q.y * q.y;
    EqMul(a * (1 + D * b), b - 1, c * (1 + D * e), e - 1);
    SquareOfProduct(p.x, q.x);
    SquareOfProduct(p.y, q.y);
    PairedFactors(a, b, c, e, D);
  }

  lemma PairedFactors(a: int, b: int, c: int, e: int, d: int)
    ensures (a * (1 + d * b)) * (c * (1 + d * e)) == (a * c) * (1 + d * (b + e) + d * d * (b * e))
    ensures (b - 1) * (e - 1) == b * e - (b + e) + 1
  {
    MulSwap(a, 1 + d * b, c, 1 + d * e);
    ExpandedPair(b, e, d);
  }

  lemma ExpandedPair(b: int, e: int, d: int)
    ensures (1 + d * b) * (1 + d * e) == 1 + d * (b + e) + d * d * (b * e)
  {
    assert (d * b) * (d * e) == d * d * (b * e) by { MulSwap(d, b, d, e); }
  }

  ghost function Mixed(p: Point, q: Point): int {
    var s := p.y * q.y;
    1 + D * (p.y * p.y + q.y * q.y) + D * D * (s * s)
  }

  lemma MixedNonZero(p: Point, q: Point)
    requires IsPrime(P)
    ensures !Eq(Mixed(p, q), 0)
  {
    FactorNonZero(p.y);
    FactorNonZero(q.y);
    NonZeroProduct(1 + D * (p.y * p.y), 1 + D * (q.y * q.y));
    SquareOfProduct(p.y, q.y);
    ExpandedPair(p.y * p.y, q.y * q.y, D);
  }

  /** A product that is divided by the mixed factor. */
  lemma MixedTimes(p: Point, q: Point, s: int, a: int, b: int)
    requires OnCurve(p) && OnCurve(q) && s == p.y * q.y
    requires var v := p.x * q.x; a == (1 + s) * (1 + s) - (v * v) * ((1 - D * s) * (1 - D * s))
    requires var v := p.x * q.x; b == (1 - s) * (1 - s) - (v * v) * ((1 + D * s) * (1 + D * s))
    ensures var r, k := p.y * p.y + q.y * q.y, (1 + D) * (1 + D * (s * s));
      Eq(Mixed(p, q) * a, k * (r + 2 * s)) && Eq(Mixed(p, q) * b, k * (r - 2 * s))
  {
    var r, v, m := p.y * p.y + q.y * q.y, p.x * q.x, Mixed(p, q);
    ProductOfSquares(p, q);
    SumFactor(s, r, D, s * s);
    assert (s * s) == (-s) * (-s);
    SumFactor(-s, r, D, s * s);
    Replaced(m, v * v, s * s - r + 1, (1 + s) * (1 + s), (1 - D * s) * (1 - D * s));
    Replaced(m, v * v, s * s - r + 1, (1 - s) * (1 - s), (1 + D * s) * (1 + D * s));
    assert D * -s == -(D * s);
  }

  lemma Replaced(m: int, v: int, f: int, t: int, u: int)
    requires Eq(v * m, f)
    ensures Eq(m * (t - v * u), t * m - f * u)
  {
    EqMul(v * m, f, u, u);
    EqAdd(t * m, t * m, (v * m) * u, f * u);
    assert m * (t - v * u) == t * m - (v * m) * u;
  }

  /** The squares of the sum and the difference of y1 and y2. */
  lemma SquaresOfSums(x: int, y: int)
    ensures (x + y) * (x + y) == x * x + y * y + 2 * (x * y) && (x - y) * (x - y) == x * x + y * y - 2 * (x * y)
  {
  }

  /** (1 + y3)(1 + y4)(y1 - y2)^2 = (1 - y3)(1 - y4)(y1 + y2)^2 for the sum and the difference, times their denominators. */
  lemma CrossRelation(p: Point, q: Point)
    requires IsPrime(P) && OnCurve(p) && OnCurve(q)
    ensures var s, v := p.y * q.y, p.x * q.x;
      var e := D * (s * v);
      Eq((1 - e + (s + v)) * (1 + e + (s - v)) * ((p.y - q.y) * (p.y - q.y)),
         (1 - e - (s + v)) * (1 + e - (s - v)) * ((p.y + q.y) * (p.y + q.y)))
  {
    var s, v, r := p.y * q.y, p.x * q.x, p.y * p.y + q.y * q.y;
    var a, b := (1 + s) * (1 + s) - (v * v) * ((1 - D * s) * (1 - D * s)), (1 - s) * (1 - s) - (v * v) * ((1 + D * s) * (1 + D * s));
    FactorPairs(s, v, D);
    MixedTimes(p, q, s, a, b);
    SquaresOfSums(p.y, q.y);
    MixedNonZero(p, q);
    Balanced(Mixed(p, q), a, b, (1 + D) * (1 + D * (s * s)), r + 2 * s, r - 2 * s);
  }

  lemma Balanced(m: int, a: int, b: int, k: int, x: int, y: int)
    requires IsPrime(P) && !Eq(m, 0) && Eq(m * a, k * x) && Eq(m * b, k * y)
    ensures Eq(a * y, b * x)
  {
    EqMul(m * a, k * x, y, y);
    EqMul(m * b, k * y, x, x);
    MulAssoc(m, a, y);
    MulAssoc(m, b, x);
    assert (k * x) * y == (k * y) * x;
    EqCancel(m, a * y, b * x);
  }

  /** y is the y-coordinate of the difference of p and q. */
  ghost predicate DifferenceY(p: Point, q: Point, y: int) {
    forall k {:trigger Unfolded(k)} :: Unfolded(k) ==> Eq((1 + Delta(p, q)) * y, p.y * q.y - p.x * q.x)
  }

  lemma SumWithQuotient(f: int, n: int, y: int)
    requires Eq(f * y, n)
    ensures Eq(f + n, f * (1 + y)) && Eq(f - n, f * (1 - y))
  {
    EqAdd(f, f, n, f * y);
    assert f * (1 + y) == f + f * y && f * (1 - y) == f - f * y;
  }

  lemma CrossQuotients(p: Point, q: Point, y: int)
    requires IsPrime(P) && OnCurve(p) && OnCurve(q) && DifferenceY(p, q, y)
    ensures var z := Add(p, q).y;
      Eq((1 + z) * (1 + y) * ((p.y - q.y) * (p.y - q.y)), (1 - z) * (1 - y) * ((p.y + q.y) * (p.y + q.y)))
  {
    var e := Delta(p, q);
    assert Unfolded(0);
    DeltaProducts(p, q);
    CrossRelation(p, q);
    Complete(p, q);
    SumQuotients(p, q);
    QuotientsMeet(e, p.y * q.y, p.x * q.x, Add(p, q).y, y, (p.y - q.y) * (p.y - q.y), (p.y + q.y) * (p.y + q.y));
  }

  lemma DeltaProducts(p: Point, q: Point)
    ensures Delta(p, q) == D * ((p.y * q.y) * (p.x * q.x))
  {
    MulSwap(p.x, p.y, q.x, q.y);
    assert (p.x * q.x) * (p.y * q.y) == (p.y * q.y) * (p.x * q.x);
  }

  lemma QuotientsMeet(e: int, s: int, v: int, z: int, y: int, m: int, n: int)
    requires IsPrime(P) && !Eq(1 - e, 0) && !Eq(1 + e, 0) && Eq((1 - e) * z, s + v) && Eq((1 + e) * y, s - v)
    requires Eq((1 - e + (s + v)) * (1 + e + (s - v)) * m, (1 - e - (s + v)) * (1 + e - (s - v)) * n)
    ensures Eq((1 + z) * (1 + y) * m, (1 - z) * (1 - y) * n)
  {
    var f, g := 1 - e, 1 + e;
    SumWithQuotient(f, s + v, z);
    SumWithQuotient(g, s - v, y);
    NonZeroProduct(f, g);
    PairsMeet(f, g, z, y, f + (s + v), g + (s - v), f - (s + v), g - (s - v), m, n);
  }

  lemma PairsMeet(f: int, g: int, z: int, y: int, a: int, b: int, c: int, e: int, m: int, n: int)
    requires IsPrime(P) && !Eq(f * g, 0) && Eq(a, f * (1 + z)) && Eq(b, g * (1 + y)) && Eq(c, f * (1 - z)) && Eq(e, g * (1 - y))
    requires Eq(a * b * m, c * e * n)
    ensures Eq((1 + z) * (1 + y) * m, (1 - z) * (1 - y) * n)
  {
    var k, l := (1 + z) * (1 + y), (1 - z) * (1 - y);
    EqMul(a, f * (1 + z), b, g * (1 + y));
    EqMul(c, f * (1 - z), e, g * (1 - y));
    MulSwap(f, 1 + z, g, 1 + y);
    MulSwap(f, 1 - z, g, 1 - y);
    EqMul(a * b, (f * g) * k, m, m);
    EqMul(c * e, (f * g) * l, n, n);
    MulAssoc(f * g, k, m);
    MulAssoc(f * g, l, n);
    EqCancel(f * g, k * m, l * n);
  }

  /** The second half of a step, for the u-coordinate x1 of the difference. */
  lemma AddedProportion(x: int, z: int, x1: int, y3: int, y4: int, m: int, a: int, b: int)
    requires IsPrime(P) && Eq(x, m * a) && Eq(z, x1 * (m * b)) && Eq((1 - y4) * x1, 1 + y4) && !Eq(1 - y4, 0)
    requires Eq((1 + y3) * (1 + y4) * b, (1 - y3) * (1 - y4) * a)
    ensures Eq(x - z, y3 * (x + z))
  {
    var f := 1 - y4;
    EqMul(f * x1, 1 + y4, (m * b) * (1 + y3), (m * b) * (1 + y3));
    EqMul(z, x1 * (m * b), f * (1 + y3), f * (1 + y3));
    EqMul(m, m, (1 + y3) * (1 + y4) * b, (1 - y3) * f * a);
    EqMul(x, m * a, f * (1 - y3), f * (1 - y3));
    Rearranged(f, x1, m, b, 1 + y3, 1 + y4);
    Rearranged(f, 1, m, a, 1 - y3, 1);
    Rearranged2(f, x, 1 - y3);
    Rearranged2(f, z, 1 + y3);
    EqCancel(f, x * (1 - y3), z * (1 + y3));
    EqAdd(x * (1 - y3), z * (1 + y3), x * y3 - z, x * y3 - z);
    Collected(x, z, y3);
  }

  lemma Rearranged(f: int, x: int, m: int, b: int, k: int, l: int)
    ensures (x * (m * b)) * (f * k) == (f * x) * ((m * b) * k)
    ensures l * ((m * b) * k) == m * (k * l * b)
    ensures (m * b) * (f * k) == m * (k * f * b)
  {
    MulSwap(x, m * b, f, k);
    assert x * f == f * x;
    MulAssoc(m, b, k);
    assert k * l * b == l * (b * k);
    assert l * (m * (b * k)) == m * (l * (b * k));
    assert (m * b) * (f * k) == m * (b * (f * k));
    assert b * (f * k) == k * f * b;
  }

  lemma Rearranged2(f: int, x: int, k: int)
    ensures x * (f * k) == f * (x * k)
  {
  }

  lemma Collected(x: int, z: int, y: int)
    ensures x * (1 - y) + (x * y - z) == x - z && z * (1 + y) + (x * y - z) == y * (x + z)
  {
  }

  /** Neither coordinate of a sum is lost: that would need two points with y = 0, whose difference has y = 1 or y = -1. */
  lemma ZeroRows(p: Point, q: Point, y: int)
    requires IsPrime(P) && OnCurve(p) && OnCurve(q) && p.y == q.y == 0 && DifferenceY(p, q, y)
    ensures Eq((1 - y) * (1 + y), 0)
  {
    assert Unfolded(0);
    SquareOfX(p);
    SquareOfX(q);
    assert Delta(p, q) == 0;
    assert (p.x * p.x) * (1 + D * (0 * 0)) == p.x * p.x && (q.x * q.x) * (1 + D * (0 * 0)) == q.x * q.x;
    var v := p.x * q.x;
    assert Eq(y, 0 - v);
    EqMul(p.x * p.x, -1, q.x * q.x, -1);
    EqMul(y, 0 - v, y, 0 - v);
    SquareOfProduct(p.x, q.x);
    assert (0 - v) * (0 - v) == v * v;
    EqAdd(1, 1, y * y, 1);
    DifferenceOfSquares(1, y);
    assert (1 - y) * (1 + y) == 1 - y * y;
  }

  lemma VanishingSquare(m: int, a: int)
    requires IsPrime(P) && !Eq(m, 0) && Eq(m * (a * a), 0)
    ensures Eq(a, 0)
  {
    if !Eq(a, 0) {
      NonZeroProduct(a, a);
      NonZeroProduct(m, a * a);
    }
  }

  lemma ZeroSumAndDifference(x: int, z: int)
    requires IsPrime(P) && Eq(x + z, 0) && Eq(x - z, 0)
    ensures Eq(x, 0) && Eq(z, 0)
  {
    EqAdd(x + z, 0, x - z, 0);
    Twice(x);
    Twice(z);
  }

  lemma AddedNonZero(p: Point, q: Point, x: int, z: int, x1: int, y: int, m: int, y3: int)
    requires IsPrime(P) && OnCurve(p) && OnCurve(q) && DifferenceY(p, q, y) && !Eq(1 - y, 0) && !Eq(1 + y, 0) && !Eq(m, 0)
    requires Eq((1 - y) * x1, 1 + y)
    requires Eq(x, m * ((p.y + q.y) * (p.y + q.y))) && Eq(z, x1 * (m * ((p.y - q.y) * (p.y - q.y))))
    requires Eq(x - z, y3 * (x + z))
    ensures !Eq(x + z, 0)
  {
    if Eq(x + z, 0) {
      EqMul(y3, y3, x + z, 0);
      ZeroSumAndDifference(x, z);
      BothRowsZero(p, q, x1, y, m);
      NonZeroProduct(1 - y, 1 + y);
      ZeroRows(p, q, y);
    }
  }

  lemma BothRowsZero(p: Point, q: Point, x1: int, y: int, m: int)
    requires IsPrime(P) && OnCurve(p) && OnCurve(q) && !Eq(1 + y, 0) && !Eq(m, 0) && Eq((1 - y) * x1, 1 + y)
    requires Eq(m * ((p.y + q.y) * (p.y + q.y)), 0) && Eq(x1 * (m * ((p.y - q.y) * (p.y - q.y))), 0)
    ensures p.y == q.y == 0
  {
    VanishingSquare(m, p.y + q.y);
    if Eq(x1, 0) {
      EqMul(1 - y, 1 - y, x1, 0);
    }
    NonZeroProduct(x1, m);
    MulAssoc(x1, m, (p.y - q.y) * (p.y - q.y));
    VanishingSquare(x1 * m, p.y - q.y);
    ZeroSumAndDifference(p.y, q.y);
    EqSame(p.y, 0);
    EqSame(q.y, 0);
  }

  lemma AddedSquares(m: int, n: int, y: int, z: int)
    ensures var a, b, c, d := m, y * m, n, z * n;
      var k := (m * n) * (m * n);
      && (d * a + c * b) * (d * a + c * b) == k * ((y + z) * (y + z))
      && (d * a - c * b) * (d * a - c * b) == k * ((y - z) * (y - z))
  {
    var k := m * n;
    assert (z * n) * m == k * z && n * (y * m) == k * y;
    SquareOfProduct(k, y + z);
    SquareOfProduct(k, z - y);
    assert k * z + k * y == k * (y + z) && k * z - k * y == k * (z - y);
    assert (z - y) * (z - y) == (y - z) * (y - z);
  }

  /** The second half of a step adds, when x1 stands for the difference. */
  lemma AddedStands(x1: int, s: Ladder, p: Point, q: Point, y: int)
    requires IsPrime(P) && OnCurve(p) && OnCurve(q) && Stands(s.x2, s.z2, p) && Stands(s.x3, s.z3, q)
    requires DifferenceY(p, q, y) && !Eq(1 - y, 0) && !Eq(1 + y, 0) && Eq((1 - y) * x1, 1 + y)
    ensures var t := LadderStep(x1, s); Stands(t.x3, t.z3, Add(p, q))
  {
    var t, m, n := LadderStep(x1, s), s.x2 + s.z2, s.x3 + s.z3;
    SumAndDifference(s.x2, s.z2, p);
    SumAndDifference(s.x3, s.z3, q);
    var b, d, k := p.y * m, q.y * n, (m * n) * (m * n);
    StepPolynomials(x1, s, m, b, n, d);
    AddedSquares(m, n, p.y, q.y);
    NonZeroProduct(m, n);
    NonZeroProduct(m * n, m * n);
    AddedCoordinates(t.x3, t.z3, x1, p, q, y, k);
  }

  lemma AddedCoordinates(x: int, z: int, x1: int, p: Point, q: Point, y: int, k: int)
    requires IsPrime(P) && OnCurve(p) && OnCurve(q) && DifferenceY(p, q, y) && !Eq(k, 0)
    requires !Eq(1 - y, 0) && !Eq(1 + y, 0) && Eq((1 - y) * x1, 1 + y)
    requires Eq(x, k * ((p.y + q.y) * (p.y + q.y))) && Eq(z, x1 * (k * ((p.y - q.y) * (p.y - q.y))))
    ensures Stands(x, z, Add(p, q))
  {
    var a, b := (p.y + q.y) * (p.y + q.y), (p.y - q.y) * (p.y - q.y);
    CrossQuotients(p, q, y);
    AddedProportion(x, z, x1, Add(p, q).y, y, k, a, b);
    AddedNonZero(p, q, x, z, x1, y, k, Add(p, q).y);
    StandsWhen(x, z, Add(p, q));
  }

  // ---------------------------------------------------------------- the ladder

  ghost function Multiple(n: nat, a: Point): Point {
    Group.Times(Points(), n, a)
  }

  /** The difference of neighbouring multiples is a. */
  lemma NeighbourDifference(p: Point, a: Point)
    requires Curve() && OnCurve(p) && OnCurve(a)
    ensures OnCurve(Add(p, a)) && DifferenceY(p, Add(p, a), a.y) && DifferenceY(Add(p, a), p, a.y)
  {
    assert Unfolded(0);
    var g, q, r := Points(), Add(p, a), Neg(p);
    PointsFormGroup();
    Closed(p, a);
    NegOnCurve(p);
    NegInverse(p);
    assert Group.Commutes(g, p, r) && Group.Commutes(g, q, r);
    Group.Restored(g, r, p, a);
    assert Add(q, r) == a;
    SumQuotients(q, r);
    EqRes(0 - p.x);
    OppositeDelta(p, q, r.x, a.y);
    MulSwap(p.x, p.y, q.x, q.y);
    assert Delta(p, q) == Delta(q, p) by { assert (p.x * p.y) * (q.x * q.y) == (q.x * q.y) * (p.x * p.y); }
  }

  lemma OppositeDelta(p: Point, q: Point, x: int, y: int)
    requires Eq(x, 0 - p.x) && Eq((1 - D * ((q.x * q.y) * (x * p.y))) * y, q.y * p.y + q.x * x)
    ensures Eq((1 + Delta(p, q)) * y, p.y * q.y - p.x * q.x)
  {
    var k := q.x * q.y;
    OppositeFactor(x, p.x, p.y, k);
    SignedTerms(D, k, p.x, p.y, q.x);
    EqMul(q.x, q.x, x, 0 - p.x);
    SignsTurned(D * (k * (x * p.y)), Delta(p, q), y, q.y * p.y, q.x * x, p.x * q.x);
  }

  lemma SignsTurned(e: int, f: int, y: int, m: int, a: int, b: int)
    requires Eq(e, -f) && Eq(a, -b) && Eq((1 - e) * y, m + a)
    ensures Eq((1 + f) * y, m - b)
  {
    EqAdd(1, 1, e, -f);
    EqMul(1 - e, 1 + f, y, y);
    EqAdd(m, m, a, -b);
  }

  lemma OppositeFactor(x: int, px: int, py: int, k: int)
    requires Eq(x, 0 - px)
    ensures Eq(D * (k * (x * py)), D * (k * ((0 - px) * py)))
  {
    EqMul(x, 0 - px, py, py);
    EqMul(k, k, x * py, (0 - px) * py);
    EqMul(D, D, k * (x * py), k * ((0 - px) * py));
  }

  lemma SignedTerms(d: int, k: int, x: int, y: int, z: int)
    ensures d * (k * ((0 - x) * y)) == -(d * ((x * y) * k)) && z * (0 - x) == -(x * z)
  {
    assert (0 - x) * y == -(x * y);
    assert k * -(x * y) == -((x * y) * k);
  }

  /** The two points of the ladder stand for [n]a and [n+1]a. */
  ghost predicate PairStands(s: Ladder, n: nat, a: Point) {
    BothStand(s, Multiple(n, a), Multiple(n + 1, a))
  }

  ghost predicate BothStand(s: Ladder, b: Point, c: Point) {
    Stands(s.x2, s.z2, b) && Stands(s.x3, s.z3, c)
  }

  /** a has a u-coordinate that is not zero, and x1 is that. */
  ghost predicate HasU(a: Point, x1: int) {
    OnCurve(a) && forall k {:trigger Unfolded(k)} :: Unfolded(k) ==> !Eq(1 - a.y, 0) && !Eq(1 + a.y, 0) && Eq((1 - a.y) * x1, 1 + a.y)
  }

  lemma Neighbours(n: nat, q: nat, a: Point)
    requires Curve() && OnCurve(a) && q == n + 1
    ensures OnCurve(Multiple(n, a)) && OnCurve(Multiple(q, a))
    ensures DifferenceY(Multiple(n, a), Multiple(q, a), a.y) && DifferenceY(Multiple(q, a), Multiple(n, a), a.y)
  {
    PointsFormGroup();
    Group.TimesHas(Points(), n, a);
    NextMultiple(q, a);
    NeighbourDifference(Multiple(n, a), a);
  }

  /** [i]a + [j]a = [m]a */
  lemma MultiplesAdd(m: nat, i: nat, j: nat, a: Point)
    requires Curve() && OnCurve(a) && m == i + j
    ensures Multiple(m, a) == Add(Multiple(i, a), Multiple(j, a))
  {
    PointsFormGroup();
    Group.TimesAdd(Points(), m, i, j, a);
  }

  lemma DoubledAndAdded(x1: int, s: Ladder, p: Point, q: Point, a: Point)
    requires IsPrime(P) && HasU(a, x1) && OnCurve(p) && OnCurve(q) && DifferenceY(p, q, a.y) && BothStand(s, p, q)
    ensures BothStand(LadderStep(x1, s), Add(p, p), Add(p, q))
  {
    assert Unfolded(0);
    DoubledStands(x1, s, p);
    AddedStands(x1, s, p, q, a.y);
  }

  lemma StepOnPoints(x1: int, s: Ladder, b: int, p: Point, q: Point, a: Point)
    requires IsPrime(P) && HasU(a, x1) && OnCurve(p) && OnCurve(q) && BothStand(s, p, q) && 0 <= b <= 1
    requires DifferenceY(p, q, a.y) && DifferenceY(q, p, a.y)
    ensures BothStand(CSwap(b, LadderStep(x1, CSwap(b, s))), if b == 0 then Add(p, p) else Add(q, p), if b == 0 then Add(p, q) else Add(q, q))
  {
    if b == 0 {
      DoubledAndAdded(x1, s, p, q, a);
    } else {
      DoubledAndAdded(x1, CSwap(1, s), q, p, a);
      BothSwapped(LadderStep(x1, CSwap(1, s)), Add(q, q), Add(q, p));
    }
  }

  /** An iteration for the bit b leads from n to m = 2n + b. */
  lemma StepStands(x1: int, s: Ladder, n: nat, b: int, m: nat, a: Point)
    requires Curve() && HasU(a, x1) && PairStands(s, n, a) && 0 <= b <= 1 && m == 2 * n + b
    ensures PairStands(CSwap(b, LadderStep(x1, CSwap(b, s))), m, a)
  {
    var q, r := n + 1, m + 1;
    Neighbours(n, q, a);
    StepOnPoints(x1, s, b, Multiple(n, a), Multiple(q, a), a);
    if b == 0 {
      MultiplesAdd(m, n, n, a);
      MultiplesAdd(r, n, q, a);
    } else {
      MultiplesAdd(m, q, n, a);
      MultiplesAdd(r, q, q, a);
    }
  }

  lemma BothSwapped(s: Ladder, b: Point, c: Point)
    requires BothStand(s, b, c)
    ensures BothStand(CSwap(1, s), c, b)
  {
  }

  /** The bits of k from n on, as a number. */
  function Upper(k: nat, n: nat): nat {
    PowPositive(2, n);
    k / Pow(2, n)
  }

  lemma UpperStep(k: nat, n: nat)
    ensures Upper(k, n) == 2 * Upper(k, n + 1) + Bit(k, n) && 0 <= Bit(k, n) <= 1
  {
    PowPositive(2, n);
    DivDiv(k, Pow(2, n), 2);
  }

  lemma FirstPair(a: Point, x1: int)
    requires Curve() && HasU(a, x1)
    ensures PairStands(Ladder(1, 0, x1, 1), 0, a)
  {
    PointsFormGroup();
    Group.Single(Points(), a);
    SmallNumbers();
    assert Unfolded(0);
    FirstSecond(x1, a.y);
    StandsWhen(x1, 1, a);
    StandsWhen(1, 0, ZERO);
  }

  lemma FirstSecond(x1: int, y: int)
    requires IsPrime(P) && Eq((1 - y) * x1, 1 + y)
    ensures !Eq(x1 + 1, 0) && Eq(x1 - 1, y * (x1 + 1))
  {
    SmallNumbers();
    EqAdd((1 - y) * x1, 1 + y, y * x1 - 1, y * x1 - 1);
    assert (1 - y) * x1 + (y * x1 - 1) == x1 - 1 && 1 + y + (y * x1 - 1) == y * (x1 + 1);
    if Eq(x1 + 1, 0) {
      EqMul(y, y, x1 + 1, 0);
      assert x1 + 1 - (x1 - 1) == 2;
      EqAdd(x1 + 1, 0, x1 - 1, 0);
    }
  }

  /** After the iterations for the bits 254 .. n the ladder stands for [k >> n]a and [(k >> n) + 1]a. */
  lemma {:induction false} SettledStands(k: nat, x1: int, n: nat, a: Point)
    requires Curve() && HasU(a, x1) && n <= 255 && k < Pow(2, 255)
    ensures PairStands(Settled(k, x1, n), Upper(k, n), a)
    decreases 255 - n
  {
    if n == 255 {
      DivModUnique(k, Pow(2, 255), 0, k);
      FirstPair(a, x1);
    } else {
      SettledStands(k, x1, n + 1, a);
      SwapsCompose(k, x1, n);
      UpperStep(k, n);
      StepStands(x1, Settled(k, x1, n + 1), Upper(k, n + 1), Bit(k, n), Upper(k, n), a);
    }
  }

  // ---------------------------------------------------------------- the result

  lemma NoQuotient(a: Point)
    requires IsPrime(P) && (Eq(1 - a.y, 0) || Eq(1 + a.y, 0))
    ensures U(a) == 0
  {
    SmallNumbers();
    if Eq(1 - a.y, 0) {
      EqAdd(1 + a.y, 1 + a.y, 1 - a.y, 0);
      var u, v := 1 + a.y, 1 - a.y;
      forall r {:trigger IsQuotient(r, u, v)}
        ensures !IsQuotient(r, u, v)
      {
        EqMul(1 - a.y, 0, r, r);
      }
    } else {
      EqAdd(1 - a.y, 1 - a.y, 1 + a.y, 0);
      assert (1 - a.y) * 0 == 0;
      DivUnique(1 + a.y, 1 - a.y, 0);
    }
  }

  lemma ZeroPower(n: nat)
    requires n > 0
    ensures FPow(0, n) == 0
  {
    assert Pow(0, n) == 0 * Pow(0, n - 1);
  }

  /** x times z^(p-2) is the u-coordinate. */
  lemma OutputIsU(x: int, z: int, a: Point)
    requires IsPrime(P) && InField(x) && InField(z) && Stands(x, z, a)
    ensures FMul(x, FPow(z, P - 2)) == U(a)
  {
    assert Unfolded(0);
    var r, m := FMul(x, FPow(z, P - 2)), x + z;
    EqAdd(m, m, x - z, a.y * m);
    assert m - (x - z) == 2 * z && m + (x - z) == 2 * x;
    assert m - a.y * m == (1 - a.y) * m && m + a.y * m == (1 + a.y) * m;
    if Eq(z, 0) {
      EqSame(z, 0);
      ZeroPower(P - 2);
      if !Eq(1 - a.y, 0) {
        Twice(z);
        NonZeroProduct(1 - a.y, m);
      }
      NoQuotient(a);
    } else {
      Twice(z);
      if Eq(1 - a.y, 0) {
        EqMul(1 - a.y, 0, m, m);
      }
      PowerQuotient(x, z);
      QuotientOfHalves(x, z, m, a.y, r);
      DivUnique(1 + a.y, 1 - a.y, r);
    }
  }

  lemma QuotientOfHalves(x: int, z: int, m: int, y: int, r: int)
    requires IsPrime(P) && !Eq(m, 0) && Eq(z * r, x) && Eq(2 * z, (1 - y) * m) && Eq(2 * x, (1 + y) * m)
    ensures Eq((1 - y) * r, 1 + y)
  {
    EqMul(2, 2, z * r, x);
    EqMul(2 * z, (1 - y) * m, r, r);
    assert 2 * z * r == 2 * (z * r);
    assert (1 - y) * m * r == m * ((1 - y) * r) && (1 + y) * m == m * (1 + y);
    EqCancel(m, (1 - y) * r, 1 + y);
  }

  /** Coordinates that the ladder takes for the input 0: both z vanish after one step. */
  predicate Flat(s: Ladder) {
    && (s.x2, s.z2) in {(1, 0), (0, 1), (0, 0)} && (s.x3, s.z3) in {(1, 0), (0, 1), (0, 0)}
    && s.x2 * s.x3 == 0 && s.z2 * s.z3 == 0
  }

  lemma FlatStep(s: Ladder)
    requires Flat(s)
    ensures var t := LadderStep(0, s); Flat(t) && t.z2 == 0 && t.z3 == 0
  {
    SmallResidues();
    if (s.x2, s.z2) == (1, 0) {
      FlatSecond(s, 1, 1);
    } else if (s.x2, s.z2) == (0, 1) {
      FlatSecond(s, 1, P - 1);
    } else {
      FlatSecond(s, 0, 0);
    }
  }

  lemma FlatSecond(s: Ladder, a: int, b: int)
    requires Flat(s) && a == FAdd(s.x2, s.z2) && b == FSub(s.x2, s.z2)
    requires (a, b) == (if s.x2 == 1 then (1, 1) else if s.z2 == 1 then (1, P - 1) else (0, 0))
    ensures var t := LadderStep(0, s); Flat(t) && t.z2 == 0 && t.z3 == 0
  {
    SmallResidues();
    var aa, e := FMul(a, a), FSub(FMul(a, a), FMul(b, b));
    assert aa == FMul(b, b) && 0 <= aa <= 1 && e == 0;
    var c, d := FAdd(s.x3, s.z3), FSub(s.x3, s.z3);
    assert FAdd(FMul(d, a), FMul(c, b)) == 0;
  }

  lemma SmallResidues()
    ensures 0 % P == 0 && 1 % P == 1 && -1 % P == P - 1 && 2 % P == 2 && ((P - 1) * (P - 1)) % P == 1
  {
  }

  lemma {:induction false} ZeroInput(k: nat, n: nat)
    requires n <= 255
    ensures var s := Settled(k, 0, n); Flat(s) && (n < 255 ==> s.z2 == 0)
    decreases 255 - n
  {
    if n < 255 {
      ZeroInput(k, n + 1);
      SwapsCompose(k, 0, n);
      UpperStep(k, n);
      FlatStep(CSwap(Bit(k, n), Settled(k, 0, n + 1)));
    }
  }

  lemma LowStep(p: Point, a: Point)
    requires IsPrime(P) && OnCurve(a) && a.x == 0 && (p == ZERO || p == a)
    ensures Add(p, a) == ZERO || Add(p, a) == a
  {
    assert Neg(a) == a;
    NegInverse(a);
    ZeroNeutral(a);
  }

  lemma NextMultiple(n: nat, a: Point)
    requires n > 0
    ensures Multiple(n, a) == Add(Multiple(n - 1, a), a)
  {
    var p := Multiple(n - 1, a);
    assert Points().add(p, a) == Add(p, a);
  }

  /** The points without u-coordinate, or with u = 0: the neutral point and the one of order two. */
  lemma {:induction false} LowMultiples(a: Point, n: nat)
    requires IsPrime(P) && OnCurve(a) && a.x == 0
    ensures Multiple(n, a) == ZERO || Multiple(n, a) == a
  {
    if n > 0 {
      var p := Multiple(n - 1, a);
      LowMultiples(a, n - 1);
      LowStep(p, a);
      NextMultiple(n, a);
    }
  }

  lemma ZeroX(a: Point)
    requires IsPrime(P) && OnCurve(a)
    ensures a.x == 0 <==> Eq(1 - a.y, 0) || Eq(1 + a.y, 0)
  {
    Edwards.XIsZero(a);
    InRange(a);
    FieldRange(1);
    EqSub(1, a.y);
    EqIs(1 + a.y, 0);
    if Eq(1, a.y) {
      EqSame(1, a.y);
    }
    if Eq(1 + a.y, 0) {
      DivModUnique(1 + a.y, P, 1, 1 + a.y - P);
    }
    SmallResidues();
  }

  lemma LowInput(k: nat, a: Point)
    requires Curve() && OnCurve(a) && a.x == 0
    ensures U(a) == 0 && U(Multiple(k, a)) == 0
    ensures var s := Settled(k, 0, 0); FMul(s.x2, FPow(s.z2, P - 2)) == 0
  {
    ZeroX(a);
    NoQuotient(a);
    ZeroInput(k, 0);
    ZeroPower(P - 2);
    SmallResidues();
    LowMultiples(a, k);
    assert ZERO.y == 1 && Eq(1 - ZERO.y, 0);
    NoQuotient(ZERO);
  }

  lemma QuotientIsU(a: Point)
    requires IsPrime(P) && OnCurve(a) && a.x != 0
    ensures HasU(a, U(a))
  {
    assert Unfolded(0);
    ZeroX(a);
    Quotient(1 + a.y, 1 - a.y);
  }

  lemma AllBits(k: nat)
    ensures Upper(k, 0) == k
  {
    assert Pow(2, 0) == 1;
  }

  lemma OtherInput(k: nat, x1: int, a: Point)
    requires Curve() && HasU(a, x1) && k < Pow(2, 255)
    ensures var s := Settled(k, x1, 0); FMul(s.x2, FPow(s.z2, P - 2)) == U(Multiple(k, a))
  {
    var s := Settled(k, x1, 0);
    SettledStands(k, x1, 0, a);
    AllBits(k);
    SettledInRange(k, x1);
    OutputIsU(s.x2, s.z2, Multiple(k, a));
  }

  /** X25519 computes multiples: for a point a of the curve and its u-coordinate, the result is the u-coordinate of [k]a,
      where k is the decoded scalar. */
  lemma X25519Multiplies(n: seq<byte>, u: seq<byte>, a: Point)
    requires Curve() && OnCurve(a) && |n| == |u| == 32 && LE(u) % R255 % P == U(a)
    ensures Rfc7748(n, u) == Bytes(U(Multiple(ScalarNumber(n), a)), 32)
  {
    if a.x == 0 {
      LowInput(ScalarNumber(n), a);
    } else {
      QuotientIsU(a);
      OtherInput(ScalarNumber(n), U(a), a);
    }
  }

  function ScalarNumber(n: seq<byte>): (k: nat)
    requires |n| == 32
    ensures k == LE(DecodeScalar(n)) && k < Pow(2, 255)
  {
    DecodedBound(n);
    LE(DecodeScalar(n))
  }

  lemma DecodedBound(n: seq<byte>)
    requires |n| == 32
    ensures 0 <= LE(DecodeScalar(n)) < Pow(2, 255)
  {
    var t := DecodeScalar(n);
    ValBound(t, 256);
    Edwards.TopBit(t);
    Pow2_255();
    Pow256();
    assert t[31] / 128 == 0;
    assert LE(t) / R255 == 0;
  }

  lemma SettledInRange(k: nat, x1: int)
    ensures var s := Settled(k, x1, 0); 0 <= s.x2 < P && 0 <= s.z2 < P
  {
    SwapsCompose(k, x1, 0);
    UpperStep(k, 0);
  }

  lemma UBytes(b: Point)
    ensures LE(Bytes(U(b), 32)) % R255 % P == U(b)
  {
    FieldRange(U(b));
    Pow256();
    BytesValue(U(b), 32);
    DivModUnique(U(b), R255, 0, U(b));
    DivModUnique(U(b), P, 0, U(b));
  }

  /** The result is a u-coordinate that can be used again. */
  lemma UsedAgain(n: seq<byte>, m: seq<byte>, u: seq<byte>, a: Point)
    requires Curve() && OnCurve(a) && |n| == |m| == |u| == 32 && LE(u) % R255 % P == U(a)
    ensures |Rfc7748(n, u)| == 32
    ensures Rfc7748(m, Rfc7748(n, u)) == Bytes(U(Multiple(ScalarNumber(m), Multiple(ScalarNumber(n), a))), 32)
  {
    var b := Multiple(ScalarNumber(n), a);
    X25519Multiplies(n, u, a);
    PointsFormGroup();
    Group.TimesHas(Points(), ScalarNumber(n), a);
    UBytes(b);
    X25519Multiplies(m, Rfc7748(n, u), b);
  }

  /** Both sides of a key exchange get the same secret, from any point of the curve. */
  lemma SharedSecret(n: seq<byte>, m: seq<byte>, u: seq<byte>, a: Point)
    requires Curve() && OnCurve(a) && |n| == |m| == |u| == 32 && LE(u) % R255 % P == U(a)
    ensures |Rfc7748(n, u)| == |Rfc7748(m, u)| == 32
    ensures Rfc7748(m, Rfc7748(n, u)) == Rfc7748(n, Rfc7748(m, u))
  {
    var k, l := ScalarNumber(n), ScalarNumber(m);
    UsedAgain(n, m, u, a);
    UsedAgain(m, n, u, a);
    PointsFormGroup();
    Group.TimesTimes(Points(), k, l, a);
    Group.TimesTimes(Points(), l, k, a);
    assert k * l == l * k;
  }

  /** The base point of Ed25519 has the u-coordinate 9 of crypto_scalarmult_base. */
  lemma BaseHasNine()
    requires IsPrime(P)
    ensures U(BASE) == 9
  {
    EqIs(1 - BASE_Y, 0);
    EqIs((1 - BASE_Y) * 9, 1 + BASE_Y);
    DivUnique(1 + BASE_Y, 1 - BASE_Y, 9);
  }

  /** crypto_scalarmult_base and crypto_scalarmult: the public keys are [n]B and [m]B, and the secrets agree. */
  lemma KeyExchange(n: seq<byte>, m: seq<byte>)
    requires Curve() && |n| == |m| == 32
    ensures Rfc7748(n, Bytes(9, 32)) == Bytes(U(Multiple(ScalarNumber(n), BASE)), 32)
    ensures Rfc7748(m, Rfc7748(n, Bytes(9, 32))) == Rfc7748(n, Rfc7748(m, Bytes(9, 32)))
  {
    BaseOnCurve();
    BaseHasNine();
    Pow256();
    BytesValue(9, 32);
    DivModUnique(9, R255, 0, 9);
    DivModUnique(9, P, 0, 9);
    X25519Multiplies(n, Bytes(9, 32), BASE);
    SharedSecret(n, m, Bytes(9, 32), BASE);
  }
}
