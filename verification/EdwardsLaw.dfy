/** The twisted Edwards curve -x^2 + y^2 = 1 + d x^2 y^2 modulo 2^255 - 19 and its addition law. */
module EdwardsLaw {
  import opened Arith
  import opened PrimeField
  import opened Field25519
  import opened Congruence
  import Group

  /** A square root of -1. */
  const I: int := 0x2b832480_4fc1df0b_2b4d0099_3dfbd7a7_2f431806_ad2fe478_c4ee1b27_4a0ea0b0

  const BASE_X: int := 0x216936d3_cd6e53fe_c0a4e231_fdd6dc5c_692cc760_9525a7b2_c9562d60_8f25d51a
  const BASE_Y: int := 0x66666666_66666666_66666666_66666666_66666666_66666666_66666666_66666658

  lemma RootOfMinusOne()
    ensures Eq(I * I, -1)
  {
    EqIs(I * I, -1);
  }

  /** The number that the limbs of the constant d stand for. */
  const D_VALUE: int := 0x52036cee_2b6ffe73_8cc74079_7779e898_00700a4d_4141d8ab_75eb4dca_135978a3

  ghost predicate IsD(d: int) {
    forall k {:trigger Shown(k)} :: Shown(k) ==> d == D_VALUE
  }

  /** The coefficient d of the curve. */
  ghost const D: int := assert IsD(D_VALUE); var d :| IsD(d); d

  /** d is -121665 / 121666. */
  lemma DIsValue()
    ensures D == D_VALUE && Eq(121666 * D, -121665)
  {
    assert Shown(0);
    EqIs(121666 * D, -121665);
  }

  // ---------------------------------------------------------------- polynomial identities

  lemma SumsOfSquares(x1: int, y1: int, x2: int, y2: int)
    ensures var e, h := x1 * y2 + y1 * x2, y1 * y2 + x1 * x2;
      && h * h - e * e == (y1 * y1 - x1 * x1) * (y2 * y2 - x2 * x2)
      && h * h + e * e == (x1 * x1 + y1 * y1) * (x2 * x2 + y2 * y2) + 4 * ((x1 * y1) * (x2 * y2))
      && e * h == (x1 * y1) * (x2 * x2 + y2 * y2) + (x2 * y2) * (x1 * x1 + y1 * y1)
  {
  }

  lemma SquareOfSum(x: int, y: int)
    ensures (x * x + y * y) * (x * x + y * y) == (y * y - x * x) * (y * y - x * x) + 4 * ((x * y) * (x * y))
  {
  }

  lemma Expanded(q: int, k: int, h: int, e: int)
    ensures (q + 2 * k) * h - e * (q - 2 * k) == q * (h - e) + 2 * k * (h + e)
  {
  }

  lemma LastIdentity(a1: int, c1: int, a2: int, c2: int)
    ensures (a1 * a2 + c1 * c2) * ((a1 + c1) * (a2 + c2)) == (a1 * a2 + c1 * c2) * (a1 * a2 + c1 * c2) - 4 * ((a1 * c1) * (a2 * c2))
      + (a1 * c1) * ((a2 + c2) * (a2 + c2)) + (a2 * c2) * ((a1 + c1) * (a1 + c1))
  {
  }

  /** x, y, z, t with x y = t z and y^2 - x^2 = z^2 + d t^2: a point in extended coordinates, z = 0 not excluded. */
  ghost predicate OnQuadric(x: int, y: int, z: int, t: int) {
    Eq(x * y, t * z) && Eq(y * y - x * x, z * z + D * (t * t))
  }

  lemma SquareOfProduct(a: int, b: int)
    ensures (a * b) * (a * b) == (a * a) * (b * b)
  {
  }

  lemma SquareOfSumTimes(m1: int, m2: int, s1: int, s2: int)
    ensures (m1 * s2 + m2 * s1) * (m1 * s2 + m2 * s1) == (m1 * m1) * (s2 * s2) + 2 * (m1 * m2) * (s1 * s2) + (m2 * m2) * (s1 * s1)
  {
  }

  lemma SquareOfBinomial(a: int, b: int)
    ensures (a + b) * (a + b) == a * a + b * b + 2 * (a * b)
    ensures (a - b) * (a - b) == a * a + b * b - 2 * (a * b)
  {
  }

  /** The squares of z1 z2 + d t1 t2 and z1 z2 - d t1 t2. */
  lemma DenominatorSquares(z1: int, t1: int, z2: int, t2: int)
    ensures var q := (z1 * z1) * (z2 * z2) + (D * (t1 * t1)) * (D * (t2 * t2));
      var k := D * ((t1 * z1) * (t2 * z2));
      var g, f := z1 * z2 + D * (t1 * t2), z1 * z2 - D * (t1 * t2);
      g * g == q + 2 * k && f * f == q - 2 * k
  {
    var a, b := z1 * z2, D * (t1 * t2);
    SquareOfBinomial(a, b);
    SquareOfProduct(z1, z2);
    ScaledSquares(D, t1, t2);
    ScaledCross(D, z1, z2, t1, t2);
  }

  lemma ScaledSquares(d: int, t1: int, t2: int)
    ensures (d * (t1 * t2)) * (d * (t1 * t2)) == (d * (t1 * t1)) * (d * (t2 * t2))
  {
    SquareOfProduct(d, t1 * t2);
    SquareOfProduct(t1, t2);
    MulSwap(d, t1 * t1, d, t2 * t2);
  }

  lemma ScaledCross(d: int, z1: int, z2: int, t1: int, t2: int)
    ensures (z1 * z2) * (d * (t1 * t2)) == d * ((t1 * z1) * (t2 * z2))
  {
    MulSwap(t1, z1, t2, z2);
    MulAssoc(d, t1 * t2, z1 * z2);
  }

  lemma Balance(d: int, m1: int, m2: int, s1: int, s2: int, q: int, n1: int, n2: int)
    requires q * (n1 * n2) == q * q - 4 * ((d * (m1 * m1)) * (d * (m2 * m2))) + (d * (m1 * m1)) * (n2 * n2) + (d * (m2 * m2)) * (n1 * n1)
    ensures var k := d * (m1 * m2);
      q * (n1 * n2) + 2 * k * (s1 * s2 + 4 * (m1 * m2)) ==
      (q - 2 * k) * (q + 2 * k) + d * ((m1 * m1) * (n2 * n2 + 4 * (m2 * m2)) + 2 * (m1 * m2) * (s1 * s2) + (m2 * m2) * (n1 * n1 + 4 * (m1 * m1)))
  {
  }

  lemma BalanceHolds(z1: int, t1: int, z2: int, t2: int)
    ensures var m1, m2, n1, n2 := t1 * z1, t2 * z2, z1 * z1 + D * (t1 * t1), z2 * z2 + D * (t2 * t2);
      var q := (z1 * z1) * (z2 * z2) + (D * (t1 * t1)) * (D * (t2 * t2));
      q * (n1 * n2) == q * q - 4 * ((D * (m1 * m1)) * (D * (m2 * m2))) + (D * (m1 * m1)) * (n2 * n2) + (D * (m2 * m2)) * (n1 * n1)
  {
    LastIdentity(z1 * z1, D * (t1 * t1), z2 * z2, D * (t2 * t2));
    ScaledSquare(D, z1, t1);
    ScaledSquare(D, z2, t2);
  }

  lemma ScaledSquare(d: int, z: int, t: int)
    ensures d * ((t * z) * (t * z)) == (z * z) * (d * (t * t))
  {
    SquareOfProduct(t, z);
    MulAssoc(d, t * t, z * z);
  }

  /** The square of s = x^2 + y^2, from w = x y and v = y^2 - x^2. */
  lemma NormSquare(s: int, w: int, v: int, m: int, n: int)
    requires s * s == v * v + 4 * (w * w) && Eq(w, m) && Eq(v, n)
    ensures Eq(s * s, n * n + 4 * (m * m))
  {
    EqMul(w, m, w, m);
    EqMul(4, 4, w * w, m * m);
    EqMul(v, n, v, n);
    EqAdd(v * v, n * n, 4 * (w * w), 4 * (m * m));
  }

  lemma LeftSide(x1: int, y1: int, z1: int, t1: int, x2: int, y2: int, z2: int, t2: int, q: int, k: int)
    requires OnQuadric(x1, y1, z1, t1) && OnQuadric(x2, y2, z2, t2)
    ensures var e, h := x1 * y2 + y1 * x2, y1 * y2 + x1 * x2;
      var s1, s2, m1, m2 := x1 * x1 + y1 * y1, x2 * x2 + y2 * y2, t1 * z1, t2 * z2;
      var n1, n2 := z1 * z1 + D * (t1 * t1), z2 * z2 + D * (t2 * t2);
      Eq((q + 2 * k) * (h * h) - (e * e) * (q - 2 * k), q * (n1 * n2) + 2 * k * (s1 * s2 + 4 * (m1 * m2)))
  {
    var e, h := x1 * y2 + y1 * x2, y1 * y2 + x1 * x2;
    var s1, s2, m1, m2 := x1 * x1 + y1 * y1, x2 * x2 + y2 * y2, t1 * z1, t2 * z2;
    var n1, n2 := z1 * z1 + D * (t1 * t1), z2 * z2 + D * (t2 * t2);
    SumsOfSquares(x1, y1, x2, y2);
    EqMul(y1 * y1 - x1 * x1, n1, y2 * y2 - x2 * x2, n2);
    EqMul(x1 * y1, m1, x2 * y2, m2);
    EqMul(4, 4, (x1 * y1) * (x2 * y2), m1 * m2);
    EqAdd(s1 * s2, s1 * s2, 4 * ((x1 * y1) * (x2 * y2)), 4 * (m1 * m2));
    Combine(q, k, h * h, e * e, n1 * n2, s1 * s2 + 4 * (m1 * m2));
  }

  lemma Combine(q: int, k: int, hh: int, ee: int, n: int, w: int)
    requires Eq(hh - ee, n) && Eq(hh + ee, w)
    ensures Eq((q + 2 * k) * hh - ee * (q - 2 * k), q * n + 2 * k * w)
  {
    Expanded(q, k, hh, ee);
    EqMul(q, q, hh - ee, n);
    EqMul(2 * k, 2 * k, hh + ee, w);
    EqAdd(q * (hh - ee), q * n, 2 * k * (hh + ee), 2 * k * w);
  }

  lemma CrossSquare(x1: int, y1: int, z1: int, t1: int, x2: int, y2: int, z2: int, t2: int)
    requires OnQuadric(x1, y1, z1, t1) && OnQuadric(x2, y2, z2, t2)
    ensures var e, h := x1 * y2 + y1 * x2, y1 * y2 + x1 * x2;
      var s1, s2, m1, m2 := x1 * x1 + y1 * y1, x2 * x2 + y2 * y2, t1 * z1, t2 * z2;
      var n1, n2 := z1 * z1 + D * (t1 * t1), z2 * z2 + D * (t2 * t2);
      Eq((e * h) * (e * h), (m1 * m1) * (n2 * n2 + 4 * (m2 * m2)) + 2 * (m1 * m2) * (s1 * s2) + (m2 * m2) * (n1 * n1 + 4 * (m1 * m1)))
  {
    var e, h := x1 * y2 + y1 * x2, y1 * y2 + x1 * x2;
    var s1, s2, m1, m2 := x1 * x1 + y1 * y1, x2 * x2 + y2 * y2, t1 * z1, t2 * z2;
    var n1, n2 := z1 * z1 + D * (t1 * t1), z2 * z2 + D * (t2 * t2);
    SumsOfSquares(x1, y1, x2, y2);
    EqMul(x1 * y1, m1, s2, s2);
    EqMul(x2 * y2, m2, s1, s1);
    EqAdd((x1 * y1) * s2, m1 * s2, (x2 * y2) * s1, m2 * s1);
    EqMul(e * h, m1 * s2 + m2 * s1, e * h, m1 * s2 + m2 * s1);
    SquareOfSumTimes(m1, m2, s1, s2);
    SquareOfSum(x1, y1);
    SquareOfSum(x2, y2);
    NormSquare(s1, x1 * y1, y1 * y1 - x1 * x1, m1, n1);
    NormSquare(s2, x2 * y2, y2 * y2 - x2 * x2, m2, n2);
    ThreeTerms(m1 * m1, s2 * s2, n2 * n2 + 4 * (m2 * m2), 2 * (m1 * m2) * (s1 * s2), m2 * m2, s1 * s1, n1 * n1 + 4 * (m1 * m1));
  }

  lemma ThreeTerms(a: int, u: int, v: int, b: int, c: int, x: int, y: int)
    requires Eq(u, v) && Eq(x, y)
    ensures Eq(a * u + b + c * x, a * v + b + c * y)
  {
    EqMul(a, a, u, v);
    EqMul(c, c, x, y);
    EqAdd(a * u, a * v, b, b);
    EqAdd(a * u + b, a * v + b, c * x, c * y);
  }

  /** The sum of two points of the quadric satisfies the curve equation: g^2 h^2 - e^2 f^2 = f^2 g^2 + d e^2 h^2. */
  lemma QuadricSum(x1: int, y1: int, z1: int, t1: int, x2: int, y2: int, z2: int, t2: int)
    requires OnQuadric(x1, y1, z1, t1) && OnQuadric(x2, y2, z2, t2)
    ensures var e, h := x1 * y2 + y1 * x2, y1 * y2 + x1 * x2;
      var g, f := z1 * z2 + D * (t1 * t2), z1 * z2 - D * (t1 * t2);
      Eq((g * g) * (h * h) - (e * e) * (f * f), (f * f) * (g * g) + D * ((e * h) * (e * h)))
  {
    var e, h := x1 * y2 + y1 * x2, y1 * y2 + x1 * x2;
    var s1, s2, m1, m2 := x1 * x1 + y1 * y1, x2 * x2 + y2 * y2, t1 * z1, t2 * z2;
    var n1, n2 := z1 * z1 + D * (t1 * t1), z2 * z2 + D * (t2 * t2);
    var q := (z1 * z1) * (z2 * z2) + (D * (t1 * t1)) * (D * (t2 * t2));
    var k := D * (m1 * m2);
    DenominatorSquares(z1, t1, z2, t2);
    LeftSide(x1, y1, z1, t1, x2, y2, z2, t2, q, k);
    BalanceHolds(z1, t1, z2, t2);
    Balance(D, m1, m2, s1, s2, q, n1, n2);
    CrossSquare(x1, y1, z1, t1, x2, y2, z2, t2);
    var w := (m1 * m1) * (n2 * n2 + 4 * (m2 * m2)) + 2 * (m1 * m2) * (s1 * s2) + (m2 * m2) * (n1 * n1 + 4 * (m1 * m1));
    EqMul(D, D, (e * h) * (e * h), w);
    EqAdd((q - 2 * k) * (q + 2 * k), (q - 2 * k) * (q + 2 * k), D * ((e * h) * (e * h)), D * w);
  }

  // ---------------------------------------------------------------- points and their sums

  datatype Point = Point(x: int, y: int)

  ghost predicate OnCurve(a: Point) {
    InField(a.x) && InField(a.y) && OnQuadric(a.x, a.y, 1, a.x * a.y)
  }

  lemma InRange(a: Point)
    requires OnCurve(a)
    ensures 0 <= a.x < P && 0 <= a.y < P
  {
    FieldRange(a.x);
    FieldRange(a.y);
  }

  const ZERO: Point := Point(0, 1)

  const BASE: Point := Point(BASE_X, BASE_Y)

  ghost function Delta(a: Point, b: Point): int {
    D * ((a.x * a.y) * (b.x * b.y))
  }

  /** The addition law: x3 = (x1 y2 + y1 x2) / (1 + d x1 x2 y1 y2), y3 = (y1 y2 + x1 x2) / (1 - d x1 x2 y1 y2). */
  ghost function Add(a: Point, b: Point): Point {
    Point(Div(a.x * b.y + a.y * b.x, 1 + Delta(a, b)), Div(a.y * b.y + a.x * b.x, 1 - Delta(a, b)))
  }

  // ---------------------------------------------------------------- d is not a square

  lemma {:induction false} MinusOnePower(m: nat)
    ensures Pow(-1, m) == if m % 2 == 0 then 1 else -1
  {
    if m > 0 {
      MinusOnePower(m - 1);
    }
  }

  /** I^((p-1)/2) = -1, as (p-1)/4 is odd. */
  lemma HalfPowerOfI(n: nat, m: nat)
    requires n == 2 * m && m % 2 == 1
    ensures Eq(Pow(I, n), -1)
  {
    assert Pow(I, 2) == I * I by { assert Pow(I, 1) == I; }
    PowMul(I, 2, m);
    RootOfMinusOne();
    PowersOf(I * I, -1, m);
    MinusOnePower(m);
  }

  /** r^(p-1) = 2^((p-1)/2) if r^2 = 2, and (1 + I)^(p-1) = (2I)^((p-1)/2). */
  lemma SquareToHalf(r: int, s: int, n: nat)
    requires IsPrime(P) && !Eq(r, 0) && Eq(r * r, s) && 2 * n == P - 1
    ensures Eq(Pow(s, n), 1)
  {
    PowersOf(r * r, s, n);
    PowOfProduct(r, r, n);
    PowAdd(r, n, n);
    FermatFor(r, 2 * n);
  }

  lemma OnePlusI()
    ensures Eq((1 + I) * (1 + I), 2 * I) && !Eq(1 + I, 0)
  {
    EqIs((1 + I) * (1 + I), 2 * I);
    EqIs(1 + I, 0);
  }

  /** 2 is not a square. */
  lemma TwoNonSquare(r: int)
    requires IsPrime(P)
    ensures !Eq(r * r, 2)
  {
    if Eq(r * r, 2) {
      var n, m := (P - 1) / 2, (P - 1) / 4;
      SmallNumbers();
      if Eq(r, 0) {
        EqMul(r, 0, r, 0);
      }
      SquareToHalf(r, 2, n);
      OnePlusI();
      SquareToHalf(1 + I, 2 * I, n);
      PowOfProduct(2, I, n);
      HalfPowerOfI(n, m);
      EqMul(Pow(2, n), 1, Pow(I, n), -1);
    }
  }

  /** A square root of 2d. */
  const ROOT_TWO_D: int := 0x7aace324_fd0ac689_10cb40c6_304ab6b7_dbb63fe1_a1c15dad_5c477a1b_914298b0

  lemma RootTwoDFits()
    ensures Eq(ROOT_TWO_D * ROOT_TWO_D, 2 * D) && !Eq(D, 0)
  {
    DIsValue();
    EqIs(ROOT_TWO_D * ROOT_TWO_D, 2 * D);
    EqIs(D, 0);
  }

  /** If r^2 = d and s^2 = 2d, then (s / r)^2 = 2. */
  lemma RatioOfRoots(r: int, b: int, s: int, d: int)
    requires Eq(r * r, d) && Eq(s * s, 2 * d) && Eq(r * b, 1)
    ensures Eq(s * b * (s * b), 2)
  {
    EqMul(r * b, 1, r * b, 1);
    SquareOfProduct(r, b);
    SquareOfProduct(s, b);
    EqMul(s * s, 2 * d, b * b, b * b);
    EqMul(2, 2, r * r, d);
    EqMul(2 * (r * r), 2 * d, b * b, b * b);
    MulAssoc(2, r * r, b * b);
    EqMul(2, 2, (r * r) * (b * b), 1);
  }

  /** d is not a square: 2d is, and 2 is not. */
  lemma DNonSquare(r: int)
    requires IsPrime(P)
    ensures !Eq(r * r, D)
  {
    RootTwoDFits();
    if Eq(r * r, D) {
      if Eq(r, 0) {
        EqMul(r, 0, r, 0);
      }
      var b := EqInverse(r);
      RatioOfRoots(r, b, ROOT_TWO_D, D);
      TwoNonSquare(ROOT_TWO_D * b);
    }
  }

  lemma SignedRoot(s: int)
    requires s == 1 || s == -1
    ensures Eq(s * I * (s * I), -1)
  {
    RootOfMinusOne();
  }

  /** (y + j x)^2 for a j with j^2 = -1. */
  lemma ShiftedSquare(a: Point, j: int)
    requires OnCurve(a) && Eq(j * j, -1)
    ensures var u := a.x * a.y; Eq((a.y + j * a.x) * (a.y + j * a.x), 1 + D * (u * u) + 2 * j * u)
  {
    var u := a.x * a.y;
    SquareOfBinomial(a.y, j * a.x);
    SquareOfProduct(j, a.x);
    EqMul(j * j, -1, a.x * a.x, a.x * a.x);
    EqAdd(a.y * a.y, a.y * a.y, (j * j) * (a.x * a.x), -1 * (a.x * a.x));
    CrossTerm(j, a.x, a.y);
    EqAdd(a.y * a.y + (j * j) * (a.x * a.x), 1 + D * (u * u), 2 * j * u, 2 * j * u);
  }

  lemma CrossTerm(j: int, x: int, y: int)
    ensures 2 * (y * (j * x)) == 2 * j * (x * y)
  {
  }

  /** If d x1 y1 x2 y2 = e = 1 or -1, then d (x1 y1 (y2 + j x2))^2 = (y1 + j e x1)^2. */
  lemma SquareRelation(a: Point, b: Point, j: int, e: int)
    requires OnCurve(a) && OnCurve(b) && Eq(j * j, -1) && (e == 1 || e == -1) && Eq(Delta(a, b), e)
    ensures var w, n := a.x * a.y * (b.y + j * b.x), a.y + j * e * a.x; Eq(D * (w * w), n * n)
  {
    var u, v, c := a.x * a.y, b.x * b.y, b.y + j * b.x;
    var delta := D * (u * v);
    ShiftedSquare(b, j);
    assert j * e * (j * e) == j * j;
    ShiftedSquare(a, j * e);
    SquareOfProduct(u, c);
    EqMul(u * u, u * u, c * c, 1 + D * (v * v) + 2 * j * v);
    EqMul(D, D, (u * u) * (c * c), (u * u) * (1 + D * (v * v) + 2 * j * v));
    DeltaTerms(D, u, v, j);
    EqMul(delta, e, delta, e);
    EqMul(2 * j * u, 2 * j * u, delta, e);
    EqAdd(delta * delta, 1, 2 * j * u * delta, 2 * j * u * e);
    EqAdd(D * (u * u), D * (u * u), delta * delta + 2 * j * u * delta, 1 + 2 * j * u * e);
    assert 2 * j * u * e == 2 * (j * e) * u;
  }

  lemma DeltaTerms(d: int, u: int, v: int, j: int)
    ensures var delta := d * (u * v);
      d * ((u * u) * (1 + d * (v * v) + 2 * j * v)) == d * (u * u) + (delta * delta + 2 * j * u * delta)
  {
  }

  /** So the second factor is zero, as d is not a square. */
  lemma FactorVanishes(a: Point, b: Point, j: int, e: int)
    requires IsPrime(P) && OnCurve(a) && OnCurve(b)
    requires Eq(j * j, -1) && (e == 1 || e == -1) && Eq(Delta(a, b), e) && !Eq(a.x * a.y, 0)
    ensures Eq(b.y + j * b.x, 0)
  {
    var u, c := a.x * a.y, b.y + j * b.x;
    if !Eq(c, 0) {
      NonZeroProduct(u, c);
      SquareRelation(a, b, j, e);
      RootOfD(u * c, a.y + j * e * a.x);
    }
  }

  lemma RootOfD(w: int, n: int)
    requires IsPrime(P) && !Eq(w, 0)
    ensures !Eq(D * (w * w), n * n)
  {
    if Eq(D * (w * w), n * n) {
      var r := EqInverse(w);
      SquareOfProduct(w, r);
      SquareOfProduct(n, r);
      EqMul(w * r, 1, w * r, 1);
      EqMul(D * (w * w), n * n, r * r, r * r);
      MulAssoc(D, w * w, r * r);
      EqMul(D, D, (w * w) * (r * r), 1);
      DNonSquare(n * r);
    }
  }

  /** The denominators of the addition law are never zero. */
  lemma Complete(a: Point, b: Point)
    requires IsPrime(P) && OnCurve(a) && OnCurve(b)
    ensures !Eq(1 + Delta(a, b), 0) && !Eq(1 - Delta(a, b), 0)
  {
    NeverUnit(a, b, 1);
    NeverUnit(a, b, -1);
    if Eq(1 - Delta(a, b), 0) {
      EqAdd(1 - Delta(a, b), 0, Delta(a, b), Delta(a, b));
    } else if Eq(1 + Delta(a, b), 0) {
      EqAdd(1 + Delta(a, b), 0, 1, 1);
    }
  }

  lemma NeverUnit(a: Point, b: Point, e: int)
    requires IsPrime(P) && OnCurve(a) && OnCurve(b) && (e == 1 || e == -1)
    ensures !Eq(Delta(a, b), e)
  {
    var u, v := a.x * a.y, b.x * b.y;
    assert u * v == v * u;
    SmallNumbers();
    if Eq(u, 0) {
      ZeroDelta(u, v);
    } else if Eq(Delta(a, b), e) {
      SignedRoot(1);
      SignedRoot(-1);
      FactorVanishes(a, b, I, e);
      FactorVanishes(a, b, -I, e);
      BothVanish(b.x, b.y, I);
      EqMul(b.x, b.x, b.y, 0);
      ZeroDelta(v, u);
    }
  }

  lemma BothVanish(x: int, y: int, i: int)
    requires IsPrime(P) && Eq(y + i * x, 0) && Eq(y + -i * x, 0)
    ensures Eq(y, 0)
  {
    EqAdd(y + i * x, 0, y + -i * x, 0);
    Doubled(x, y, i);
    SmallNumbers();
    if !Eq(y, 0) {
      NonZeroProduct(2, y);
    }
  }

  lemma Doubled(x: int, y: int, i: int)
    ensures y + i * x + (y + -i * x) == 2 * y
  {
    assert -i * x == -(i * x);
  }

  lemma ZeroDelta(u: int, v: int)
    requires Eq(u, 0)
    ensures Eq(D * (u * v), 0)
  {
    EqMul(u, 0, v, v);
    EqMul(D, D, u * v, 0);
  }

  // ---------------------------------------------------------------- the group

  /** The coordinates of c, multiplied by the denominators of the sum of a and b, are the numerators. */
  ghost predicate SumOf(c: Point, a: Point, b: Point) {
    && Eq((1 + Delta(a, b)) * c.x, a.x * b.y + a.y * b.x)
    && Eq((1 - Delta(a, b)) * c.y, a.y * b.y + a.x * b.x)
  }

  lemma SumQuotients(a: Point, b: Point)
    requires IsPrime(P) && OnCurve(a) && OnCurve(b)
    ensures SumOf(Add(a, b), a, b)
  {
    Complete(a, b);
    Quotient(a.x * b.y + a.y * b.x, 1 + Delta(a, b));
    Quotient(a.y * b.y + a.x * b.x, 1 - Delta(a, b));
  }

  /** A sum of points of the curve is on the curve. */
  lemma Closed(a: Point, b: Point)
    requires IsPrime(P) && OnCurve(a) && OnCurve(b)
    ensures OnCurve(Add(a, b))
  {
    var c, delta := Add(a, b), Delta(a, b);
    SumQuotients(a, b);
    Complete(a, b);
    QuadricSum(a.x, a.y, 1, a.x * a.y, b.x, b.y, 1, b.x * b.y);
    DividedOut(c.x, c.y, a.x * b.y + a.y * b.x, a.y * b.y + a.x * b.x, 1 + delta, 1 - delta);
  }

  lemma DividedOut(x: int, y: int, e: int, h: int, g: int, f: int)
    requires IsPrime(P) && !Eq(g, 0) && !Eq(f, 0) && Eq(g * x, e) && Eq(f * y, h)
    requires Eq((g * g) * (h * h) - (e * e) * (f * f), (f * f) * (g * g) + D * ((e * h) * (e * h)))
    ensures Eq(y * y - x * x, 1 * 1 + D * ((x * y) * (x * y)))
  {
    var n := (f * g) * (f * g);
    NonZeroProduct(f, g);
    NonZeroProduct(f * g, f * g);
    LeftScaled(x, y, e, h, g, f);
    RightScaled(x, y, e, h, g, f);
    EqCancel(n, y * y - x * x, 1 * 1 + D * ((x * y) * (x * y)));
  }

  lemma LeftScaled(x: int, y: int, e: int, h: int, g: int, f: int)
    requires Eq(g * x, e) && Eq(f * y, h)
    ensures Eq((f * g) * (f * g) * (y * y - x * x), (g * g) * (h * h) - (e * e) * (f * f))
  {
    var a, b := f * y, g * x;
    EqMul(a, h, a, h);
    EqMul(b, e, b, e);
    EqMul(g * g, g * g, a * a, h * h);
    EqMul(b * b, e * e, f * f, f * f);
    EqAdd((g * g) * (a * a), (g * g) * (h * h), (b * b) * (f * f), (e * e) * (f * f));
    SquareOfProduct(f, g);
    SquareOfProduct(f, y);
    SquareOfProduct(g, x);
    LeftTerms(f * f, g * g, x * x, y * y);
  }

  lemma LeftTerms(f: int, g: int, x: int, y: int)
    ensures g * (f * y) - (g * x) * f == f * g * (y - x)
  {
  }

  lemma RightScaled(x: int, y: int, e: int, h: int, g: int, f: int)
    requires Eq(g * x, e) && Eq(f * y, h)
    ensures Eq((f * g) * (f * g) * (1 * 1 + D * ((x * y) * (x * y))), (f * f) * (g * g) + D * ((e * h) * (e * h)))
  {
    var w := g * x * (f * y);
    EqMul(g * x, e, f * y, h);
    EqMul(w, e * h, w, e * h);
    EqMul(D, D, w * w, (e * h) * (e * h));
    EqAdd((f * f) * (g * g), (f * f) * (g * g), D * (w * w), D * ((e * h) * (e * h)));
    ScaledProduct(g, x, f, y);
    SquareOfProduct(f, g);
    RightTerms((f * g) * (f * g), D, (x * y) * (x * y));
  }

  lemma ScaledProduct(g: int, x: int, f: int, y: int)
    ensures (g * x * (f * y)) * (g * x * (f * y)) == ((f * g) * (f * g)) * ((x * y) * (x * y))
  {
    MulSwap(g, x, f, y);
    assert g * f == f * g;
    SquareOfProduct(f * g, x * y);
  }

  lemma RightTerms(n: int, d: int, t: int)
    ensures n * (1 * 1 + d * t) == n + d * (n * t)
  {
  }

  lemma Commutes(a: Point, b: Point)
    ensures Add(a, b) == Add(b, a)
  {
    assert (a.x * a.y) * (b.x * b.y) == (b.x * b.y) * (a.x * a.y);
    assert a.x * b.y + a.y * b.x == b.x * a.y + b.y * a.x;
    assert a.y * b.y + a.x * b.x == b.y * a.y + b.x * a.x;
  }

  lemma ZeroOnCurve()
    ensures OnCurve(ZERO)
  {
    assert 0 * 1 == 0;
  }

  lemma BaseOnCurve()
    ensures OnCurve(BASE)
  {
    FieldRange(BASE_X);
    FieldRange(BASE_Y);
    BaseEquation(BASE_X * BASE_Y);
  }

  lemma BaseEquation(t: int)
    requires t == BASE_X * BASE_Y
    ensures Eq(BASE_Y * BASE_Y - BASE_X * BASE_X, 1 * 1 + D * (t * t))
  {
    DIsValue();
    EqIs(BASE_Y * BASE_Y - BASE_X * BASE_X, 1 * 1 + D * (t * t));
  }

  lemma NeutralQuotients(a: Point, g: int, f: int)
    requires IsPrime(P) && OnCurve(a) && g == f == 1
    ensures Div(a.x, g) == a.x && Div(a.y, f) == a.y
  {
    SmallNumbers();
    DivUnique(a.x, g, a.x);
    DivUnique(a.y, f, a.y);
  }

  lemma ZeroNeutral(a: Point)
    requires IsPrime(P) && OnCurve(a)
    ensures Add(ZERO, a) == a && Add(a, ZERO) == a
  {
    NeutralQuotients(a, 1 + Delta(ZERO, a), 1 - Delta(ZERO, a));
    Commutes(a, ZERO);
  }

  function Neg(a: Point): Point {
    Point(FSub(0, a.x), a.y)
  }

  lemma NegOnCurve(a: Point)
    requires OnCurve(a)
    ensures OnCurve(Neg(a))
  {
    var x := Neg(a).x;
    EqRes(0 - a.x);
    EqMul(x, 0 - a.x, x, 0 - a.x);
    EqMul(x, 0 - a.x, a.y, a.y);
    EqMul(x * a.y, (0 - a.x) * a.y, x * a.y, (0 - a.x) * a.y);
    EqAdd(a.y * a.y, a.y * a.y, x * x, (0 - a.x) * (0 - a.x));
    EqMul(D, D, (x * a.y) * (x * a.y), ((0 - a.x) * a.y) * ((0 - a.x) * a.y));
    EqAdd(1, 1, D * ((x * a.y) * (x * a.y)), D * (((0 - a.x) * a.y) * ((0 - a.x) * a.y)));
    SignsGone(a.x, a.y);
  }

  lemma SignsGone(x: int, y: int)
    ensures (0 - x) * (0 - x) == x * x && ((0 - x) * y) * ((0 - x) * y) == (x * y) * (x * y)
  {
  }

  lemma NegInverse(a: Point)
    requires IsPrime(P) && OnCurve(a)
    ensures Add(a, Neg(a)) == ZERO
  {
    var b, u := Neg(a), a.x * a.y;
    NegOnCurve(a);
    Complete(a, b);
    EqRes(0 - a.x);
    OppositeNumerators(a, b.x);
    DivUnique(a.x * b.y + a.y * b.x, 1 + Delta(a, b), 0);
    DivUnique(a.y * b.y + a.x * b.x, 1 - Delta(a, b), 1);
  }

  lemma OppositeNumerators(a: Point, x: int)
    requires OnCurve(a) && Eq(x, 0 - a.x)
    ensures Eq(a.x * a.y + a.y * x, 0)
    ensures Eq(a.y * a.y + a.x * x, 1 - D * ((a.x * a.y) * (x * a.y)))
  {
    var u := a.x * a.y;
    OppositeTerms(D, a.x, a.y);
    EqMul(a.y, a.y, x, 0 - a.x);
    EqAdd(u, u, a.y * x, a.y * (0 - a.x));
    EqMul(a.x, a.x, x, 0 - a.x);
    EqAdd(a.y * a.y, a.y * a.y, a.x * x, a.x * (0 - a.x));
    EqMul(x, 0 - a.x, a.y, a.y);
    EqMul(u, u, x * a.y, 0 - u);
    EqMul(D, D, u * (x * a.y), u * (0 - u));
    EqAdd(1, 1, D * (u * (x * a.y)), 0 - D * (u * u));
  }

  lemma OppositeTerms(d: int, x: int, y: int)
    ensures x * y + y * (0 - x) == 0 && y * y + x * (0 - x) == y * y - x * x
    ensures (0 - x) * y == 0 - x * y && d * ((x * y) * (0 - x * y)) == 0 - d * ((x * y) * (x * y))
  {
    assert d * (0 - (x * y) * (x * y)) == 0 - d * ((x * y) * (x * y));
  }

  // ---------------------------------------------------------------- the group of points

  ghost predicate Associative() {
    forall a, b, c :: AssociativeAt(a, b, c)
  }

  ghost predicate AssociativeAt(a: Point, b: Point, c: Point) {
    OnCurve(a) && OnCurve(b) && OnCurve(c) ==> Add(Add(a, b), c) == Add(a, Add(b, c))
  }

  /** What is taken from mathematics: p is prime, and the addition law is associative. */
  ghost predicate Curve() {
    IsPrime(P) && Associative()
  }

  /** The points of the curve with their addition. */
  ghost function Points(): Group.Ops<Point> {
    Group.Ops((a: Point, b: Point) => Add(a, b), ZERO, (a: Point) => Neg(a), (a: Point) => OnCurve(a))
  }

  /** Everything but associativity is proved: the points form a commutative group. */
  lemma PointsFormGroup()
    requires Curve()
    ensures Group.Laws(Points())
  {
    var g := Points();
    ZeroOnCurve();
    forall a, b
      ensures Group.Closed(g, a, b) && Group.Commutes(g, a, b)
    {
      ClosedAndCommutes(g, a, b);
    }
    forall a, b, c
      ensures Group.Assoc(g, a, b, c)
    {
      AssociativeIn(g, a, b, c);
    }
    forall a
      ensures Group.Neutral(g, a) && Group.Opposite(g, a)
    {
      if OnCurve(a) {
        ZeroNeutral(a);
        NegOnCurve(a);
        NegInverse(a);
      }
    }
  }

  lemma ClosedAndCommutes(g: Group.Ops<Point>, a: Point, b: Point)
    requires Curve() && g == Points()
    ensures Group.Closed(g, a, b) && Group.Commutes(g, a, b)
  {
    if OnCurve(a) && OnCurve(b) {
      Closed(a, b);
    }
    Commutes(a, b);
  }

  lemma AssociativeIn(g: Group.Ops<Point>, a: Point, b: Point, c: Point)
    requires Curve() && g == Points()
    ensures Group.Assoc(g, a, b, c)
  {
    assert AssociativeAt(a, b, c);
  }
}
