/** Ed25519 points in extended coordinates: add, scalarmult, scalarbase, pack and unpackneg of tweetnacl.c. */
module Edwards {
  import opened Arith
  import opened Radix
  import opened MachineInts
  import opened LittleEndian
  import opened PrimeField
  import opened Wrappers
  import opened Field25519
  import opened FieldCodec
  import opened FieldPower
  import opened Congruence
  import opened EdwardsLaw
  import Group

  // ---------------------------------------------------------------- RFC 8032, section 5.1.4

  datatype Ext = Ext(x: int, y: int, z: int, t: int)

  /** From the four products: e = b - a, f = d - c, g = d + c, h = b + a. */
  function FromProducts(a: int, b: int, c: int, d: int): Ext {
    var e, f, g, h := b - a, d - c, d + c, b + a;
    Ext(e * f % P, g * h % P, f * g % P, e * h % P)
  }

  /** The sum of two points in extended coordinates. */
  ghost function RfcSum(p: Ext, q: Ext): Ext {
    FromProducts((p.y - p.x) * (q.y - q.x), (p.y + p.x) * (q.y + q.x), p.t * 2 * D * q.t, p.z * 2 * q.z)
  }

  /** e stands for the point a. */
  ghost predicate Represents(e: Ext, a: Point) {
    Eq(e.x, a.x * e.z) && Eq(e.y, a.y * e.z) && Eq(e.t, a.x * a.y * e.z) && !Eq(e.z, 0)
  }

  /** e satisfies the equations of the curve in extended coordinates. */
  ghost predicate OnSurface(e: Ext) {
    OnQuadric(e.x, e.y, e.z, e.t)
  }

  lemma NumeratorIdentities(x1: int, y1: int, x2: int, y2: int)
    ensures (y1 + x1) * (y2 + x2) - (y1 - x1) * (y2 - x2) == 2 * (x1 * y2 + y1 * x2)
    ensures (y1 + x1) * (y2 + x2) + (y1 - x1) * (y2 - x2) == 2 * (y1 * y2 + x1 * x2)
  {
  }

  lemma DenominatorIdentities(z1: int, t1: int, z2: int, t2: int, d: int)
    ensures z1 * 2 * z2 - t1 * 2 * d * t2 == 2 * (z1 * z2 - d * (t1 * t2))
    ensures z1 * 2 * z2 + t1 * 2 * d * t2 == 2 * (z1 * z2 + d * (t1 * t2))
  {
  }

  lemma HalfProducts(e: int, f: int)
    ensures (2 * e) * (2 * f) == 4 * (e * f)
  {
  }

  /** The sum written with halves: x = 4ef, y = 4gh, z = 4fg, t = 4eh. */
  lemma SumHalves(p: Ext, q: Ext)
    ensures var e, h := p.x * q.y + p.y * q.x, p.y * q.y + p.x * q.x;
      var g, f := p.z * q.z + D * (p.t * q.t), p.z * q.z - D * (p.t * q.t);
      RfcSum(p, q) == Ext(4 * (e * f) % P, 4 * (g * h) % P, 4 * (f * g) % P, 4 * (e * h) % P)
  {
    var e, h := p.x * q.y + p.y * q.x, p.y * q.y + p.x * q.x;
    var g, f := p.z * q.z + D * (p.t * q.t), p.z * q.z - D * (p.t * q.t);
    NumeratorIdentities(p.x, p.y, q.x, q.y);
    DenominatorIdentities(p.z, p.t, q.z, q.t, D);
    HalfProducts(e, f);
    HalfProducts(g, h);
    HalfProducts(f, g);
    HalfProducts(e, h);
  }

  lemma FourSquared(a: int, b: int)
    ensures (4 * (a * b)) * (4 * (a * b)) == 16 * ((a * a) * (b * b))
  {
    SquareOfProduct(a, b);
  }

  /** Squares of residues. */
  lemma ResidueSquare(a: int, b: int)
    ensures Eq((4 * (a * b) % P) * (4 * (a * b) % P), 16 * ((a * a) * (b * b)))
  {
    EqRes(4 * (a * b));
    EqMul(4 * (a * b) % P, 4 * (a * b), 4 * (a * b) % P, 4 * (a * b));
    FourSquared(a, b);
  }

  lemma SixteenTimes(u: int, v: int, w: int, t: int, d: int)
    requires Eq(u - v, w + d * t)
    ensures Eq(16 * u - 16 * v, 16 * w + d * (16 * t))
  {
    EqMul(16, 16, u - v, w + d * t);
    assert d * (16 * t) == 16 * (d * t);
  }

  lemma ScaledSurface(e: int, f: int, g: int, h: int)
    requires Eq((g * g) * (h * h) - (e * e) * (f * f), (f * f) * (g * g) + D * ((e * h) * (e * h)))
    ensures OnSurface(Ext(4 * (e * f) % P, 4 * (g * h) % P, 4 * (f * g) % P, 4 * (e * h) % P))
  {
    var x, y, z, t := 4 * (e * f) % P, 4 * (g * h) % P, 4 * (f * g) % P, 4 * (e * h) % P;
    EqRes(4 * (e * f));
    EqRes(4 * (g * h));
    EqRes(4 * (f * g));
    EqRes(4 * (e * h));
    EqMul(x, 4 * (e * f), y, 4 * (g * h));
    EqMul(t, 4 * (e * h), z, 4 * (f * g));
    CrossProducts(e, f, g, h);
    ResidueSquare(g, h);
    ResidueSquare(e, f);
    ResidueSquare(f, g);
    ResidueSquare(e, h);
    SquareOfProduct(e, h);
    EqAdd(y * y, 16 * ((g * g) * (h * h)), x * x, 16 * ((e * e) * (f * f)));
    EqMul(D, D, t * t, 16 * ((e * e) * (h * h)));
    EqAdd(z * z, 16 * ((f * f) * (g * g)), D * (t * t), D * (16 * ((e * e) * (h * h))));
    SixteenTimes((g * g) * (h * h), (e * e) * (f * f), (f * f) * (g * g), (e * e) * (h * h), D);
  }

  lemma CrossProducts(e: int, f: int, g: int, h: int)
    ensures (4 * (e * f)) * (4 * (g * h)) == (4 * (e * h)) * (4 * (f * g))
  {
    MulSwap(e, f, h, g);
    assert (e * f) * (g * h) == (e * f) * (h * g) == (e * h) * (f * g);
    Sixteen(e * f, g * h);
    Sixteen(e * h, f * g);
  }

  lemma Sixteen(a: int, b: int)
    ensures (4 * a) * (4 * b) == 16 * (a * b)
  {
  }

  /** add keeps T Z = X Y and -X^2 + Y^2 = Z^2 + d T^2, for any two points that satisfy them. */
  lemma SurfaceKept(p: Ext, q: Ext)
    requires OnSurface(p) && OnSurface(q)
    ensures OnSurface(RfcSum(p, q))
  {
    var e, h := p.x * q.y + p.y * q.x, p.y * q.y + p.x * q.x;
    var g, f := p.z * q.z + D * (p.t * q.t), p.z * q.z - D * (p.t * q.t);
    SumHalves(p, q);
    QuadricSum(p.x, p.y, p.z, p.t, q.x, q.y, q.z, q.t);
    ScaledSurface(e, f, g, h);
  }

  // ---------------------------------------------------------------- the sum of represented points

  /** A product of coordinates, in terms of the points they stand for. */
  lemma CoordinateProduct(u: int, a: int, z: int, v: int, b: int, w: int)
    requires Eq(u, a * z) && Eq(v, b * w)
    ensures Eq(u * v, (a * b) * (z * w))
  {
    EqMul(u, a * z, v, b * w);
    MulSwap(a, z, b, w);
  }

  lemma Combined(u: int, v: int, a: int, b: int, z: int)
    requires Eq(u, a * z) && Eq(v, b * z)
    ensures Eq(u + v, (a + b) * z) && Eq(u - v, (a - b) * z)
  {
    EqAdd(u, a * z, v, b * z);
    MulDistrib(z, a, b);
  }

  /** e = x3 (1 + delta) z and g = (1 + delta) z make e = x3 g; likewise h = y3 f. */
  lemma QuotientCoordinates(p: Ext, q: Ext, a: Point, b: Point)
    requires IsPrime(P) && OnCurve(a) && OnCurve(b) && Represents(p, a) && Represents(q, b)
    ensures var e, h := p.x * q.y + p.y * q.x, p.y * q.y + p.x * q.x;
      var g, f := p.z * q.z + D * (p.t * q.t), p.z * q.z - D * (p.t * q.t);
      var c := Add(a, b);
      Eq(e, c.x * g) && Eq(h, c.y * f) && !Eq(g, 0) && !Eq(f, 0)
  {
    var z, delta, c := p.z * q.z, Delta(a, b), Add(a, b);
    CoordinateProduct(p.x, a.x, p.z, q.y, b.y, q.z);
    CoordinateProduct(p.y, a.y, p.z, q.x, b.x, q.z);
    CoordinateProduct(p.y, a.y, p.z, q.y, b.y, q.z);
    CoordinateProduct(p.x, a.x, p.z, q.x, b.x, q.z);
    Combined(p.x * q.y, p.y * q.x, a.x * b.y, a.y * b.x, z);
    Combined(p.y * q.y, p.x * q.x, a.y * b.y, a.x * b.x, z);
    CoordinateProduct(p.t, a.x * a.y, p.z, q.t, b.x * b.y, q.z);
    EqMul(D, D, p.t * q.t, (a.x * a.y) * (b.x * b.y) * z);
    MulAssoc(D, (a.x * a.y) * (b.x * b.y), z);
    Combined(z, D * (p.t * q.t), 1, delta, z);
    SumQuotients(a, b);
    Complete(a, b);
    NonZeroProduct(p.z, q.z);
    Proportion(p.x * q.y + p.y * q.x, z + D * (p.t * q.t), a.x * b.y + a.y * b.x, c.x, 1 + delta, z);
    Proportion(p.y * q.y + p.x * q.x, z - D * (p.t * q.t), a.y * b.y + a.x * b.x, c.y, 1 - delta, z);
  }

  lemma Proportion(e: int, g: int, u: int, x: int, d: int, z: int)
    requires IsPrime(P) && Eq(e, u * z) && Eq(g, d * z) && Eq(d * x, u) && !Eq(d, 0) && !Eq(z, 0)
    ensures Eq(e, x * g) && !Eq(g, 0)
  {
    EqMul(d * x, u, z, z);
    EqMul(x, x, g, d * z);
    Rearranged(d, x, z);
    NonZeroProduct(d, z);
  }

  lemma Rearranged(d: int, x: int, z: int)
    ensures d * x * z == x * (d * z)
  {
  }

  lemma RepresentsFromHalves(e: int, f: int, g: int, h: int, c: Point)
    requires IsPrime(P) && Eq(e, c.x * g) && Eq(h, c.y * f) && !Eq(g, 0) && !Eq(f, 0)
    ensures Represents(Ext(4 * (e * f) % P, 4 * (g * h) % P, 4 * (f * g) % P, 4 * (e * h) % P), c)
  {
    var z := 4 * (f * g);
    EqRes(4 * (e * f));
    EqRes(4 * (g * h));
    EqRes(z);
    EqRes(4 * (e * h));
    EqMul(c.x, c.x, z % P, z);
    EqMul(c.y, c.y, z % P, z);
    EqMul(c.x * c.y, c.x * c.y, z % P, z);
    EqMul(e, c.x * g, f, f);
    EqMul(4, 4, e * f, c.x * g * f);
    EqMul(h, c.y * f, g, g);
    EqMul(4, 4, h * g, c.y * f * g);
    EqMul(e, c.x * g, h, c.y * f);
    EqMul(4, 4, e * h, c.x * g * (c.y * f));
    Pulled(c.x, c.y, f, g);
    assert g * h == h * g;
    SmallNumbers();
    NonZeroProduct(f, g);
    NonZeroProduct(4, f * g);
  }

  lemma Pulled(x: int, y: int, f: int, g: int)
    ensures 4 * (x * g * f) == x * (4 * (f * g)) && 4 * (y * f * g) == y * (4 * (f * g))
    ensures 4 * (x * g * (y * f)) == x * y * (4 * (f * g))
  {
    MulSwap(x, g, y, f);
    Four(x, f * g);
    Four(y, f * g);
    Four(x * y, f * g);
    MulAssoc(x, g, f);
    MulAssoc(y, f, g);
    assert f * g == g * f;
  }

  lemma Four(x: int, n: int)
    ensures 4 * (x * n) == x * (4 * n)
  {
  }

  /** The formulas compute the sum in the group. */
  lemma SumRepresents(p: Ext, q: Ext, a: Point, b: Point)
    requires IsPrime(P) && OnCurve(a) && OnCurve(b) && Represents(p, a) && Represents(q, b)
    ensures Represents(RfcSum(p, q), Add(a, b)) && OnCurve(Add(a, b))
  {
    var e, h := p.x * q.y + p.y * q.x, p.y * q.y + p.x * q.x;
    var g, f := p.z * q.z + D * (p.t * q.t), p.z * q.z - D * (p.t * q.t);
    SumHalves(p, q);
    QuotientCoordinates(p, q, a, b);
    RepresentsFromHalves(e, f, g, h, Add(a, b));
    Closed(a, b);
  }

  // ---------------------------------------------------------------- points of the code

  /** gf p[4] */
  datatype Gf4 = Gf4(x: array<i64>, y: array<i64>, z: array<i64>, t: array<i64>)

  ghost predicate Proper(p: Gf4) {
    && p.x.Length == 16 && p.y.Length == 16 && p.z.Length == 16 && p.t.Length == 16
    && p.x != p.y && p.x != p.z && p.x != p.t && p.y != p.z && p.y != p.t && p.z != p.t
  }

  ghost function Limbs(p: Gf4): set<array<i64>> {
    {p.x, p.y, p.z, p.t}
  }

  ghost predicate Normal(p: Gf4)
    reads p.x, p.y, p.z, p.t
  {
    Within(p.x[..], 65574) && Within(p.y[..], 65574) && Within(p.z[..], 65574) && Within(p.t[..], 65574)
  }

  ghost function View(p: Gf4): Ext
    reads p.x, p.y, p.z, p.t
  {
    Ext(Fe(p.x), Fe(p.y), Fe(p.z), Fe(p.t))
  }

  // ---------------------------------------------------------------- constants

  /** Four limbs. */
  function Quarter(s: seq<int>): int
    requires |s| == 4
  {
    s[0] + 65536 * (s[1] + 65536 * (s[2] + 65536 * s[3]))
  }

  lemma QuarterValue(s: seq<int>)
    requires |s| == 4
    ensures Val(s, B16) == Quarter(s)
  {
    ValFour(s, B16);
  }

  const W: int := 0x1_0000_0000_0000_0000

  /** A constant of the file, from its sixteen limbs. */
  method Constant(a: seq<i64>, b: seq<i64>, c: seq<i64>, d: seq<i64>) returns (r: array<i64>)
    requires |a| == |b| == |c| == |d| == 4
    requires Digits(a, B16) && Digits(b, B16) && Digits(c, B16) && Digits(d, B16)
    ensures fresh(r) && Within(r[..], 65535)
    ensures V(r) == Quarter(a) + W * (Quarter(b) + W * (Quarter(c) + W * Quarter(d)))
  {
    var s := a + b + c + d;
    r := new i64[16](i requires 0 <= i < 16 => s[i]);
    assert r[..] == s;
    assert Pow(B16, 4) == W;
    ValAppend(a + b + c, d, B16);
    ValAppend(a + b, c, B16);
    ValAppend(a, b, B16);
    PowAdd(B16, 4, 4);
    PowAdd(B16, 8, 4);
    QuarterValue(a);
    QuarterValue(b);
    QuarterValue(c);
    QuarterValue(d);
    Nested(Quarter(a), Quarter(b), Quarter(c), Quarter(d));
  }

  lemma Nested(a: int, b: int, c: int, d: int)
    ensures a + W * b + (W * W) * c + (W * W * W) * d == a + W * (b + W * (c + W * d))
  {
  }

  method ConstantD() returns (r: array<i64>)
    ensures fresh(r) && Within(r[..], 65535) && Fe(r) == D
  {
    r := Constant([0x78a3, 0x1359, 0x4dca, 0x75eb], [0xd8ab, 0x4141, 0x0a4d, 0x0070],
      [0xe898, 0x7779, 0x4079, 0x8cc7], [0xfe73, 0x2b6f, 0x6cee, 0x5203]);
    DIsValue();
  }

  method ConstantD2() returns (r: array<i64>)
    ensures fresh(r) && Within(r[..], 65535) && Fe(r) == 2 * D % P
  {
    r := Constant([0xf159, 0x26b2, 0x9b94, 0xebd6], [0xb156, 0x8283, 0x149a, 0x00e0],
      [0xd130, 0xeef3, 0x80f2, 0x198e], [0xfce7, 0x56df, 0xd9dc, 0x2406]);
    DIsValue();
  }

  method ConstantX() returns (r: array<i64>)
    ensures fresh(r) && Within(r[..], 65535) && Fe(r) == BASE_X
  {
    r := Constant([0xd51a, 0x8f25, 0x2d60, 0xc956], [0xa7b2, 0x9525, 0xc760, 0x692c],
      [0xdc5c, 0xfdd6, 0xe231, 0xc0a4], [0x53fe, 0xcd6e, 0x36d3, 0x2169]);
  }

  method ConstantY() returns (r: array<i64>)
    ensures fresh(r) && Within(r[..], 65535) && Fe(r) == BASE_Y
  {
    r := Constant([0x6658, 0x6666, 0x6666, 0x6666], [0x6666, 0x6666, 0x6666, 0x6666],
      [0x6666, 0x6666, 0x6666, 0x6666], [0x6666, 0x6666, 0x6666, 0x6666]);
  }

  method ConstantI() returns (r: array<i64>)
    ensures fresh(r) && Within(r[..], 65535) && Fe(r) == I
  {
    r := Constant([0xa0b0, 0x4a0e, 0x1b27, 0xc4ee], [0xe478, 0xad2f, 0x1806, 0x2f43],
      [0xd7a7, 0x3dfb, 0x0099, 0x2b4d], [0xdf0b, 0x4fc1, 0x2480, 0x2b83]);
  }

  // ---------------------------------------------------------------- add

  /** a = (y1 - x1)(y2 - x2) and b = (x1 + y1)(x2 + y2). */
  method FirstProducts(p: Gf4, q: Gf4) returns (a: array<i64>, b: array<i64>)
    requires Proper(p) && Proper(q) && Normal(p) && Normal(q)
    ensures fresh(a) && fresh(b) && a != b && Within(a[..], 65574) && Within(b[..], 65574)
    ensures Fe(a) == FMul(FSub(Fe(p.y), Fe(p.x)), FSub(Fe(q.y), Fe(q.x)))
    ensures Fe(b) == FMul(FAdd(Fe(p.x), Fe(p.y)), FAdd(Fe(q.x), Fe(q.y)))
  {
    a, b := new i64[16], new i64[16];
    var t := new i64[16];
    Z(a, p.y, p.x, 65574, 65574);
    Z(t, q.y, q.x, 65574, 65574);
    M(a, a, t);
    A(b, p.x, p.y, 65574, 65574);
    A(t, q.x, q.y, 65574, 65574);
    M(b, b, t);
  }

  /** c = 2 d t1 t2 and d = 2 z1 z2. */
  method SecondProducts(p: Gf4, q: Gf4) returns (c: array<i64>, d: array<i64>)
    requires Proper(p) && Proper(q) && Normal(p) && Normal(q)
    ensures fresh(c) && fresh(d) && c != d && Within(c[..], 65574) && Within(d[..], 131148)
    ensures Fe(c) == FMul(FMul(Fe(p.t), Fe(q.t)), 2 * D % P)
    ensures Fe(d) == FAdd(FMul(Fe(p.z), Fe(q.z)), FMul(Fe(p.z), Fe(q.z)))
  {
    c, d := new i64[16], new i64[16];
    var d2 := ConstantD2();
    M(c, p.t, q.t);
    M(c, c, d2);
    M(d, p.z, q.z);
    A(d, d, d, 65574, 65574);
  }

  /** e, f, g, h of the formulas. */
  method Factors(p: Gf4, q: Gf4) returns (e: array<i64>, f: array<i64>, g: array<i64>, h: array<i64>)
    requires Proper(p) && Proper(q) && Normal(p) && Normal(q)
    ensures fresh(e) && fresh(f) && fresh(g) && fresh(h) && Small(e[..]) && Small(f[..]) && Small(g[..]) && Small(h[..])
    ensures AreFactors(View(p), View(q), Fe(e), Fe(f), Fe(g), Fe(h))
  {
    var a, b := FirstProducts(p, q);
    var c, d := SecondProducts(p, q);
    e, f, g, h := new i64[16], new i64[16], new i64[16], new i64[16];
    Z(e, b, a, 65574, 65574);
    Z(f, d, c, 131148, 65574);
    A(g, d, c, 131148, 65574);
    A(h, b, a, 65574, 65574);
  }

  /** The field operations of add before its last four products. */
  ghost predicate AreFactors(p: Ext, q: Ext, e: int, f: int, g: int, h: int) {
    var a, b := FMul(FSub(p.y, p.x), FSub(q.y, q.x)), FMul(FAdd(p.x, p.y), FAdd(q.x, q.y));
    var c, d := FMul(FMul(p.t, q.t), 2 * D % P), FAdd(FMul(p.z, q.z), FMul(p.z, q.z));
    e == FSub(b, a) && f == FSub(d, c) && g == FAdd(d, c) && h == FAdd(b, a)
  }

  lemma FieldSum(p: Ext, q: Ext, e: int, f: int, g: int, h: int)
    requires AreFactors(p, q, e, f, g, h)
    ensures RfcSum(p, q) == Ext(FMul(e, f), FMul(h, g), FMul(g, f), FMul(e, h))
  {
    DifferenceProduct(p.y, p.x, q.y, q.x);
    SumProduct(p.x, p.y, q.x, q.y);
    ScaledProductOf(p.t, q.t, D);
    DoubledProduct(p.z, q.z);
    LastProducts((p.y - p.x) * (q.y - q.x), (p.y + p.x) * (q.y + q.x), p.t * 2 * D * q.t, p.z * 2 * q.z, e, f, g, h);
  }

  /** add: p += q; q may be p itself. */
  method AddPoints(p: Gf4, q: Gf4)
    requires Proper(p) && Proper(q) && Normal(p) && Normal(q) && (p == q || Limbs(p) !! Limbs(q))
    modifies Limbs(p)
    ensures Normal(p) && View(p) == RfcSum(old(View(p)), old(View(q)))
  {
    var e, f, g, h := Factors(p, q);
    FieldSum(View(p), View(q), Fe(e), Fe(f), Fe(g), Fe(h));
    M(p.x, e, f);
    M(p.y, h, g);
    M(p.z, g, f);
    M(p.t, e, h);
  }

  lemma DifferenceProduct(a: int, b: int, c: int, d: int)
    ensures FMul(FSub(a, b), FSub(c, d)) == (a - b) * (c - d) % P
  {
    FMulOfValues(a - b, c - d);
  }

  lemma SumProduct(a: int, b: int, c: int, d: int)
    ensures FMul(FAdd(a, b), FAdd(c, d)) == (b + a) * (d + c) % P
  {
    FMulOfValues(a + b, c + d);
  }

  lemma ScaledProductOf(t: int, u: int, d: int)
    ensures FMul(FMul(t, u), 2 * d % P) == t * 2 * d * u % P
  {
    FMulOfValues(t * u, 2 * d);
    Shuffled(t, u, d);
  }

  lemma DoubledProduct(z: int, w: int)
    ensures FAdd(FMul(z, w), FMul(z, w)) == z * 2 * w % P
  {
    ModAdd(z * w, z * w, P);
    Twice(z, w);
  }

  /** The last four products, on residues of the first four. */
  lemma LastProducts(a: int, b: int, c: int, d: int, e: int, f: int, g: int, h: int)
    requires e == FSub(b % P, a % P) && f == FSub(d % P, c % P) && g == FAdd(d % P, c % P) && h == FAdd(b % P, a % P)
    ensures FromProducts(a, b, c, d) == Ext(FMul(e, f), FMul(h, g), FMul(g, f), FMul(e, h))
  {
    FieldFactors(a, b);
    FieldFactors(c, d);
    ProductOf(b - a, d - c, e, f);
    ProductOf(d + c, b + a, g, h);
    ProductOf(d - c, d + c, f, g);
    ProductOf(b - a, b + a, e, h);
    Swap(h, g);
    Swap(g, f);
  }

  lemma ProductOf(x: int, y: int, e: int, f: int)
    requires e == x % P && f == y % P
    ensures FMul(e, f) == x * y % P
  {
    FMulOfValues(x, y);
  }

  lemma Swap(x: int, y: int)
    ensures x * y == y * x
  {
  }

  lemma FieldFactors(a: int, b: int)
    ensures FSub(b % P, a % P) == (b - a) % P && FAdd(b % P, a % P) == (b + a) % P
  {
    ModSub(b, a, P);
    ModAdd(b, a, P);
  }

  lemma Shuffled(t: int, u: int, d: int)
    ensures t * u * (2 * d) == t * 2 * d * u
  {
  }

  lemma Twice(z: int, w: int)
    ensures z * w + z * w == z * 2 * w
  {
  }

  // ---------------------------------------------------------------- scalarmult

  /** p and q after the iterations for the bits 255 .. i of k. */
  ghost function Ladder(k: int, q: Ext, i: nat): (Ext, Ext)
    requires i <= 256
  {
    Group.Ladder(RfcSum, Ext(0, 1, 1, 0), k, q, i)
  }

  /** cswap */
  method Cswap(p: Gf4, q: Gf4, b: int)
    requires Proper(p) && Proper(q) && Normal(p) && Normal(q) && Limbs(p) !! Limbs(q) && 0 <= b <= 1
    modifies Limbs(p), Limbs(q)
    ensures Normal(p) && Normal(q)
    ensures View(p) == if b == 1 then old(View(q)) else old(View(p))
    ensures View(q) == if b == 1 then old(View(p)) else old(View(q))
  {
    Sel25519(p.x, q.x, b);
    Sel25519(p.y, q.y, b);
    Sel25519(p.z, q.z, b);
    Sel25519(p.t, q.t, b);
  }

  /** sum is the addition of RFC 8032, folded. */
  ghost predicate IsSum(sum: (Ext, Ext) -> Ext) {
    forall p, q {:trigger RfcSum(p, q)} :: sum(p, q) == RfcSum(p, q)
  }

  method LadderIteration(p: Gf4, q: Gf4, b: int, ghost sum: (Ext, Ext) -> Ext)
    requires Proper(p) && Proper(q) && Normal(p) && Normal(q) && Limbs(p) !! Limbs(q) && 0 <= b <= 1 && IsSum(sum)
    modifies Limbs(p), Limbs(q)
    ensures Normal(p) && Normal(q)
    ensures (View(p), View(q)) == Group.LadderStep(sum, b, old(View(p)), old(View(q)))
  {
    Cswap(p, q, b);
    AddTo(q, p, sum);
    AddTo(p, p, sum);
    Cswap(p, q, b);
  }

  method AddTo(p: Gf4, q: Gf4, ghost sum: (Ext, Ext) -> Ext)
    requires Proper(p) && Proper(q) && Normal(p) && Normal(q) && (p == q || Limbs(p) !! Limbs(q)) && IsSum(sum)
    modifies Limbs(p)
    ensures Normal(p) && View(p) == sum(old(View(p)), old(View(q)))
  {
    AddPoints(p, q);
  }

  /** p = (0, 1, 1, 0) */
  method SetNeutral(p: Gf4)
    requires Proper(p)
    modifies Limbs(p)
    ensures Normal(p) && View(p) == Ext(0, 1, 1, 0)
  {
    var zero := SmallConstant(0);
    var one := SmallConstant(1);
    Set25519(p.x, zero);
    assert p.x[..] == zero[..];
    Set25519(p.y, one);
    assert p.y[..] == one[..];
    Set25519(p.z, one);
    assert p.z[..] == one[..];
    Set25519(p.t, zero);
    assert p.t[..] == zero[..];
  }

  /** (s[i/8] >> (i&7)) & 1 */
  function ScalarBit(s: seq<byte>, i: nat): (b: int)
    requires |s| == 32 && i < 256
    ensures 0 <= b <= 1 && b == Bit(LE(s), i)
  {
    BitOfBytes(s, i);
    ShiftRightIsDiv(s[i / 8], i % 8);
    ShiftRight(s[i / 8], i % 8) % 2
  }

  /** The 256 iterations, from bit 255 down to bit 0. */
  method ScalarmultWith(p: Gf4, q: Gf4, s: seq<byte>, ghost sum: (Ext, Ext) -> Ext)
    requires Proper(p) && Proper(q) && Normal(q) && Limbs(p) !! Limbs(q) && |s| == 32 && IsSum(sum)
    modifies Limbs(p), Limbs(q)
    ensures Normal(p) && Normal(q) && View(p) == Group.Ladder(sum, Ext(0, 1, 1, 0), LE(s), old(View(q)), 0).0
  {
    ghost var q0, k := View(q), LE(s);
    SetNeutral(p);
    var i := 255;
    while i >= 0
      invariant -1 <= i <= 255
      invariant Normal(p) && Normal(q)
      invariant (View(p), View(q)) == Group.Ladder(sum, Ext(0, 1, 1, 0), k, q0, i + 1)
      decreases i
    {
      LadderIteration(p, q, ScalarBit(s, i), sum);
      i := i - 1;
    }
  }

  /** scalarmult */
  method Scalarmult(p: Gf4, q: Gf4, s: seq<byte>)
    requires Proper(p) && Proper(q) && Normal(q) && Limbs(p) !! Limbs(q) && |s| == 32
    modifies Limbs(p), Limbs(q)
    ensures Normal(p) && Normal(q) && View(p) == Ladder(LE(s), old(View(q)), 0).0
  {
    ScalarmultWith(p, q, s, RfcSum);
  }

  lemma SumComputes()
    requires Curve()
    ensures Group.Computes(Points(), RfcSum, Represents)
  {
    forall e, f, a, b
      ensures Group.SumAt(Points(), RfcSum, Represents, e, f, a, b)
    {
      if OnCurve(a) && OnCurve(b) && Represents(e, a) && Represents(f, b) {
        SumRepresents(e, f, a, b);
      }
    }
  }

  /** scalarmult computes [s]a. */
  lemma ScalarMultiple(s: seq<byte>, q: Ext, a: Point)
    requires Curve() && OnCurve(a) && Represents(q, a) && |s| == 32
    ensures LE(s) >= 0 && Represents(Ladder(LE(s), q, 0).0, Group.Times(Points(), LE(s), a))
  {
    ValBound(s, 256);
    assert Pow(2, 8) == 256;
    PowMul(2, 8, 32);
    assert Pow(2, 0) == 1;
    PointsFormGroup();
    SumComputes();
    SmallNumbers();
    Group.LadderMultiples(Points(), RfcSum, Represents, Ext(0, 1, 1, 0), LE(s), q, a, 0);
  }

  // ---------------------------------------------------------------- scalarbase

  const BASE_EXT: Ext := Ext(BASE_X, BASE_Y, 1, FMul(BASE_X, BASE_Y))

  lemma BaseRepresents()
    ensures Represents(BASE_EXT, BASE)
  {
    EqRes(BASE_X * BASE_Y);
    SmallNumbers();
  }

  /** p = (x, y, 1, x y) for given x and y. */
  method NewPoint() returns (p: Gf4)
    ensures Proper(p) && fresh(Limbs(p))
  {
    var x, y, z, t := new i64[16], new i64[16], new i64[16], new i64[16];
    p := Gf4(x, y, z, t);
  }

  method BasePoint() returns (q: Gf4)
    ensures Proper(q) && fresh(Limbs(q)) && Normal(q) && View(q) == BASE_EXT
  {
    q := NewPoint();
    var x := ConstantX();
    var y := ConstantY();
    var one := SmallConstant(1);
    Set25519(q.x, x);
    assert q.x[..] == x[..];
    Set25519(q.y, y);
    assert q.y[..] == y[..];
    Set25519(q.z, one);
    assert q.z[..] == one[..];
    M(q.t, x, y);
  }

  /** scalarbase */
  method Scalarbase(p: Gf4, s: seq<byte>)
    requires Proper(p) && |s| == 32
    modifies Limbs(p)
    ensures Normal(p) && View(p) == Ladder(LE(s), BASE_EXT, 0).0
  {
    var q := BasePoint();
    Scalarmult(p, q, s);
  }

  // ---------------------------------------------------------------- encoding, RFC 8032 section 5.1.2

  /** y in 255 bits, and the lowest bit of x on top. */
  function Encoded(x: int, y: int): (s: seq<byte>)
    ensures |s| == 32
  {
    Bytes(y + R255 * (x % 2), 32)
  }

  function Encode(a: Point): (s: seq<byte>)
    ensures |s| == 32
  {
    Encoded(a.x, a.y)
  }

  /** What pack writes for extended coordinates. */
  function Packed(e: Ext): (s: seq<byte>)
    ensures |s| == 32
  {
    Encoded(FMul(e.x, FPow(e.z, P - 2)), FMul(e.y, FPow(e.z, P - 2)))
  }

  /** tx = x / z and ty = y / z. */
  method AffineLimbs(p: Gf4) returns (tx: array<i64>, ty: array<i64>)
    requires Proper(p) && Normal(p)
    ensures fresh(tx) && fresh(ty) && Reduced(tx[..]) && Reduced(ty[..])
    ensures Fe(tx) == FMul(Fe(p.x), FPow(Fe(p.z), P - 2)) && Fe(ty) == FMul(Fe(p.y), FPow(Fe(p.z), P - 2))
  {
    tx, ty := new i64[16], new i64[16];
    var zi := new i64[16];
    Inv25519(zi, p.z);
    M(tx, p.x, zi);
    M(ty, p.y, zi);
  }

  /** pack */
  method Pack(r: array<byte>, p: Gf4)
    requires r.Length >= 32 && Proper(p) && Normal(p)
    modifies r
    ensures r[..32] == Packed(View(p)) && r[32..] == old(r[32..])
  {
    var tx, ty := AffineLimbs(p);
    Pack25519(r, ty);
    var sign := Par25519(tx);
    SetSign(r, sign, Fe(ty));
  }

  /** r[31] ^= sign << 7 */
  method SetSign(r: array<byte>, sign: int, ghost y: int)
    requires r.Length >= 32 && 0 <= y < P && r[..32] == Bytes(y, 32) && 0 <= sign <= 1
    modifies r
    ensures r[..32] == Bytes(y + R255 * sign, 32) && r[32..] == old(r[32..])
  {
    ghost var s: seq<byte>, rest := r[..32], r[32..];
    Pow256();
    BytesValue(y, 32);
    TopByteBound(s);
    XorTop(s[31], sign);
    FlipTop(s, y, sign);
    assert r[31] == s[31];
    r[31] := Xor(r[31], sign * 128);
    assert r[..32] == s[31 := s[31] + 128 * sign];
    assert r[32..] == rest;
  }

  /** The top bit of the encoding of y is free. */
  lemma FlipTop(s: seq<byte>, y: int, sign: int)
    requires 0 <= y < P && |s| == 32 && LE(s) == y && 0 <= sign <= 1 && s[31] < 128
    ensures s[31 := s[31] + 128 * sign] == Bytes(y + R255 * sign, 32)
  {
    var t: seq<byte> := s[31 := s[31] + 128 * sign];
    ValUpdate(s, 31, s[31] + 128 * sign, 256);
    Pow31();
    Pow256();
    BytesUnique(t, y + R255 * sign);
  }

  lemma Pow31()
    ensures 128 * Pow(256, 31) == R255
  {
    Pow256();
    PowAdd(256, 31, 1);
    assert Pow(256, 1) == 256;
  }

  lemma TopByteBound(s: seq<byte>)
    requires |s| == 32 && LE(s) < R255
    ensures s[31] < 128
  {
    ValSplit(s, 31, 256);
    ValBound(s[..31], 256);
    assert s[31..] == [s[31]];
    assert Val([s[31]], 256) == s[31];
    Pow31();
    AboveHalf(s[31], Pow(256, 31));
  }

  lemma AboveHalf(b: byte, p: int)
    requires p > 0
    ensures p * b < 128 * p ==> b < 128
  {
    if b >= 128 {
      MulLe(128, b, p);
    }
  }

  lemma XorTop(b: byte, sign: int)
    requires b < 128 && 0 <= sign <= 1
    ensures Xor(b, sign * 128) == b + 128 * sign
  {
    SmallPowers();
    XorDisjoint(sign, b, 7);
    XorCommutes(b, sign * 128);
  }

  /** Packing coordinates of a point gives the encoding of the point. */
  lemma PackedPoint(e: Ext, a: Point)
    requires IsPrime(P) && OnCurve(a) && Represents(e, a)
    ensures Packed(e) == Encode(a)
  {
    SameQuotient(e.x, e.z, a.x);
    SameQuotient(e.y, e.z, a.y);
  }

  lemma SameQuotient(u: int, z: int, x: int)
    requires IsPrime(P) && !Eq(z, 0) && InField(x) && Eq(u, x * z)
    ensures FMul(u, FPow(z, P - 2)) == x
  {
    var r := FMul(u, FPow(z, P - 2));
    PowerQuotient(u, z);
    assert x * z == z * x;
    EqCancel(z, r, x);
    EqSame(r, x);
  }

  // ---------------------------------------------------------------- unpackneg: the code

  /** The candidate for a square root of u / v: u v^3 (u v^7)^((p-5)/8). */
  function Candidate(u: int, v: int): int {
    var v2 := FMul(v, v);
    var v4 := FMul(v2, v2);
    var w := FPow(FMul(FMul(FMul(v4, v2), u), v), (P - 5) / 8);
    FMul(FMul(FMul(FMul(w, u), v), v), v)
  }

  /** Whether x is a square root of u / v. */
  predicate IsRoot(x: int, u: int, v: int) {
    FMul(FMul(x, x), v) == u
  }

  /** The candidate, times a square root of -1 when it is not a root itself. */
  function Root(u: int, v: int): int {
    if IsRoot(Candidate(u, v), u, v) then Candidate(u, v) else FMul(Candidate(u, v), I)
  }

  /** The y coordinate in a packed point: the top bit is not part of it, and it is taken modulo p. */
  function UnpackedY(p: seq<byte>): (y: int)
    requires |p| == 32
    ensures 0 <= y < P
  {
    LE(p) % R255 % P
  }

  function Numerator(y: int): int {
    FSub(FMul(y, y), 1)
  }

  ghost function Denominator(y: int): int {
    FAdd(1, FMul(FMul(y, y), D))
  }

  /** The point that unpackneg returns. */
  ghost function Unpacked(p: seq<byte>): (a: Option<Point>)
    requires |p| == 32
  {
    var y := UnpackedY(p);
    var u, v := Numerator(y), Denominator(y);
    var x := Root(u, v);
    if IsRoot(x, u, v) then Some(Point(if x % 2 == p[31] / 128 then FSub(0, x) else x, y)) else None
  }

  /** t = den^7 num, to the power (p-5)/8. */
  method RootPower(num: array<i64>, den: array<i64>) returns (t: array<i64>)
    requires Within(num[..], 131148) && Within(den[..], 131148)
    ensures fresh(t) && Reduced(t[..])
    ensures var u, v := Fe(num), Fe(den); var v2 := FMul(v, v);
      Fe(t) == FPow(FMul(FMul(FMul(FMul(v2, v2), v2), u), v), (P - 5) / 8)
  {
    t := new i64[16];
    var den2, den4, den6 := new i64[16], new i64[16], new i64[16];
    S(den2, den);
    S(den4, den2);
    M(den6, den4, den2);
    M(t, den6, num);
    M(t, t, den);
    Pow2523(t, t);
  }

  method CandidateCode(num: array<i64>, den: array<i64>) returns (x: array<i64>)
    requires Within(num[..], 131148) && Within(den[..], 131148)
    ensures fresh(x) && Reduced(x[..]) && Fe(x) == Candidate(Fe(num), Fe(den))
  {
    var t := RootPower(num, den);
    x := new i64[16];
    M(t, t, num);
    M(t, t, den);
    M(t, t, den);
    M(x, t, den);
  }

  /** chk = x^2 den, compared with num. */
  method Check(x: array<i64>, num: array<i64>, den: array<i64>) returns (ok: bool)
    requires Reduced(x[..]) && Within(num[..], 131148) && Within(den[..], 131148)
    ensures ok == IsRoot(Fe(x), Fe(num), Fe(den))
  {
    var chk := new i64[16];
    S(chk, x);
    M(chk, chk, den);
    var r := Neq25519(chk, num);
    ok := r == 0;
  }

  method RootCode(num: array<i64>, den: array<i64>) returns (x: array<i64>, ok: bool)
    requires Within(num[..], 131148) && Within(den[..], 131148)
    ensures fresh(x) && Reduced(x[..]) && Fe(x) == Root(Fe(num), Fe(den)) && ok == IsRoot(Fe(x), Fe(num), Fe(den))
  {
    x := CandidateCode(num, den);
    var good := Check(x, num, den);
    if !good {
      var i := ConstantI();
      M(x, x, i);
    }
    ok := Check(x, num, den);
  }

  /** num = y^2 - 1 and den = 1 + d y^2. */
  method Ratio(y: array<i64>) returns (num: array<i64>, den: array<i64>)
    requires Within(y[..], 65535)
    ensures fresh(num) && fresh(den) && Within(num[..], 131148) && Within(den[..], 131148)
    ensures Fe(num) == Numerator(Fe(y)) && Fe(den) == Denominator(Fe(y))
  {
    num, den := new i64[16], new i64[16];
    var d := ConstantD();
    var one := SmallConstant(1);
    S(num, y);
    M(den, num, d);
    Z(num, num, one, 65574, 1);
    A(den, one, den, 1, 65574);
  }

  /** unpackneg: 0 and the point, or -1. */
  method UnpackNeg(r: Gf4, p: seq<byte>) returns (ok: int)
    requires Proper(r) && |p| == 32
    modifies Limbs(r)
    ensures ok == if Unpacked(p).Some? then 0 else -1
    ensures ok == 0 ==> var a := Unpacked(p).value; Normal(r) && View(r) == Ext(a.x, a.y, 1, FMul(a.x, a.y))
  {
    var one := SmallConstant(1);
    Set25519(r.z, one);
    assert r.z[..] == one[..];
    Unpack25519(r.y, p);
    ghost var y := UnpackedY(p);
    assert Fe(r.y) == y;
    var num, den := Ratio(r.y);
    var x, good := RootCode(num, den);
    if !good {
      return -1;
    }
    SignedX(r.x, x, p[31]);
    M(r.t, r.x, r.y);
    ok := 0;
  }

  /** r[0] = x, or -x when the parity of x is the sign bit. */
  method SignedX(r: array<i64>, x: array<i64>, top: byte)
    requires r != x && r.Length == 16 && Reduced(x[..])
    modifies r
    ensures Within(r[..], 65574) && Fe(r) == if Fe(x) % 2 == top / 128 then FSub(0, Fe(x)) else Fe(x)
  {
    var par := Par25519(x);
    Set25519(r, x);
    assert r[..] == x[..];
    if par == top / 128 {
      var zero := SmallConstant(0);
      Z(r, zero, r, 0, 65574);
    }
  }

  // ---------------------------------------------------------------- unpackneg: which points it finds

  /** Candidate(u, v) = u v^3 w with w = (u v^7)^((p-5)/8). */
  lemma CandidateValue(u: int, v: int)
    ensures var v2 := v * v; var b := v2 * v2 * v2 * u * v;
      Eq(Candidate(u, v), Pow(b, (P - 5) / 8) * u * v * v * v)
  {
    var v2 := v * v;
    var b := v2 * v2 * v2 * u * v;
    MulEq(v, v, v, v);
    var f2 := FMul(v, v);
    MulEq(f2, f2, v2, v2);
    MulEq(FMul(f2, f2), f2, v2 * v2, v2);
    MulEq(FMul(FMul(f2, f2), f2), u, v2 * v2 * v2, u);
    var f := FMul(FMul(FMul(f2, f2), f2), u);
    MulEq(f, v, v2 * v2 * v2 * u, v);
    PowersEqual(FMul(f, v), b, (P - 5) / 8);
    var w, c := FPow(FMul(f, v), (P - 5) / 8), Pow(b, (P - 5) / 8);
    MulEq(w, u, c, u);
    MulEq(FMul(w, u), v, c * u, v);
    MulEq(FMul(FMul(w, u), v), v, c * u * v, v);
    MulEq(FMul(FMul(FMul(w, u), v), v), v, c * u * v * v, v);
  }

  lemma PowersEqual(x: int, y: int, n: nat)
    requires Eq(x, y)
    ensures Eq(FPow(x, n), Pow(y, n))
  {
    PowersOf(x, y, n);
    EqRes(Pow(x, n));
  }

  /** x0^2 v = u (u v^7)^((p-1)/4) for the candidate x0. */
  lemma CandidateSquare(u: int, v: int, x: int)
    requires x == Candidate(u, v)
    ensures var v2 := v * v; var b := v2 * v2 * v2 * u * v;
      Eq(x * x * v, u * Pow(b, (P - 1) / 4))
  {
    var v2 := v * v;
    var b := v2 * v2 * v2 * u * v;
    var c := Pow(b, (P - 5) / 8);
    var x1 := c * u * v * v * v;
    CandidateValue(u, v);
    EqMul(x, x1, x, x1);
    EqMul(x * x, x1 * x1, v, v);
    SquareTerms(c, u, v);
    QuarterPower(b, (P - 5) / 8, (P - 1) / 4);
  }

  lemma SquareTerms(c: int, u: int, v: int)
    ensures var v2 := v * v; var x := c * u * v * v * v; x * x * v == u * (c * c * (v2 * v2 * v2 * u * v))
  {
    var v2 := v * v;
    var a := c * u;
    assert a * v * v * v == a * v * v2;
    SquareOfProduct(a * v, v2);
    SquareOfProduct(a, v);
    SquareOfProduct(c, u);
    SquareShuffle(c * c, u, v, v2);
  }

  lemma SquareShuffle(c: int, u: int, v: int, w: int)
    ensures (c * (u * u)) * w * (w * w) * v == u * (c * (w * w * w * u * v))
  {
    var n := w * w * w;
    assert (c * (u * u)) * w * (w * w) == c * (u * u) * n by {
      MulAssoc(c * (u * u), w, w * w);
      assert w * (w * w) == n;
    }
    Shuffle(c, u, n, v);
  }

  lemma Shuffle(c: int, u: int, n: int, v: int)
    ensures c * (u * u) * n * v == u * (c * (n * u * v))
  {
  }

  lemma QuarterPower(b: int, m: nat, n: nat)
    requires n == 2 * m + 1
    ensures Pow(b, m) * Pow(b, m) * b == Pow(b, n)
  {
    PowAdd(b, m, m);
    assert Pow(b, 2 * m + 1) == b * Pow(b, 2 * m);
  }

  lemma IsRootEq(x: int, u: int, v: int)
    requires 0 <= u < P
    ensures IsRoot(x, u, v) <==> Eq(x * x * v, u)
  {
    MulEq(x, x, x, x);
    MulEq(FMul(x, x), v, x * x, v);
    var w := FMul(FMul(x, x), v);
    if Eq(x * x * v, u) {
      EqSame(w, u);
    }
  }

  /** A square to the power (p-1)/4 is 1 or -1. */
  lemma SquareToQuarter(b: int, q: int)
    requires IsPrime(P) && !Eq(q, 0) && Eq(b, q * q)
    ensures Eq(Pow(b, (P - 1) / 4), 1) || Eq(Pow(b, (P - 1) / 4), -1)
  {
    var n := (P - 1) / 4;
    var w := Pow(b, n);
    PowersOf(b, q * q, n);
    var r := Pow(q * q, n);
    PowOfProduct(q, q, n);
    PowAdd(q, n, n);
    PowAdd(q, 2 * n, 2 * n);
    EqMul(w, r, w, r);
    assert r == Pow(q, 2 * n);
    assert r * r == Pow(q, 4 * n);
    FermatFor(q, 4 * n);
    OneOrMinusOne(w);
  }

  lemma OneOrMinusOne(w: int)
    requires IsPrime(P) && Eq(w * w, 1)
    ensures Eq(w, 1) || Eq(w, -1)
  {
    assert (w - 1) * (w + 1) == w * w - 1;
    EqAdd(w * w, 1, 1, 1);
    if !Eq(w - 1, 0) {
      if !Eq(w + 1, 0) {
        NonZeroProduct(w - 1, w + 1);
      } else {
        EqAdd(w + 1, 0, 1, 1);
      }
    } else {
      EqAdd(w - 1, 0, -1, -1);
    }
  }

  /** If u / v has a square root, then x0^2 v is u or -u. */
  lemma CandidateSigns(u: int, v: int, s: int)
    requires IsPrime(P) && Eq(s * s * v, u)
    ensures var x := Candidate(u, v); Eq(x * x * v, u) || Eq(x * x * v, -u)
  {
    var x, v2 := Candidate(u, v), v * v;
    var b := v2 * v2 * v2 * u * v;
    var w := Pow(b, (P - 1) / 4);
    CandidateSquare(u, v, x);
    if Eq(u, 0) {
      EqMul(u, 0, w, w);
      assert 0 * w == 0;
    } else {
      var q := s * (v2 * v2);
      RootOfSeventh(u, v, s);
      NonZeroRoot(u, v, s);
      SquareToQuarter(b, q);
      EqMul(u, u, w, if Eq(w, 1) then 1 else -1);
    }
  }

  lemma RootOfSeventh(u: int, v: int, s: int)
    requires Eq(s * s * v, u)
    ensures var v2 := v * v; Eq(v2 * v2 * v2 * u * v, (s * (v2 * v2)) * (s * (v2 * v2)))
  {
    var v2 := v * v;
    var n := v2 * v2 * v2;
    EqMul(n, n, u, s * s * v);
    EqMul(n * u, n * (s * s * v), v, v);
    SeventhTerms(s, v, v2);
  }

  lemma SeventhTerms(s: int, v: int, v2: int)
    requires v2 == v * v
    ensures v2 * v2 * v2 * (s * s * v) * v == (s * (v2 * v2)) * (s * (v2 * v2))
  {
    SquareOfProduct(s, v2 * v2);
    var n := v2 * v2 * v2;
    Shuffle2(n, s * s, v);
    assert n * v2 == (v2 * v2) * (v2 * v2);
  }

  lemma Shuffle2(n: int, a: int, v: int)
    ensures n * (a * v) * v == a * (n * (v * v))
  {
  }

  lemma NonZeroRoot(u: int, v: int, s: int)
    requires IsPrime(P) && Eq(s * s * v, u) && !Eq(u, 0)
    ensures !Eq(s * (v * v * (v * v)), 0)
  {
    if Eq(s, 0) {
      EqMul(s, 0, s, s);
      EqMul(s * s, 0, v, v);
    } else if Eq(v, 0) {
      EqMul(s * s, s * s, v, 0);
    } else {
      NonZeroProduct(v, v);
      NonZeroProduct(v * v, v * v);
      NonZeroProduct(s, v * v * (v * v));
    }
  }

  /** unpackneg finds a root whenever there is one. */
  lemma RootFound(u: int, v: int, s: int)
    requires IsPrime(P) && 0 <= u < P && Eq(s * s * v, u)
    ensures IsRoot(Root(u, v), u, v)
  {
    var x := Candidate(u, v);
    CandidateSigns(u, v, s);
    IsRootEq(x, u, v);
    if !IsRoot(x, u, v) {
      MulEq(x, I, x, I);
      var r := FMul(x, I);
      EqMul(r, x * I, r, x * I);
      EqMul(r * r, x * I * (x * I), v, v);
      SquareOfProduct(x, I);
      RootOfMinusOne();
      EqMul(x * x * v, -u, I * I, -1);
      Shuffle3(x * x, I * I, v);
      IsRootEq(r, u, v);
    }
  }

  lemma Shuffle3(a: int, i: int, v: int)
    ensures a * i * v == a * v * i
  {
  }

  /** The square roots of (y^2 - 1) / (d y^2 + 1) are the x coordinates of the points with this y. */
  /** The roots found in the code are the x coordinates of points. */
  lemma RootsArePoints(x: int, y: int, u: int, v: int)
    requires InField(x) && InField(y) && Eq(u, y * y - 1) && Eq(v, 1 + D * (y * y))
    ensures Eq(x * x * v, u) <==> OnCurve(Point(x, y))
  {
    EqMul(x * x, x * x, v, 1 + D * (y * y));
    CurveTerms(x, y, D);
    var l, r := x * x * (1 + D * (y * y)), y * y - 1;
    if Eq(l, r) {
      EqAdd(l, r, 1 - x * x, 1 - x * x);
    }
    if OnCurve(Point(x, y)) {
      EqAdd(y * y - x * x, 1 + D * (x * y * (x * y)), x * x - 1, x * x - 1);
    }
  }

  lemma CurveTerms(x: int, y: int, d: int)
    ensures x * x * (1 + d * (y * y)) == x * x + d * (x * y * (x * y))
  {
    SquareOfProduct(x, y);
    assert x * x * (d * (y * y)) == d * ((x * x) * (y * y));
  }

  lemma RatioValues(y: int)
    ensures Eq(Numerator(y), y * y - 1) && Eq(Denominator(y), 1 + D * (y * y))
  {
    MulEq(y, y, y, y);
    MulEq(FMul(y, y), D, y * y, D);
    EqRes(FMul(y, y) - 1);
    EqRes(1 + FMul(FMul(y, y), D));
    EqAdd(FMul(y, y), y * y, 1, 1);
    EqAdd(1, 1, FMul(FMul(y, y), D), y * y * D);
    assert y * y * D == D * (y * y);
  }

  // ---------------------------------------------------------------- unpackneg decodes and negates

  /** z = 1 */
  lemma AffineRepresents(a: Point)
    ensures Represents(Ext(a.x, a.y, 1, FMul(a.x, a.y)), a)
  {
    EqRes(a.x * a.y);
    SmallNumbers();
  }

  /** What unpackneg returns is on the curve, has the unpacked y, and its x has the parity opposite to the sign bit
      unless it is zero. */
  lemma UnpackedOnCurve(p: seq<byte>)
    requires |p| == 32 && Unpacked(p).Some?
    ensures var a := Unpacked(p).value;
      OnCurve(a) && a.y == UnpackedY(p) && (a.x % 2 != p[31] / 128 || a.x == 0)
  {
    var y := UnpackedY(p);
    var u, v := Numerator(y), Denominator(y);
    var x := Root(u, v);
    RootInRange(u, v);
    FieldRange(x);
    FieldRange(y);
    IsRootEq(x, u, v);
    RatioValues(y);
    RootsArePoints(x, y, u, v);
    NegOnCurve(Point(x, y));
    ParityFlips(x);
  }

  lemma RootInRange(u: int, v: int)
    ensures 0 <= Root(u, v) < P
  {
  }

  /** p is odd. */
  lemma ParityFlips(x: int)
    requires 0 <= x < P
    ensures FSub(0, x) == if x == 0 then 0 else P - x
    ensures x != 0 ==> FSub(0, x) % 2 != x % 2
  {
    if x > 0 {
      DivModUnique(0 - x, P, -1, P - x);
    }
  }

  /** unpackneg succeeds exactly when the unpacked y belongs to a point of the curve. */
  lemma UnpackedExactly(p: seq<byte>)
    requires IsPrime(P) && |p| == 32
    ensures Unpacked(p).Some? <==> exists x :: OnCurve(Point(x, UnpackedY(p)))
  {
    var y := UnpackedY(p);
    if Unpacked(p).Some? {
      UnpackedOnCurve(p);
      assert OnCurve(Point(Unpacked(p).value.x, y));
    }
    if s :| OnCurve(Point(s, y)) {
      InRange(Point(s, y));
      RatioValues(y);
      RootsArePoints(s, y, Numerator(y), Denominator(y));
      IsRootEq(s, Numerator(y), Denominator(y));
      RootFound(Numerator(y), Denominator(y), s);
    }
  }

  /** Two points with the same y are equal or opposite. */
  lemma SameY(a: Point, b: Point)
    requires IsPrime(P) && OnCurve(a) && OnCurve(b) && a.y == b.y
    ensures b == a || b == Neg(a)
  {
    var u, v := Numerator(a.y), Denominator(a.y);
    SquareOfX(a, u, v);
    SquareOfX(b, u, v);
    DenominatorNonZero(a.y);
    EqCancel(v, a.x * a.x, b.x * b.x);
    EqualSquares(a.x, b.x);
  }

  lemma SquareOfX(a: Point, u: int, v: int)
    requires OnCurve(a) && u == Numerator(a.y) && v == Denominator(a.y)
    ensures Eq(v * (a.x * a.x), u)
  {
    RatioValues(a.y);
    RootsArePoints(a.x, a.y, u, v);
    Swapped(v, a.x);
  }

  lemma Swapped(v: int, x: int)
    ensures x * x * v == v * (x * x)
  {
  }

  lemma EqualSquares(x: int, z: int)
    requires IsPrime(P) && InField(x) && InField(z) && Eq(x * x, z * z)
    ensures z == x || z == FSub(0, x)
  {
    FieldRange(x);
    FieldRange(z);
    FactoredSquares(x, z);
    if !Eq(x - z, 0) && !Eq(x + z, 0) {
      NonZeroProduct(x - z, x + z);
    }
    ZeroDifference(x, z);
    ParityFlips(x);
  }

  lemma FactoredSquares(x: int, z: int)
    requires Eq(x * x, z * z)
    ensures Eq((x - z) * (x + z), 0)
  {
    assert (x - z) * (x + z) == x * x - z * z;
    EqAdd(x * x, z * z, z * z, z * z);
  }

  lemma ZeroDifference(x: int, z: int)
    requires InField(x) && InField(z)
    ensures Eq(x - z, 0) ==> x == z
    ensures Eq(x + z, 0) ==> x + z == P || (x == 0 && z == 0)
  {
    FieldRange(x);
    FieldRange(z);
    EqIs(x - z, 0);
    EqIs(x + z, 0);
  }

  lemma DenominatorNonZero(y: int)
    requires IsPrime(P)
    ensures !Eq(Denominator(y), 0)
  {
    RatioValues(y);
    var n := D * (y * y);
    if Eq(1 + n, 0) {
      EqAdd(1 + n, 0, 1, 1);
      RootOfMinusOne();
      SmallNumbers();
      if Eq(y, 0) {
        EqMul(y, 0, y, y);
        EqMul(D, D, y * y, 0 * y);
      } else {
        RootOfD(y, I);
      }
    }
  }

  lemma EncodingNumber(a: Point)
    requires OnCurve(a)
    ensures LE(Encode(a)) == a.y + R255 * (a.x % 2)
  {
    InRange(a);
    Pow256();
    BytesValue(a.y + R255 * (a.x % 2), 32);
  }

  lemma EncodingParts(p: seq<byte>, y: int, sign: int)
    requires |p| == 32 && LE(p) == y + R255 * sign && 0 <= y < P && 0 <= sign <= 1
    ensures UnpackedY(p) == y && p[31] / 128 == sign
  {
    DivModUnique(LE(p), R255, sign, y);
    DivModUnique(y, P, 0, y);
    TopBit(p);
  }

  /** The sign bit of a packed point. */
  lemma TopBit(p: seq<byte>)
    requires |p| == 32
    ensures p[31] / 128 == LE(p) / R255
  {
    BitOfBytes(p, 255);
    SmallPowers();
    Pow2_255();
    ValBound(p, 256);
    Pow256();
    TopHalf(LE(p), p[31]);
  }

  lemma TopHalf(v: int, b: byte)
    requires 0 <= v < 2 * R255 && b / 128 % 2 == v / R255 % 2
    ensures b / 128 == v / R255
  {
  }

  /** Unpacking the encoding of a point gives its negation. */
  lemma UnpackedEncoding(a: Point)
    requires IsPrime(P) && OnCurve(a)
    ensures Unpacked(Encode(a)) == Some(Neg(a))
  {
    var p := Encode(a);
    InRange(a);
    EncodingNumber(a);
    EncodingParts(p, a.y, a.x % 2);
    UnpackedExactly(p);
    assert OnCurve(Point(a.x, UnpackedY(p)));
    UnpackedOnCurve(p);
    SameY(a, Unpacked(p).value);
    ParityFlips(a.x);
  }

  /** What is unpacked encodes back, after negation, exactly when the bytes were canonical: y below p, and no sign bit
      with x = 0. The decoding of RFC 8032 section 5.1.3 refuses the other ones, unpackneg does not. */
  lemma UnpackedCanonical(p: seq<byte>)
    requires |p| == 32 && Unpacked(p).Some?
    ensures var b := Unpacked(p).value;
      Encode(Neg(b)) == p <==> LE(p) % R255 < P && (b.x == 0 ==> p[31] / 128 == 0)
  {
    var b := Unpacked(p).value;
    UnpackedOnCurve(p);
    if Encode(Neg(b)) == p {
      EncodingCanonical(p, b);
    }
    if LE(p) % R255 < P && (b.x == 0 ==> p[31] / 128 == 0) {
      CanonicalEncodes(p, b);
    }
  }

  lemma EncodingCanonical(p: seq<byte>, b: Point)
    requires OnCurve(b) && p == Encode(Neg(b))
    ensures LE(p) % R255 < P && (b.x == 0 ==> p[31] / 128 == 0)
  {
    var a := Neg(b);
    NegOnCurve(b);
    InRange(a);
    InRange(b);
    EncodingNumber(a);
    EncodingParts(p, a.y, a.x % 2);
    DivModUnique(LE(p), R255, a.x % 2, a.y);
    ParityFlips(b.x);
  }

  lemma CanonicalEncodes(p: seq<byte>, b: Point)
    requires |p| == 32 && OnCurve(b) && b.y == UnpackedY(p) && (b.x % 2 != p[31] / 128 || b.x == 0)
    requires LE(p) % R255 < P && (b.x == 0 ==> p[31] / 128 == 0)
    ensures Encode(Neg(b)) == p
  {
    var sign := p[31] / 128;
    TopBit(p);
    ByteRange(p);
    InRange(b);
    SplitAt255(LE(p), sign, b.y);
    ParityFlips(b.x);
    EncodesBack(p, Neg(b), sign);
  }

  lemma ByteRange(p: seq<byte>)
    requires |p| == 32
    ensures 0 <= LE(p) < R256
  {
    ValBound(p, 256);
    Pow256();
  }

  lemma EncodesBack(p: seq<byte>, a: Point, sign: int)
    requires |p| == 32 && LE(p) == a.y + R255 * sign && a.x % 2 == sign && 0 <= a.y < P
    ensures Encode(a) == p
  {
    Pow256();
    BytesUnique(p, a.y + R255 * sign);
  }

  lemma SplitAt255(v: int, sign: int, y: int)
    requires 0 <= v < R256 && sign == v / R255 && 0 <= y < P && y == v % R255 % P
    ensures v % R255 < P <==> v == y + R255 * sign
    ensures 0 <= sign <= 1
  {
    if v % R255 < P {
      DivModUnique(v % R255, P, 0, v % R255);
    } else {
      DivModUnique(v % R255, P, 1, v % R255 - P);
    }
  }

  /** The points with x = 0. */
  lemma XIsZero(a: Point)
    requires IsPrime(P) && OnCurve(a)
    ensures a.x == 0 <==> a.y == 1 || a.y == P - 1
  {
    var u, v := Numerator(a.y), Denominator(a.y);
    SquareOfX(a, u, v);
    RatioValues(a.y);
    InRange(a);
    if a.x == 0 {
      assert v * (a.x * a.x) == 0;
      OneIsSquare(a.y, u);
    } else if a.y == 1 || a.y == P - 1 {
      UnitSquare(a.y);
      DenominatorNonZero(a.y);
      NonZeroResidue(a.x);
      NonZeroProduct(a.x, a.x);
      NonZeroProduct(v, a.x * a.x);
      EqAdd(a.y * a.y, 1, 1, 1);
    }
  }

  lemma NonZeroResidue(x: int)
    requires 0 < x < P
    ensures !Eq(x, 0)
  {
    if Eq(x, 0) {
      EqSame(x, 0);
    }
  }

  lemma UnitSquare(y: int)
    requires y == 1 || y == P - 1
    ensures Eq(y * y, 1)
  {
    EqIs(P - 1, -1);
    DivModUnique(-1, P, -1, P - 1);
    DivModUnique(P - 1, P, 0, P - 1);
    if y == P - 1 {
      EqMul(y, -1, y, -1);
    }
  }

  lemma OneIsSquare(y: int, u: int)
    requires IsPrime(P) && 0 <= y < P && Eq(u, 0) && Eq(u, y * y - 1)
    ensures y == 1 || y == P - 1
  {
    EqAdd(y * y - 1, 0, 1, 1);
    OneOrMinusOne(y);
    if Eq(y, 1) {
      EqSame(y, 1);
    } else {
      EqIs(y, -1);
      DivModUnique(-1, P, -1, P - 1);
      DivModUnique(y, P, 0, y);
    }
  }

  // ---------------------------------------------------------------- strings that the RFC refuses

  lemma MulZero(x: int)
    ensures FMul(x, 0) == 0 && FMul(0, x) == 0
  {
    assert x * 0 == 0 && 0 * x == 0;
  }

  lemma ZeroRoot(v: int)
    ensures Root(0, v) == 0 && IsRoot(0, 0, v)
  {
    var v2 := FMul(v, v);
    MulZero(FPow(FMul(FMul(FMul(FMul(v2, v2), v2), 0), v), (P - 5) / 8));
    MulZero(v);
    MulZero(0);
  }

  lemma RatioOfOne(u: int)
    requires u == Numerator(1)
    ensures u == 0
  {
  }

  /** Whatever the sign bit. */
  lemma OneUnpacked(p: seq<byte>)
    requires |p| == 32 && UnpackedY(p) == 1
    ensures Unpacked(p) == Some(Point(0, 1))
  {
    var u, v := Numerator(1), Denominator(1);
    RatioOfOne(u);
    ZeroRoot(v);
  }

  lemma LargeY(p: seq<byte>)
    requires p == Bytes(P + 1, 32)
    ensures LE(p) % R255 == P + 1 && UnpackedY(p) == 1
  {
    Pow256();
    BytesValue(P + 1, 32);
    DivModUnique(P + 1, R255, 0, P + 1);
    DivModUnique(P + 1, P, 1, 1);
  }

  /** y = p + 1 is taken for y = 1. */
  lemma LargeYAccepted(p: seq<byte>)
    requires p == Bytes(P + 1, 32)
    ensures Unpacked(p) == Some(Point(0, 1)) && Encode(Neg(Point(0, 1))) != p
  {
    LargeY(p);
    OneUnpacked(p);
    UnpackedCanonical(p);
  }

  /** The sign bit of x = 0 is ignored. */
  lemma SignedZeroAccepted(p: seq<byte>)
    requires p == Bytes(1 + R255, 32)
    ensures Unpacked(p) == Some(Point(0, 1)) && Encode(Neg(Point(0, 1))) != p
  {
    Pow256();
    BytesValue(1 + R255, 32);
    EncodingParts(p, 1, 1);
    OneUnpacked(p);
    UnpackedCanonical(p);
  }
}
