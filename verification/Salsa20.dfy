/** The Salsa20 core of tweetnacl.c, on 64-bit `unsigned long` words, against its 32-bit definition. */
module Salsa20 {
  import opened Arith
  import opened Radix
  import opened MachineInts
  import opened LittleEndian

  // ---------------------------------------------------------------- the specification, sections 2 to 6

  /** Left rotation of a 32-bit word. */
  function Rotl32(x: int, c: nat): int
    requires c <= 32
  {
    Or(ShiftLeft(x, c) % R32, ShiftRight(x, 32 - c))
  }

  datatype Quad = Quad(y0: int, y1: int, y2: int, y3: int)

  /** t xor ((u + v) <<< c) on 32-bit words. */
  function Mix32(t: int, u: int, v: int, c: nat): int {
    Xor(t, Rotl32((u + v) % R32, if c <= 32 then c else 0))
  }

  /** quarterround, section 3, for a way of mixing words. */
  function Quarter(mix: (int, int, int, nat) -> int, y: Quad): Quad {
    var z1 := mix(y.y1, y.y0, y.y3, 7);
    var z2 := mix(y.y2, z1, y.y0, 9);
    var z3 := mix(y.y3, z2, z1, 13);
    var z0 := mix(y.y0, z3, z2, 18);
    Quad(z0, z1, z2, z3)
  }

  // ---------------------------------------------------------------- words with garbage in the upper half

  /** L32: the shift to the left is not truncated to 32 bits, the one to the right is masked. */
  function L32(x: int, c: nat): int
    requires c <= 32
  {
    Or(ShiftLeft(x, c) % R64, ShiftRight(And(x, 0xffff_ffff), 32 - c))
  }

  lemma Pow2_32()
    ensures Pow(2, 32) == R32
  {
    Pow2Words();
    PowAdd(2, 16, 16);
    PowAdd(2, 8, 8);
  }

  lemma Mask32(x: int)
    ensures And(x, 0xffff_ffff) == x % R32
  {
    Pow2_32();
    AndLow(x, 32);
  }

  lemma RotateLow(x: int, c: nat)
    requires c <= 32
    ensures L32(x, c) % R32 == Rotl32(x % R32, c)
  {
    var l, r := ShiftLeft(x, c) % R64, ShiftRight(x % R32, 32 - c);
    Mask32(x);
    Pow2_32();
    OrLow(l, r, 32);
    ShiftLeftIsMul(x, c);
    ShiftLeftIsMul(x % R32, c);
    LowOfShift(x, Pow(2, c));
    ShiftRightSmall(x % R32, 32 - c);
  }

  lemma LowOfShift(x: int, p: int)
    ensures x * p % R64 % R32 == x % R32 * p % R32
  {
    LowLow(x * p);
    ProductResidue(x, p, R32, x / R32, x % R32, 0, p);
  }

  lemma LowLow(y: int)
    ensures y % R64 % R32 == y % R32
  {
  }

  lemma {:induction false} ShiftRightSmall(x: int, k: nat)
    requires 0 <= x < R32
    ensures 0 <= ShiftRight(x, k) < R32 && ShiftRight(x, k) % R32 == ShiftRight(x, k)
    decreases k
  {
    if k > 0 {
      ShiftRightSmall(x / 2, k - 1);
    }
  }

  /** t ^= L32(u + v, c) on 64-bit words. */
  function Mix64(t: u64, u: u64, v: u64, c: nat): (w: u64)
    ensures w % R32 == Mix32(t % R32, u % R32, v % R32, c)
  {
    var s := (u + v) % R64;
    var n := if c <= 32 then c else 0;
    MixFits(t, s, n);
    MixLow(t, u, v, n);
    Xor(t, L32(s, n))
  }

  lemma MixFits(t: u64, s: u64, c: nat)
    requires c <= 32
    ensures 0 <= Xor(t, L32(s, c)) < R64
  {
    Pow2Words();
    Mask32(s);
    ShiftRightSmall(s % R32, 32 - c);
    OrBits(ShiftLeft(s, c) % R64, ShiftRight(s % R32, 32 - c), 64);
    XorFits(t, L32(s, c), 64);
  }

  lemma MixLow(t: int, u: int, v: int, c: nat)
    requires c <= 32
    ensures Xor(t, L32((u + v) % R64, c)) % R32 == Xor(t % R32, Rotl32((u % R32 + v % R32) % R32, c))
  {
    var s := (u + v) % R64;
    Pow2_32();
    XorLow(t, L32(s, c), 32);
    RotateLow(s, c);
    SumLow(u, v);
  }

  lemma SumLow(u: int, v: int)
    ensures (u + v) % R64 % R32 == (u % R32 + v % R32) % R32
  {
  }

  // ---------------------------------------------------------------- rounds

  /** A 4 x 4 matrix of words, row by row. */
  datatype Matrix = Matrix(
    x0: int, x1: int, x2: int, x3: int, x4: int, x5: int, x6: int, x7: int,
    x8: int, x9: int, x10: int, x11: int, x12: int, x13: int, x14: int, x15: int)

  /** The low halves of sixteen words. */
  function Low(s: seq<int>): Matrix
    requires |s| == 16
  {
    Matrix(s[0] % R32, s[1] % R32, s[2] % R32, s[3] % R32, s[4] % R32, s[5] % R32, s[6] % R32, s[7] % R32,
      s[8] % R32, s[9] % R32, s[10] % R32, s[11] % R32, s[12] % R32, s[13] % R32, s[14] % R32, s[15] % R32)
  }

  function Iterate<T>(f: T -> T, x: T, n: nat): T {
    if n == 0 then x else f(Iterate(f, x, n - 1))
  }

  lemma {:induction false} IterateTwice<T(!new)>(f: T -> T, g: T -> T, x: T, n: nat)
    requires forall y {:trigger g(y)} :: f(f(y)) == g(y)
    ensures Iterate(f, x, 2 * n) == Iterate(g, x, n)
  {
    if n > 0 {
      IterateTwice(f, g, x, n - 1);
      assert Iterate(f, x, 2 * n) == f(Iterate(f, x, 2 * n - 1));
      assert Iterate(f, x, 2 * n - 1) == f(Iterate(f, x, 2 * (n - 1)));
    }
  }

  /** Column j of the matrix, from the diagonal downwards, after its quarter-round q. */
  function Column(q: Quad -> Quad, x: Matrix, j: nat): Quad
    requires j < 4
  {
    match j
    case 0 => q(Quad(x.x0, x.x4, x.x8, x.x12))
    case 1 => q(Quad(x.x5, x.x9, x.x13, x.x1))
    case 2 => q(Quad(x.x10, x.x14, x.x2, x.x6))
    case 3 => q(Quad(x.x15, x.x3, x.x7, x.x11))
  }

  /** columnround, section 5. */
  function ColumnRound(q: Quad -> Quad, x: Matrix): Matrix {
    var a, b := q(Quad(x.x0, x.x4, x.x8, x.x12)), q(Quad(x.x5, x.x9, x.x13, x.x1));
    var c, d := q(Quad(x.x10, x.x14, x.x2, x.x6)), q(Quad(x.x15, x.x3, x.x7, x.x11));
    Matrix(
      a.y0, b.y3, c.y2, d.y1,
      a.y1, b.y0, c.y3, d.y2,
      a.y2, b.y1, c.y0, d.y3,
      a.y3, b.y2, c.y1, d.y0)
  }

  /** rowround, section 4. */
  function RowRound(q: Quad -> Quad, y: Matrix): Matrix {
    var a, b := q(Quad(y.x0, y.x1, y.x2, y.x3)), q(Quad(y.x5, y.x6, y.x7, y.x4));
    var c, d := q(Quad(y.x10, y.x11, y.x8, y.x9)), q(Quad(y.x15, y.x12, y.x13, y.x14));
    Matrix(
      a.y0, a.y1, a.y2, a.y3,
      b.y3, b.y0, b.y1, b.y2,
      c.y2, c.y3, c.y0, c.y1,
      d.y1, d.y2, d.y3, d.y0)
  }

  function DoubleRound(q: Quad -> Quad, x: Matrix): Matrix {
    RowRound(q, ColumnRound(q, x))
  }

  /** One iteration of the code: w[4*j + (j+m)%4] = entry m of column j. */
  function Turn(q: Quad -> Quad, x: Matrix): Matrix {
    var a, b, c, d := Column(q, x, 0), Column(q, x, 1), Column(q, x, 2), Column(q, x, 3);
    Matrix(
      a.y0, a.y1, a.y2, a.y3,
      b.y3, b.y0, b.y1, b.y2,
      c.y2, c.y3, c.y0, c.y1,
      d.y1, d.y2, d.y3, d.y0)
  }

  /** Twenty iterations of the code are ten double rounds, whatever the quarter-round. */
  lemma TwentyTurns(q: Quad -> Quad, s: Matrix)
    ensures Iterate((x: Matrix) => Turn(q, x), s, 20) == Iterate((x: Matrix) => DoubleRound(q, x), s, 10)
  {
    var f, g := (x: Matrix) => Turn(q, x), (x: Matrix) => DoubleRound(q, x);
    forall y: Matrix
      ensures f(f(y)) == g(y)
    {
    }
    IterateTwice(f, g, s, 10);
  }

  // ---------------------------------------------------------------- the rounds of the code

  type Mixer = (u64, u64, u64, nat) -> u64

  /** f on 64-bit words agrees with g on their low halves. */
  ghost predicate AgreesLow(f: Mixer, g: (int, int, int, nat) -> int) {
    forall t: u64, u: u64, v: u64, c: nat :: f(t, u, v, c) % R32 == g(t % R32, u % R32, v % R32, c)
  }

  datatype Quad64 = Quad64(w0: u64, w1: u64, w2: u64, w3: u64) {
    function Low(): Quad {
      Quad(w0 % R32, w1 % R32, w2 % R32, w3 % R32)
    }
  }

  function Quarter64(f: Mixer, t: Quad64): Quad64 {
    var t1 := f(t.w1, t.w0, t.w3, 7);
    var t2 := f(t.w2, t1, t.w0, 9);
    var t3 := f(t.w3, t2, t1, 13);
    var t0 := f(t.w0, t3, t2, 18);
    Quad64(t0, t1, t2, t3)
  }

  /** The quarter-round made from f refines q. */
  ghost predicate Refines(f: Mixer, q: Quad -> Quad) {
    forall t: Quad64 {:trigger Quarter64(f, t)} :: Quarter64(f, t).Low() == q(t.Low())
  }

  lemma QuarterRefines(f: Mixer, g: (int, int, int, nat) -> int)
    requires AgreesLow(f, g)
    ensures Refines(f, (y: Quad) => Quarter(g, y))
  {
  }

  /** The four statements t[i] ^= L32(...). */
  method QuarterCode(f: Mixer, t: array<u64>)
    requires t.Length == 4
    modifies t
    ensures Quad64(t[0], t[1], t[2], t[3]) == Quarter64(f, old(Quad64(t[0], t[1], t[2], t[3])))
  {
    t[1] := f(t[1], t[0], t[3], 7);
    t[2] := f(t[2], t[1], t[0], 9);
    t[3] := f(t[3], t[2], t[1], 13);
    t[0] := f(t[0], t[3], t[2], 18);
  }

  /** Where entry m of column j is read and written. */
  function Source(j: nat, m: nat): (i: nat)
    ensures i < 16
  {
    (5 * j + 4 * m) % 16
  }

  function Slot(j: nat, m: nat): (i: nat)
    ensures 4 * j <= i < 4 * j + 4
    ensures j < 4 && m < 4 ==> i == if j + m < 4 then 5 * j + m else 5 * j + m - 4
  {
    4 * j + (j + m) % 4
  }

  lemma SlotApart(j: nat, m: nat)
    requires j < 4 && m < 4
    ensures 4 * j <= Slot(j, m) < 4 * j + 4
    ensures forall i :: 0 <= i < m ==> Slot(j, i) != Slot(j, m)
  {
  }

  /** The low words of row j of w, in the order of the column they come from. */
  ghost function RowEntry(w: seq<int>, j: nat): Quad
    requires |w| == 16 && j < 4
  {
    match j
    case 0 => Quad(w[0] % R32, w[1] % R32, w[2] % R32, w[3] % R32)
    case 1 => Quad(w[5] % R32, w[6] % R32, w[7] % R32, w[4] % R32)
    case 2 => Quad(w[10] % R32, w[11] % R32, w[8] % R32, w[9] % R32)
    case 3 => Quad(w[15] % R32, w[12] % R32, w[13] % R32, w[14] % R32)
  }

  lemma RowEntrySlots(w: seq<int>, j: nat)
    requires |w| == 16 && j < 4
    ensures Slot(j, 0) < 16 && Slot(j, 1) < 16 && Slot(j, 2) < 16 && Slot(j, 3) < 16
    ensures RowEntry(w, j) == Quad(w[Slot(j, 0)] % R32, w[Slot(j, 1)] % R32, w[Slot(j, 2)] % R32, w[Slot(j, 3)] % R32)
  {
    if j == 0 {
      SlotTable(0, 0, 1, 2, 3);
    } else if j == 1 {
      SlotTable(1, 5, 6, 7, 4);
    } else if j == 2 {
      SlotTable(2, 10, 11, 8, 9);
    } else {
      SlotTable(3, 15, 12, 13, 14);
    }
  }

  lemma SlotTable(j: nat, a: nat, b: nat, c: nat, d: nat)
    requires j < 4 && a == 5 * j
    requires b == (if j < 3 then a + 1 else a - 3) && c == (if j < 2 then a + 2 else a - 2) && d == if j < 1 then a + 3 else a - 1
    ensures Slot(j, 0) == a && Slot(j, 1) == b && Slot(j, 2) == c && Slot(j, 3) == d
  {
  }

  lemma OtherRowsKept(w: seq<int>, v: seq<int>, i: nat, j: nat)
    requires |w| == |v| == 16 && i < 4 && j < 4 && i != j
    requires forall k :: 0 <= k < 16 && !(4 * j <= k < 4 * j + 4) ==> w[k] == v[k]
    ensures RowEntry(w, i) == RowEntry(v, i)
  {
  }

  lemma ColumnOf(q: Quad -> Quad, x: seq<int>, j: nat)
    requires |x| == 16 && j < 4
    ensures Column(q, Low(x), j)
      == q(Quad(x[Source(j, 0)] % R32, x[Source(j, 1)] % R32, x[Source(j, 2)] % R32, x[Source(j, 3)] % R32))
  {
    if j == 0 {
      SourceTable(0, 0, 4, 8, 12);
    } else if j == 1 {
      SourceTable(1, 5, 9, 13, 1);
    } else if j == 2 {
      SourceTable(2, 10, 14, 2, 6);
    } else {
      SourceTable(3, 15, 3, 7, 11);
    }
  }

  lemma SourceTable(j: nat, a: nat, b: nat, c: nat, d: nat)
    requires j < 4 && a == 5 * j
    requires b == (if j < 3 then a + 4 else a - 12) && c == (if j < 2 then a + 8 else a - 8) && d == if j < 1 then a + 12 else a - 4
    ensures Source(j, 0) == a && Source(j, 1) == b && Source(j, 2) == c && Source(j, 3) == d
  {
  }

  /** One value of j: a column of x goes through the quarter-round into a row of w. */
  method TurnColumn(f: Mixer, ghost q: Quad -> Quad, x: array<u64>, w: array<u64>, j: nat)
    requires x != w && x.Length == 16 && w.Length == 16 && j < 4 && Refines(f, q)
    modifies w
    ensures forall k :: 0 <= k < 16 && !(4 * j <= k < 4 * j + 4) ==> w[k] == old(w[k])
    ensures RowEntry(w[..], j) == Column(q, Low(x[..]), j)
  {
    var t := LoadColumn(x, j);
    ghost var before := Quad64(t[0], t[1], t[2], t[3]);
    ColumnOf(q, x[..], j);
    ghost var goal := Column(q, Low(x[..]), j);
    assert Quarter64(f, before).Low() == goal;
    QuarterCode(f, t);
    StoreColumn(t, w, j);
    RowEntrySlots(w[..], j);
  }

  method LoadColumn(x: array<u64>, j: nat) returns (t: array<u64>)
    requires x.Length == 16 && j < 4
    ensures fresh(t) && t.Length == 4 && forall m :: 0 <= m < 4 ==> t[m] == x[Source(j, m)]
  {
    t := new u64[4];
    for m := 0 to 4
      invariant forall k :: 0 <= k < m ==> t[k] == x[Source(j, k)]
    {
      t[m] := x[(5 * j + 4 * m) % 16];
    }
  }

  method StoreColumn(t: array<u64>, w: array<u64>, j: nat)
    requires t != w && t.Length == 4 && w.Length == 16 && j < 4
    modifies w
    ensures forall k :: 0 <= k < 16 && !(4 * j <= k < 4 * j + 4) ==> w[k] == old(w[k])
    ensures forall m :: 0 <= m < 4 ==> 4 * j <= Slot(j, m) < 4 * j + 4 && w[Slot(j, m)] == t[m]
  {
    for m := 0 to 4
      invariant forall k :: 0 <= k < m ==> 4 * j <= Slot(j, k) < 4 * j + 4
      invariant forall k :: 0 <= k < 16 && !(4 * j <= k < 4 * j + 4) ==> w[k] == old(w[k])
      invariant forall i :: 0 <= i < m ==> w[Slot(j, i)] == t[i]
    {
      SlotApart(j, m);
      var slot := Slot(j, m);
      w[slot] := t[m];
    }
  }

  /** One iteration: all four columns, then x = w. */
  method HalfRound(f: Mixer, ghost q: Quad -> Quad, x: array<u64>)
    requires x.Length == 16 && Refines(f, q)
    modifies x
    ensures Low(x[..]) == Turn(q, Low(old(x[..])))
  {
    var w := TurnAll(f, q, x);
    ghost var turned := Low(w[..]);
    for m := 0 to 16
      modifies x
      invariant x[..m] == w[..m]
    {
      x[m] := w[m];
    }
    assert x[..] == w[..];
  }

  method TurnAll(f: Mixer, ghost q: Quad -> Quad, x: array<u64>) returns (w: array<u64>)
    requires x.Length == 16 && Refines(f, q)
    ensures fresh(w) && w.Length == 16 && Low(w[..]) == Turn(q, Low(x[..]))
  {
    w := new u64[16];
    ghost var s, xs := Low(x[..]), x[..];
    for j := 0 to 4
      invariant forall i :: 0 <= i < j ==> RowEntry(w[..], i) == Column(q, s, i)
    {
      ghost var before := w[..];
      assert x[..] == xs;
      TurnColumn(f, q, x, w, j);
      forall i | 0 <= i < j
        ensures RowEntry(w[..], i) == RowEntry(before, i)
      {
        OtherRowsKept(w[..], before, i, j);
      }
    }
    RowsMakeTurn(q, s, w[..]);
  }

  lemma RowsMakeTurn(q: Quad -> Quad, x: Matrix, w: seq<int>)
    requires |w| == 16 && forall i :: 0 <= i < 4 ==> RowEntry(w, i) == Column(q, x, i)
    ensures Low(w) == Turn(q, x)
  {
    assert RowEntry(w, 0) == Column(q, x, 0) && RowEntry(w, 1) == Column(q, x, 1);
    assert RowEntry(w, 2) == Column(q, x, 2) && RowEntry(w, 3) == Column(q, x, 3);
  }

  // ---------------------------------------------------------------- the core, sections 7 to 9

  function Entry(x: Matrix, i: nat): int
    requires i < 16
  {
    match i
    case 0 => x.x0
    case 1 => x.x1
    case 2 => x.x2
    case 3 => x.x3
    case 4 => x.x4
    case 5 => x.x5
    case 6 => x.x6
    case 7 => x.x7
    case 8 => x.x8
    case 9 => x.x9
    case 10 => x.x10
    case 11 => x.x11
    case 12 => x.x12
    case 13 => x.x13
    case 14 => x.x14
    case _ => x.x15
  }

  lemma LowEntry(s: seq<int>, i: nat)
    requires |s| == 16 && i < 16
    ensures Entry(Low(s), i) == s[i] % R32
  {
  }

  function WordAt(s: seq<byte>, i: nat): int
    requires 4 * i + 4 <= |s|
  {
    LE(s[4 * i..4 * i + 4])
  }

  /** The 4-byte little-endian encodings of the words, one after the other. */
  function BytesOf(ws: seq<int>): (s: seq<byte>)
    ensures |s| == 4 * |ws|
  {
    if |ws| == 0 then [] else BytesOf(ws[..|ws| - 1]) + Bytes(ws[|ws| - 1], 4)
  }

  /** The expansion of section 9: constants on the diagonal, key halves and input between them. */
  function Expand(n: seq<byte>, k: seq<byte>, c: seq<byte>): Matrix
    requires |n| == 16 && |k| == 32 && |c| == 16
  {
    Matrix(
      WordAt(c, 0), WordAt(k, 0), WordAt(k, 1), WordAt(k, 2),
      WordAt(k, 3), WordAt(c, 1), WordAt(n, 0), WordAt(n, 1),
      WordAt(n, 2), WordAt(n, 3), WordAt(c, 2), WordAt(k, 4),
      WordAt(k, 5), WordAt(k, 6), WordAt(k, 7), WordAt(c, 3))
  }

  function Rounds(q: Quad -> Quad, x: Matrix): Matrix {
    Iterate((y: Matrix) => DoubleRound(q, y), x, 10)
  }

  /** Salsa20, section 8. */
  function SalsaBlock(q: Quad -> Quad, n: seq<byte>, k: seq<byte>, c: seq<byte>): (s: seq<byte>)
    requires |n| == 16 && |k| == 32 && |c| == 16
    ensures |s| == 64
  {
    var x := Expand(n, k, c);
    BytesOf(SumWords(Rounds(q, x), x))
  }

  function DiagonalWords(z: Matrix): (ws: seq<int>)
    ensures |ws| == 4
  {
    [z.x0, z.x5, z.x10, z.x15]
  }

  function InputWords(z: Matrix): (ws: seq<int>)
    ensures |ws| == 4
  {
    [z.x6, z.x7, z.x8, z.x9]
  }

  lemma HalfEntries(z: Matrix, j: nat)
    requires j < 4
    ensures DiagonalWords(z)[j] == Entry(z, 5 * j) && InputWords(z)[j] == Entry(z, 6 + j)
  {
  }

  /** HSalsa20: the diagonal and the input positions after the rounds. */
  function HSalsaBlock(q: Quad -> Quad, n: seq<byte>, k: seq<byte>, c: seq<byte>): (s: seq<byte>)
    requires |n| == 16 && |k| == 32 && |c| == 16
    ensures |s| == 32
  {
    var z := Rounds(q, Expand(n, k, c));
    BytesOf(DiagonalWords(z)) + BytesOf(InputWords(z))
  }

  /** ld32 */
  method Ld32(x: seq<byte>, off: nat) returns (u: u64)
    requires off + 4 <= |x|
    ensures u == LE(x[off..off + 4]) && u < R32
  {
    u := x[off + 3];
    u := ShiftIn(u, x[off + 2]);
    u := ShiftIn(u, x[off + 1]);
    u := ShiftIn(u, x[off]);
    ValFour(x[off..off + 4], 256);
  }

  lemma NextByte(done: seq<byte>, u: int, n: nat)
    requires n > 0
    ensures done + Bytes(u, n) == done + [u % 256] + Bytes(u / 256, n - 1)
  {
  }

  /** st32 */
  method St32(x: array<byte>, off: nat, u0: u64)
    requires off + 4 <= x.Length
    modifies x
    ensures x[off..off + 4] == Bytes(u0 % R32, 4)
    ensures forall j :: 0 <= j < x.Length && !(off <= j < off + 4) ==> x[j] == old(x[j])
  {
    var u := u0;
    ghost var goal := Bytes(u0, 4);
    for i := 0 to 4
      invariant u >= 0
      invariant x[off..off + i] + Bytes(u, 4 - i) == goal
      invariant forall j :: 0 <= j < x.Length && !(off <= j < off + 4) ==> x[j] == old(x[j])
    {
      ghost var done := x[off..off + i];
      NextByte(done, u, 4 - i);
      x[off + i] := u % 256;
      assert x[off..off + i + 1] == done + [u % 256];
      u := u / 256;
    }
    BytesOfLow(u0, 4, R32);
  }

  lemma {:induction false} BytesOfLow(u: int, n: nat, p: int)
    requires p == Pow(256, n)
    ensures p > 0 && Bytes(u % p, n) == Bytes(u, n)
    decreases n
  {
    PowPositive(256, n);
    if n > 0 {
      BytesOfLow(u / 256, n - 1, Pow(256, n - 1));
      LowDigit(u, Pow(256, n - 1));
    }
  }

  /** The four words that pass i of the loading loop stores. */
  predicate Loaded(x: seq<int>, n: seq<byte>, k: seq<byte>, c: seq<byte>, i: nat)
    requires |x| == 16 && |n| == 16 && |k| == 32 && |c| == 16 && i < 4
  {
    x[5 * i] == WordAt(c, i) && x[1 + i] == WordAt(k, i) && x[6 + i] == WordAt(n, i) && x[11 + i] == WordAt(k, 4 + i)
  }

  lemma LoadedKept(x: seq<int>, y: seq<int>, n: seq<byte>, k: seq<byte>, c: seq<byte>, i: nat, j: nat)
    requires |x| == |y| == 16 && |n| == 16 && |k| == 32 && |c| == 16 && i < j < 4 && Loaded(x, n, k, c, i)
    requires forall m :: 0 <= m < 16 && m != 5 * j && m != 1 + j && m != 6 + j && m != 11 + j ==> y[m] == x[m]
    ensures Loaded(y, n, k, c, i)
  {
  }

  lemma WordFits(s: seq<byte>, i: nat)
    requires 4 * i + 4 <= |s|
    ensures WordAt(s, i) % R32 == WordAt(s, i)
  {
    ValBound(s[4 * i..4 * i + 4], 256);
    assert Pow(256, 4) == R32 by { Pow256(); }
  }

  lemma WordsFit(s: seq<byte>)
    ensures forall i :: 0 <= i && 4 * i + 4 <= |s| ==> WordAt(s, i) % R32 == WordAt(s, i)
  {
    forall i | 0 <= i && 4 * i + 4 <= |s|
      ensures WordAt(s, i) % R32 == WordAt(s, i)
    {
      WordFits(s, i);
    }
  }

  lemma LoadedMatrix(x: seq<int>, n: seq<byte>, k: seq<byte>, c: seq<byte>)
    requires |x| == 16 && |n| == 16 && |k| == 32 && |c| == 16 && forall i :: 0 <= i < 4 ==> Loaded(x, n, k, c, i)
    ensures Low(x) == Expand(n, k, c)
  {
    WordsFit(c);
    WordsFit(k);
    WordsFit(n);
    assert Loaded(x, n, k, c, 0) && Loaded(x, n, k, c, 1) && Loaded(x, n, k, c, 2) && Loaded(x, n, k, c, 3);
  }

  method LoadPass(x: array<u64>, n: seq<byte>, k: seq<byte>, c: seq<byte>, i: nat)
    requires x.Length == 16 && |n| == 16 && |k| == 32 && |c| == 16 && i < 4
    modifies x
    ensures Loaded(x[..], n, k, c, i)
    ensures forall m :: 0 <= m < 16 && m != 5 * i && m != 1 + i && m != 6 + i && m != 11 + i ==> x[m] == old(x[m])
  {
    var ci := Ld32(c, 4 * i);
    var ki := Ld32(k, 4 * i);
    var ni := Ld32(n, 4 * i);
    var li := Ld32(k, 16 + 4 * i);
    assert k[16 + 4 * i..16 + 4 * i + 4] == k[4 * (4 + i)..4 * (4 + i) + 4];
    x[5 * i], x[1 + i], x[6 + i], x[11 + i] := ci, ki, ni, li;
  }

  /** x as loaded from constants, key and input. */
  method LoadCore(n: seq<byte>, k: seq<byte>, c: seq<byte>) returns (x: array<u64>)
    requires |n| == 16 && |k| == 32 && |c| == 16
    ensures fresh(x) && x.Length == 16 && Low(x[..]) == Expand(n, k, c)
  {
    x := new u64[16];
    for i := 0 to 4
      invariant forall j :: 0 <= j < i ==> Loaded(x[..], n, k, c, j)
    {
      ghost var s: seq<int> := x[..];
      LoadPass(x, n, k, c, i);
      forall j | 0 <= j < i
        ensures Loaded(x[..], n, k, c, j)
      {
        LoadedKept(s, x[..], n, k, c, j, i);
      }
    }
    LoadedMatrix(x[..], n, k, c);
  }

  /** The twenty iterations. */
  method TwentyRounds(f: Mixer, ghost q: Quad -> Quad, x: array<u64>)
    requires x.Length == 16 && Refines(f, q)
    modifies x
    ensures Low(x[..]) == Rounds(q, Low(old(x[..])))
  {
    ghost var start, turn := Low(x[..]), (y: Matrix) => Turn(q, y);
    for i := 0 to 20
      invariant Low(x[..]) == Iterate(turn, start, i)
    {
      HalfRound(f, q, x);
    }
    TwentyTurns(q, start);
  }

  /** x as loaded, and its copy y. */
  method LoadTwice(n: seq<byte>, k: seq<byte>, c: seq<byte>) returns (x: array<u64>, y: array<u64>)
    requires |n| == 16 && |k| == 32 && |c| == 16
    ensures fresh(x) && fresh(y) && x != y && x.Length == 16 && y.Length == 16
    ensures Low(x[..]) == Low(y[..]) == Expand(n, k, c)
  {
    x := LoadCore(n, k, c);
    y := new u64[16];
    for i := 0 to 16
      modifies y
      invariant y[..i] == x[..i]
    {
      y[i] := x[i];
    }
    assert y[..] == x[..];
  }

  /** core with h = 0: the block function. */
  method CoreBlock(f: Mixer, ghost q: Quad -> Quad, out: array<byte>, n: seq<byte>, k: seq<byte>, c: seq<byte>)
    requires out.Length == 64 && |n| == 16 && |k| == 32 && |c| == 16 && Refines(f, q)
    modifies out
    ensures out[..] == SalsaBlock(q, n, k, c)
  {
    var x, y := LoadTwice(n, k, c);
    TwentyRounds(f, q, x);
    StoreSums(out, x, y, Rounds(q, Expand(n, k, c)), Expand(n, k, c));
  }

  /** x[i] += y[i] */
  method AddAll(x: array<u64>, y: array<u64>)
    requires x != y && x.Length == 16 && y.Length == 16
    modifies x
    ensures forall j :: 0 <= j < 16 ==> x[j] == (old(x[j]) + y[j]) % R64
  {
    for i := 0 to 16
      modifies x
      invariant forall j :: 0 <= j < i ==> x[j] == (old(x[j]) + y[j]) % R64
      invariant forall j :: i <= j < 16 ==> x[j] == old(x[j])
    {
      x[i] := (x[i] + y[i]) % R64;
    }
  }

  function Minus64(x: u64, y: int): u64 {
    (x - y) % R64
  }

  lemma Apart(i: nat)
    requires i < 4
    ensures forall j :: 0 <= j < 4 ==> 5 * j != 6 + i && 5 * i != 6 + j && (5 * j == 5 * i ==> j == i)
  {
    assert i == 0 || i == 1 || i == 2 || i == 3;
  }

  /** What pass j takes off. */
  ghost predicate TakenOff(x: seq<u64>, s: seq<u64>, n: seq<byte>, c: seq<byte>, j: nat)
    requires |x| == |s| == 16 && |n| == |c| == 16 && j < 4
  {
    x[5 * j] == Minus64(s[5 * j], WordAt(c, j)) && x[6 + j] == Minus64(s[6 + j], WordAt(n, j))
  }

  method TakeOffPass(x: array<u64>, n: seq<byte>, c: seq<byte>, i: nat)
    requires x.Length == 16 && |n| == 16 && |c| == 16 && i < 4
    modifies x
    ensures TakenOff(x[..], old(x[..]), n, c, i)
    ensures forall m :: 0 <= m < 16 && m != 5 * i && m != 6 + i ==> x[m] == old(x[m])
  {
    Apart(i);
    var ci := Ld32(c, 4 * i);
    var ni := Ld32(n, 4 * i);
    assert ci == WordAt(c, i) && ni == WordAt(n, i);
    x[5 * i], x[6 + i] := Minus64(x[5 * i], ci), Minus64(x[6 + i], ni);
  }

  ghost predicate Left(x: seq<u64>, s: seq<u64>, j: nat)
    requires |x| == |s| == 16 && j < 4
  {
    x[5 * j] == s[5 * j] && x[6 + j] == s[6 + j]
  }

  /** Pass i, from x to y, does its own part and leaves the parts of the other passes. */
  lemma PassTakesOff(x: seq<u64>, y: seq<u64>, s: seq<u64>, n: seq<byte>, c: seq<byte>, i: nat, j: nat)
    requires |x| == |y| == |s| == 16 && |n| == |c| == 16 && i < 4 && j < 4
    requires TakenOff(y, x, n, c, i)
    requires forall m :: 0 <= m < 16 && m != 5 * i && m != 6 + i ==> y[m] == x[m]
    ensures j < i && TakenOff(x, s, n, c, j) ==> TakenOff(y, s, n, c, j)
    ensures j == i && Left(x, s, j) ==> TakenOff(y, s, n, c, j)
    ensures j > i && Left(x, s, j) ==> Left(y, s, j)
  {
    Apart(i);
    if j != i {
      assert y[5 * j] == x[5 * j] && y[6 + j] == x[6 + j];
    }
  }

  /** The words of c and in are taken off the diagonal and the input positions. */
  method TakeOff(x: array<u64>, n: seq<byte>, c: seq<byte>)
    requires x.Length == 16 && |n| == 16 && |c| == 16
    modifies x
    ensures forall j :: 0 <= j < 4 ==> TakenOff(x[..], old(x[..]), n, c, j)
  {
    ghost var s := x[..];
    for i := 0 to 4
      invariant forall j :: 0 <= j < i ==> TakenOff(x[..], s, n, c, j)
      invariant forall j :: i <= j < 4 ==> Left(x[..], s, j)
    {
      ghost var before := x[..];
      TakeOffPass(x, n, c, i);
      ghost var after := x[..];
      forall j | 0 <= j < 4
        ensures if j <= i then TakenOff(after, s, n, c, j) else Left(after, s, j)
      {
        PassTakesOff(before, after, s, n, c, i, j);
      }
    }
  }

  /** Adding a word and taking off its equal leaves the low half alone. */
  lemma OnAndOff(u: u64, y: u64, d: int)
    requires d == y % R32
    ensures Minus64((u + y) % R64, d) % R32 == u % R32
  {
    var k, w := (u + y) / R64, (u + y) % R64;
    LowLow(w - d);
    assert w == u + y - k * R64 && y - d == y / R32 * R32;
    Removed(u, y / R32 - k * R32, w - d);
  }

  lemma Removed(u: int, k: int, w: int)
    requires w == u + k * R32
    ensures w % R32 == u % R32
  {
  }

  method StoreHalves(out: array<byte>, x: array<u64>, ghost ws: seq<int>, ghost vs: seq<int>)
    requires out.Length == 32 && x.Length == 16 && |ws| == |vs| == 4
    requires forall j :: 0 <= j < 4 ==> x[5 * j] % R32 == ws[j] && x[6 + j] % R32 == vs[j]
    modifies out
    ensures out[..] == BytesOf(ws) + BytesOf(vs)
  {
    for i := 0 to 4
      modifies out
      invariant out[..4 * i] == BytesOf(ws[..i])
      invariant out[16..16 + 4 * i] == BytesOf(vs[..i])
    {
      StoreTwo(out, i, x[5 * i], x[6 + i], ws, vs);
    }
    assert ws[..4] == ws && vs[..4] == vs && out[..] == out[..16] + out[16..16 + 16];
  }

  method StoreTwo(out: array<byte>, i: nat, u: u64, v: u64, ghost ws: seq<int>, ghost vs: seq<int>)
    requires i < |ws| == |vs| == 4 && out.Length == 32 && u % R32 == ws[i] && v % R32 == vs[i]
    requires out[..4 * i] == BytesOf(ws[..i]) && out[16..16 + 4 * i] == BytesOf(vs[..i])
    modifies out
    ensures out[..4 * (i + 1)] == BytesOf(ws[..i + 1]) && out[16..16 + 4 * (i + 1)] == BytesOf(vs[..i + 1])
  {
    ghost var upper := out[16..16 + 4 * i];
    StoreWordAt(out, 0, i, u, ws);
    assert out[0..4 * (i + 1)] == out[..4 * (i + 1)] && out[16..16 + 4 * i] == upper;
    ghost var lower := out[..4 * (i + 1)];
    StoreWordAt(out, 16, i, v, vs);
    assert out[..4 * (i + 1)] == lower;
  }

  method StoreWordAt(out: array<byte>, off: nat, i: nat, u: u64, ghost ws: seq<int>)
    requires i < |ws| && off + 4 * |ws| <= out.Length && out[off..off + 4 * i] == BytesOf(ws[..i]) && u % R32 == ws[i]
    modifies out
    ensures out[off..off + 4 * (i + 1)] == BytesOf(ws[..i + 1])
    ensures forall j :: 0 <= j < out.Length && !(off + 4 * i <= j < off + 4 * i + 4) ==> out[j] == old(out[j])
  {
    ghost var done := out[off..off + 4 * i];
    St32(out, off + 4 * i, u);
    assert out[off..off + 4 * i] == done;
    assert out[off..off + 4 * (i + 1)] == done + out[off + 4 * i..off + 4 * i + 4];
    assert ws[..i + 1][..i] == ws[..i];
  }

  /** core with h = 1: the key derivation function. */
  method CoreHash(f: Mixer, ghost q: Quad -> Quad, out: array<byte>, n: seq<byte>, k: seq<byte>, c: seq<byte>)
    requires out.Length == 32 && |n| == 16 && |k| == 32 && |c| == 16 && Refines(f, q)
    modifies out
    ensures out[..] == HSalsaBlock(q, n, k, c)
  {
    var x, y := LoadTwice(n, k, c);
    TwentyRounds(f, q, x);
    FoldAndStore(out, x, y, Rounds(q, Expand(n, k, c)), n, k, c);
  }

  /** The words to be stored, once x and y are added and the words of c and in are off again. */
  method FoldBack(x: array<u64>, y: array<u64>, ghost z: Matrix, n: seq<byte>, ghost k: seq<byte>, c: seq<byte>)
    requires x != y && x.Length == y.Length == 16 && |n| == 16 && |k| == 32 && |c| == 16
    requires Low(x[..]) == z && Low(y[..]) == Expand(n, k, c)
    modifies x
    ensures forall j :: 0 <= j < 4 ==> x[5 * j] % R32 == DiagonalWords(z)[j] && x[6 + j] % R32 == InputWords(z)[j]
  {
    ghost var xs, ys := x[..], y[..];
    AddAll(x, y);
    ghost var sums := x[..];
    assert forall j :: 0 <= j < 16 ==> sums[j] == (xs[j] + ys[j]) % R64;
    TakeOff(x, n, c);
    forall j | 0 <= j < 4
      ensures x[5 * j] % R32 == DiagonalWords(z)[j] && x[6 + j] % R32 == InputWords(z)[j]
    {
      assert TakenOff(x[..], sums, n, c, j);
      Halves(xs, ys, sums, z, n, k, c, j);
    }
  }

  method FoldAndStore(out: array<byte>, x: array<u64>, y: array<u64>, ghost z: Matrix, n: seq<byte>, k: seq<byte>, c: seq<byte>)
    requires out.Length == 32 && x != y && x.Length == y.Length == 16 && |n| == 16 && |k| == 32 && |c| == 16
    requires Low(x[..]) == z && Low(y[..]) == Expand(n, k, c)
    modifies out, x
    ensures out[..] == BytesOf(DiagonalWords(z)) + BytesOf(InputWords(z))
  {
    FoldBack(x, y, z, n, k, c);
    StoreHalves(out, x, DiagonalWords(z), InputWords(z));
  }

  lemma Halves(xs: seq<u64>, ys: seq<u64>, sums: seq<u64>, z: Matrix, n: seq<byte>, k: seq<byte>, c: seq<byte>, j: nat)
    requires |xs| == |ys| == |sums| == 16 && |n| == 16 && |k| == 32 && |c| == 16 && j < 4
    requires Low(xs) == z && Low(ys) == Expand(n, k, c)
    requires sums[5 * j] == (xs[5 * j] + ys[5 * j]) % R64 && sums[6 + j] == (xs[6 + j] + ys[6 + j]) % R64
    ensures Minus64(sums[5 * j], WordAt(c, j)) % R32 == DiagonalWords(z)[j]
    ensures Minus64(sums[6 + j], WordAt(n, j)) % R32 == InputWords(z)[j]
  {
    HalfEntries(z, j);
    LowEntry(xs, 5 * j);
    LowEntry(ys, 5 * j);
    LowEntry(xs, 6 + j);
    LowEntry(ys, 6 + j);
    OnAndOff(xs[5 * j], ys[5 * j], WordAt(c, j));
    OnAndOff(xs[6 + j], ys[6 + j], WordAt(n, j));
  }

  function SumWords(z: Matrix, x: Matrix): (ws: seq<int>)
    ensures |ws| == 16
  {
    seq(16, i requires 0 <= i < 16 => (Entry(z, i) + Entry(x, i)) % R32)
  }

  lemma SumWord(x: seq<u64>, y: seq<u64>, i: nat)
    requires |x| == |y| == 16 && i < 16
    ensures (x[i] + y[i]) % R64 % R32 == SumWords(Low(x), Low(y))[i]
  {
    LowEntry(x, i);
    LowEntry(y, i);
    SumLow(x[i], y[i]);
  }

  method StoreSums(out: array<byte>, x: array<u64>, y: array<u64>, ghost z: Matrix, ghost in0: Matrix)
    requires out.Length == 64 && x.Length == 16 && y.Length == 16 && Low(x[..]) == z && Low(y[..]) == in0
    modifies out
    ensures out[..] == BytesOf(SumWords(z, in0))
  {
    ghost var ws := SumWords(z, in0);
    for i := 0 to 16
      modifies out
      invariant out[..4 * i] == BytesOf(ws[..i])
    {
      SumWord(x[..], y[..], i);
      StoreWordAt(out, 0, i, (x[i] + y[i]) % R64, ws);
    }
    assert out[..64] == out[..] && ws[..16] == ws;
  }

  // ---------------------------------------------------------------- the two functions of the library

  const SPEC_QUARTER: Quad -> Quad := (y: Quad) => Quarter(Mix32, y)

  const MIX: Mixer := (t: u64, u: u64, v: u64, c: nat) => Mix64(t, u, v, c)

  /** Salsa20 with a 32-byte key: the block for a 16-byte input. */
  function Salsa20Block(n: seq<byte>, k: seq<byte>, c: seq<byte>): (s: seq<byte>)
    requires |n| == 16 && |k| == 32 && |c| == 16
    ensures |s| == 64
  {
    SalsaBlock(SPEC_QUARTER, n, k, c)
  }

  function HSalsa20(n: seq<byte>, k: seq<byte>, c: seq<byte>): (s: seq<byte>)
    requires |n| == 16 && |k| == 32 && |c| == 16
    ensures |s| == 32
  {
    HSalsaBlock(SPEC_QUARTER, n, k, c)
  }

  lemma MixRefines()
    ensures Refines(MIX, SPEC_QUARTER)
  {
    QuarterRefines(MIX, Mix32);
  }

  method CryptoCoreSalsa20(out: array<byte>, n: seq<byte>, k: seq<byte>, c: seq<byte>)
    requires out.Length == 64 && |n| == 16 && |k| == 32 && |c| == 16
    modifies out
    ensures out[..] == Salsa20Block(n, k, c)
  {
    MixRefines();
    CoreBlock(MIX, SPEC_QUARTER, out, n, k, c);
  }

  method CryptoCoreHSalsa20(out: array<byte>, n: seq<byte>, k: seq<byte>, c: seq<byte>)
    requires out.Length == 32 && |n| == 16 && |k| == 32 && |c| == 16
    modifies out
    ensures out[..] == HSalsa20(n, k, c)
  {
    MixRefines();
    CoreHash(MIX, SPEC_QUARTER, out, n, k, c);
  }
}
