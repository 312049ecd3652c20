/** Base64 as card_signing.h writes and reads it, the reader of agent_module_impl.cpp, and hexadecimal. */
module Base64 {
  import opened Arith
  import opened Radix
  import opened MachineInts

  // ---------------------------------------------------------------- the alphabet

  type sextet = v: int | 0 <= v < 64

  function Letter(v: sextet, c62: char, c63: char): char {
    if v < 26 then 'A' + v as char
    else if v < 52 then 'a' + (v - 26) as char
    else if v < 62 then '0' + (v - 52) as char
    else if v == 62 then c62
    else c63
  }

  /** dec6, and T.find: the place of c in the alphabet, -1 if it is not there. */
  function Place(c: char, c62: char, c63: char): (v: int)
    ensures -1 <= v < 64
  {
    if 'A' <= c <= 'Z' then c as int - 'A' as int
    else if 'a' <= c <= 'z' then c as int - 'a' as int + 26
    else if '0' <= c <= '9' then c as int - '0' as int + 52
    else if c == c62 then 62
    else if c == c63 then 63
    else -1
  }

  ghost predicate Marks(c62: char, c63: char) {
    (c62 == '-' && c63 == '_') || (c62 == '+' && c63 == '/')
  }

  lemma PlaceOfLetter(c: char, v: sextet, c62: char, c63: char)
    requires Marks(c62, c63)
    ensures Place(c, c62, c63) == v <==> c == Letter(v, c62, c63)
  {
  }

  // ---------------------------------------------------------------- the encoder

  /** The six-bit groups of section 4 of RFC 4648; a last group of one or two bytes is filled with zero bits. */
  function Sextets(s: seq<byte>): (ds: seq<sextet>)
    ensures |ds| == (4 * |s| + 2) / 3
  {
    if |s| == 0 then []
    else if |s| == 1 then [s[0] / 4, s[0] % 4 * 16]
    else if |s| == 2 then [s[0] / 4, s[0] % 4 * 16 + s[1] / 16, s[1] % 16 * 4]
    else Group(s[0], s[1], s[2]) + Sextets(s[3..])
  }

  function Group(a: byte, b: byte, c: byte): (ds: seq<sextet>)
    ensures |ds| == 4
  {
    [a / 4, a % 4 * 16 + b / 16, b % 16 * 4 + c / 64, c % 64]
  }

  function Letters(ds: seq<sextet>, c62: char, c63: char): (cs: string)
    ensures |cs| == |ds|
  {
    seq(|ds|, i requires 0 <= i < |ds| => Letter(ds[i], c62, c63))
  }

  /** How many of the last digit's bits are filling. */
  function Filling(n: nat): nat {
    if n % 3 == 0 then 0 else if n % 3 == 1 then 4 else 2
  }

  lemma {:induction false} SextetsNumber(s: seq<byte>)
    ensures Num(Sextets(s), 64) == Num(s, 256) * Pow(2, Filling(|s|))
  {
    if |s| < 3 {
      LastGroup(s);
    } else {
      SextetsNumber(s[3..]);
      OneMoreGroup(s, Group(s[0], s[1], s[2]), s[..3], s[3..], Sextets(s[3..]), Filling(|s| - 3));
      FillingStep(|s|);
    }
  }

  lemma FillingStep(n: nat)
    requires n >= 3
    ensures Filling(n) == Filling(n - 3)
  {
  }

  lemma LastGroup(s: seq<byte>)
    requires |s| < 3
    ensures Num(Sextets(s), 64) == Num(s, 256) * Pow(2, Filling(|s|))
  {
    var ds: seq<int> := Sextets(s);
    assert Pow(2, 0) == 1 && Pow(2, 2) == 4 && Pow(2, 4) == 16;
    if |s| == 1 {
      assert Pow(2, Filling(|s|)) == 16;
      NumOne(s, 256);
      NumTwo(ds, 64);
    } else if |s| == 2 {
      assert Pow(2, Filling(|s|)) == 4;
      NumTwo(s, 256);
      NumThree(ds, 64);
    }
  }

  lemma OneMoreGroup(s: seq<byte>, ds: seq<int>, g: seq<byte>, r: seq<byte>, es: seq<int>, f: nat)
    requires |g| == 3 && ds == Group(g[0], g[1], g[2]) && |es| == (4 * |r| + 2) / 3 && f == Filling(|r|)
    requires s == g + r && Num(es, 64) == Num(r, 256) * Pow(2, f)
    ensures Num(ds + es, 64) == Num(s, 256) * Pow(2, f)
  {
    NumAppend(g, r, 256);
    GroupNumber(g);
    NumAppend(ds, es, 64);
    PowersMeet(|r|);
    var q, p := Pow(64, |es|), Pow(256, |r|);
    assert q == p * Pow(2, f);
    Chain(Num(ds + es, 64), Num(s, 256), Num(g, 256), p, q, Pow(2, f), Num(r, 256), Num(es, 64));
  }

  lemma Chain(x: int, y: int, g: int, p: int, q: int, f: int, r: int, d: int)
    requires x == g * q + d && y == g * p + r && q == p * f && d == r * f
    ensures x == y * f
  {
    MulAssoc(g, p, f);
    MulDistrib(f, g * p, r);
  }

  lemma GroupNumber(g: seq<byte>)
    requires |g| == 3
    ensures Num(Group(g[0], g[1], g[2]), 64) == Num(g, 256)
  {
    NumThree(g, 256);
    NumFour(Group(g[0], g[1], g[2]), 64);
    GroupValue(g[0], g[1], g[2]);
  }

  lemma GroupValue(a: byte, b: byte, c: byte)
    ensures (((a / 4 * 64) + (a % 4 * 16 + b / 16)) * 64 + (b % 16 * 4 + c / 64)) * 64 + c % 64 == (a * 256 + b) * 256 + c
  {
  }

  lemma PowersMeet(n: nat)
    ensures Pow(64, (4 * n + 2) / 3) == Pow(256, n) * Pow(2, Filling(n))
  {
    DigitBits(n);
    PowersMeetAt((4 * n + 2) / 3, n, Filling(n));
  }

  /** The digits hold the bits of the bytes and the filling. */
  lemma DigitBits(n: nat)
    ensures 6 * ((4 * n + 2) / 3) == 8 * n + Filling(n)
  {
    var q, r := n / 3, n % 3;
    assert n == 3 * q + r;
    assert (4 * n + 2) / 3 == 4 * q + (if r == 0 then 0 else r + 1);
  }

  lemma PowersMeetAt(k: nat, n: nat, f: nat)
    requires 6 * k == 8 * n + f
    ensures Pow(64, k) == Pow(256, n) * Pow(2, f)
  {
    assert Pow(2, 6) == 64 && Pow(2, 8) == 256;
    PowMul(2, 6, k);
    PowMul(2, 8, n);
    PowAdd(2, 8 * n, f);
  }

  function Encode(s: seq<byte>, c62: char, c63: char): (cs: string) {
    Letters(Sextets(s), c62, c63)
  }

  function FirstGroup(s: seq<byte>): (ds: seq<sextet>)
    requires |s| > 0
  {
    if |s| < 3 then Sextets(s) else Group(s[0], s[1], s[2])
  }

  function From(s: seq<byte>, i: nat): seq<byte> {
    if i < |s| then s[i..] else []
  }

  lemma FirstAndRest(s: seq<byte>, i: nat)
    requires i < |s|
    ensures Sextets(From(s, i)) == FirstGroup(s[i..]) + Sextets(From(s, i + 3))
  {
    var t := s[i..];
    if |t| >= 3 {
      assert t[3..] == From(s, i + 3);
    }
  }

  lemma LettersAppend(ds: seq<sextet>, es: seq<sextet>, c62: char, c63: char)
    ensures Letters(ds + es, c62, c63) == Letters(ds, c62, c63) + Letters(es, c62, c63)
  {
  }

  /** The bits of x go where those of u * 2^k are zero. */
  lemma OrInto(u: nat, x: nat)
    ensures x < 256 ==> Or(u * 256, x) == u * 256 + x
    ensures x < 65536 ==> Or(u * 65536, x) == u * 65536 + x
  {
    Pow2_16();
    if x < 65536 {
      OrDisjoint(u, x, 16);
      if x < 256 {
        OrDisjoint(u, x, 8);
      }
    }
  }

  lemma Pow2_16()
    ensures Pow(2, 8) == 256 && Pow(2, 16) == 65536
  {
    SmallPowers();
    PowAdd(2, 8, 8);
  }

  function ByteOr0(data: seq<byte>, i: nat): byte {
    if i < |data| then data[i] else 0
  }

  /** v = data[i] << 16, then v |= data[i+1] << 8 and v |= data[i+2] for the bytes there are. */
  method GroupWord(data: seq<byte>, i: nat) returns (v: nat)
    requires i < |data|
    ensures v == ((data[i] as int) * 256 + ByteOr0(data, i + 1)) * 256 + ByteOr0(data, i + 2)
  {
    v := (data[i] as int) * 65536;
    if i + 1 < |data| {
      OrInto(data[i], (data[i + 1] as int) * 256);
      v := Or(v, (data[i + 1] as int) * 256);
    }
    if i + 2 < |data| {
      OrInto((data[i] as int) * 256 + data[i + 1], data[i + 2]);
      v := Or(v, data[i + 2]);
    }
  }

  /** The digits of the first group, from its 24 bits. */
  lemma GroupDigits(s: seq<byte>, v: nat)
    requires |s| > 0 && v == ((s[0] as int) * 256 + ByteOr0(s, 1)) * 256 + ByteOr0(s, 2)
    ensures var d, e, f, g := v / 0x4_0000 % 64, v / 0x1000 % 64, v / 64 % 64, v % 64;
      FirstGroup(s) == if |s| == 1 then [d, e] else if |s| == 2 then [d, e, f] else [d, e, f, g]
  {
    var a, b, c := s[0], ByteOr0(s, 1), ByteOr0(s, 2);
    Quarters(a, b, c, v);
    if |s| >= 3 {
      assert FirstGroup(s) == Group(a, b, c);
    }
  }

  /** The characters for one group of up to three bytes. */
  method EncodeGroup(data: seq<byte>, i: nat) returns (piece: string)
    requires i < |data|
    ensures piece == Letters(FirstGroup(data[i..]), '-', '_')
  {
    var v := GroupWord(data, i);
    GroupDigits(data[i..], v);
    piece := [Letter(v / 0x4_0000 % 64, '-', '_'), Letter(v / 0x1000 % 64, '-', '_')];
    if i + 1 < |data| {
      piece := piece + [Letter(v / 64 % 64, '-', '_')];
    }
    if i + 2 < |data| {
      piece := piece + [Letter(v % 64, '-', '_')];
    }
  }

  lemma Quarters(a: byte, b: byte, c: byte, v: nat)
    requires v == (a * 256 + b) * 256 + c
    ensures v / 0x4_0000 % 64 == a / 4 && v / 0x1000 % 64 == a % 4 * 16 + b / 16
    ensures v / 64 % 64 == b % 16 * 4 + c / 64 && v % 64 == c % 64
  {
    GroupValue(a, b, c);
    FourDigits(a / 4, a % 4 * 16 + b / 16, b % 16 * 4 + c / 64, c % 64, v);
  }

  lemma FourDigits(d: sextet, e: sextet, f: sextet, g: sextet, v: nat)
    requires v == ((d * 64 + e) * 64 + f) * 64 + g
    ensures v / 0x4_0000 % 64 == d && v / 0x1000 % 64 == e && v / 64 % 64 == f && v % 64 == g
  {
    assert v / 64 == (d * 64 + e) * 64 + f;
    assert v / 0x1000 == d * 64 + e;
    assert v / 0x4_0000 == d;
  }

  lemma EncodedFrom(data: seq<byte>, i: nat, out: string, piece: string)
    requires i < |data| && piece == Letters(FirstGroup(data[i..]), '-', '_')
    ensures (out + piece) + Encode(From(data, i + 3), '-', '_') == out + Encode(From(data, i), '-', '_')
  {
    FirstAndRest(data, i);
    LettersAppend(FirstGroup(data[i..]), Sextets(From(data, i + 3)), '-', '_');
  }

  /** b64url: groups of three bytes, the last one may be short; no padding. */
  method B64Url(data: seq<byte>) returns (out: string)
    ensures out == Encode(data, '-', '_')
  {
    out := "";
    var i: nat := 0;
    while i < |data|
      invariant out + Encode(From(data, i), '-', '_') == Encode(data, '-', '_')
    {
      var piece := EncodeGroup(data, i);
      EncodedFrom(data, i, out, piece);
      out := out + piece;
      i := i + 3;
    }
  }

  // ---------------------------------------------------------------- the decoders

  /** The places of the characters in the alphabet. */
  function Places(cs: string, c62: char, c63: char): (vs: seq<int>)
    ensures |vs| == |cs|
  {
    seq(|cs|, i requires 0 <= i < |cs| => Place(cs[i], c62, c63))
  }

  /** out is what the digits say: their number without the filling bits, in whole bytes. */
  ghost predicate Decodes(ds: seq<sextet>, out: seq<byte>) {
    |out| == 6 * |ds| / 8 && Num(out, 256) == Num(ds, 64) / Pow(2, 6 * |ds| % 8)
  }

  lemma DecodesOnce(ds: seq<sextet>, out: seq<byte>, other: seq<byte>)
    requires Decodes(ds, out) && Decodes(ds, other)
    ensures out == other
  {
    NumInjective(out, other);
  }

  /** The decoder's state after the digits ds: only the low 32 bits of their number are held, in any representation. */
  ghost predicate Held(ds: seq<sextet>, buf: int, bits: nat, out: seq<byte>) {
    bits == 6 * |ds| % 8 && buf % R32 == Num(ds, 64) % R32 && Decodes(ds, out)
  }

  lemma SameLowByte(x: int, y: int, p: int)
    requires x % R32 == y % R32 && (p == 1 || p == 4 || p == 16)
    ensures x / p % 256 == y / p % 256
  {
    var k := x / R32 - y / R32;
    var q := if p == 1 then 0x100_0000 else if p == 4 then 0x40_0000 else 0x10_0000;
    assert x == y + k * R32;
    QuotientShifted(x, y, k, p);
    ModOfMultiple(y / p, k * q, 256);
  }

  lemma QuotientShifted(x: int, y: int, k: int, p: int)
    requires x == y + k * R32 && (p == 1 || p == 4 || p == 16)
    ensures x / p == y / p + k * (if p == 1 then 0x100_0000 else if p == 4 then 0x40_0000 else 0x10_0000) * 256
  {
    assert x / 4 == y / 4 + k * 0x4000_0000;
    assert x / 16 == y / 16 + k * 0x1000_0000;
  }

  lemma TopByte(n: int, v: sextet, p: int)
    requires p == 1 || p == 4 || p == 16
    ensures (64 * n + v) / p == 256 * (n / (4 * p)) + (64 * n + v) / p % 256
  {
    if p == 1 {
      assert (64 * n + v) / 256 == n / 4;
    } else if p == 4 {
      assert (64 * n + v) / 4 / 256 == n / 16;
    } else {
      assert (64 * n + v) / 16 / 256 == n / 64;
    }
  }

  lemma BitPowers()
    ensures Pow(2, 0) == 1 && Pow(2, 2) == 4 && Pow(2, 4) == 16 && Pow(2, 6) == 64
  {
    SmallPowers();
  }

  lemma BitsLeft(n: nat)
    ensures 6 * n % 8 in {0, 2, 4, 6}
    ensures 6 * n % 8 == 0 ==> 6 * (n + 1) % 8 == 6 && 6 * (n + 1) / 8 == 6 * n / 8
    ensures 6 * n % 8 > 0 ==> 6 * (n + 1) % 8 == 6 * n % 8 - 2 && 6 * (n + 1) / 8 == 6 * n / 8 + 1
  {
    BitsAt(n, n / 4, n % 4);
    if n % 4 == 3 {
      BitsAt(n + 1, n / 4 + 1, 0);
    } else {
      BitsAt(n + 1, n / 4, n % 4 + 1);
    }
  }

  lemma BitsAt(n: nat, q: nat, r: nat)
    requires n == 4 * q + r && r < 4
    ensures 6 * n % 8 == (if r == 0 then 0 else 8 - 2 * r) && 6 * n / 8 == 3 * q + (if r == 0 then 0 else r - 1)
  {
  }

  /** From a whole number of bytes: six bits are kept. */
  lemma DigitKept(ds: seq<sextet>, v: sextet, buf: int, next: int, out: seq<byte>)
    requires Held(ds, buf, 0, out) && next % R32 == (buf * 64 + v) % R32
    ensures Held(ds + [v], next, 6, out)
  {
    BitsLeft(|ds|);
    BitPowers();
    NumSnoc(ds, v, 64);
    Congruent(buf, Num(ds, 64), v);
    assert (Num(ds, 64) * 64 + v) / 64 == Num(ds, 64);
  }

  lemma Congruent(x: int, y: int, v: int)
    requires x % R32 == y % R32
    ensures (x * 64 + v) % R32 == (y * 64 + v) % R32
  {
    var k := x / R32 - y / R32;
    assert x == y + k * R32;
    assert x * 64 + v == y * 64 + v + k * 64 * R32;
  }

  /** With some bits kept: eight bits are there and a byte goes out. */
  lemma DigitWritten(ds: seq<sextet>, v: sextet, buf: int, next: int, bits: nat, out: seq<byte>, c: byte)
    requires bits >= 2 && Held(ds, buf, bits, out) && next % R32 == (buf * 64 + v) % R32
    requires c == next / Pow(2, bits - 2) % 256
    ensures Held(ds + [v], next, bits - 2, out + [c])
  {
    var n, p := Num(ds, 64), Pow(2, bits - 2);
    BitsLeft(|ds|);
    BitPowers();
    assert (p == 1 || p == 4 || p == 16) && Pow(2, bits) == 4 * p;
    NumSnoc(ds, v, 64);
    NumSnoc(out, c, 256);
    Congruent(buf, n, v);
    SameLowByte(next, 64 * n + v, p);
    TopByte(n, v, p);
  }

  lemma PlacesSnoc(cs: string, i: nat)
    requires i < |cs|
    ensures Places(cs[..i + 1], '-', '_') == Places(cs[..i], '-', '_') + [Place(cs[i], '-', '_')]
  {
  }

  /** The decoder of verify_detached: a character outside the alphabet refuses the text, buf is 32 bits wide. */
  method DecodeUrl(cs: string) returns (ok: bool, sig: seq<byte>)
    ensures ok <==> forall i :: 0 <= i < |cs| ==> Place(cs[i], '-', '_') >= 0
    ensures ok ==> Decodes(Places(cs, '-', '_'), sig)
  {
    var buf: u64, bits: nat := 0, 0;
    sig := [];
    BitPowers();
    for i := 0 to |cs|
      invariant forall j :: 0 <= j < i ==> Place(cs[j], '-', '_') >= 0
      invariant Held(Places(cs[..i], '-', '_'), buf, bits, sig) && buf < R32
    {
      var v := Place(cs[i], '-', '_');
      if v < 0 {
        return false, sig;
      }
      buf, bits, sig := PushDigit(Places(cs[..i], '-', '_'), buf, bits, sig, v);
      PlacesSnoc(cs, i);
    }
    assert cs[..|cs|] == cs;
    ok := true;
  }

  /** buf = (buf << 6) | v; bits += 6; and a byte when there are eight bits. */
  method PushDigit(ghost ds: seq<sextet>, buf0: u64, bits0: nat, sig0: seq<byte>, v: sextet)
      returns (buf: u64, bits: nat, sig: seq<byte>)
    requires Held(ds, buf0, bits0, sig0) && buf0 < R32
    ensures Held(ds + [v], buf, bits, sig) && buf < R32
  {
    SixBits(buf0, v);
    buf, bits, sig := Or(buf0 * 64 % R32, v), bits0 + 6, sig0;
    BitsLeft(|ds|);
    if bits >= 8 {
      bits := bits - 8;
      ShiftRightIsDiv(buf, bits);
      DigitWritten(ds, v, buf0, buf, bits0, sig0, ShiftRight(buf, bits) % 256);
      sig := sig + [ShiftRight(buf, bits) % 256];
    } else {
      DigitKept(ds, v, buf0, buf, sig0);
    }
  }

  lemma SixBits(buf: int, v: sextet)
    ensures Or(buf * 64 % R32, v) == Or(buf * 64 % R32, v) % R32 == (buf * 64 + v) % R32
  {
    BitPowers();
    ModIdem(buf * 64 + v, R32);
    var low := buf % 0x400_0000;
    OrDisjoint(low, v, 6);
    ShiftedLow(buf, buf / 0x400_0000, low, v);
  }

  lemma ShiftedLow(x: int, q: int, low: int, v: sextet)
    requires x == q * 0x400_0000 + low && 0 <= low < 0x400_0000
    ensures x * 64 % R32 == low * 64 && (x * 64 + v) % R32 == low * 64 + v
  {
    DivModUnique(x * 64, R32, q, low * 64);
    DivModUnique(x * 64 + v, R32, q, low * 64 + v);
  }

  /** What agent_b64_decode reads: the places of the known characters before the first '='. */
  function Kept(cs: string): (ds: seq<sextet>) {
    if |cs| == 0 || cs[0] == '=' then []
    else if Place(cs[0], '+', '/') < 0 then Kept(cs[1..])
    else [Place(cs[0], '+', '/')] + Kept(cs[1..])
  }

  /** A 32-bit signed integer with the same low bits. */
  function Wrap32(x: int): (y: int)
    ensures -0x8000_0000 <= y < 0x8000_0000 && y % R32 == x % R32
  {
    (x + 0x8000_0000) % R32 - 0x8000_0000
  }

  /** agent_b64_decode: val is a signed int that wraps, bits runs eight behind. */
  method AgentB64Decode(cs: string) returns (out: seq<byte>)
    ensures Decodes(Kept(cs), out)
  {
    var val, bits := 0, -8;
    out := [];
    ghost var ds: seq<sextet> := [];
    BitPowers();
    assert cs[0..] == cs && cs[|cs|..] == [];
    for i := 0 to |cs|
      invariant Held(ds, val, bits + 8, out) && bits >= -8
      invariant ds + Kept(cs[i..]) == Kept(cs)
    {
      assert cs[i..][1..] == cs[i + 1..];
      if cs[i] == '=' {
        assert ds == ds + Kept(cs[i..]);
        break;
      }
      var p := Place(cs[i], '+', '/');
      if p < 0 {
        continue;
      }
      var next := Wrap32(val * 64 + p);
      BitsLeft(|ds|);
      bits := bits + 6;
      if bits >= 0 {
        ShiftRightIsDiv(next, bits);
        DigitWritten(ds, p, val, next, bits + 2, out, ShiftRight(next, bits) % 256);
        out := out + [ShiftRight(next, bits) % 256];
        bits := bits - 8;
      } else {
        DigitKept(ds, p, val, next, out);
      }
      val, ds := next, ds + [p];
    }
    assert ds == ds + [];
  }

  // ---------------------------------------------------------------- round trips

  /** The digits of the encoder decode to the data and to nothing else. */
  lemma SextetsDecode(s: seq<byte>, out: seq<byte>)
    ensures Decodes(Sextets(s), out) <==> out == s
  {
    SextetsNumber(s);
    var ds := Sextets(s);
    FillingBits(|s|);
    assert Decodes(ds, s) by {
      Unscaled(Num(ds, 64), Num(s, 256), Pow(2, Filling(|s|)));
    }
    if Decodes(ds, out) {
      DecodesOnce(ds, out, s);
    }
  }

  lemma FillingBits(n: nat)
    ensures var k := (4 * n + 2) / 3; 6 * k / 8 == n && 6 * k % 8 == Filling(n)
    ensures Pow(2, Filling(n)) > 0
  {
    BitPowers();
    var q := n / 3;
    assert (4 * n + 2) / 3 == 4 * q + (if n % 3 == 0 then 0 else n % 3 + 1);
  }

  lemma Unscaled(x: int, y: int, p: int)
    requires x == y * p && p > 0
    ensures x / p == y
  {
    DivModUnique(x, p, y, 0);
  }

  /** The decoder of verify_detached accepts what b64url wrote and gives the data back, for every byte string. */
  lemma UrlDecodes(s: seq<byte>, sig: seq<byte>)
    ensures Places(Encode(s, '-', '_'), '-', '_') == Sextets(s)
    ensures Decodes(Places(Encode(s, '-', '_'), '-', '_'), sig) <==> sig == s
  {
    PlacesOfLetters(Sextets(s), '-', '_');
    SextetsDecode(s, sig);
  }

  lemma PlacesOfLetters(ds: seq<sextet>, c62: char, c63: char)
    requires Marks(c62, c63)
    ensures Places(Letters(ds, c62, c63), c62, c63) == ds
  {
    forall i | 0 <= i < |ds|
      ensures Place(Letters(ds, c62, c63)[i], c62, c63) == ds[i]
    {
      PlaceOfLetter(Letter(ds[i], c62, c63), ds[i], c62, c63);
    }
  }

  /** The padding of section 4 of RFC 4648. */
  function Padded(s: seq<byte>): string {
    Encode(s, '+', '/') + (if |s| % 3 == 0 then "" else if |s| % 3 == 1 then "==" else "=")
  }

  lemma {:induction false} KeptLetters(ds: seq<sextet>, tail: string)
    requires tail == "" || tail[0] == '='
    ensures Kept(Letters(ds, '+', '/') + tail) == ds
  {
    var cs := Letters(ds, '+', '/') + tail;
    if |ds| > 0 {
      PlaceOfLetter(cs[0], ds[0], '+', '/');
      assert cs[1..] == Letters(ds[1..], '+', '/') + tail;
      KeptLetters(ds[1..], tail);
      assert ds == [ds[0]] + ds[1..];
    } else if tail != "" {
      assert cs == tail;
    }
  }

  /** agent_b64_decode undoes the padded encoding of every byte string. */
  lemma PaddedDecodes(s: seq<byte>, out: seq<byte>)
    ensures Decodes(Kept(Padded(s)), out) <==> out == s
  {
    KeptLetters(Sextets(s), if |s| % 3 == 0 then "" else if |s| % 3 == 1 then "==" else "=");
    SextetsDecode(s, out);
  }

  // ---------------------------------------------------------------- hexadecimal

  function HexDigit(v: int): char
    requires 0 <= v < 16
  {
    if v < 10 then '0' + v as char else 'a' + (v - 10) as char
  }

  function Nib(c: char): (v: int)
    ensures -1 <= v < 16
  {
    if '0' <= c <= '9' then c as int - '0' as int
    else if 'a' <= c <= 'f' then c as int - 'a' as int + 10
    else if 'A' <= c <= 'F' then c as int - 'A' as int + 10
    else -1
  }

  function HexOf(d: seq<byte>): (s: string)
    ensures |s| == 2 * |d|
  {
    seq(2 * |d|, i requires 0 <= i < 2 * |d| => HexDigit(if i % 2 == 0 then d[i / 2] / 16 else d[i / 2] % 16))
  }

  method Hex(d: seq<byte>) returns (s: string)
    ensures s == HexOf(d)
  {
    s := "";
    for i := 0 to |d|
      invariant s == HexOf(d[..i])
    {
      s := s + [HexDigit(d[i] / 16)] + [HexDigit(d[i] % 16)];
    }
    assert d[..|d|] == d;
  }

  ghost predicate IsHex(s: string) {
    |s| % 2 == 0 && forall i :: 0 <= i < |s| ==> Nib(s[i]) >= 0
  }

  function ByteAt(s: string, i: nat): int
    requires 2 * i + 1 < |s|
  {
    Nib(s[2 * i]) * 16 + Nib(s[2 * i + 1])
  }

  /** Nothing for a text that is not hexadecimal, otherwise each pair of digits is a byte. */
  ghost function UnhexOf(s: string): (out: seq<byte>)
    ensures |out| == if IsHex(s) then |s| / 2 else 0
  {
    if IsHex(s) then seq(|s| / 2, i requires 0 <= i < |s| / 2 => ByteAt(s, i)) else []
  }

  /** unhex */
  method Unhex(s: string) returns (out: seq<byte>)
    ensures out == UnhexOf(s)
  {
    out := [];
    if |s| % 2 == 1 {
      return;
    }
    var i: nat := 0;
    while i + 1 < |s|
      invariant i % 2 == 0 && i <= |s| && |out| == i / 2
      invariant forall j :: 0 <= j < i ==> Nib(s[j]) >= 0
      invariant forall j :: 0 <= j < |out| ==> out[j] == ByteAt(s, j)
    {
      var hi, lo := Nib(s[i]), Nib(s[i + 1]);
      if hi < 0 || lo < 0 {
        return [];
      }
      out := out + [hi * 16 + lo];
      assert ByteAt(s, i / 2) == hi * 16 + lo;
      i := i + 2;
    }
    assert IsHex(s);
  }

  /** Reading what hex wrote gives the bytes back. */
  lemma HexRoundTrip(d: seq<byte>)
    ensures UnhexOf(HexOf(d)) == d
  {
    DigitsRead();
    forall i | 0 <= i < |HexOf(d)|
      ensures Nib(HexOf(d)[i]) == if i % 2 == 0 then d[i / 2] / 16 else d[i / 2] % 16
    {
    }
    assert IsHex(HexOf(d));
    forall i | 0 <= i < |d|
      ensures ByteAt(HexOf(d), i) == d[i]
    {
    }
  }

  lemma DigitsRead()
    ensures forall v :: 0 <= v < 16 ==> Nib(HexDigit(v)) == v
  {
  }
}
