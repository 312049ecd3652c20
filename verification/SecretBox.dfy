/** The stream cipher and the sealed boxes of tweetnacl.c. */
module SecretBox {
  import opened Arith
  import opened Radix
  import opened MachineInts
  import opened LittleEndian
  import opened Wrappers
  import Salsa20
  import Poly1305

  // ---------------------------------------------------------------- the key stream

  /** "expand 32-byte k" */
  const SIGMA: seq<byte> := [101, 120, 112, 97, 110, 100, 32, 51, 50, 45, 98, 121, 116, 101, 32, 107]

  type Block64 = s: seq<byte> | |s| == 64 witness seq(64, _ => 0)

  type Key32 = s: seq<byte> | |s| == 32 witness seq(32, _ => 0)

  type Tag16 = s: seq<byte> | |s| == 16 witness seq(16, _ => 0)

  /** The block function and the key derivation that the stream is made from, and the authenticator. */
  datatype Cipher = Cipher(
    block: (seq<byte>, seq<byte>) -> Block64,
    derive: (seq<byte>, seq<byte>) -> Key32,
    tag: (seq<byte>, seq<byte>) -> Tag16)

  function SigmaBlock(z: seq<byte>, k: seq<byte>): Block64 {
    if |z| == 16 && |k| == 32 then Salsa20.Salsa20Block(z, k, SIGMA) else Zeros(64)
  }

  function SigmaDerive(z: seq<byte>, k: seq<byte>): Key32 {
    if |z| == 16 && |k| == 32 then Salsa20.HSalsa20(z, k, SIGMA) else Zeros(32)
  }

  function Authenticator(msg: seq<byte>, key: seq<byte>): Tag16 {
    if |key| == 32 then Poly1305.Tag(msg, key) else Zeros(16)
  }

  const XSALSA20_POLY1305: Cipher := Cipher(SigmaBlock, SigmaDerive, Authenticator)

  /** cp is what the core functions of the library compute. */
  ghost predicate Implemented(cp: Cipher) {
    (forall z: seq<byte>, k: seq<byte> {:trigger Salsa20.Salsa20Block(z, k, SIGMA)} :: |z| == 16 && |k| == 32 ==>
      cp.block(z, k) == Salsa20.Salsa20Block(z, k, SIGMA))
    && (forall z: seq<byte>, k: seq<byte> {:trigger Salsa20.HSalsa20(z, k, SIGMA)} :: |z| == 16 && |k| == 32 ==>
      cp.derive(z, k) == Salsa20.HSalsa20(z, k, SIGMA))
    && (forall m: seq<byte>, k: seq<byte> {:trigger Poly1305.Tag(m, k)} :: |k| == 32 ==>
      cp.tag(m, k) == Poly1305.Tag(m, k))
  }

  lemma XSalsaImplemented()
    ensures Implemented(XSALSA20_POLY1305)
  {
  }

  /** Block i of the key stream: the 8-byte counter i follows the 8-byte nonce. */
  function Block(cp: Cipher, n: seq<byte>, k: seq<byte>, i: nat): (s: Block64) {
    cp.block(n + Bytes(i, 8), k)
  }

  /** The first len bytes of the blocks from i on. */
  function Stream(cp: Cipher, n: seq<byte>, k: seq<byte>, i: nat, len: nat): (s: seq<byte>)
    ensures |s| == len
    decreases len
  {
    if len < 64 then Block(cp, n, k, i)[..len] else Block(cp, n, k, i) + Stream(cp, n, k, i + 1, len - 64)
  }

  /** The key stream for a 24-byte nonce. */
  function XStream(cp: Cipher, n: seq<byte>, k: seq<byte>, len: nat): (s: seq<byte>)
    requires |n| == 24
    ensures |s| == len
  {
    Stream(cp, n[16..], cp.derive(n[..16], k), 0, len)
  }

  lemma {:induction false} StreamPrefix(cp: Cipher, n: seq<byte>, k: seq<byte>, i: nat, short: nat, len: nat)
    requires short <= len
    ensures Stream(cp, n, k, i, len)[..short] == Stream(cp, n, k, i, short)
    decreases len
  {
    var b: seq<byte> := Block(cp, n, k, i);
    if len >= 64 {
      var rest: seq<byte> := Stream(cp, n, k, i + 1, len - 64);
      if short < 64 {
        assert (b + rest)[..short] == b[..short];
      } else {
        StreamPrefix(cp, n, k, i + 1, short - 64, len - 64);
        assert (b + rest)[..short] == b + rest[..short - 64];
      }
    }
  }

  /** Byte p of the stream is byte p % 64 of block p / 64. */
  lemma StreamByte(cp: Cipher, n: seq<byte>, k: seq<byte>, i: nat, len: nat, p: nat)
    requires p < len
    ensures Stream(cp, n, k, i, len)[p] == Block(cp, n, k, i + p / 64)[p % 64]
  {
    StreamAt(cp, n, k, i, len, p, p / 64, p % 64);
  }

  lemma {:induction false} StreamAt(cp: Cipher, n: seq<byte>, k: seq<byte>, i: nat, len: nat, p: nat, q: nat, r: nat)
    requires p == 64 * q + r && r < 64 && p < len
    ensures Stream(cp, n, k, i, len)[p] == Block(cp, n, k, i + q)[r]
    decreases q
  {
    if q > 0 {
      StreamAt(cp, n, k, i + 1, len - 64, p - 64, q - 1, r);
    }
  }

  function XorByte(x: byte, y: byte): (z: byte)
    ensures z == Xor(x, y)
  {
    Pow2Words();
    XorFits(x, y, 8);
    Xor(x, y)
  }

  function XorBytes(s: seq<byte>, t: seq<byte>): (r: seq<byte>)
    requires |s| == |t|
    ensures |r| == |s|
  {
    seq(|s|, i requires 0 <= i < |s| => XorByte(s[i], t[i]))
  }

  /** Encrypting twice with one stream gives the message back. */
  lemma XorTwice(s: seq<byte>, t: seq<byte>)
    requires |s| == |t|
    ensures XorBytes(XorBytes(s, t), t) == s
  {
    forall i | 0 <= i < |s|
      ensures XorByte(XorByte(s[i], t[i]), t[i]) == s[i]
    {
      XorCommutes(s[i], t[i]);
      XorCancel(t[i], s[i]);
      XorCommutes(XorByte(s[i], t[i]), t[i]);
    }
  }

  lemma XorZeros(s: seq<byte>, t: seq<byte>)
    requires |s| == |t| && forall i :: 0 <= i < |s| ==> s[i] == 0
    ensures XorBytes(s, t) == t
  {
    forall i | 0 <= i < |s|
      ensures XorByte(s[i], t[i]) == t[i]
    {
      XorCommutes(0, t[i]);
      XorWithZero(t[i]);
    }
  }

  function Zeros(n: nat): (s: seq<byte>)
    ensures |s| == n && forall i :: 0 <= i < n ==> s[i] == 0
  {
    seq(n, _ => 0)
  }

  // ---------------------------------------------------------------- the code of the stream

  /** The byte-wise carry: the counter in z[8..16] goes up by one. */
  method NextCounter(z: array<byte>, ghost i: nat)
    requires z.Length == 16 && z[8..] == Bytes(i, 8)
    modifies z
    ensures z[8..] == Bytes(i + 1, 8) && z[..8] == old(z[..8])
  {
    var u: u64 := 1;
    ghost var rest: nat, goal := i, Bytes(i + 1, 8);
    assert z[..][8..] == z[8..] && z[..][8..8] == [];
    for j := 8 to 16
      invariant 0 <= u <= 1 && z[..8] == old(z[..8])
      invariant Carrying(z[..], j, u, rest, goal)
    {
      u := CarryPass(z, j, u, rest, goal);
      rest := rest / 256;
    }
    assert z[..][8..16] == z[8..];
  }

  /** The counter bytes before j are those of the goal, those from j on still hold rest. */
  ghost predicate Carrying(z: seq<byte>, j: nat, u: nat, rest: nat, goal: seq<byte>)
    requires |z| == 16 && 8 <= j <= 16
  {
    z[j..] == Bytes(rest, 16 - j) && z[8..j] + Bytes(u + rest, 16 - j) == goal
  }

  method CarryPass(z: array<byte>, j: nat, u0: u64, ghost rest: nat, ghost goal: seq<byte>) returns (u: u64)
    requires z.Length == 16 && 8 <= j < 16 && 0 <= u0 <= 1 && Carrying(z[..], j, u0, rest, goal)
    modifies z
    ensures 0 <= u <= 1 && z[..8] == old(z[..8]) && Carrying(z[..], j + 1, u, rest / 256, goal)
  {
    ghost var before := z[..];
    CarryingOn(before, j, u0, rest, goal);
    u := u0 + z[j];
    z[j] := u % 256;
    u := u / 256;
    assert z[..] == before[j := (u0 + before[j]) % 256];
    assert z[..8] == z[..][..8];
  }

  lemma CarryingOn(z: seq<byte>, j: nat, u: int, rest: nat, goal: seq<byte>)
    requires |z| == 16 && 8 <= j < 16 && 0 <= u <= 1 && Carrying(z, j, u, rest, goal)
    ensures var v := u + z[j]; 0 <= v / 256 <= 1 && Carrying(z[j := v % 256], j + 1, v / 256, rest / 256, goal)
    ensures z[j := (u + z[j]) % 256][..8] == z[..8]
  {
    var next := z[j := (u + z[j]) % 256];
    assert z[j] == rest % 256 && next[j + 1..] == Bytes(rest / 256, 15 - j) by {
      assert z[j..][0] == z[j] && z[j..][1..] == next[j + 1..];
    }
    var done := z[8..j];
    CarryBytes(done, u, rest, 16 - j);
    assert next[j] == (u + rest % 256) % 256 && next[8..j + 1] == done + [next[j]];
  }

  lemma CarryBytes(done: seq<byte>, u: int, rest: nat, n: nat)
    requires 0 <= u <= 1 && n > 0
    ensures 0 <= (u + rest % 256) / 256 <= 1
    ensures done + Bytes(u + rest, n) == done + [(u + rest % 256) % 256] + Bytes((u + rest % 256) / 256 + rest / 256, n - 1)
  {
    CarryStep(u, rest);
  }

  lemma CarryStep(u: int, rest: nat)
    requires 0 <= u <= 1
    ensures (u + rest) % 256 == (u + rest % 256) % 256
    ensures (u + rest) / 256 == (u + rest % 256) / 256 + rest / 256
    ensures 0 <= (u + rest % 256) / 256 <= 1
  {
  }

  /** The bytes of m, or zeros for a null pointer. */
  ghost function Message(m: array?<byte>): (s: seq<byte>)
    reads m
    ensures m != null ==> s == m[..]
  {
    if m == null then [] else m[..]
  }

  ghost function Plain(m: seq<byte>, present: bool, from: nat, len: nat): (s: seq<byte>)
    requires present ==> from + len <= |m|
    ensures |s| == len
  {
    if present then m[from..from + len] else Zeros(len)
  }

  /** FOR(i,len) c[off+i] = (m?m[off+i]:0) ^ x[i] */
  method XorInto(c: array<byte>, m: array?<byte>, off: nat, len: nat, x: array<byte>)
    requires off + len <= c.Length && len <= x.Length && x != c && (m != null ==> off + len <= m.Length)
    modifies c
    ensures c[off..off + len] == XorBytes(Plain(old(Message(m)), m != null, off, len), x[..len])
    ensures forall j :: 0 <= j < c.Length && !(off <= j < off + len) ==> c[j] == old(c[j])
  {
    ghost var p := Plain(Message(m), m != null, off, len);
    for i := 0 to len
      modifies c
      invariant forall j :: 0 <= j < i ==> c[off + j] == XorByte(p[j], x[j])
      invariant forall j :: 0 <= j < c.Length && !(off <= j < off + i) ==> c[j] == old(c[j])
    {
      var mi: byte := 0;
      if m != null {
        assert p[i] == old(m[..])[off + i];
        mi := m[off + i];
      }
      c[off + i] := XorByte(mi, x[i]);
    }
  }

  /** crypto_stream_salsa20_xor; m may be null, or be the buffer c itself. */
  method CryptoStreamSalsa20Xor(ghost cp: Cipher, c: array<byte>, m: array?<byte>, len: nat, n: seq<byte>, k: seq<byte>)
    requires len <= c.Length && (m != null ==> len <= m.Length) && len < 0x1_0000_0000_0000_0000
    requires |n| == 8 && |k| == 32 && Implemented(cp)
    modifies c
    ensures c[..len] == XorBytes(Plain(old(Message(m)), m != null, 0, len), Stream(cp, n, k, 0, len))
    ensures c[len..] == old(c[len..])
  {
    if len == 0 {
      return;
    }
    var z := new byte[16](_ => 0);
    var x := new byte[64](_ => 0);
    for j := 0 to 8
      modifies z
      invariant z[..j] == n[..j] && forall i :: j <= i < 16 ==> z[i] == 0
    {
      z[j] := n[j];
    }
    assert n[..8] == n;
    ZeroCounter(z[8..]);
    StreamLoop(cp, c, m, len, n, k, z, x);
  }

  lemma ZeroCounter(s: seq<byte>)
    requires |s| == 8 && forall i :: 0 <= i < 8 ==> s[i] == 0
    ensures s == Bytes(0, 8)
  {
    ValZeros(s, 256);
    assert Pow(256, 8) > 0 by { PowPositive(256, 8); }
    BytesUnique(s, 0);
  }

  /** What the loop keeps: off bytes are done, the stream from block i on is still to be used. */
  ghost predicate Done(c: seq<byte>, c0: seq<byte>, p: seq<byte>, s: seq<byte>, off: nat)
    requires |p| == |s| <= |c| == |c0| && off <= |p|
  {
    c[..off] == XorBytes(p[..off], s[..off]) && c[off..] == c0[off..]
  }

  lemma AllDone(c: seq<byte>, c0: seq<byte>, p: seq<byte>, s: seq<byte>)
    requires |p| == |s| <= |c| == |c0| && Done(c, c0, p, s, |p|)
    ensures c[..|p|] == XorBytes(p, s) && c[|p|..] == c0[|p|..]
  {
    assert p[..|p|] == p && s[..|p|] == s;
  }

  lemma DoneMore(c: seq<byte>, d: seq<byte>, c0: seq<byte>, p: seq<byte>, s: seq<byte>, off: nat, n: nat)
    requires |p| == |s| <= |c| == |c0| == |d| && off + n <= |p| && Done(c, c0, p, s, off)
    requires d[off..off + n] == XorBytes(p[off..off + n], s[off..off + n])
    requires forall j :: 0 <= j < |c| && !(off <= j < off + n) ==> d[j] == c[j]
    ensures Done(d, c0, p, s, off + n)
  {
    var e := off + n;
    forall j | 0 <= j < e
      ensures d[..e][j] == XorBytes(p[..e], s[..e])[j]
    {
      if j < off {
        assert c[..off][j] == XorBytes(p[..off], s[..off])[j];
      } else {
        assert d[off..e][j - off] == XorBytes(p[off..e], s[off..e])[j - off];
      }
    }
    forall j | e <= j < |d|
      ensures d[j] == c0[j]
    {
      assert c[off..][j - off] == c0[off..][j - off];
    }
  }

  /** p is what the loop reads through m, when c held c0 at the start. */
  ghost predicate Reads(m: array?<byte>, c: array<byte>, c0: seq<byte>, p: seq<byte>)
    requires |p| <= |c0|
    reads m
  {
    if m == null then p == Zeros(|p|) else if m == c then p == c0[..|p|] else |p| <= m.Length && p == m[..|p|]
  }

  lemma NextPlain(m: array?<byte>, c: array<byte>, c0: seq<byte>, p: seq<byte>, off: nat, b: nat)
    requires off + b <= |p| <= |c0| == c.Length && c[off..] == c0[off..] && Reads(m, c, c0, p)
    ensures m != null ==> off + b <= m.Length
    ensures p[off..off + b] == Plain(Message(m), m != null, off, b)
  {
    if m == null {
      assert p[off..off + b] == Zeros(b);
    } else if m == c {
      assert p[off..off + b] == c0[off..][..b];
      assert c[off..off + b] == c[off..][..b];
    } else {
      assert p[off..off + b] == m[off..off + b];
    }
  }

  method BlockInto(ghost cp: Cipher, x: array<byte>, z: seq<byte>, k: seq<byte>)
    requires x.Length == 64 && |z| == 16 && |k| == 32 && Implemented(cp)
    modifies x
    ensures x[..] == cp.block(z, k)
  {
    Salsa20.CryptoCoreSalsa20(x, z, k, SIGMA);
  }

  method DeriveInto(ghost cp: Cipher, s: array<byte>, z: seq<byte>, k: seq<byte>)
    requires s.Length == 32 && |z| == 16 && |k| == 32 && Implemented(cp)
    modifies s
    ensures s[..] == cp.derive(z, k)
  {
    Salsa20.CryptoCoreHSalsa20(s, z, k, SIGMA);
  }

  /** One pass: x is the block for z, n bytes of it are used. */
  method StreamStep(ghost cp: Cipher, c: array<byte>, m: array?<byte>, off: nat, b: nat, z: array<byte>, x: array<byte>, k: seq<byte>,
      ghost n: seq<byte>, ghost i: nat, ghost c0: seq<byte>, ghost p: seq<byte>, ghost s: seq<byte>)
    requires z != c && x != c && z != x && m != z && m != x && z.Length == 16 && x.Length == 64 && |n| == 8 && |k| == 32 && Implemented(cp)
    requires b <= 64 && off + b <= |p| == |s| <= c.Length == |c0| && (m != null ==> |p| <= m.Length)
    requires z[..] == n + Bytes(i, 8) && Done(c[..], c0, p, s, off) && s[off..off + b] == Block(cp, n, k, i)[..b]
    requires Reads(m, c, c0, p)
    modifies c, x
    ensures Done(c[..], c0, p, s, off + b)
  {
    ghost var before := c[..];
    NextPlain(m, c, c0, p, off, b);
    BlockInto(cp, x, z[..], k);
    assert x[..b] == Block(cp, n, k, i)[..b];
    XorInto(c, m, off, b, x);
    DoneMore(before, c[..], c0, p, s, off, b);
  }

  /** One pass with a whole block, after which the counter is increased. */
  method WholeBlock(ghost cp: Cipher, c: array<byte>, m: array?<byte>, off: nat, z: array<byte>, x: array<byte>, k: seq<byte>,
      ghost n: seq<byte>, ghost i: nat, ghost c0: seq<byte>, ghost p: seq<byte>, ghost s: seq<byte>)
    requires z != c && x != c && z != x && m != z && m != x && z.Length == 16 && x.Length == 64 && |n| == 8 && |k| == 32 && Implemented(cp)
    requires off + 64 <= |p| == |s| <= c.Length == |c0| && (m != null ==> |p| <= m.Length)
    requires z[..] == n + Bytes(i, 8) && Done(c[..], c0, p, s, off) && s[off..] == Stream(cp, n, k, i, |s| - off)
    requires Reads(m, c, c0, p)
    modifies c, z, x
    ensures Done(c[..], c0, p, s, off + 64) && z[..] == n + Bytes(i + 1, 8)
  {
    assert s[off..off + 64] == s[off..][..64];
    StreamStep(cp, c, m, off, 64, z, x, k, n, i, c0, p, s);
    assert z[8..] == Bytes(i, 8) && z[..8] == n;
    NextCounter(z, i);
    assert z[..] == z[..8] + z[8..];
  }

  /** What is left is less than a block. */
  method LastBlock(ghost cp: Cipher, c: array<byte>, m: array?<byte>, off: nat, b: nat, z: array<byte>, x: array<byte>, k: seq<byte>,
      ghost n: seq<byte>, ghost i: nat, ghost c0: seq<byte>, ghost p: seq<byte>, ghost s: seq<byte>)
    requires z != c && x != c && z != x && m != z && m != x && z.Length == 16 && x.Length == 64 && |n| == 8 && |k| == 32 && Implemented(cp)
    requires b < 64 && off + b == |p| == |s| <= c.Length == |c0| && (m != null ==> |p| <= m.Length)
    requires z[..] == n + Bytes(i, 8) && Done(c[..], c0, p, s, off) && s[off..] == Stream(cp, n, k, i, b)
    requires Reads(m, c, c0, p)
    modifies c, x
    ensures c[..|p|] == XorBytes(p, s) && c[|p|..] == c0[|p|..]
  {
    if b > 0 {
      assert s[off..off + b] == s[off..];
      StreamStep(cp, c, m, off, b, z, x, k, n, i, c0, p, s);
    }
    AllDone(c[..], c0, p, s);
  }

  method StreamLoop(ghost cp: Cipher, c: array<byte>, m: array?<byte>, len: nat, n: seq<byte>, k: seq<byte>, z: array<byte>, x: array<byte>)
    requires z != c && x != c && z != x && m != z && m != x && z.Length == 16 && x.Length == 64 && |n| == 8 && |k| == 32 && Implemented(cp)
    requires len <= c.Length && (m != null ==> len <= m.Length) && z[..] == n + Bytes(0, 8)
    modifies c, z, x
    ensures c[..len] == XorBytes(Plain(old(Message(m)), m != null, 0, len), Stream(cp, n, k, 0, len))
    ensures c[len..] == old(c[len..])
  {
    ghost var c0, p, s := c[..], Plain(Message(m), m != null, 0, len), Stream(cp, n, k, 0, len);
    var off: nat, b: nat := 0, len;
    ghost var i: nat := 0;
    while b >= 64
      invariant off + b == len && z[..] == n + Bytes(i, 8)
      invariant Done(c[..], c0, p, s, off) && s[off..] == Stream(cp, n, k, i, b)
      invariant Reads(m, c, c0, p)
    {
      WholeBlock(cp, c, m, off, z, x, k, n, i, c0, p, s);
      off, b, i := off + 64, b - 64, i + 1;
    }
    LastBlock(cp, c, m, off, b, z, x, k, n, i, c0, p, s);
  }

  // ---------------------------------------------------------------- sealed boxes

  /** crypto_stream */
  method CryptoStream(ghost cp: Cipher, c: array<byte>, d: nat, n: seq<byte>, k: seq<byte>)
    requires d <= c.Length && d < 0x1_0000_0000_0000_0000 && |n| == 24 && |k| == 32 && Implemented(cp)
    modifies c
    ensures c[..d] == XStream(cp, n, k, d) && c[d..] == old(c[d..])
  {
    var s := new byte[32];
    DeriveInto(cp, s, n[..16], k);
    CryptoStreamSalsa20Xor(cp, c, null, d, n[16..], s[..]);
    XorZeros(Zeros(d), XStream(cp, n, k, d));
  }

  /** crypto_stream_xor */
  method CryptoStreamXor(ghost cp: Cipher, c: array<byte>, m: array<byte>, d: nat, n: seq<byte>, k: seq<byte>)
    requires d <= c.Length && d <= m.Length && d < 0x1_0000_0000_0000_0000 && |n| == 24 && |k| == 32 && Implemented(cp)
    modifies c
    ensures c[..d] == XorBytes(old(m[..d]), XStream(cp, n, k, d)) && c[d..] == old(c[d..])
  {
    var s := new byte[32];
    DeriveInto(cp, s, n[..16], k);
    CryptoStreamSalsa20Xor(cp, c, m, d, n[16..], s[..]);
    assert old(m[..])[0..d] == old(m[..d]);
  }

  /** The box for an encrypted message: its first 32 bytes are the authenticator's key and are replaced. */
  function Box(cp: Cipher, x: seq<byte>): (c: seq<byte>)
    requires |x| >= 32
    ensures |c| == |x|
  {
    Zeros(16) + cp.tag(x[32..], x[..32]) + x[32..]
  }

  function Seal(cp: Cipher, m: seq<byte>, n: seq<byte>, k: seq<byte>): (c: seq<byte>)
    requires |m| >= 32 && |n| == 24
    ensures |c| == |m|
  {
    Box(cp, XorBytes(m, XStream(cp, n, k, |m|)))
  }

  /** What opening a box gives; the first 16 bytes of the box are not looked at. */
  function Open(cp: Cipher, c: seq<byte>, n: seq<byte>, k: seq<byte>): (m: Option<seq<byte>>)
    requires |c| >= 32 && |n| == 24
    ensures m.Some? ==> |m.value| == |c|
  {
    if c[16..32] == cp.tag(c[32..], XStream(cp, n, k, 32)) then
      Some(Zeros(32) + XorBytes(c, XStream(cp, n, k, |c|))[32..])
    else None
  }

  /** crypto_secretbox: seals m into c, which may be the same buffer. */
  method CryptoSecretbox(ghost cp: Cipher, c: array<byte>, m: array<byte>, d: nat, n: seq<byte>, k: seq<byte>) returns (r: int)
    requires d <= c.Length && d <= m.Length && d < 0x1_0000_0000_0000_0000 && |n| == 24 && |k| == 32 && Implemented(cp)
    modifies c
    ensures d < 32 ==> r == -1 && c[..] == old(c[..])
    ensures d >= 32 ==> r == 0 && c[..d] == Seal(cp, old(m[..d]), n, k) && c[d..] == old(c[d..])
  {
    if d < 32 {
      return -1;
    }
    CryptoStreamXor(cp, c, m, d, n, k);
    ghost var x := c[..d];
    Authenticate(cp, c, d, x);
    r := 0;
  }

  /** The authenticator goes to c+16, with the message at c+32 and the key at c; then the first 16 bytes are cleared. */
  method Authenticate(ghost cp: Cipher, c: array<byte>, d: nat, ghost x: seq<byte>)
    requires 32 <= d <= c.Length && x == c[..d] && Implemented(cp)
    modifies c
    ensures c[..d] == Box(cp, x) && c[d..] == old(c[d..])
  {
    ghost var tail := c[32..];
    assert c[32..32 + (d - 32)] == x[32..] && c[0..0 + 32] == x[..32];
    Poly1305.CryptoOnetimeauth(c, 16, c, 32, d - 32, c, 0);
    assert c[16 + 16..] == tail;
    ghost var t := c[16..32];
    assert t == cp.tag(x[32..], x[..32]);
    for i := 0 to 16
      invariant forall j :: 0 <= j < i ==> c[j] == 0
      invariant c[16..32] == t && c[32..] == tail
    {
      c[i] := 0;
    }
    assert c[..16] == Zeros(16);
    assert c[32..d] == tail[..d - 32] by { assert c[32..d] == c[32..][..d - 32]; }
    assert c[..d] == c[..16] + c[16..32] + c[32..d];
    assert c[d..] == tail[d - 32..];
  }

  /** crypto_secretbox_open: m is written only when the tag is right; m may be the buffer c. */
  method CryptoSecretboxOpen(ghost cp: Cipher, m: array<byte>, c: array<byte>, d: nat, n: seq<byte>, k: seq<byte>) returns (r: int)
    requires d <= c.Length && d <= m.Length && d < 0x1_0000_0000_0000_0000 && |n| == 24 && |k| == 32 && Implemented(cp)
    modifies m
    ensures d < 32 ==> r == -1
    ensures d >= 32 ==> r == if Open(cp, old(c[..d]), n, k).Some? then 0 else -1
    ensures r == 0 ==> m[..d] == Open(cp, old(c[..d]), n, k).value && m[d..] == old(m[d..])
    ensures r != 0 ==> m[..] == old(m[..])
  {
    if d < 32 {
      return -1;
    }
    ghost var c0 := c[..d];
    var ok := CheckTag(cp, c, d, n, k);
    if ok != 0 {
      return -1;
    }
    CryptoStreamXor(cp, m, c, d, n, k);
    ghost var x, rest := m[..d], m[d..];
    for i := 0 to 32
      modifies m
      invariant forall j :: 0 <= j < i ==> m[j] == 0
      invariant m[32..d] == x[32..] && m[d..] == rest
    {
      m[i] := 0;
    }
    assert m[..d] == m[..32] + m[32..d];
    assert m[..32] == Zeros(32);
    r := 0;
  }

  method CheckTag(ghost cp: Cipher, c: array<byte>, d: nat, n: seq<byte>, k: seq<byte>) returns (r: int)
    requires 32 <= d <= c.Length && |n| == 24 && |k| == 32 && Implemented(cp)
    ensures r == if Open(cp, c[..d], n, k).Some? then 0 else -1
  {
    var x := new byte[32];
    CryptoStream(cp, x, 32, n, k);
    assert c[32..32 + (d - 32)] == c[..d][32..] && x[..32] == XStream(cp, n, k, 32);
    assert c[16..32] == c[..d][16..32];
    r := Poly1305.CryptoOnetimeauthVerify(c[16..32], c, 32, d - 32, x);
    assert Poly1305.Tag(c[..d][32..], XStream(cp, n, k, 32)) == cp.tag(c[..d][32..], XStream(cp, n, k, 32));
  }

  // ---------------------------------------------------------------- sealing and opening undo each other

  lemma XorPrefix(s: seq<byte>, t: seq<byte>, i: nat)
    requires |s| == |t| && i <= |s|
    ensures XorBytes(s, t)[..i] == XorBytes(s[..i], t[..i]) && XorBytes(s, t)[i..] == XorBytes(s[i..], t[i..])
  {
  }

  /** For a message with 32 leading zero bytes the authenticator's key is the start of the key stream. */
  lemma KeyOfBox(cp: Cipher, m: seq<byte>, n: seq<byte>, k: seq<byte>)
    requires |m| >= 32 && |n| == 24 && m[..32] == Zeros(32)
    ensures XorBytes(m, XStream(cp, n, k, |m|))[..32] == XStream(cp, n, k, 32)
  {
    var s := XStream(cp, n, k, |m|);
    XorPrefix(m, s, 32);
    XorZeros(m[..32], s[..32]);
    StreamPrefix(cp, n[16..], cp.derive(n[..16], k), 0, 32, |m|);
  }

  /** Opening what was sealed gives the message. */
  lemma OpenSealed(cp: Cipher, m: seq<byte>, n: seq<byte>, k: seq<byte>)
    requires |m| >= 32 && |n| == 24 && m[..32] == Zeros(32)
    ensures Open(cp, Seal(cp, m, n, k), n, k) == Some(m)
  {
    var s := XStream(cp, n, k, |m|);
    var x, c := XorBytes(m, s), Seal(cp, m, n, k);
    KeyOfBox(cp, m, n, k);
    assert c[16..32] == cp.tag(x[32..], x[..32]);
    assert c[32..] == x[32..];
    XorPrefix(c, s, 32);
    XorPrefix(x, s, 32);
    XorTwice(m, s);
    assert m == m[..32] + m[32..];
  }

  lemma BodyAgain(c: seq<byte>, s: seq<byte>, m: seq<byte>)
    requires |c| == |s| == |m| >= 32 && m[32..] == XorBytes(c, s)[32..]
    ensures XorBytes(m, s)[32..] == c[32..]
  {
    XorPrefix(m, s, 32);
    XorPrefix(c, s, 32);
    XorTwice(c[32..], s[32..]);
  }

  /** Only sealed messages open: whatever is accepted is, from byte 16 on, the box of the message it gives. */
  lemma SealOpened(cp: Cipher, c: seq<byte>, n: seq<byte>, k: seq<byte>)
    requires |c| >= 32 && |n| == 24 && Open(cp, c, n, k).Some?
    ensures var m := Open(cp, c, n, k).value; m[..32] == Zeros(32) && Seal(cp, m, n, k) == Zeros(16) + c[16..]
  {
    var s, m := XStream(cp, n, k, |c|), Open(cp, c, n, k).value;
    assert m[..32] == Zeros(32);
    BodyAgain(c, s, m);
    KeyOfBox(cp, m, n, k);
    BoxParts(cp, XorBytes(m, s), c);
  }

  lemma BoxParts(cp: Cipher, x: seq<byte>, c: seq<byte>)
    requires |x| == |c| >= 32 && x[32..] == c[32..] && c[16..32] == cp.tag(x[32..], x[..32])
    ensures Box(cp, x) == Zeros(16) + c[16..]
  {
    assert c[16..] == c[16..32] + c[32..];
  }
}
