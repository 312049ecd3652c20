/** crypto_hash against SHA-512 of FIPS 180-4. */
module Sha512 {
  import opened Arith
  import opened Radix
  import opened MachineInts

  // ---------------------------------------------------------------- big-endian words

  function BE(s: seq<byte>): (v: int)
  {
    Num(s, 256)
  }

  function BEBytes(v: int, n: nat): (s: seq<byte>)
    ensures |s| == n
    decreases n, v
  {
    if n == 0 then [] else BEBytes(v / 256, n - 1) + [v % 256]
  }

  lemma {:induction false} BERoundTrip(v: int, n: nat)
    requires 0 <= v < Pow(256, n)
    ensures BE(BEBytes(v, n)) == v
    decreases n
  {
    if n > 0 {
      BERoundTrip(v / 256, n - 1);
      assert BEBytes(v, n)[..n - 1] == BEBytes(v / 256, n - 1);
    }
  }

  lemma {:induction false} BEBound(s: seq<byte>)
    ensures 0 <= BE(s) < Pow(256, |s|)
  {
    if |s| > 0 {
      BEBound(s[..|s| - 1]);
    }
  }

  lemma {:induction false} BESplit(v: int, m: nat, n: nat)
    requires v >= 0
    ensures Pow(256, n) > 0 && BEBytes(v, m + n) == BEBytes(v / Pow(256, n), m) + BEBytes(v % Pow(256, n), n)
    decreases n
  {
    PowPositive(256, n);
    if n == 0 {
      assert v / 1 == v;
    } else {
      PowPositive(256, n - 1);
      BESplit(v / 256, m, n - 1);
      DivDiv(v, 256, Pow(256, n - 1));
      LowDigit(v, Pow(256, n - 1));
    }
  }

  /** dl64 */
  method Dl64(x: seq<byte>) returns (u: u64)
    requires |x| >= 8
    ensures u == BE(x[..8])
  {
    u := 0;
    for i := 0 to 8
      invariant u == BE(x[..i])
    {
      assert x[..i + 1][..i] == x[..i];
      BEBound(x[..i]);
      SevenBytes(i);
      u := ShiftIn(u, x[i]);
    }
  }

  lemma WordPowers(n: nat)
    requires n == 8
    ensures Pow(256, n) == R64
  {
    assert Pow(256, 8) == R64;
  }

  lemma SevenBytes(n: nat)
    requires n < 8
    ensures Pow(256, n) <= 0x100_0000_0000_0000
  {
    PowPositive(256, n);
    PowPositive(256, 7 - n);
    PowAdd(256, n, 7 - n);
    assert Pow(256, 7) == 0x100_0000_0000_0000;
    MulLe(1, Pow(256, 7 - n), Pow(256, n));
  }

  /** ts64 at x[off..off + 8] */
  method Ts64(x: array<byte>, off: nat, u0: u64)
    requires off + 8 <= x.Length
    modifies x
    ensures x[off..off + 8] == BEBytes(u0, 8)
    ensures x[..off] == old(x[..off]) && x[off + 8..] == old(x[off + 8..])
  {
    var u := u0;
    var i := 7;
    while i >= 0
      invariant -1 <= i <= 7 && u >= 0
      invariant BEBytes(u, i + 1) + x[off + i + 1..off + 8] == BEBytes(u0, 8)
      invariant x[..off] == old(x[..off]) && x[off + 8..] == old(x[off + 8..])
    {
      ghost var rest := x[off + i + 1..off + 8];
      x[off + i] := u % 256;
      assert x[off + i..off + 8] == [u % 256] + rest;
      u := u / 256;
      i := i - 1;
    }
    assert x[off + i + 1..off + 8] == x[off..off + 8];
  }

  // ---------------------------------------------------------------- FIPS 180-4, sections 4.1.3, 4.2.3, 5.3.5

  /** ROTR on 64-bit words: (x >> c) | (x << (64 - c)). */
  function Rotr(x: int, c: nat): int
    requires c <= 64
  {
    Or(ShiftRight(x, c), ShiftLeft(x, 64 - c) % R64)
  }

  function Ch(x: int, y: int, z: int): int { Xor(And(x, y), And(Not(x), z)) }
  function Maj(x: int, y: int, z: int): int { Xor(Xor(And(x, y), And(x, z)), And(y, z)) }
  function BigSigma0(x: int): int { Xor(Xor(Rotr(x, 28), Rotr(x, 34)), Rotr(x, 39)) }
  function BigSigma1(x: int): int { Xor(Xor(Rotr(x, 14), Rotr(x, 18)), Rotr(x, 41)) }
  function SmallSigma0(x: int): int { Xor(Xor(Rotr(x, 1), Rotr(x, 8)), ShiftRight(x, 7)) }
  function SmallSigma1(x: int): int { Xor(Xor(Rotr(x, 19), Rotr(x, 61)), ShiftRight(x, 6)) }

  /**
   * The six logical functions and the eighty constants.  The rest of the algorithm does not look
   * inside them, so they are parameters everywhere but in Sha512 and CryptoHash.
   */
  datatype Logic = Logic(
    ch: (int, int, int) -> int,
    maj: (int, int, int) -> int,
    bigSigma0: int -> int,
    bigSigma1: int -> int,
    smallSigma0: int -> int,
    smallSigma1: int -> int,
    k: int -> int)

  const K_00: seq<u64> := [
    0x428a2f98_d728ae22, 0x71374491_23ef65cd, 0xb5c0fbcf_ec4d3b2f, 0xe9b5dba5_8189dbbc,
    0x3956c25b_f348b538, 0x59f111f1_b605d019, 0x923f82a4_af194f9b, 0xab1c5ed5_da6d8118,
    0xd807aa98_a3030242, 0x12835b01_45706fbe, 0x243185be_4ee4b28c, 0x550c7dc3_d5ffb4e2,
    0x72be5d74_f27b896f, 0x80deb1fe_3b1696b1, 0x9bdc06a7_25c71235, 0xc19bf174_cf692694
  ]

  const K_16: seq<u64> := [
    0xe49b69c1_9ef14ad2, 0xefbe4786_384f25e3, 0x0fc19dc6_8b8cd5b5, 0x240ca1cc_77ac9c65,
    0x2de92c6f_592b0275, 0x4a7484aa_6ea6e483, 0x5cb0a9dc_bd41fbd4, 0x76f988da_831153b5,
    0x983e5152_ee66dfab, 0xa831c66d_2db43210, 0xb00327c8_98fb213f, 0xbf597fc7_beef0ee4,
    0xc6e00bf3_3da88fc2, 0xd5a79147_930aa725, 0x06ca6351_e003826f, 0x14292967_0a0e6e70
  ]

  const K_32: seq<u64> := [
    0x27b70a85_46d22ffc, 0x2e1b2138_5c26c926, 0x4d2c6dfc_5ac42aed, 0x53380d13_9d95b3df,
    0x650a7354_8baf63de, 0x766a0abb_3c77b2a8, 0x81c2c92e_47edaee6, 0x92722c85_1482353b,
    0xa2bfe8a1_4cf10364, 0xa81a664b_bc423001, 0xc24b8b70_d0f89791, 0xc76c51a3_0654be30,
    0xd192e819_d6ef5218, 0xd6990624_5565a910, 0xf40e3585_5771202a, 0x106aa070_32bbd1b8
  ]

  const K_48: seq<u64> := [
    0x19a4c116_b8d2d0c8, 0x1e376c08_5141ab53, 0x2748774c_df8eeb99, 0x34b0bcb5_e19b48a8,
    0x391c0cb3_c5c95a63, 0x4ed8aa4a_e3418acb, 0x5b9cca4f_7763e373, 0x682e6ff3_d6b2b8a3,
    0x748f82ee_5defb2fc, 0x78a5636f_43172f60, 0x84c87814_a1f0ab72, 0x8cc70208_1a6439ec,
    0x90befffa_23631e28, 0xa4506ceb_de82bde9, 0xbef9a3f7_b2c67915, 0xc67178f2_e372532b
  ]

  const K_64: seq<u64> := [
    0xca273ece_ea26619c, 0xd186b8c7_21c0c207, 0xeada7dd6_cde0eb1e, 0xf57d4f7f_ee6ed178,
    0x06f067aa_72176fba, 0x0a637dc5_a2c898a6, 0x113f9804_bef90dae, 0x1b710b35_131c471b,
    0x28db77f5_23047d84, 0x32caab7b_40c72493, 0x3c9ebe0a_15c9bebc, 0x431d67c4_9c100d4c,
    0x4cc5d4be_cb3e42b6, 0x597f299c_fc657e2a, 0x5fcb6fab_3ad6faec, 0x6c44198c_4a475817
  ]

  const K: seq<u64> := K_00 + K_16 + K_32 + K_48 + K_64

  const SHA2: Logic := Logic(Ch, Maj, BigSigma0, BigSigma1, SmallSigma0, SmallSigma1, i => if 0 <= i < |K| then K[i] else 0)

  const H0: seq<u64> := [
    0x6a09e667_f3bcc908, 0xbb67ae85_84caa73b, 0x3c6ef372_fe94f82b, 0xa54ff53a_5f1d36f1,
    0x510e527f_ade682d1, 0x9b05688c_2b3e6c1f, 0x1f83d9ab_fb41bd6b, 0x5be0cd19_137e2179
  ]

  // ---------------------------------------------------------------- FIPS 180-4, section 6.4

  /** W_t of section 6.4.2, step 1, for a 128-byte block. */
  function Schedule(g: Logic, block: seq<byte>, t: nat): (w: int)
    requires |block| == 128
    ensures 0 <= w < R64
  {
    if t < 16 then
      WordPowers(8);
      BEBound(block[8 * t..8 * t + 8]);
      BE(block[8 * t..8 * t + 8])
    else
      (g.smallSigma1(Schedule(g, block, t - 2)) + Schedule(g, block, t - 7) + g.smallSigma0(Schedule(g, block, t - 15)) + Schedule(g, block, t - 16)) % R64
  }

  /** Step 3: one round on the working variables a .. h. */
  function Round(g: Logic, s: seq<u64>, k: int, w: int): (s': seq<u64>)
    requires |s| == 8
    ensures |s'| == 8
  {
    Shifted(s, T1(g, s, k, w), T2(g, s))
  }

  function Shifted(s: seq<u64>, t1: int, t2: int): (s': seq<u64>)
    requires |s| == 8
    ensures |s'| == 8
  {
    [(t1 + t2) % R64, s[0], s[1], s[2], (s[3] + t1) % R64, s[4], s[5], s[6]]
  }

  function T1(g: Logic, s: seq<u64>, k: int, w: int): int
    requires |s| == 8
  {
    (s[7] + g.bigSigma1(s[4]) + g.ch(s[4], s[5], s[6]) + k + w) % R64
  }

  function T2(g: Logic, s: seq<u64>): int
    requires |s| == 8
  {
    g.bigSigma0(s[0]) + g.maj(s[0], s[1], s[2])
  }

  function ScheduleList(g: Logic, block: seq<byte>, n: nat): (ws: seq<u64>)
    requires |block| == 128
    ensures |ws| == n
  {
    seq(n, t requires 0 <= t < n => Schedule(g, block, t))
  }

  function Rounds(g: Logic, h: seq<u64>, ws: seq<u64>, t: nat): (s: seq<u64>)
    requires |h| == 8 && t <= |ws|
    ensures |s| == 8
  {
    if t == 0 then h else Round(g, Rounds(g, h, ws, t - 1), g.k(t - 1), ws[t - 1])
  }

  /** Step 4: the words of the two states are added. */
  function AddWords(s: seq<u64>, h: seq<u64>): (r: seq<u64>)
    requires |s| == |h| == 8
    ensures |r| == 8
  {
    seq(8, i requires 0 <= i < 8 => (s[i] + h[i]) % R64)
  }

  function Compress(g: Logic, h: seq<u64>, block: seq<byte>): (s: seq<u64>)
    requires |h| == 8 && |block| == 128
    ensures |s| == 8
  {
    AddWords(Rounds(g, h, ScheduleList(g, block, 80), 80), h)
  }

  /** The hash value after all whole blocks of m. */
  function HashBlocks(g: Logic, h: seq<u64>, m: seq<byte>): (s: seq<u64>)
    requires |h| == 8
    ensures |s| == 8
    decreases |m|
  {
    if |m| < 128 then h else HashBlocks(g, Compress(g, h, m[..128]), m[128..])
  }

  /** Section 5.1.2. */
  function Pad(m: seq<byte>): seq<byte> {
    m + [128] + seq((111 - |m|) % 128, _ => 0) + BEBytes(8 * |m|, 16)
  }

  function WordsToBytes(h: seq<u64>): (s: seq<byte>)
    ensures |s| == 8 * |h|
  {
    if |h| == 0 then [] else WordsToBytes(h[..|h| - 1]) + BEBytes(h[|h| - 1], 8)
  }

  function HashWith(g: Logic, m: seq<byte>): (d: seq<byte>)
    ensures |d| == 64
  {
    assert |H0| == 8;
    WordsToBytes(HashBlocks(g, H0, Pad(m)))
  }

  function Sha512(m: seq<byte>): (d: seq<byte>)
    ensures |d| == 64
  {
    HashWith(SHA2, m)
  }

  // ---------------------------------------------------------------- tweetnacl.c

  /** The recurrence of the schedule, on a list of words. */
  function NextWord(g: Logic, ws: seq<u64>, t: nat): int
    requires 16 <= t <= |ws|
  {
    (ws[t - 16] + ws[t - 7] + g.smallSigma0(ws[t - 15]) + g.smallSigma1(ws[t - 2])) % R64
  }

  ghost predicate IsSchedule(g: Logic, ws: seq<u64>) {
    forall t {:trigger NextWord(g, ws, t)} :: 16 <= t < |ws| ==> ws[t] == NextWord(g, ws, t)
  }

  lemma ScheduleListIsSchedule(g: Logic, block: seq<byte>, n: nat)
    requires |block| == 128
    ensures IsSchedule(g, ScheduleList(g, block, n))
  {
    var ws := ScheduleList(g, block, n);
    forall t | 16 <= t < n
      ensures ws[t] == NextWord(g, ws, t)
    {
      ScheduleStep(g, block, t);
      assert ws[t - 16] == Schedule(g, block, t - 16) && ws[t - 7] == Schedule(g, block, t - 7);
      assert ws[t - 15] == Schedule(g, block, t - 15) && ws[t - 2] == Schedule(g, block, t - 2);
    }
  }

  lemma ScheduleStep(g: Logic, block: seq<byte>, t: nat)
    requires |block| == 128 && t >= 16
    ensures Schedule(g, block, t) == (Schedule(g, block, t - 16) + Schedule(g, block, t - 7) + g.smallSigma0(Schedule(g, block, t - 15)) + g.smallSigma1(Schedule(g, block, t - 2))) % R64
  {
  }

  /** w[j] += w[(j+9)%16] + sigma0(w[(j+1)%16]) + sigma1(w[(j+14)%16]), in place: the next sixteen words. */
  method RollSchedule(g: Logic, w: array<u64>, ghost ws: seq<u64>, ghost base: nat)
    requires w.Length == 16 && base + 32 <= |ws| && IsSchedule(g, ws)
    requires w[..] == ws[base..base + 16]
    modifies w
    ensures w[..] == ws[base + 16..base + 32]
  {
    for j := 0 to 16
      invariant forall k :: 0 <= k < 16 ==> w[k] == ws[base + (if k < j then k + 16 else k)]
    {
      assert w[(j + 9) % 16] == ws[base + j + 9];
      assert w[(j + 1) % 16] == ws[base + j + 1];
      assert w[(j + 14) % 16] == ws[base + j + 14];
      ghost var next := NextWord(g, ws, base + j + 16);
      assert ws[base + j + 16] == next;
      w[j] := (w[j] + w[(j + 9) % 16] + g.smallSigma0(w[(j + 1) % 16]) + g.smallSigma1(w[(j + 14) % 16])) % R64;
    }
  }

  /** One round: the eight copies through b, and the rotation into a. */
  method DoRound(g: Logic, a: array<u64>, k: int, w: u64)
    requires a.Length == 8
    modifies a
    ensures a[..] == Round(g, old(a[..]), k, w)
  {
    ghost var s := a[..];
    var b := new u64[8];
    for j := 0 to 8
      modifies b
      invariant b[..j] == s[..j]
    {
      b[j] := a[j];
    }
    assert a[..] == s;
    var t, b7 := Temporaries(g, a, k, w);
    b[7] := b7;
    b[3] := (b[3] + t) % R64;
    ShiftedShape(s, t, T2(g, s), b[..]);
    Rotate(a, b);
  }

  method Temporaries(g: Logic, a: array<u64>, k: int, w: u64) returns (t: u64, b7: u64)
    requires a.Length == 8
    ensures t == T1(g, a[..], k, w) && b7 == (t + T2(g, a[..])) % R64
  {
    t := (a[7] + g.bigSigma1(a[4]) + g.ch(a[4], a[5], a[6]) + k + w) % R64;
    b7 := (t + g.bigSigma0(a[0]) + g.maj(a[0], a[1], a[2])) % R64;
  }

  lemma ShiftedShape(s: seq<u64>, t1: int, t2: int, b: seq<u64>)
    requires |s| == |b| == 8 && b[..3] == s[..3] && b[4..7] == s[4..7]
    requires b[7] == (t1 + t2) % R64 && b[3] == (s[3] + t1) % R64
    ensures [b[7]] + b[..7] == Shifted(s, t1, t2)
  {
    assert b[0] == b[..3][0] && b[1] == b[..3][1] && b[2] == b[..3][2];
    assert b[4] == b[4..7][0] && b[5] == b[4..7][1] && b[6] == b[4..7][2];
  }

  method Rotate(a: array<u64>, b: array<u64>)
    requires a != b && a.Length == 8 && b.Length == 8
    modifies a
    ensures a[..] == [b[7]] + b[..7]
  {
    for j := 0 to 8
      invariant forall k :: 1 <= k <= j && k < 8 ==> a[k] == b[k - 1]
      invariant j == 8 ==> a[0] == b[7]
    {
      a[(j + 1) % 8] := b[j];
    }
  }

  lemma {:induction false} RoundsPrefix(g: Logic, h: seq<u64>, ws: seq<u64>, vs: seq<u64>, t: nat)
    requires |h| == 8 && t <= |vs| <= |ws| && vs == ws[..|vs|]
    ensures Rounds(g, h, ws, t) == Rounds(g, h, vs, t)
  {
    if t > 0 {
      RoundsPrefix(g, h, ws, vs, t - 1);
    }
  }

  /** The working variables before each round. */
  ghost predicate IsTrace(g: Logic, trace: seq<seq<u64>>, ws: seq<u64>) {
    && |trace| == 81 && |ws| >= 80
    && (forall i :: 0 <= i < 81 ==> |trace[i]| == 8)
    && forall i {:trigger Round(g, trace[i], g.k(i), ws[i])} :: 0 <= i < 80 ==> trace[i + 1] == Round(g, trace[i], g.k(i), ws[i])
  }

  ghost function Trace(g: Logic, h: seq<u64>, ws: seq<u64>): (trace: seq<seq<u64>>)
    requires |h| == 8 && |ws| >= 80
    ensures |trace| == 81 && trace[0] == h && trace[80] == Rounds(g, h, ws, 80)
  {
    seq(81, i requires 0 <= i < 81 => Rounds(g, h, ws, i))
  }

  lemma TraceIsTrace(g: Logic, h: seq<u64>, ws: seq<u64>)
    requires |h| == 8 && |ws| >= 80
    ensures IsTrace(g, Trace(g, h, ws), ws)
  {
    var trace := Trace(g, h, ws);
    forall i | 0 <= i < 80
      ensures trace[i + 1] == Round(g, trace[i], g.k(i), ws[i])
    {
      assert trace[i + 1] == Rounds(g, h, ws, i + 1);
    }
  }

  method TracedRound(g: Logic, a: array<u64>, w: array<u64>, i: nat, ghost ws: seq<u64>, ghost trace: seq<seq<u64>>)
    requires a != w && a.Length == 8 && w.Length == 16 && i < 80 && IsTrace(g, trace, ws)
    requires a[..] == trace[i] && w[i % 16] == ws[i]
    modifies a
    ensures a[..] == trace[i + 1]
  {
    assert trace[i + 1] == Round(g, trace[i], g.k(i), ws[i]);
    DoRound(g, a, g.k(i), w[i % 16]);
  }

  /** The eighty rounds; the sixteen words of w are rolled on after every sixteenth. */
  lemma WindowIndex(i: nat, base: nat)
    requires base <= i < base + 16 && base % 16 == 0
    ensures i % 16 == i - base
  {
  }

  method RoundsLoop(g: Logic, a: array<u64>, w: array<u64>, ghost ws: seq<u64>, ghost trace: seq<seq<u64>>)
    requires a != w && a.Length == 8 && w.Length == 16
    requires |ws| == 96 && IsSchedule(g, ws) && w[..] == ws[0..16]
    requires IsTrace(g, trace, ws) && a[..] == trace[0]
    modifies a, w
    ensures a[..] == trace[80]
  {
    ghost var base: nat := 0;
    for i := 0 to 80
      invariant a[..] == trace[i]
      invariant base <= i < base + 16 && base <= 80 && base % 16 == 0
      invariant w[..] == ws[base..base + 16]
    {
      WindowIndex(i, base);
      assert w[i % 16] == w[..][i - base] == ws[i];
      TracedRound(g, a, w, i, ws, trace);
      if i % 16 == 15 {
        RollSchedule(g, w, ws, base);
        base := base + 16;
      }
    }
  }

  /** One 128-byte block: a is both the chaining value and, through z, what is added back. */
  method CompressBlock(g: Logic, a: array<u64>, z: array<u64>, m: seq<byte>)
    requires a != z && a.Length == 8 && z.Length == 8 && a[..] == z[..] && |m| >= 128
    modifies a, z
    ensures a[..] == Compress(g, old(a[..]), m[..128]) && z[..] == a[..]
  {
    ghost var h, block := a[..], m[..128];
    var w := LoadWords(g, m);
    ghost var ws := ScheduleList(g, block, 96);
    ScheduleListIsSchedule(g, block, 96);
    RoundsPrefix(g, h, ws, ScheduleList(g, block, 80), 80);
    assert a[..] == h && z[..] == h;
    TraceIsTrace(g, h, ws);
    RoundsLoop(g, a, w, ws, Trace(g, h, ws));
    assert z[..] == h;
    AddBack(a, z);
  }

  method LoadWords(g: Logic, m: seq<byte>) returns (w: array<u64>)
    requires |m| >= 128
    ensures fresh(w) && w.Length == 16 && w[..] == ScheduleList(g, m[..128], 96)[0..16]
  {
    w := new u64[16];
    ghost var ws := ScheduleList(g, m[..128], 96);
    for i := 0 to 16
      invariant forall k :: 0 <= k < i ==> w[k] == ws[k]
    {
      assert m[8 * i..][..8] == m[..128][8 * i..8 * i + 8];
      var u := Dl64(m[8 * i..]);
      w[i] := u;
    }
  }

  method AddBack(a: array<u64>, z: array<u64>)
    requires a != z && a.Length == 8 && z.Length == 8
    modifies a, z
    ensures a[..] == AddWords(old(a[..]), old(z[..])) && z[..] == a[..]
  {
    ghost var s, h := a[..], z[..];
    for i := 0 to 8
      invariant forall k :: 0 <= k < i ==> a[k] == z[k] == (s[k] + h[k]) % R64
      invariant forall k :: i <= k < 8 ==> a[k] == s[k] && z[k] == h[k]
    {
      a[i] := (a[i] + z[i]) % R64;
      z[i] := a[i];
    }
  }

  function BytesToWords(x: seq<byte>): (h: seq<u64>)
    requires |x| >= 64
    ensures |h| == 8
  {
    seq(8, i requires 0 <= i < 8 => WordAt(x, i))
  }

  function WordAt(x: seq<byte>, i: nat): (w: u64)
    requires 8 * i + 8 <= |x|
  {
    WordPowers(8);
    BEBound(x[8 * i..8 * i + 8]);
    BE(x[8 * i..8 * i + 8])
  }

  function BlockAt(m: seq<byte>, k: nat): (b: seq<byte>)
    requires 128 * k + 128 <= |m|
    ensures |b| == 128
  {
    m[128 * k..128 * k + 128]
  }

  /** The chaining values between the blocks of m. */
  ghost predicate IsChain(g: Logic, chain: seq<seq<u64>>, m: seq<byte>) {
    && |chain| == |m| / 128 + 1
    && (forall k :: 0 <= k < |chain| ==> |chain[k]| == 8)
    && forall k {:trigger Compress(g, chain[k], BlockAt(m, k))} :: 0 <= k < |m| / 128 ==> chain[k + 1] == Compress(g, chain[k], BlockAt(m, k))
  }

  lemma HashBlocksUnfold(g: Logic, h: seq<u64>, m: seq<byte>, first: seq<u64>)
    requires |h| == 8 && |m| >= 128 && first == Compress(g, h, m[..128])
    ensures HashBlocks(g, h, m) == HashBlocks(g, first, m[128..])
  {
  }

  lemma {:induction false} ChainExists(g: Logic, h: seq<u64>, m: seq<byte>) returns (chain: seq<seq<u64>>)
    requires |h| == 8
    ensures IsChain(g, chain, m) && chain[0] == h && chain[|m| / 128] == HashBlocks(g, h, m)
    decreases |m|
  {
    if |m| < 128 {
      chain := [h];
    } else {
      var first := Compress(g, h, m[..128]);
      HashBlocksUnfold(g, h, m, first);
      var rest := ChainExists(g, first, m[128..]);
      PrependState(g, h, m, rest);
      chain := [h] + rest;
    }
  }

  lemma PrependState(g: Logic, h: seq<u64>, m: seq<byte>, rest: seq<seq<u64>>)
    requires |h| == 8 && |m| >= 128 && IsChain(g, rest, m[128..]) && rest[0] == Compress(g, h, m[..128])
    ensures IsChain(g, [h] + rest, m) && ([h] + rest)[|m| / 128] == rest[|m[128..]| / 128]
  {
    var chain := [h] + rest;
    forall k | 0 <= k < |m| / 128
      ensures chain[k + 1] == Compress(g, chain[k], BlockAt(m, k))
    {
      PrependLink(g, h, m, rest, k);
    }
  }

  lemma PrependLink(g: Logic, h: seq<u64>, m: seq<byte>, rest: seq<seq<u64>>, k: nat)
    requires |h| == 8 && |m| >= 128 && IsChain(g, rest, m[128..]) && rest[0] == Compress(g, h, m[..128]) && k < |m| / 128
    ensures ([h] + rest)[k + 1] == Compress(g, ([h] + rest)[k], BlockAt(m, k))
  {
    LaterBlock(m, k);
    if k > 0 {
      assert rest[k] == Compress(g, rest[k - 1], BlockAt(m[128..], k - 1));
    }
  }

  lemma LaterBlock(m: seq<byte>, k: nat)
    requires k < |m| / 128
    ensures if k == 0 then BlockAt(m, k) == m[..128] else BlockAt(m, k) == BlockAt(m[128..], k - 1)
  {
  }

  method AdvanceBlock(g: Logic, a: array<u64>, z: array<u64>, rest: seq<byte>, ghost m: seq<byte>, ghost k: nat, ghost chain: seq<seq<u64>>)
    requires a != z && a.Length == 8 && z.Length == 8 && IsChain(g, chain, m) && k < |m| / 128
    requires rest == m[128 * k..] && a[..] == z[..] == chain[k]
    modifies a, z
    ensures a[..] == z[..] == chain[k + 1]
  {
    assert rest[..128] == BlockAt(m, k);
    assert chain[k + 1] == Compress(g, chain[k], BlockAt(m, k));
    CompressBlock(g, a, z, rest);
  }

  method HashLoop(g: Logic, a: array<u64>, z: array<u64>, m: seq<byte>, ghost chain: seq<seq<u64>>) returns (n: nat)
    requires a != z && a.Length == 8 && z.Length == 8 && IsChain(g, chain, m)
    requires a[..] == z[..] == chain[0]
    modifies a, z
    ensures z[..] == chain[|m| / 128] && n == |m| % 128
  {
    n := |m|;
    var rest := m;
    ghost var k: nat := 0;
    while n >= 128
      invariant 128 * k + n == |m| && rest == m[128 * k..]
      invariant a[..] == z[..] == chain[k]
      decreases n
    {
      AdvanceBlock(g, a, z, rest, m, k, chain);
      rest := rest[128..];
      n := n - 128;
      k := k + 1;
    }
  }

  /** crypto_hashblocks: the state in x advances over the whole blocks of m; the rest is counted. */
  method CryptoHashblocks(g: Logic, x: array<byte>, m: seq<byte>) returns (r: nat)
    requires x.Length == 64
    modifies x
    ensures x[..] == WordsToBytes(HashBlocks(g, BytesToWords(old(x[..])), m))
    ensures r == |m| % 128
  {
    var z, a := LoadState(x[..]);
    ghost var chain := ChainExists(g, a[..], m);
    r := HashLoop(g, a, z, m, chain);
    StoreWords(x, z);
  }

  method LoadState(x: seq<byte>) returns (z: array<u64>, a: array<u64>)
    requires |x| == 64
    ensures fresh(z) && fresh(a) && z != a && z[..] == a[..] == BytesToWords(x)
  {
    z, a := new u64[8], new u64[8];
    for i := 0 to 8
      invariant forall k :: 0 <= k < i ==> z[k] == a[k] == WordAt(x, k)
    {
      assert x[8 * i..][..8] == x[8 * i..8 * i + 8];
      var u := Dl64(x[8 * i..]);
      z[i] := u;
      a[i] := u;
    }
  }

  method StoreWords(x: array<byte>, z: array<u64>)
    requires x.Length == 64 && z.Length == 8
    modifies x
    ensures x[..] == WordsToBytes(z[..])
  {
    ghost var zs := z[..];
    for i := 0 to 8
      modifies x
      invariant x[..8 * i] == WordsToBytes(zs[..i])
    {
      StoreWord(x, z, i);
    }
    assert x[..64] == x[..] && zs[..8] == zs;
  }

  method StoreWord(x: array<byte>, z: array<u64>, i: nat)
    requires x.Length == 64 && z.Length == 8 && i < 8
    requires x[..8 * i] == WordsToBytes(z[..i])
    modifies x
    ensures x[..8 * (i + 1)] == WordsToBytes(z[..i + 1])
  {
    ghost var done, zs := x[..8 * i], z[..];
    assert WordsToBytes(zs[..i + 1]) == done + BEBytes(zs[i], 8) by {
      assert zs[..i] == z[..i];
      WordsSnoc(zs, i);
    }
    Ts64(x, 8 * i, z[i]);
    assert x[..8 * i] == done;
    assert x[..8 * (i + 1)] == x[..8 * i] + x[8 * i..8 * i + 8];
    assert zs[..i + 1] == z[..i + 1];
  }

  lemma WordsSnoc(h: seq<u64>, i: nat)
    requires i < |h|
    ensures WordsToBytes(h[..i + 1]) == WordsToBytes(h[..i]) + BEBytes(h[i], 8)
  {
    assert h[..i + 1][..i] == h[..i];
  }

  // ---------------------------------------------------------------- padding and the two calls

  const IV0: seq<byte> := [0x6a, 0x09, 0xe6, 0x67, 0xf3, 0xbc, 0xc9, 0x08]
  const IV1: seq<byte> := [0xbb, 0x67, 0xae, 0x85, 0x84, 0xca, 0xa7, 0x3b]
  const IV2: seq<byte> := [0x3c, 0x6e, 0xf3, 0x72, 0xfe, 0x94, 0xf8, 0x2b]
  const IV3: seq<byte> := [0xa5, 0x4f, 0xf5, 0x3a, 0x5f, 0x1d, 0x36, 0xf1]
  const IV4: seq<byte> := [0x51, 0x0e, 0x52, 0x7f, 0xad, 0xe6, 0x82, 0xd1]
  const IV5: seq<byte> := [0x9b, 0x05, 0x68, 0x8c, 0x2b, 0x3e, 0x6c, 0x1f]
  const IV6: seq<byte> := [0x1f, 0x83, 0xd9, 0xab, 0xfb, 0x41, 0xbd, 0x6b]
  const IV7: seq<byte> := [0x5b, 0xe0, 0xcd, 0x19, 0x13, 0x7e, 0x21, 0x79]
  const IV: seq<byte> := IV0 + IV1 + IV2 + IV3 + IV4 + IV5 + IV6 + IV7

  lemma OctetBE(s: seq<byte>)
    requires |s| == 8
    ensures BE(s) == 0x100_0000_0000_0000 * (s[0] as int) + 0x1_0000_0000_0000 * (s[1] as int) + 0x100_0000_0000 * (s[2] as int) + 0x1_0000_0000 * (s[3] as int)
      + 0x100_0000 * (s[4] as int) + 0x1_0000 * (s[5] as int) + 0x100 * (s[6] as int) + s[7]
  {
    QuadBE(s[..4]);
    assert s[..7][..6] == s[..6] && s[..6][..5] == s[..5] && s[..5][..4] == s[..4];
    assert BE(s[..5]) == BE(s[..4]) * 256 + s[4];
    assert BE(s[..6]) == BE(s[..5]) * 256 + s[5];
    assert BE(s[..7]) == BE(s[..6]) * 256 + s[6];
  }

  lemma QuadBE(s: seq<byte>)
    requires |s| == 4
    ensures BE(s) == 0x100_0000 * (s[0] as int) + 0x1_0000 * (s[1] as int) + 0x100 * (s[2] as int) + s[3]
  {
    NumFour(s, 256);
  }

  /** The byte table iv holds the initial hash value. */
  lemma InitialState()
    ensures |IV| == 64 && |H0| == 8 && BytesToWords(IV) == H0
  {
    assert IV[0..8] == IV0;
    assert IV[8..16] == IV1;
    assert IV[16..24] == IV2;
    assert IV[24..32] == IV3;
    assert IV[32..40] == IV4;
    assert IV[40..48] == IV5;
    assert IV[48..56] == IV6;
    assert IV[56..64] == IV7;
    OctetBE(IV0);
    OctetBE(IV1);
    OctetBE(IV2);
    OctetBE(IV3);
    OctetBE(IV4);
    OctetBE(IV5);
    OctetBE(IV6);
    OctetBE(IV7);
    var h := BytesToWords(IV);
    assert h[0] == H0[0] && h[1] == H0[1] && h[2] == H0[2] && h[3] == H0[3];
    assert h[4] == H0[4] && h[5] == H0[5] && h[6] == H0[6] && h[7] == H0[7];
  }

  lemma {:induction false} WordsInBytes(h: seq<u64>, i: nat)
    requires i < |h|
    ensures WordsToBytes(h)[8 * i..8 * i + 8] == BEBytes(h[i], 8)
  {
    var n := |h| - 1;
    if i < n {
      WordsInBytes(h[..n], i);
    }
  }

  lemma WordsRoundTrip(h: seq<u64>)
    requires |h| == 8
    ensures BytesToWords(WordsToBytes(h)) == h
  {
    forall i | 0 <= i < 8
      ensures WordAt(WordsToBytes(h), i) == h[i]
    {
      WordsInBytes(h, i);
      WordPowers(8);
      assert Pow(256, 8) == R64;
      BERoundTrip(h[i], 8);
    }
  }

  lemma FirstBlock(a: seq<byte>, b: seq<byte>)
    requires |a| > 0 && |a| % 128 == 0
    ensures |a| >= 128 && |a[128..]| % 128 == 0
    ensures (a + b)[..128] == a[..128] && (a + b)[128..] == a[128..] + b
  {
  }

  lemma WholeBlocks(m: seq<byte>)
    ensures var full, rest := m[..|m| - |m| % 128], m[|m| - |m| % 128..];
      m == full + rest && |full| % 128 == 0 && |rest| < 128
  {
  }

  lemma {:induction false} HashBlocksAppend(g: Logic, h: seq<u64>, a: seq<byte>, b: seq<byte>)
    requires |h| == 8 && |a| % 128 == 0
    ensures HashBlocks(g, h, a + b) == HashBlocks(g, HashBlocks(g, h, a), b)
    decreases |a|
  {
    if |a| == 0 {
      assert a + b == b;
    } else {
      var first := Compress(g, h, a[..128]);
      FirstBlock(a, b);
      HashBlocksUnfold(g, h, a, first);
      HashBlocksUnfold(g, h, a + b, first);
      HashBlocksAppend(g, first, a[128..], b);
    }
  }

  /** The bytes after the last whole block do not enter HashBlocks. */
  lemma TailIgnored(g: Logic, h: seq<u64>, m: seq<byte>)
    requires |h| == 8
    ensures HashBlocks(g, h, m) == HashBlocks(g, h, m[..|m| - |m| % 128])
  {
    var full, rest := m[..|m| - |m| % 128], m[|m| - |m| % 128..];
    WholeBlocks(m);
    HashBlocksAppend(g, h, full, rest);
  }

  lemma {:induction false} BEZeros(n: nat)
    ensures BEBytes(0, n) == seq(n, _ => 0)
  {
    if n > 0 {
      BEZeros(n - 1);
    }
  }

  /** The 128-bit length field: x[n-9] = b >> 61 and ts64(x+n-8, b << 3). */
  lemma LengthField(b: u64)
    ensures BEBytes(8 * b, 16) == seq(7, _ => 0) + [b / 0x2000_0000_0000_0000] + BEBytes(8 * b % R64, 8)
  {
    WordPowers(8);
    BESplit(8 * b, 8, 8);
    LengthTop(b);
    TopBytes(8 * b / R64);
  }

  lemma TopBytes(v: byte)
    ensures BEBytes(v, 8) == seq(7, _ => 0) + [v]
  {
    BEZeros(7);
    assert v / 256 == 0 && v % 256 == v;
  }

  lemma LengthTop(b: u64)
    ensures 8 * b / R64 == b / 0x2000_0000_0000_0000 < 256
  {
  }

  /** What is left after the last whole block of the message. */
  function Rest(m: seq<byte>): (s: seq<byte>)
    ensures |s| == |m| % 128
  {
    m[|m| - |m| % 128..]
  }

  /** The zero bytes of the padding of a message of n bytes. */
  function Gap(n: nat): (s: seq<byte>)
    ensures |s| == (if n % 128 < 112 then 111 - n % 128 else 239 - n % 128)
    ensures forall i :: 0 <= i < |s| ==> s[i] == 0
  {
    assert (111 - n) % 128 == if n % 128 < 112 then 111 - n % 128 else 239 - n % 128;
    seq((111 - n) % 128, _ => 0)
  }

  /** What follows the last whole block in the padded message. */
  function Tail(m: seq<byte>): (s: seq<byte>)
    ensures |s| == if |m| % 128 < 112 then 128 else 256
  {
    Rest(m) + [128] + Gap(|m|) + BEBytes(8 * |m|, 16)
  }

  lemma PaddedLength(m: seq<byte>)
    ensures |Tail(m)| == if |m| % 128 < 112 then 128 else 256
    ensures Pad(m) == m[..|m| - |m| % 128] + Tail(m)
  {
    assert m == m[..|m| - |m| % 128] + Rest(m);
  }

  lemma SplitAround(x: seq<byte>, r: nat)
    requires r < |x| - 1
    ensures x == x[..r] + [x[r]] + x[r + 1..|x| - 1] + [x[|x| - 1]]
  {
  }

  lemma FrontShape(x: seq<byte>, m: seq<byte>, top: byte)
    requires var r := |m| % 128;
      && |x| == (if r < 112 then 120 else 248)
      && x[..r] == Rest(m) && x[r] == 128 && x[|x| - 1] == top
      && forall k :: r < k < |x| - 1 ==> x[k] == 0
    ensures x == Rest(m) + [128] + Gap(|m|) + (seq(7, _ => 0) + [top])
  {
    var r := |m| % 128;
    SplitAround(x, r);
    assert x[r + 1..|x| - 1] == Gap(|m|) + seq(7, _ => 0);
  }

  lemma TailParts(x: seq<byte>, m: seq<byte>)
    requires |m| < R64
    requires var r := |m| % 128;
      && |x| == (if r < 112 then 120 else 248)
      && x[..r] == Rest(m) && x[r] == 128 && x[|x| - 1] == |m| / 0x2000_0000_0000_0000
      && forall k :: r < k < |x| - 1 ==> x[k] == 0
    ensures Tail(m) == x + BEBytes(8 * |m| % R64, 8)
  {
    var top: byte := x[|x| - 1];
    FrontShape(x, m, top);
    LengthField(|m|);
    Regroup(Rest(m) + [128] + Gap(|m|), seq(7, _ => 0), [top], BEBytes(8 * |m| % R64, 8));
  }

  lemma Regroup(a: seq<byte>, b: seq<byte>, c: seq<byte>, d: seq<byte>)
    ensures a + (b + c + d) == a + (b + c) + d
  {
  }

  /** The buffer x of crypto_hash: rest of the message, 0x80, zeros, bit length. */
  method BuildTail(m: seq<byte>) returns (x: array<byte>, n: nat)
    requires |m| < R64
    ensures fresh(x) && x.Length == 256 && n in {128, 256} && x[..n] == Tail(m)
  {
    var b: u64 := |m|;
    var r := |m| % 128;
    x := new byte[256](_ => 0);
    for i := 0 to r
      invariant forall k :: 0 <= k < i ==> x[k] == m[|m| - r + k]
      invariant forall k :: i <= k < 256 ==> x[k] == 0
    {
      x[i] := m[|m| - r + i];
    }
    ghost var part: seq<byte> := x[..r];
    assert part == m[|m| - r..];
    x[r] := 128;
    n := if r < 112 then 128 else 256;
    x[n - 9] := b / 0x2000_0000_0000_0000;
    ghost var front := x[..n - 8];
    assert front[..r] == part;
    assert front[r] == 128 && front[|front| - 1] == b / 0x2000_0000_0000_0000;
    assert forall k :: r < k < |front| - 1 ==> front[k] == 0;
    Ts64(x, n - 8, 8 * b % R64);
    assert x[..n] == x[..n - 8] + x[n - 8..n - 8 + 8];
    TailParts(front, m);
  }

  /** Hashing the whole blocks first and the tail in a second call hashes the padded message. */
  lemma HashInTwoParts(g: Logic, m: seq<byte>)
    ensures |IV| == 64
    ensures var mid := WordsToBytes(HashBlocks(g, BytesToWords(IV), m));
      WordsToBytes(HashBlocks(g, BytesToWords(mid), Tail(m))) == HashWith(g, m)
  {
    InitialState();
    var full := m[..|m| - |m| % 128];
    TailIgnored(g, H0, m);
    WordsRoundTrip(HashBlocks(g, H0, m));
    PaddedLength(m);
    WholeBlocks(m);
    HashBlocksAppend(g, H0, full, Tail(m));
  }

  method HashOf(g: Logic, out: array<byte>, m: seq<byte>)
    requires out.Length == 64 && |m| < R64
    modifies out
    ensures out[..] == HashWith(g, m)
  {
    var h := new byte[64];
    HashInTwoParts(g, m);
    CopyBytes(h, IV);
    var r := CryptoHashblocks(g, h, m);
    var x, n := BuildTail(m);
    r := CryptoHashblocks(g, h, x[..n]);
    CopyBytes(out, h[..]);
  }

  method CopyBytes(o: array<byte>, s: seq<byte>)
    requires o.Length == |s| == 64
    modifies o
    ensures o[..] == s
  {
    for i := 0 to 64
      invariant o[..i] == s[..i]
    {
      o[i] := s[i];
    }
  }

  /** crypto_hash computes SHA-512. */
  method CryptoHash(out: array<byte>, m: seq<byte>)
    requires out.Length == 64 && |m| < R64
    modifies out
    ensures out[..] == Sha512(m)
  {
    HashOf(SHA2, out, m);
  }
}
