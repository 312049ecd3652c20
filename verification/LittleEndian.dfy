/** Little-endian byte strings and their constant-time comparison. */
module LittleEndian {
  import opened Arith
  import opened Radix
  import opened MachineInts

  const R256: int := 0x1_00000000_00000000_00000000_00000000_00000000_00000000_00000000_00000000

  /** The integer a little-endian byte string stands for. */
  function LE(s: seq<byte>): int {
    Val(s, 256)
  }

  /** The canonical 32-byte little-endian encoding of a residue. */
  function Bytes(v: int, n: nat): (s: seq<byte>)
    ensures |s| == n
    decreases n, v
  {
    if n == 0 then [] else [v % 256] + Bytes(v / 256, n - 1)
  }

  lemma {:induction false} BytesValue(v: int, n: nat)
    requires 0 <= v < Pow(256, n)
    ensures LE(Bytes(v, n)) == v
    decreases n
  {
    if n > 0 {
      assert v / 256 < Pow(256, n - 1);
      BytesValue(v / 256, n - 1);
    }
  }

  lemma BytesUnique(s: seq<byte>, v: int)
    requires 0 <= v < Pow(256, |s|) && LE(s) == v
    ensures s == Bytes(v, |s|)
  {
    BytesValue(v, |s|);
    ValInjective(s, Bytes(v, |s|), 256);
  }

  lemma Pow256()
    ensures Pow(256, 16) == 0x1_00000000_00000000_00000000_00000000 && Pow(256, 32) == R256
  {
    assert Pow(256, 8) == 0x1_00000000_00000000;
    PowAdd(256, 8, 8);
    PowAdd(256, 16, 16);
  }

  /** vn: 0 when the first n bytes agree, -1 otherwise. */
  method Vn(x: seq<byte>, y: seq<byte>, n: nat) returns (r: int)
    requires |x| >= n && |y| >= n
    ensures r == if x[..n] == y[..n] then 0 else -1
  {
    var d: u64 := 0;
    for i := 0 to n
      invariant 0 <= d < 256
      invariant d == 0 <==> x[..i] == y[..i]
    {
      Pow2Words();
      XorFits(x[i], y[i], 8);
      XorZero(x[i], y[i]);
      OrBits(d, Xor(x[i], y[i]), 8);
      assert x[..i + 1] == x[..i] + [x[i]] && y[..i + 1] == y[..i] + [y[i]];
      d := Or(d, Xor(x[i], y[i]));
    }
    var w: u64 := (d - 1) % 0x1_0000_0000_0000_0000;
    r := w / 256 % 2 - 1;
  }

  lemma LowBit(s: seq<byte>)
    requires |s| > 0
    ensures LE(s) % 2 == s[0] % 2
  {
    assert Val(s, 256) == s[0] + 256 * Val(s[1..], 256);
  }
}
