/** The key mask of Poly1305 as a number. */
module Clamping {
  import opened Arith
  import opened Radix
  import opened MachineInts
  import opened LittleEndian
  import opened Bits
  import Poly1305

  const MASK: int := 0x0ffffffc_0ffffffc_0ffffffc_0fffffff

  function MaskByte(i: nat): byte {
    if i in {3, 7, 11, 15} then 15 else if i in {4, 8, 12} then 252 else 255
  }

  /** The bytes from i on of a masked string. */
  lemma {:induction false} MaskedTail(k: seq<byte>, mask: seq<byte>, t: seq<byte>)
    requires |k| == |mask| == |t| && forall i :: 0 <= i < |k| ==> t[i] == And(k[i], mask[i])
    ensures LE(t) == And(LE(k), LE(mask))
  {
    SmallPowers();
    if |k| == 0 {
      AndZero(0);
    } else {
      var x, y := LE(k[1..]), LE(mask[1..]);
      MaskedTail(k[1..], mask[1..], t[1..]);
      AndSplit(k[0], mask[0], x, y, 8, 256);
      assert LE(k) == k[0] + 256 * x && LE(mask) == mask[0] + 256 * y && LE(t) == t[0] + 256 * And(x, y);
    }
  }

  lemma MaskedByte(x: byte)
    ensures And(x, 15) == x % 16 && And(x, 252) == x - x % 4 && And(x, 255) == x
  {
    MaskAt(x, 4, 16);
    MaskAt(x, 8, 256);
    Clear2(x);
    DivModUnique(x, 256, 0, x);
  }

  lemma ClampedByte(k: seq<byte>, i: nat)
    requires |k| == 16 && i < 16
    ensures Poly1305.Clamp(k)[i] == And(k[i], MaskByte(i))
  {
    MaskedByte(k[i]);
  }

  /** Section 2.5 of RFC 8439: r is the first half of the key, little-endian, AND the mask. */
  lemma ClampIsMask(k: seq<byte>)
    requires |k| == 16
    ensures LE(Poly1305.Clamp(k)) == And(LE(k), MASK)
  {
    var mask := seq(16, i requires 0 <= i < 16 => MaskByte(i));
    forall i | 0 <= i < 16
      ensures Poly1305.Clamp(k)[i] == And(k[i], mask[i])
    {
      ClampedByte(k, i);
    }
    MaskedTail(k, mask, Poly1305.Clamp(k));
    MaskNumber(mask);
  }

  lemma MaskNumber(mask: seq<byte>)
    requires |mask| == 16 && forall i :: 0 <= i < 16 ==> mask[i] == MaskByte(i)
    ensures LE(mask) == MASK
  {
    FourBytes(mask, 0, 0x0fffffff);
    FourBytes(mask, 4, 0x0ffffffc);
    FourBytes(mask, 8, 0x0ffffffc);
    FourBytes(mask, 12, 0x0ffffffc);
    assert mask[16..] == [];
  }

  lemma FourBytes(mask: seq<byte>, i: nat, w: int)
    requires |mask| == 16 && i in {0, 4, 8, 12} && forall j :: i <= j < i + 4 ==> mask[j] == MaskByte(j)
    requires w == if i == 0 then 0x0fffffff else 0x0ffffffc
    ensures LE(mask[i..]) == w + R32 * LE(mask[i + 4..])
  {
    var t := mask[i..];
    ValSplit(t, 4, 256);
    ValFour(t[..4], 256);
    assert t[4..] == mask[i + 4..] && Pow(256, 4) == R32;
  }
}
