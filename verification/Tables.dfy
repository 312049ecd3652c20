/** Constants and tables against the text of their standards: rotations, constant words, alphabets. */
module Tables {
  import opened Arith
  import opened MachineInts
  import opened Bits
  import Base64
  import Salsa20
  import SecretBox

  // ---------------------------------------------------------------- Salsa20

  lemma Rotl32Bit(x: int, c: nat, i: nat)
    requires 0 <= x < R32 && 0 < c < 32 && i < 32
    ensures Bit(Salsa20.Rotl32(x, c), i) == Bit(x, Around(i, 32 - c, 32))
  {
    Salsa20.Pow2_32();
    RotatedLeftBit(x, 32, R32, c, i);
  }

  lemma Mix32Bit(t: int, u: int, v: int, c: nat, i: nat)
    requires 0 < c < 32 && i < 32
    ensures Bit(Salsa20.Mix32(t, u, v, c), i) == (Bit(t, i) + Bit((u + v) % R32, Around(i, 32 - c, 32))) % 2
  {
    XorBit(t, Salsa20.Rotl32((u + v) % R32, c), i);
    Rotl32Bit((u + v) % R32, c, i);
  }

  /** z = t xor ((u + v) <<< c), bit by bit. */
  ghost predicate MixedBit(z: int, t: int, u: int, v: int, c: nat, i: nat) {
    c <= 32 && i < 32 && Bit(z, i) == (Bit(t, i) + Bit((u + v) % R32, if i < c then i + (32 - c) else i - c)) % 2
  }

  lemma MixIsMixed(t: int, u: int, v: int, c: nat, i: nat)
    requires 0 < c < 32 && i < 32
    ensures MixedBit(Salsa20.Mix32(t, u, v, c), t, u, v, c, i)
  {
    Mix32Bit(t, u, v, c, i);
  }

  /** The quarter-round of section 3 of the Salsa20 specification, bit by bit: sums modulo 2^32, rotated left by 7, 9, 13
      and 18, are added to y1, y2, y3 and y0 without carries. */
  lemma QuarterBits(y: Salsa20.Quad, i: nat)
    requires i < 32
    ensures var z := Salsa20.Quarter(Salsa20.Mix32, y);
      && MixedBit(z.y1, y.y1, y.y0, y.y3, 7, i) && MixedBit(z.y2, y.y2, z.y1, y.y0, 9, i)
      && MixedBit(z.y3, y.y3, z.y2, z.y1, 13, i) && MixedBit(z.y0, y.y0, z.y3, z.y2, 18, i)
  {
    var z := Salsa20.Quarter(Salsa20.Mix32, y);
    MixIsMixed(y.y1, y.y0, y.y3, 7, i);
    MixIsMixed(y.y2, z.y1, y.y0, 9, i);
    MixIsMixed(y.y3, z.y2, z.y1, 13, i);
    MixIsMixed(y.y0, z.y3, z.y2, 18, i);
  }

  const CONSTANT_TEXT: string := "expand 32-byte k"

  lemma SigmaIsText(i: nat)
    requires i < 16
    ensures |SecretBox.SIGMA| == 16 && SecretBox.SIGMA[i] == CONSTANT_TEXT[i] as int
  {
  }

  // ---------------------------------------------------------------- alphabets

  const UPPER: string := "ABCDEFGHIJKLMNOPQRSTUVWXYZ"
  const LOWER: string := "abcdefghijklmnopqrstuvwxyz"
  const DIGITS: string := "0123456789"
  const HEX_DIGITS: string := "0123456789abcdef"

  lemma UpperLetter(i: nat)
    requires i < 26
    ensures UPPER[i] == 'A' + i as char
  {
  }

  lemma LowerLetter(i: nat)
    requires i < 26
    ensures LOWER[i] == 'a' + i as char
  {
  }

  lemma Digit(i: nat)
    requires i < 10
    ensures DIGITS[i] == '0' + i as char
  {
  }

  /** Tables 1 and 2 of RFC 4648. */
  lemma LetterOfTable(v: Base64.sextet)
    ensures Base64.Letter(v, '+', '/') == (UPPER + LOWER + DIGITS + "+/")[v]
    ensures Base64.Letter(v, '-', '_') == (UPPER + LOWER + DIGITS + "-_")[v]
  {
    if v < 26 {
      UpperLetter(v);
    } else if v < 52 {
      LowerLetter(v - 26);
    } else if v < 62 {
      Digit(v - 52);
    }
  }

  lemma HexDigitOfTable(v: nat)
    requires v < 16
    ensures Base64.HexDigit(v) == HEX_DIGITS[v]
  {
  }
}
