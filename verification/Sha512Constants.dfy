/** Where the constants of SHA-512 come from: roots of the first primes, sections 4.2.3 and 5.3.5 of FIPS 180-4. */
module Sha512Constants {
  import opened Arith
  import opened MachineInts
  import opened PrimeField
  import opened Sha512

  const P_00: seq<nat> := [2, 3, 5, 7, 11, 13, 17, 19, 23, 29, 31, 37, 41, 43, 47, 53]
  const P_16: seq<nat> := [59, 61, 67, 71, 73, 79, 83, 89, 97, 101, 103, 107, 109, 113, 127, 131]
  const P_32: seq<nat> := [137, 139, 149, 151, 157, 163, 167, 173, 179, 181, 191, 193, 197, 199, 211, 223]
  const P_48: seq<nat> := [227, 229, 233, 239, 241, 251, 257, 263, 269, 271, 277, 281, 283, 293, 307, 311]
  const P_64: seq<nat> := [313, 317, 331, 337, 347, 349, 353, 359, 367, 373, 379, 383, 389, 397, 401, 409]

  const PRIMES: seq<nat> := P_00 + P_16 + P_32 + P_48 + P_64

  // ---------------------------------------------------------------- the first primes

  /** No prime up to 19 divides n, except n itself. */
  predicate Sieved(n: nat) {
    && (n % 2 != 0 || n == 2) && (n % 3 != 0 || n == 3) && (n % 5 != 0 || n == 5) && (n % 7 != 0 || n == 7)
    && (n % 11 != 0 || n == 11) && (n % 13 != 0 || n == 13) && (n % 17 != 0 || n == 17) && (n % 19 != 0 || n == 19)
  }

  predicate HasSmallFactor(n: nat) {
    n % 2 == 0 || n % 3 == 0 || n % 5 == 0 || n % 7 == 0 || n % 11 == 0 || n % 13 == 0 || n % 17 == 0 || n % 19 == 0
  }

  lemma SmallFactor(a: nat)
    requires 1 < a < 23
    ensures HasSmallFactor(a)
  {
    assert a % 2 == 0 || a in {3, 5, 7, 9, 11, 13, 15, 17, 19, 21};
  }

  /** A divisor of a divisor. */
  lemma Divides(d: nat, a: nat, n: nat)
    requires d > 0 && a > 0 && a % d == 0 && n % a == 0
    ensures n % d == 0
  {
    var q, r := a / d, n / a;
    MulAssoc(r, q, d);
    DivModUnique(n, d, r * q, 0);
  }

  lemma FactorOf(a: nat, n: nat)
    requires 1 < a < 23 && a < n && n % a == 0
    ensures !Sieved(n)
  {
    SmallFactor(a);
    forall d: nat | 0 < d && a % d == 0
      ensures n % d == 0
    {
      Divides(d, a, n);
    }
  }

  /** Below 23 * 23 what the sieve leaves is prime. */
  lemma SievedIsPrime(n: nat)
    requires 1 < n < 529
    ensures IsPrime(n) <==> Sieved(n)
  {
    if Sieved(n) {
      forall a | 1 < a < n
        ensures n % a != 0
      {
        if n % a == 0 {
          TwoFactors(a, n / a, n);
        }
      }
    }
  }

  lemma TwoFactors(a: nat, b: nat, n: nat)
    requires 1 < a < n < 529 && n == a * b
    ensures !Sieved(n)
  {
    if b <= 1 {
      MulLe(b, 1, a);
    } else if a >= 23 && b >= 23 {
      MulLe(23, a, b);
    } else {
      DivModUnique(n, a, b, 0);
      DivModUnique(n, b, a, 0);
      if a < 23 {
        FactorOf(a, n);
      } else {
        MulLe(2, a, b);
        FactorOf(b, n);
      }
    }
  }

  ghost predicate NextPrime(p: nat, q: nat) {
    IsPrime(p) && IsPrime(q) && p < q && forall n :: p < n < q ==> !IsPrime(n)
  }

  /** The sieve leaves nothing from n to q. */
  predicate NoneSieved(n: nat, q: nat)
    decreases q - n
  {
    n >= q || (!Sieved(n) && NoneSieved(n + 1, q))
  }

  lemma {:induction false} NonePrime(n: nat, q: nat, m: nat)
    requires 1 < n <= m < q < 529 && NoneSieved(n, q)
    ensures !IsPrime(m)
    decreases q - n
  {
    if n < m {
      NonePrime(n + 1, q, m);
    } else {
      SievedIsPrime(n);
    }
  }

  lemma Gap(p: nat, n: nat, q: nat)
    requires 1 < p < q < 529 && n == p + 1 && Sieved(p) && Sieved(q) && NoneSieved(n, q)
    ensures NextPrime(p, q)
  {
    SievedIsPrime(p);
    SievedIsPrime(q);
    forall m | p < m < q
      ensures !IsPrime(m)
    {
      NonePrime(n, q, m);
    }
  }

  lemma Gaps0(t: nat)
    requires 0 <= t < 5
    ensures NextPrime(PRIMES[t], PRIMES[t + 1])
  {
    if t == 0 {
      Gap(2, 3, 3);
    } else if t == 1 {
      Gap(3, 4, 5);
    } else if t == 2 {
      Gap(5, 6, 7);
    } else if t == 3 {
      Gap(7, 8, 11);
    } else if t == 4 {
      Gap(11, 12, 13);
    }
  }

  lemma Gaps5(t: nat)
    requires 5 <= t < 10
    ensures NextPrime(PRIMES[t], PRIMES[t + 1])
  {
    if t == 5 {
      Gap(13, 14, 17);
    } else if t == 6 {
      Gap(17, 18, 19);
    } else if t == 7 {
      Gap(19, 20, 23);
    } else if t == 8 {
      Gap(23, 24, 29);
    } else if t == 9 {
      Gap(29, 30, 31);
    }
  }

  lemma Gaps10(t: nat)
    requires 10 <= t < 15
    ensures NextPrime(PRIMES[t], PRIMES[t + 1])
  {
    if t == 10 {
      Gap(31, 32, 37);
    } else if t == 11 {
      Gap(37, 38, 41);
    } else if t == 12 {
      Gap(41, 42, 43);
    } else if t == 13 {
      Gap(43, 44, 47);
    } else if t == 14 {
      Gap(47, 48, 53);
    }
  }

  lemma Gaps15(t: nat)
    requires 15 <= t < 20
    ensures NextPrime(PRIMES[t], PRIMES[t + 1])
  {
    if t == 15 {
      Gap(53, 54, 59);
    } else if t == 16 {
      Gap(59, 60, 61);
    } else if t == 17 {
      Gap(61, 62, 67);
    } else if t == 18 {
      Gap(67, 68, 71);
    } else if t == 19 {
      Gap(71, 72, 73);
    }
  }

  lemma Gaps20(t: nat)
    requires 20 <= t < 25
    ensures NextPrime(PRIMES[t], PRIMES[t + 1])
  {
    if t == 20 {
      Gap(73, 74, 79);
    } else if t == 21 {
      Gap(79, 80, 83);
    } else if t == 22 {
      Gap(83, 84, 89);
    } else if t == 23 {
      Gap(89, 90, 97);
    } else if t == 24 {
      Gap(97, 98, 101);
    }
  }

  lemma Gaps25(t: nat)
    requires 25 <= t < 30
    ensures NextPrime(PRIMES[t], PRIMES[t + 1])
  {
    if t == 25 {
      Gap(101, 102, 103);
    } else if t == 26 {
      Gap(103, 104, 107);
    } else if t == 27 {
      Gap(107, 108, 109);
    } else if t == 28 {
      Gap(109, 110, 113);
    } else if t == 29 {
      Gap(113, 114, 127);
    }
  }

  lemma Gaps30(t: nat)
    requires 30 <= t < 35
    ensures NextPrime(PRIMES[t], PRIMES[t + 1])
  {
    if t == 30 {
      Gap(127, 128, 131);
    } else if t == 31 {
      Gap(131, 132, 137);
    } else if t == 32 {
      Gap(137, 138, 139);
    } else if t == 33 {
      Gap(139, 140, 149);
    } else if t == 34 {
      Gap(149, 150, 151);
    }
  }

  lemma Gaps35(t: nat)
    requires 35 <= t < 40
    ensures NextPrime(PRIMES[t], PRIMES[t + 1])
  {
    if t == 35 {
      Gap(151, 152, 157);
    } else if t == 36 {
      Gap(157, 158, 163);
    } else if t == 37 {
      Gap(163, 164, 167);
    } else if t == 38 {
      Gap(167, 168, 173);
    } else if t == 39 {
      Gap(173, 174, 179);
    }
  }

  lemma Gaps40(t: nat)
    requires 40 <= t < 45
    ensures NextPrime(PRIMES[t], PRIMES[t + 1])
  {
    if t == 40 {
      Gap(179, 180, 181);
    } else if t == 41 {
      Gap(181, 182, 191);
    } else if t == 42 {
      Gap(191, 192, 193);
    } else if t == 43 {
      Gap(193, 194, 197);
    } else if t == 44 {
      Gap(197, 198, 199);
    }
  }

  lemma Gaps45(t: nat)
    requires 45 <= t < 50
    ensures NextPrime(PRIMES[t], PRIMES[t + 1])
  {
    if t == 45 {
      Gap(199, 200, 211);
    } else if t == 46 {
      Gap(211, 212, 223);
    } else if t == 47 {
      Gap(223, 224, 227);
    } else if t == 48 {
      Gap(227, 228, 229);
    } else if t == 49 {
      Gap(229, 230, 233);
    }
  }

  lemma Gaps50(t: nat)
    requires 50 <= t < 55
    ensures NextPrime(PRIMES[t], PRIMES[t + 1])
  {
    if t == 50 {
      Gap(233, 234, 239);
    } else if t == 51 {
      Gap(239, 240, 241);
    } else if t == 52 {
      Gap(241, 242, 251);
    } else if t == 53 {
      Gap(251, 252, 257);
    } else if t == 54 {
      Gap(257, 258, 263);
    }
  }

  lemma Gaps55(t: nat)
    requires 55 <= t < 60
    ensures NextPrime(PRIMES[t], PRIMES[t + 1])
  {
    if t == 55 {
      Gap(263, 264, 269);
    } else if t == 56 {
      Gap(269, 270, 271);
    } else if t == 57 {
      Gap(271, 272, 277);
    } else if t == 58 {
      Gap(277, 278, 281);
    } else if t == 59 {
      Gap(281, 282, 283);
    }
  }

  lemma Gaps60(t: nat)
    requires 60 <= t < 65
    ensures NextPrime(PRIMES[t], PRIMES[t + 1])
  {
    if t == 60 {
      Gap(283, 284, 293);
    } else if t == 61 {
      Gap(293, 294, 307);
    } else if t == 62 {
      Gap(307, 308, 311);
    } else if t == 63 {
      Gap(311, 312, 313);
    } else if t == 64 {
      Gap(313, 314, 317);
    }
  }

  lemma Gaps65(t: nat)
    requires 65 <= t < 70
    ensures NextPrime(PRIMES[t], PRIMES[t + 1])
  {
    if t == 65 {
      Gap(317, 318, 331);
    } else if t == 66 {
      Gap(331, 332, 337);
    } else if t == 67 {
      Gap(337, 338, 347);
    } else if t == 68 {
      Gap(347, 348, 349);
    } else if t == 69 {
      Gap(349, 350, 353);
    }
  }

  lemma Gaps70(t: nat)
    requires 70 <= t < 75
    ensures NextPrime(PRIMES[t], PRIMES[t + 1])
  {
    if t == 70 {
      Gap(353, 354, 359);
    } else if t == 71 {
      Gap(359, 360, 367);
    } else if t == 72 {
      Gap(367, 368, 373);
    } else if t == 73 {
      Gap(373, 374, 379);
    } else if t == 74 {
      Gap(379, 380, 383);
    }
  }

  lemma Gaps75(t: nat)
    requires 75 <= t < 79
    ensures NextPrime(PRIMES[t], PRIMES[t + 1])
  {
    if t == 75 {
      Gap(383, 384, 389);
    } else if t == 76 {
      Gap(389, 390, 397);
    } else if t == 77 {
      Gap(397, 398, 401);
    } else if t == 78 {
      Gap(401, 402, 409);
    }
  }

  lemma NextInList(t: nat)
    requires t < 79
    ensures NextPrime(PRIMES[t], PRIMES[t + 1])
  {
    if t < 5 {
      Gaps0(t);
    } else if t < 10 {
      Gaps5(t);
    } else if t < 15 {
      Gaps10(t);
    } else if t < 20 {
      Gaps15(t);
    } else if t < 25 {
      Gaps20(t);
    } else if t < 30 {
      Gaps25(t);
    } else if t < 35 {
      Gaps30(t);
    } else if t < 40 {
      Gaps35(t);
    } else if t < 45 {
      Gaps40(t);
    } else if t < 50 {
      Gaps45(t);
    } else if t < 55 {
      Gaps50(t);
    } else if t < 60 {
      Gaps55(t);
    } else if t < 65 {
      Gaps60(t);
    } else if t < 70 {
      Gaps65(t);
    } else if t < 75 {
      Gaps70(t);
    } else {
      Gaps75(t);
    }
  }

  /** p is prime, and there are t primes below it. */
  ghost predicate IsNthPrime(t: nat, p: nat) {
    if t == 0 then p == 2 else exists q: nat :: IsNthPrime(t - 1, q) && NextPrime(q, p)
  }

  lemma {:induction false} NthPrime(t: nat)
    requires t < 80
    ensures IsNthPrime(t, PRIMES[t])
  {
    if t > 0 {
      NthPrime(t - 1);
      NextInList(t - 1);
    }
  }

  // ---------------------------------------------------------------- roots

  const R192: int := R64 * R64 * R64

  /** The integer part of the cube root. */
  function CubeRoot(p: nat): nat {
    if p < 8 then 1 else if p < 27 then 2 else if p < 64 then 3 else if p < 125 then 4 else if p < 216 then 5 else if p < 343 then 6 else 7
  }

  predicate CubeFraction(p: nat, n: nat, k: int) {
    var v := n * R64 + k;
    0 <= k < R64 && v * v * v <= p * R192 < (v + 1) * (v + 1) * (v + 1)
  }

  lemma Cubes0(t: nat)
    requires 0 <= t < 8
    ensures CubeFraction(PRIMES[t], CubeRoot(PRIMES[t]), K[t])
  {
    assert t == 0 || t == 1 || t == 2 || t == 3 || t == 4 || t == 5 || t == 6 || t == 7;
  }

  lemma Cubes8(t: nat)
    requires 8 <= t < 16
    ensures CubeFraction(PRIMES[t], CubeRoot(PRIMES[t]), K[t])
  {
    assert t == 8 || t == 9 || t == 10 || t == 11 || t == 12 || t == 13 || t == 14 || t == 15;
  }

  lemma Cubes16(t: nat)
    requires 16 <= t < 24
    ensures CubeFraction(PRIMES[t], CubeRoot(PRIMES[t]), K[t])
  {
    assert t == 16 || t == 17 || t == 18 || t == 19 || t == 20 || t == 21 || t == 22 || t == 23;
  }

  lemma Cubes24(t: nat)
    requires 24 <= t < 32
    ensures CubeFraction(PRIMES[t], CubeRoot(PRIMES[t]), K[t])
  {
    assert t == 24 || t == 25 || t == 26 || t == 27 || t == 28 || t == 29 || t == 30 || t == 31;
  }

  lemma Cubes32(t: nat)
    requires 32 <= t < 40
    ensures CubeFraction(PRIMES[t], CubeRoot(PRIMES[t]), K[t])
  {
    assert t == 32 || t == 33 || t == 34 || t == 35 || t == 36 || t == 37 || t == 38 || t == 39;
  }

  lemma Cubes40(t: nat)
    requires 40 <= t < 48
    ensures CubeFraction(PRIMES[t], CubeRoot(PRIMES[t]), K[t])
  {
    assert t == 40 || t == 41 || t == 42 || t == 43 || t == 44 || t == 45 || t == 46 || t == 47;
  }

  lemma Cubes48(t: nat)
    requires 48 <= t < 56
    ensures CubeFraction(PRIMES[t], CubeRoot(PRIMES[t]), K[t])
  {
    assert t == 48 || t == 49 || t == 50 || t == 51 || t == 52 || t == 53 || t == 54 || t == 55;
  }

  lemma Cubes56(t: nat)
    requires 56 <= t < 64
    ensures CubeFraction(PRIMES[t], CubeRoot(PRIMES[t]), K[t])
  {
    assert t == 56 || t == 57 || t == 58 || t == 59 || t == 60 || t == 61 || t == 62 || t == 63;
  }

  lemma Cubes64(t: nat)
    requires 64 <= t < 72
    ensures CubeFraction(PRIMES[t], CubeRoot(PRIMES[t]), K[t])
  {
    assert t == 64 || t == 65 || t == 66 || t == 67 || t == 68 || t == 69 || t == 70 || t == 71;
  }

  lemma Cubes72(t: nat)
    requires 72 <= t < 80
    ensures CubeFraction(PRIMES[t], CubeRoot(PRIMES[t]), K[t])
  {
    assert t == 72 || t == 73 || t == 74 || t == 75 || t == 76 || t == 77 || t == 78 || t == 79;
  }

  /** K_t holds the first 64 bits behind the binary point of the cube root of prime number t. */
  lemma RoundConstant(t: nat)
    requires t < 80
    ensures IsNthPrime(t, PRIMES[t]) && CubeFraction(PRIMES[t], CubeRoot(PRIMES[t]), SHA2.k(t))
  {
    NthPrime(t);
    if t < 8 {
      Cubes0(t);
    } else if t < 16 {
      Cubes8(t);
    } else if t < 24 {
      Cubes16(t);
    } else if t < 32 {
      Cubes24(t);
    } else if t < 40 {
      Cubes32(t);
    } else if t < 48 {
      Cubes40(t);
    } else if t < 56 {
      Cubes48(t);
    } else if t < 64 {
      Cubes56(t);
    } else if t < 72 {
      Cubes64(t);
    } else {
      Cubes72(t);
    }
  }

  const R128: int := R64 * R64

  /** The integer part of the square root, below 25. */
  function SquareRoot(p: nat): nat {
    if p < 4 then 1 else if p < 9 then 2 else if p < 16 then 3 else 4
  }

  predicate SquareFraction(p: nat, n: nat, h: int) {
    var v := n * R64 + h;
    0 <= h < R64 && v * v <= p * R128 < (v + 1) * (v + 1)
  }

  /** The initial hash value holds those bits of the square roots of the first eight primes. */
  lemma InitialWord(t: nat)
    requires t < 8
    ensures IsNthPrime(t, PRIMES[t]) && SquareFraction(PRIMES[t], SquareRoot(PRIMES[t]), H0[t])
  {
    NthPrime(t);
    assert PRIMES[t] == P_00[t];
    assert t == 0 || t == 1 || t == 2 || t == 3 || t == 4 || t == 5 || t == 6 || t == 7;
  }

  /** These conditions leave one value. */
  lemma CubeFractionUnique(p: nat, n: nat, k: int, n': nat, k': int)
    requires CubeFraction(p, n, k) && CubeFraction(p, n', k')
    ensures k == k' && n == n'
  {
    CubeRootUnique(p * R192, n * R64 + k, n' * R64 + k');
    DivModUnique(n * R64 + k, R64, n, k);
    DivModUnique(n' * R64 + k', R64, n', k');
  }

  lemma CubeRootUnique(p: int, v: int, w: int)
    requires v >= 0 && w >= 0
    requires v * v * v <= p < (v + 1) * (v + 1) * (v + 1) && w * w * w <= p < (w + 1) * (w + 1) * (w + 1)
    ensures v == w
  {
    if v < w {
      CubesGrow(v + 1, w);
    } else if w < v {
      CubesGrow(w + 1, v);
    }
  }

  lemma CubesGrow(v: int, w: int)
    requires 0 <= v <= w
    ensures v * v * v <= w * w * w
  {
    SquaresGrow(v, w);
    MulLe(v * v, w * w, v);
    MulLe(v, w, w * w);
  }

  lemma SquareFractionUnique(p: nat, n: nat, h: int, n': nat, h': int)
    requires SquareFraction(p, n, h) && SquareFraction(p, n', h')
    ensures h == h' && n == n'
  {
    SquareRootUnique(p * R128, n * R64 + h, n' * R64 + h');
    DivModUnique(n * R64 + h, R64, n, h);
    DivModUnique(n' * R64 + h', R64, n', h');
  }

  lemma SquareRootUnique(p: int, v: int, w: int)
    requires v >= 0 && w >= 0 && v * v <= p < (v + 1) * (v + 1) && w * w <= p < (w + 1) * (w + 1)
    ensures v == w
  {
    if v < w {
      SquaresGrow(v + 1, w);
    } else if w < v {
      SquaresGrow(w + 1, v);
    }
  }

  lemma SquaresGrow(v: int, w: int)
    requires 0 <= v <= w
    ensures v * v <= w * w
  {
    MulLe(v, w, v);
    MulLe(v, w, w);
  }
}
