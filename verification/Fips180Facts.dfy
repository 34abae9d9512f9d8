// Why the tables and the padding of SHA-256 are the ones FIPS 180-4 asks for.
module Fips180Facts {
  import opened Fips180

  // The first 64 primes.
  function Prime(t: nat): int {
    match t
    case 0 => 2 case 1 => 3 case 2 => 5 case 3 => 7 case 4 => 11 case 5 => 13 case 6 => 17 case 7 => 19
    case 8 => 23 case 9 => 29 case 10 => 31 case 11 => 37 case 12 => 41 case 13 => 43 case 14 => 47 case 15 => 53
    case 16 => 59 case 17 => 61 case 18 => 67 case 19 => 71 case 20 => 73 case 21 => 79 case 22 => 83 case 23 => 89
    case 24 => 97 case 25 => 101 case 26 => 103 case 27 => 107 case 28 => 109 case 29 => 113 case 30 => 127 case 31 => 131
    case 32 => 137 case 33 => 139 case 34 => 149 case 35 => 151 case 36 => 157 case 37 => 163 case 38 => 167 case 39 => 173
    case 40 => 179 case 41 => 181 case 42 => 191 case 43 => 193 case 44 => 197 case 45 => 199 case 46 => 211 case 47 => 223
    case 48 => 227 case 49 => 229 case 50 => 233 case 51 => 239 case 52 => 241 case 53 => 251 case 54 => 257 case 55 => 263
    case 56 => 269 case 57 => 271 case 58 => 277 case 59 => 281 case 60 => 283 case 61 => 293 case 62 => 307 case 63 => 311
    case _ => 0
  }

  function FloorCubeRoot(p: int): int {
    if p < 8 then 1 else if p < 27 then 2 else if p < 64 then 3
    else if p < 125 then 4 else if p < 216 then 5 else 6
  }

  function Cube(n: int): int {
    n * n * n
  }

  // k is the first 32 bits of the fractional part of the cube root of p.
  predicate CubeRootFraction(p: int, k: int) {
    && 0 <= k < TWO_32
    && Cube(FloorCubeRoot(p) * TWO_32 + k) <= p * Cube(TWO_32) < Cube(FloorCubeRoot(p) * TWO_32 + k + 1)
  }

  // The first 32 fractional bits of the cube roots, as numbers.
  function CubeRootBits(t: nat): int {
    match t
    case 0 => 0x428a2f98 case 1 => 0x71374491 case 2 => 0xb5c0fbcf case 3 => 0xe9b5dba5
    case 4 => 0x3956c25b case 5 => 0x59f111f1 case 6 => 0x923f82a4 case 7 => 0xab1c5ed5
    case 8 => 0xd807aa98 case 9 => 0x12835b01 case 10 => 0x243185be case 11 => 0x550c7dc3
    case 12 => 0x72be5d74 case 13 => 0x80deb1fe case 14 => 0x9bdc06a7 case 15 => 0xc19bf174
    case 16 => 0xe49b69c1 case 17 => 0xefbe4786 case 18 => 0x0fc19dc6 case 19 => 0x240ca1cc
    case 20 => 0x2de92c6f case 21 => 0x4a7484aa case 22 => 0x5cb0a9dc case 23 => 0x76f988da
    case 24 => 0x983e5152 case 25 => 0xa831c66d case 26 => 0xb00327c8 case 27 => 0xbf597fc7
    case 28 => 0xc6e00bf3 case 29 => 0xd5a79147 case 30 => 0x06ca6351 case 31 => 0x14292967
    case 32 => 0x27b70a85 case 33 => 0x2e1b2138 case 34 => 0x4d2c6dfc case 35 => 0x53380d13
    case 36 => 0x650a7354 case 37 => 0x766a0abb case 38 => 0x81c2c92e case 39 => 0x92722c85
    case 40 => 0xa2bfe8a1 case 41 => 0xa81a664b case 42 => 0xc24b8b70 case 43 => 0xc76c51a3
    case 44 => 0xd192e819 case 45 => 0xd6990624 case 46 => 0xf40e3585 case 47 => 0x106aa070
    case 48 => 0x19a4c116 case 49 => 0x1e376c08 case 50 => 0x2748774c case 51 => 0x34b0bcb5
    case 52 => 0x391c0cb3 case 53 => 0x4ed8aa4a case 54 => 0x5b9cca4f case 55 => 0x682e6ff3
    case 56 => 0x748f82ee case 57 => 0x78a5636f case 58 => 0x84c87814 case 59 => 0x8cc70208
    case 60 => 0x90befffa case 61 => 0xa4506ceb case 62 => 0xbef9a3f7 case 63 => 0xc67178f2
    case _ => 0
  }

  // Section 4.2.2: the round constants are the fractional cube roots of the first 64 primes.
  lemma RoundConstantsAreCubeRoots(t: nat)
    requires t < 64
    ensures CubeRootFraction(Prime(t), RoundConstant(t) as int)
  {
    hide Prime, CubeRootFraction, RoundConstant, CubeRootBits;
    if t < 16 {
      CubeRoots0To15(t);
      Constants0To15(t);
    } else if t < 32 {
      CubeRoots16To31(t);
      Constants16To31(t);
    } else if t < 48 {
      CubeRoots32To47(t);
      Constants32To47(t);
    } else {
      CubeRoots48To63(t);
      Constants48To63(t);
    }
  }

  lemma CubeRoots0To15(t: nat)
    requires 0 <= t < 16
    ensures CubeRootFraction(Prime(t), CubeRootBits(t))
  {
    match t
    case 0 => case 1 => case 2 => case 3 => case 4 => case 5 => case 6 => case 7 =>
    case 8 => case 9 => case 10 => case 11 => case 12 => case 13 => case 14 => case 15 =>
  }

  lemma CubeRoots16To31(t: nat)
    requires 16 <= t < 32
    ensures CubeRootFraction(Prime(t), CubeRootBits(t))
  {
    match t
    case 16 => case 17 => case 18 => case 19 => case 20 => case 21 => case 22 => case 23 =>
    case 24 => case 25 => case 26 => case 27 => case 28 => case 29 => case 30 => case 31 =>
  }

  lemma CubeRoots32To47(t: nat)
    requires 32 <= t < 48
    ensures CubeRootFraction(Prime(t), CubeRootBits(t))
  {
    match t
    case 32 => case 33 => case 34 => case 35 => case 36 => case 37 => case 38 => case 39 =>
    case 40 => case 41 => case 42 => case 43 => case 44 => case 45 => case 46 => case 47 =>
  }

  lemma CubeRoots48To63(t: nat)
    requires 48 <= t < 64
    ensures CubeRootFraction(Prime(t), CubeRootBits(t))
  {
    match t
    case 48 => case 49 => case 50 => case 51 => case 52 => case 53 => case 54 => case 55 =>
    case 56 => case 57 => case 58 => case 59 => case 60 => case 61 => case 62 => case 63 =>
  }

  lemma Constants0To15(t: nat)
    requires 0 <= t < 16
    ensures RoundConstant(t) as int == CubeRootBits(t)
  {
    match t
    case 0 => case 1 => case 2 => case 3 => case 4 => case 5 => case 6 => case 7 =>
    case 8 => case 9 => case 10 => case 11 => case 12 => case 13 => case 14 => case 15 =>
  }

  lemma Constants16To31(t: nat)
    requires 16 <= t < 32
    ensures RoundConstant(t) as int == CubeRootBits(t)
  {
    match t
    case 16 => case 17 => case 18 => case 19 => case 20 => case 21 => case 22 => case 23 =>
    case 24 => case 25 => case 26 => case 27 => case 28 => case 29 => case 30 => case 31 =>
  }

  lemma Constants32To47(t: nat)
    requires 32 <= t < 48
    ensures RoundConstant(t) as int == CubeRootBits(t)
  {
    match t
    case 32 => case 33 => case 34 => case 35 => case 36 => case 37 => case 38 => case 39 =>
    case 40 => case 41 => case 42 => case 43 => case 44 => case 45 => case 46 => case 47 =>
  }

  lemma Constants48To63(t: nat)
    requires 48 <= t < 64
    ensures RoundConstant(t) as int == CubeRootBits(t)
  {
    match t
    case 48 => case 49 => case 50 => case 51 => case 52 => case 53 => case 54 => case 55 =>
    case 56 => case 57 => case 58 => case 59 => case 60 => case 61 => case 62 => case 63 =>
  }

  function FloorSquareRoot(p: int): int {
    if p < 4 then 1 else if p < 9 then 2 else if p < 16 then 3 else 4
  }

  function Square(n: int): int {
    n * n
  }

  // Section 5.3.3: the initial words are the fractional square roots of the first eight primes.
  lemma InitialWordsAreSquareRoots(t: nat)
    requires t < 8
    ensures 0 <= (InitialWord(t) as int) < TWO_32
    ensures Square(FloorSquareRoot(Prime(t)) * TWO_32 + (InitialWord(t) as int)) <= Prime(t) * Square(TWO_32)
    ensures Prime(t) * Square(TWO_32) < Square(FloorSquareRoot(Prime(t)) * TWO_32 + (InitialWord(t) as int) + 1)
  {
    match t
    case 0 => case 1 => case 2 => case 3 => case 4 => case 5 => case 6 => case 7 =>
  }

  // ----- The functions of section 4.1.2

  // Ch takes the bits of y where x is set, and those of z elsewhere.
  lemma ChChooses(x: Word, y: Word, z: Word)
    ensures x & Ch(x, y, z) == x & y && !x & Ch(x, y, z) == !x & z
  {
  }

  // Maj is what any two of the three agree on.
  lemma MajIsMajority(x: Word, y: Word, z: Word)
    ensures x & y & Maj(x, y, z) == x & y && !x & !y & Maj(x, y, z) == 0
    ensures Maj(x, z, y) == Maj(x, y, z) && Maj(y, z, x) == Maj(x, y, z)
  {
    MajBoth(x, y, z);
    MajNeither(x, y, z);
    MajSwaps(x, y, z);
    MajTurns(x, y, z);
    hide Maj;
  }

  lemma MajBoth(x: Word, y: Word, z: Word)
    ensures x & y & Maj(x, y, z) == x & y
  {
  }

  lemma MajNeither(x: Word, y: Word, z: Word)
    ensures !x & !y & Maj(x, y, z) == 0
  {
  }

  lemma MajSwaps(x: Word, y: Word, z: Word)
    ensures Maj(x, z, y) == Maj(x, y, z)
  {
  }

  lemma MajTurns(x: Word, y: Word, z: Word)
    ensures Maj(y, z, x) == Maj(x, y, z)
  {
  }

  // Bitwise addition, by a name of its own.
  function Xor(x: Word, y: Word): Word {
    x ^ y
  }

  function Xor3(x: Word, y: Word, z: Word): Word {
    Xor(Xor(x, y), z)
  }

  lemma XorIs(x: Word, y: Word)
    ensures Xor(x, y) == x ^ y
  {
  }

  lemma Xor3Is(x: Word, y: Word, z: Word)
    ensures Xor3(x, y, z) == x ^ y ^ z
  {
    Xor3Unfold(x, y, z);
    hide *;
    XorIs(x, y);
    XorIs(x ^ y, z);
  }

  lemma Xor3Unfold(x: Word, y: Word, z: Word)
    ensures Xor3(x, y, z) == Xor(Xor(x, y), z)
  {
    hide Xor;
  }

  lemma BitsSwap(a: Word, b: Word, c: Word, d: Word)
    ensures (a ^ b) ^ (c ^ d) == (a ^ c) ^ (b ^ d)
  {
  }

  lemma XorOfXors(a: Word, b: Word, c: Word, d: Word)
    ensures Xor(Xor(a, b), Xor(c, d)) == (a ^ b) ^ (c ^ d)
  {
    hide *;
    XorIs(a, b);
    XorIs(c, d);
    XorIs(a ^ b, c ^ d);
  }

  lemma XorSwaps(a: Word, b: Word, c: Word, d: Word)
    ensures Xor(Xor(a, b), Xor(c, d)) == Xor(Xor(a, c), Xor(b, d))
  {
    hide *;
    BitsSwap(a, b, c, d);
    XorOfXors(a, b, c, d);
    XorOfXors(a, c, b, d);
  }

  lemma SumsRegroup(a: Word, b: Word, c: Word, d: Word, e: Word, f: Word)
    ensures Xor3(Xor(a, b), Xor(c, d), Xor(e, f)) == Xor(Xor3(a, c, e), Xor3(b, d, f))
  {
    hide Xor;
    XorSwaps(a, b, c, d);
    XorSwaps(Xor(a, c), Xor(b, d), e, f);
  }

  lemma Rotr2Sum(x: Word, y: Word)
    ensures Rotr(Xor(x, y), 2) == Xor(Rotr(x, 2), Rotr(y, 2))
  {
  }

  lemma Rotr6Sum(x: Word, y: Word)
    ensures Rotr(Xor(x, y), 6) == Xor(Rotr(x, 6), Rotr(y, 6))
  {
  }

  lemma Rotr7Sum(x: Word, y: Word)
    ensures Rotr(Xor(x, y), 7) == Xor(Rotr(x, 7), Rotr(y, 7))
  {
  }

  lemma Rotr11Sum(x: Word, y: Word)
    ensures Rotr(Xor(x, y), 11) == Xor(Rotr(x, 11), Rotr(y, 11))
  {
  }

  lemma Rotr13Sum(x: Word, y: Word)
    ensures Rotr(Xor(x, y), 13) == Xor(Rotr(x, 13), Rotr(y, 13))
  {
  }

  lemma Rotr17Sum(x: Word, y: Word)
    ensures Rotr(Xor(x, y), 17) == Xor(Rotr(x, 17), Rotr(y, 17))
  {
  }

  lemma Rotr18Sum(x: Word, y: Word)
    ensures Rotr(Xor(x, y), 18) == Xor(Rotr(x, 18), Rotr(y, 18))
  {
  }

  lemma Rotr19Sum(x: Word, y: Word)
    ensures Rotr(Xor(x, y), 19) == Xor(Rotr(x, 19), Rotr(y, 19))
  {
  }

  lemma Rotr22Sum(x: Word, y: Word)
    ensures Rotr(Xor(x, y), 22) == Xor(Rotr(x, 22), Rotr(y, 22))
  {
  }

  lemma Rotr25Sum(x: Word, y: Word)
    ensures Rotr(Xor(x, y), 25) == Xor(Rotr(x, 25), Rotr(y, 25))
  {
  }

  lemma Shift3Sum(x: Word, y: Word)
    ensures Xor(x, y) >> 3 == Xor(x >> 3, y >> 3)
  {
    hide Xor;
    Shift3Bits(x, y);
    XorIs(x, y);
    XorIs(x >> 3, y >> 3);
  }

  lemma Shift3Bits(x: Word, y: Word)
    ensures (x ^ y) >> 3 == (x >> 3) ^ (y >> 3)
  {
  }

  lemma Shift10Sum(x: Word, y: Word)
    ensures Xor(x, y) >> 10 == Xor(x >> 10, y >> 10)
  {
    hide Xor;
    Shift10Bits(x, y);
    XorIs(x, y);
    XorIs(x >> 10, y >> 10);
  }

  lemma Shift10Bits(x: Word, y: Word)
    ensures (x ^ y) >> 10 == (x >> 10) ^ (y >> 10)
  {
  }

  lemma BigSigma0Of(x: Word)
    ensures BigSigma0(x) == Rotr(x, 2) ^ Rotr(x, 13) ^ Rotr(x, 22)
  {
    hide Rotr;
  }

  lemma BigSigma0Is(x: Word)
    ensures BigSigma0(x) == Xor3(Rotr(x, 2), Rotr(x, 13), Rotr(x, 22))
  {
    hide *;
    BigSigma0Of(x);
    Xor3Is(Rotr(x, 2), Rotr(x, 13), Rotr(x, 22));
  }

  lemma BigSigma0OfXor(x: Word, y: Word)
    ensures BigSigma0(Xor(x, y)) == Xor(BigSigma0(x), BigSigma0(y))
  {
    hide *;
    BigSigma0Is(x);
    BigSigma0Is(y);
    BigSigma0Is(Xor(x, y));
    Rotr2Sum(x, y);
    Rotr13Sum(x, y);
    Rotr22Sum(x, y);
    SumsRegroup(Rotr(x, 2), Rotr(y, 2), Rotr(x, 13), Rotr(y, 13), Rotr(x, 22), Rotr(y, 22));
  }

  // BigSigma0 respects bitwise sums; the lowest bit goes 2, 13 and 22 places to the right, around the end.
  lemma BigSigma0Sums(x: Word, y: Word)
    ensures BigSigma0(x ^ y) == BigSigma0(x) ^ BigSigma0(y) && BigSigma0(1) == 0x40080400
  {
    hide *;
    BigSigma0OfXor(x, y);
    XorIs(x, y);
    XorIs(BigSigma0(x), BigSigma0(y));
    BigSigma0OfOne();
  }

  lemma BigSigma0OfOne()
    ensures BigSigma0(1) == 0x40080400
  {
  }

  lemma BigSigma1Of(x: Word)
    ensures BigSigma1(x) == Rotr(x, 6) ^ Rotr(x, 11) ^ Rotr(x, 25)
  {
    hide Rotr;
  }

  lemma BigSigma1Is(x: Word)
    ensures BigSigma1(x) == Xor3(Rotr(x, 6), Rotr(x, 11), Rotr(x, 25))
  {
    hide *;
    BigSigma1Of(x);
    Xor3Is(Rotr(x, 6), Rotr(x, 11), Rotr(x, 25));
  }

  lemma BigSigma1OfXor(x: Word, y: Word)
    ensures BigSigma1(Xor(x, y)) == Xor(BigSigma1(x), BigSigma1(y))
  {
    hide *;
    BigSigma1Is(x);
    BigSigma1Is(y);
    BigSigma1Is(Xor(x, y));
    Rotr6Sum(x, y);
    Rotr11Sum(x, y);
    Rotr25Sum(x, y);
    SumsRegroup(Rotr(x, 6), Rotr(y, 6), Rotr(x, 11), Rotr(y, 11), Rotr(x, 25), Rotr(y, 25));
  }

  // BigSigma1 respects bitwise sums; the lowest bit goes 6, 11 and 25 places to the right, around the end.
  lemma BigSigma1Sums(x: Word, y: Word)
    ensures BigSigma1(x ^ y) == BigSigma1(x) ^ BigSigma1(y) && BigSigma1(1) == 0x04200080
  {
    hide *;
    BigSigma1OfXor(x, y);
    XorIs(x, y);
    XorIs(BigSigma1(x), BigSigma1(y));
    BigSigma1OfOne();
  }

  lemma BigSigma1OfOne()
    ensures BigSigma1(1) == 0x04200080
  {
  }

  lemma SmallSigma0Of(x: Word)
    ensures SmallSigma0(x) == Rotr(x, 7) ^ Rotr(x, 18) ^ (x >> 3)
  {
    hide Rotr;
  }

  lemma SmallSigma0Is(x: Word)
    ensures SmallSigma0(x) == Xor3(Rotr(x, 7), Rotr(x, 18), x >> 3)
  {
    hide *;
    SmallSigma0Of(x);
    Xor3Is(Rotr(x, 7), Rotr(x, 18), x >> 3);
  }

  lemma SmallSigma0OfXor(x: Word, y: Word)
    ensures SmallSigma0(Xor(x, y)) == Xor(SmallSigma0(x), SmallSigma0(y))
  {
    hide *;
    SmallSigma0Is(x);
    SmallSigma0Is(y);
    SmallSigma0Is(Xor(x, y));
    Rotr7Sum(x, y);
    Rotr18Sum(x, y);
    Shift3Sum(x, y);
    SumsRegroup(Rotr(x, 7), Rotr(y, 7), Rotr(x, 18), Rotr(y, 18), x >> 3, y >> 3);
  }

  // SmallSigma0 respects bitwise sums; bits go 7 and 18 places to the right around the end, and 3 without coming back.
  lemma SmallSigma0Sums(x: Word, y: Word)
    ensures SmallSigma0(x ^ y) == SmallSigma0(x) ^ SmallSigma0(y) && SmallSigma0(1) == 0x02004000 && SmallSigma0(0x80000000) == 0x11002000
  {
    hide *;
    SmallSigma0OfXor(x, y);
    XorIs(x, y);
    XorIs(SmallSigma0(x), SmallSigma0(y));
    SmallSigma0OfEnds();
  }

  lemma SmallSigma0OfEnds()
    ensures SmallSigma0(1) == 0x02004000 && SmallSigma0(0x80000000) == 0x11002000
  {
  }

  lemma SmallSigma1Of(x: Word)
    ensures SmallSigma1(x) == Rotr(x, 17) ^ Rotr(x, 19) ^ (x >> 10)
  {
    hide Rotr;
  }

  lemma SmallSigma1Is(x: Word)
    ensures SmallSigma1(x) == Xor3(Rotr(x, 17), Rotr(x, 19), x >> 10)
  {
    hide *;
    SmallSigma1Of(x);
    Xor3Is(Rotr(x, 17), Rotr(x, 19), x >> 10);
  }

  lemma SmallSigma1OfXor(x: Word, y: Word)
    ensures SmallSigma1(Xor(x, y)) == Xor(SmallSigma1(x), SmallSigma1(y))
  {
    hide *;
    SmallSigma1Is(x);
    SmallSigma1Is(y);
    SmallSigma1Is(Xor(x, y));
    Rotr17Sum(x, y);
    Rotr19Sum(x, y);
    Shift10Sum(x, y);
    SumsRegroup(Rotr(x, 17), Rotr(y, 17), Rotr(x, 19), Rotr(y, 19), x >> 10, y >> 10);
  }

  // SmallSigma1 respects bitwise sums; bits go 17 and 19 places to the right around the end, and 10 without coming back.
  lemma SmallSigma1Sums(x: Word, y: Word)
    ensures SmallSigma1(x ^ y) == SmallSigma1(x) ^ SmallSigma1(y) && SmallSigma1(1) == 0x0000A000 && SmallSigma1(0x80000000) == 0x00205000
  {
    hide *;
    SmallSigma1OfXor(x, y);
    XorIs(x, y);
    XorIs(SmallSigma1(x), SmallSigma1(y));
    SmallSigma1OfEnds();
  }

  lemma SmallSigma1OfEnds()
    ensures SmallSigma1(1) == 0x0000A000 && SmallSigma1(0x80000000) == 0x00205000
  {
  }

  // A word is its four bytes, the first the most significant.
  lemma WordOfBytes(b0: Byte, b1: Byte, b2: Byte, b3: Byte)
    ensures var w := WordOf(b0, b1, b2, b3);
            && w >> 24 == b0 as Word && (w >> 16) & 0xFF == b1 as Word
            && (w >> 8) & 0xFF == b2 as Word && w & 0xFF == b3 as Word
  {
    ByteBits(b0);
    ByteBits(b1);
    ByteBits(b2);
    ByteBits(b3);
    Packed(b0 as Word, b1 as Word, b2 as Word, b3 as Word);
  }

  lemma ByteBits(b: Byte)
    ensures (b as Word) & 0xFFFFFF00 == 0
  {
    assert (b as Word) < 256;
    Below256(b as Word);
  }

  lemma Below256(w: Word)
    requires w < 256
    ensures w & 0xFFFFFF00 == 0
  {
  }

  lemma Packed(a: Word, b: Word, c: Word, d: Word)
    requires a & 0xFFFFFF00 == 0 && b & 0xFFFFFF00 == 0 && c & 0xFFFFFF00 == 0 && d & 0xFFFFFF00 == 0
    ensures var w := (a << 24) | (b << 16) | (c << 8) | d;
            w >> 24 == a && (w >> 16) & 0xFF == b && (w >> 8) & 0xFF == c && w & 0xFF == d
  {
  }

  // Section 5.1.1 in bits: the one bit and the zero bits that Pad adds are the fewest that
  // leave 64 bits of the last block.
  lemma PadIsStandard(length: nat, fewer: nat)
    ensures var l, k := 8 * length, 7 + 8 * ZeroBytes(length);
            && (l + 1 + k) % 512 == 448
            && (fewer < k ==> (l + 1 + fewer) % 512 != 448)
  {
    assert 8 * length == 512 * (length / 64) + 8 * (length % 64);
  }

  // The number a big-endian byte string denotes.
  function Value(bytes: seq<Byte>): nat {
    if bytes == [] then 0 else 256 * Value(bytes[..|bytes| - 1]) + bytes[|bytes| - 1]
  }

  function Power256(n: nat): nat {
    if n == 0 then 1 else 256 * Power256(n - 1)
  }

  // The length field denotes the bit count.
  lemma {:induction false} BigEndianValue(n: nat, length: nat)
    requires n < Power256(length)
    ensures Value(BigEndian(n, length)) == n
  {
    if length > 0 {
      var init, last := BigEndian(n / 256, length - 1), n % 256;
      BigEndianValue(n / 256, length - 1);
      ValueSnoc(init, last);
    }
  }

  lemma ValueSnoc(init: seq<Byte>, last: Byte)
    ensures Value(init + [last]) == 256 * Value(init) + last
  {
    assert (init + [last])[..|init|] == init;
  }

  lemma LengthFieldFits()
    ensures Power256(8) == TWO_64
  {
  }

  // The last eight bytes of the padding denote the length in bits, modulo 2^64 as they must.
  lemma PadEndsInLength(message: seq<Byte>)
    ensures Value(Pad(message)[|Pad(message)| - 8..]) == 8 * |message| % TWO_64
  {
    var bits := 8 * |message| % TWO_64;
    LengthFieldFits();
    BigEndianValue(bits, 8);
    hide BigEndian, Value;
    assert Pad(message)[|Pad(message)| - 8..] == BigEndian(bits, 8);
  }
}
