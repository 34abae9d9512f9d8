// SHA-256 as FIPS 180-4 defines it: functions of section 4.1.2, padding of 5.1.1, parsing of
// 5.2.1, initial value of 5.3.3 and hash computation of 6.2.2, on whole bytes.
module Fips180 {
  type Byte = b: int | 0 <= b < 256
  type Word = bv32

  // The eight working variables, and the eight words of a hash value.
  datatype Hash = Hash(a: Word, b: Word, c: Word, d: Word, e: Word, f: Word, g: Word, h: Word)

  function Rotr(x: Word, n: bv6): Word
    requires 0 < n < 32
  {
    (x >> n) | (x << (32 - n))
  }

  // Addition modulo 2^32.
  function Plus(x: Word, y: Word): Word {
    x + y
  }

  function Sum4(w: Word, x: Word, y: Word, z: Word): Word {
    Plus(Plus(Plus(w, x), y), z)
  }

  function Ch(x: Word, y: Word, z: Word): Word {
    (x & y) ^ (!x & z)
  }

  function Maj(x: Word, y: Word, z: Word): Word {
    (x & y) ^ (x & z) ^ (y & z)
  }

  function BigSigma0(x: Word): Word {
    Rotr(x, 2) ^ Rotr(x, 13) ^ Rotr(x, 22)
  }

  function BigSigma1(x: Word): Word {
    Rotr(x, 6) ^ Rotr(x, 11) ^ Rotr(x, 25)
  }

  function SmallSigma0(x: Word): Word {
    Rotr(x, 7) ^ Rotr(x, 18) ^ (x >> 3)
  }

  function SmallSigma1(x: Word): Word {
    Rotr(x, 17) ^ Rotr(x, 19) ^ (x >> 10)
  }

  // The table of section 4.2.2.
  function RoundConstant(t: nat): Word
    requires t < 64
  {
    match t
    case 0 => 0x428a2f98 case 1 => 0x71374491 case 2 => 0xb5c0fbcf case 3 => 0xe9b5dba5
    case 4 => 0x3956c25b case 5 => 0x59f111f1 case 6 => 0x923f82a4 case 7 => 0xab1c5ed5
    case 8 => 0xd807aa98 case 9 => 0x12835b01 case 10 => 0x243185be case 11 => 0x550c7dc3
    case 12 => 0x72be5d74 case 13 => 0x80deb1fe case 14 => 0x9bdc06a7 case 15 => 0xc19bf174
    case 16 => 0xe49b69c1 case 17 => 0xefbe4786 case 18 => 0x0fc19dc6 case 19 => 0x240ca1cc
    case 20 => 0x2de92c6f case 21 => 0x4a7484aa case 22 => 0x5cb0a9dc case 23 => 0x76f988da
    case 24 => 0x983e5152 case 25 => 0xa831c66d case 26 => 0xb00327c8 case 27 => 0xbf597fc7
    case 28 => 0xc6e00bf3 case 29 => 0xd5a79147 case 30 => 0x06ca6351 case 31 => 0x14292967
    case 32 => 0x27b70a85 case 33 => 0x2e1b2138 case 34 => 0x4d2c6dfc case 35 => 0x53380d13
    case 36 => 0x650a7354 case 37 => 0x766a0abb case 38 => 0x81c2c92e case 39 => 0x92722c85
    case 40 => 0xa2bfe8a1 case 41 => 0xa81a664b case 42 => 0xc24b8b70 case 43 => 0xc76c51a3
    case 44 => 0xd192e819 case 45 => 0xd6990624 case 46 => 0xf40e3585 case 47 => 0x106aa070
    case 48 => 0x19a4c116 case 49 => 0x1e376c08 case 50 => 0x2748774c case 51 => 0x34b0bcb5
    case 52 => 0x391c0cb3 case 53 => 0x4ed8aa4a case 54 => 0x5b9cca4f case 55 => 0x682e6ff3
    case 56 => 0x748f82ee case 57 => 0x78a5636f case 58 => 0x84c87814 case 59 => 0x8cc70208
    case 60 => 0x90befffa case 61 => 0xa4506ceb case 62 => 0xbef9a3f7 case 63 => 0xc67178f2
    case _ => 0
  }

  const TWO_32: int := 0x1_0000_0000

  // The initial value of section 5.3.3.
  function InitialWord(t: nat): Word
    requires t < 8
  {
    match t
    case 0 => 0x6a09e667 case 1 => 0xbb67ae85 case 2 => 0x3c6ef372 case 3 => 0xa54ff53a
    case 4 => 0x510e527f case 5 => 0x9b05688c case 6 => 0x1f83d9ab case 7 => 0x5be0cd19
    case _ => 0
  }

  function Initial(): Hash {
    Hash(InitialWord(0), InitialWord(1), InitialWord(2), InitialWord(3),
         InitialWord(4), InitialWord(5), InitialWord(6), InitialWord(7))
  }

  // Four bytes as a big-endian word.
  function WordOf(b0: Byte, b1: Byte, b2: Byte, b3: Byte): Word {
    ((b0 as Word) << 24) | ((b1 as Word) << 16) | ((b2 as Word) << 8) | (b3 as Word)
  }

  // Step 1 of 6.2.2: the message schedule of one 64-byte block. (The standard lists the four
  // summands the other way round.)
  function Schedule(block: seq<Byte>, t: nat): Word
    requires |block| == 64 && t < 64
  {
    if t < 16 then WordOf(block[4 * t], block[4 * t + 1], block[4 * t + 2], block[4 * t + 3])
    else Sum4(Schedule(block, t - 16), SmallSigma0(Schedule(block, t - 15)),
              Schedule(block, t - 7), SmallSigma1(Schedule(block, t - 2)))
  }

  // One pass of step 3.
  function Round(s: Hash, k: Word, w: Word): Hash {
    var t1 := Plus(Sum4(s.h, BigSigma1(s.e), Ch(s.e, s.f, s.g), k), w);
    var t2 := Plus(BigSigma0(s.a), Maj(s.a, s.b, s.c));
    Hash(Plus(t1, t2), s.a, s.b, s.c, Plus(s.d, t1), s.e, s.f, s.g)
  }

  // The working variables after the first t passes.
  function Rounds(s: Hash, block: seq<Byte>, t: nat): Hash
    requires |block| == 64 && t <= 64
  {
    if t == 0 then s else Round(Rounds(s, block, t - 1), RoundConstant(t - 1), Schedule(block, t - 1))
  }

  function AddHash(s: Hash, r: Hash): Hash {
    Hash(Plus(s.a, r.a), Plus(s.b, r.b), Plus(s.c, r.c), Plus(s.d, r.d),
         Plus(s.e, r.e), Plus(s.f, r.f), Plus(s.g, r.g), Plus(s.h, r.h))
  }

  function Compress(s: Hash, block: seq<Byte>): Hash
    requires |block| == 64
  {
    AddHash(s, Rounds(s, block, 64))
  }

  // The chained hash of a message of whole blocks.
  function HashBlocks(data: seq<Byte>): Hash
    requires |data| % 64 == 0
  {
    if |data| < 64 then Initial()
    else Compress(HashBlocks(data[..|data| - 64]), data[|data| - 64..])
  }

  const TWO_64: nat := 0x1_0000_0000_0000_0000

  // n as so many bytes, most significant first.
  function BigEndian(n: nat, length: nat): (b: seq<Byte>)
    ensures |b| == length
  {
    if length == 0 then [] else BigEndian(n / 256, length - 1) + [n % 256]
  }

  // The number of zero bytes after the 0x80 byte.
  function ZeroBytes(length: nat): (n: nat)
    ensures (length + 1 + n + 8) % 64 == 0
  {
    if length % 64 < 56 then 55 - length % 64 else 119 - length % 64
  }

  function Zeros(n: nat): (z: seq<Byte>)
    ensures |z| == n
  {
    seq(n, _ => 0)
  }

  // Padding. The standard limits messages to fewer than 2^64 bits; beyond that the length
  // field holds the bit count modulo 2^64.
  function Pad(message: seq<Byte>): (p: seq<Byte>)
    ensures |p| % 64 == 0
  {
    message + [0x80] + Zeros(ZeroBytes(|message|)) + BigEndian(8 * |message| % TWO_64, 8)
  }

  function Words(s: Hash): seq<Word> {
    [s.a, s.b, s.c, s.d, s.e, s.f, s.g, s.h]
  }

  function BytesOf(words: seq<Word>): (b: seq<Byte>)
    ensures |b| == 4 * |words|
  {
    if words == [] then [] else BytesOf(words[..|words| - 1]) + BigEndian(words[|words| - 1] as int, 4)
  }

  function Digest(message: seq<Byte>): (d: seq<Byte>)
    ensures |d| == 32
  {
    BytesOf(Words(HashBlocks(Pad(message))))
  }
}
