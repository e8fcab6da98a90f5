/** SHA-256 as FIPS 180-4 defines it, as pure functions over byte strings. */
module Fips180 {
  import opened Words

  type Block = b: seq<byte> | |b| == 64 witness seq(64, _ => 0)
  type HashValue = h: seq<word> | |h| == 8 witness seq(8, _ => 0)

  // Section 4.2.2: the constants.
  const K: seq<word> :=
    [0x428a2f98, 0x71374491, 0xb5c0fbcf, 0xe9b5dba5, 0x3956c25b, 0x59f111f1, 0x923f82a4, 0xab1c5ed5] +
    [0xd807aa98, 0x12835b01, 0x243185be, 0x550c7dc3, 0x72be5d74, 0x80deb1fe, 0x9bdc06a7, 0xc19bf174] +
    [0xe49b69c1, 0xefbe4786, 0x0fc19dc6, 0x240ca1cc, 0x2de92c6f, 0x4a7484aa, 0x5cb0a9dc, 0x76f988da] +
    [0x983e5152, 0xa831c66d, 0xb00327c8, 0xbf597fc7, 0xc6e00bf3, 0xd5a79147, 0x06ca6351, 0x14292967] +
    [0x27b70a85, 0x2e1b2138, 0x4d2c6dfc, 0x53380d13, 0x650a7354, 0x766a0abb, 0x81c2c92e, 0x92722c85] +
    [0xa2bfe8a1, 0xa81a664b, 0xc24b8b70, 0xc76c51a3, 0xd192e819, 0xd6990624, 0xf40e3585, 0x106aa070] +
    [0x19a4c116, 0x1e376c08, 0x2748774c, 0x34b0bcb5, 0x391c0cb3, 0x4ed8aa4a, 0x5b9cca4f, 0x682e6ff3] +
    [0x748f82ee, 0x78a5636f, 0x84c87814, 0x8cc70208, 0x90befffa, 0xa4506ceb, 0xbef9a3f7, 0xc67178f2]

  // Section 5.3.3: the initial hash value.
  const INITIAL: HashValue := [
    0x6a09e667, 0xbb67ae85, 0x3c6ef372, 0xa54ff53a, 0x510e527f, 0x9b05688c, 0x1f83d9ab, 0x5be0cd19
  ]

  // Section 3.2: rotation.
  function Rotr(n: nat, x: word): word
    requires n < 32
  {
    BitOr(ShiftRight(x, n), ShiftLeft(x, 32 - n))
  }

  // Section 4.1.2: the six logical functions.
  function Ch(x: word, y: word, z: word): word {
    BitXor(BitAnd(x, y), BitAnd(BitNot(x), z))
  }

  function Maj(x: word, y: word, z: word): word {
    BitXor(BitXor(BitAnd(x, y), BitAnd(x, z)), BitAnd(y, z))
  }

  function BigSigma0(x: word): word {
    BitXor(BitXor(Rotr(2, x), Rotr(13, x)), Rotr(22, x))
  }

  function BigSigma1(x: word): word {
    BitXor(BitXor(Rotr(6, x), Rotr(11, x)), Rotr(25, x))
  }

  function SmallSigma0(x: word): word {
    BitXor(BitXor(Rotr(7, x), Rotr(18, x)), ShiftRight(x, 3))
  }

  function SmallSigma1(x: word): word {
    BitXor(BitXor(Rotr(17, x), Rotr(19, x)), ShiftRight(x, 10))
  }

  // Section 5.1.1: padding. A one bit, the fewest zero bits that leave room
  // for the length in the last block, and the bit length as 64 bits. For whole
  // bytes the one bit and the first seven zeros are the byte 0x80.
  function ZeroBytes(length: nat): (k: nat)
    ensures (length + 1 + k) % 64 == 56
    ensures k < 64
  {
    if length % 64 < 56 then 55 - length % 64 else 119 - length % 64
  }

  lemma {:induction false} ZeroBytesAreFewest(length: nat, j: nat)
    requires (length + 1 + j) % 64 == 56
    ensures ZeroBytes(length) <= j
  {
    assert (length + 1 + ZeroBytes(length)) % 64 == (length + 1 + j) % 64;
  }

  function BigEndianBytes(x: nat, n: nat): (s: seq<byte>)
    ensures |s| == n
  {
    if n == 0 then [] else BigEndianBytes(x / 256, n - 1) + [x % 256]
  }

  function Padding(length: nat): (p: seq<byte>)
    ensures (length + |p|) % 64 == 0
  {
    var zeros := ZeroBytes(length);
    var p := [0x80] + seq(zeros, _ => 0) + BigEndianBytes(8 * length, 8);
    assert |p| == zeros + 9;
    p
  }

  // Section 5.2.1: the block as sixteen words.
  function MessageWord(m: Block, t: nat): word
    requires t < 16
  {
    BigEndian(m[4 * t], m[4 * t + 1], m[4 * t + 2], m[4 * t + 3])
  }

  // Section 6.2.2, step 1: the message schedule.
  function Schedule(m: Block, t: nat): word
    requires t < 64
  {
    if t < 16 then MessageWord(m, t)
    else Add(Add(Add(SmallSigma1(Schedule(m, t - 2)), Schedule(m, t - 7)),
                 SmallSigma0(Schedule(m, t - 15))), Schedule(m, t - 16))
  }

  datatype Working = Working(a: word, b: word, c: word, d: word, e: word, f: word, g: word, h: word)

  // Section 6.2.2, step 3: one round.
  function Round(v: Working, k: word, w: word): Working {
    var t1 := Add(Add(Add(Add(v.h, BigSigma1(v.e)), Ch(v.e, v.f, v.g)), k), w);
    var t2 := Add(BigSigma0(v.a), Maj(v.a, v.b, v.c));
    Working(Add(t1, t2), v.a, v.b, v.c, Add(v.d, t1), v.e, v.f, v.g)
  }

  // Section 6.2.2, step 2 and the first `n` rounds of step 3.
  function Rounds(hash: HashValue, m: Block, n: nat): Working
    requires n <= |K|
  {
    if n == 0 then
      Working(hash[0], hash[1], hash[2], hash[3], hash[4], hash[5], hash[6], hash[7])
    else
      Round(Rounds(hash, m, n - 1), K[n - 1], Schedule(m, n - 1))
  }

  // Section 6.2.2, step 4.
  function Compress(hash: HashValue, m: Block): HashValue {
    AddTo(Rounds(hash, m, |K|), hash)
  }

  function AddTo(v: Working, hash: HashValue): HashValue {
    [Add(v.a, hash[0]), Add(v.b, hash[1]), Add(v.c, hash[2]), Add(v.d, hash[3]),
     Add(v.e, hash[4]), Add(v.f, hash[5]), Add(v.g, hash[6]), Add(v.h, hash[7])]
  }

  // Section 6.2.2: H(N) after the N blocks of an already padded message.
  function HashBlocks(m: seq<byte>): HashValue
    requires |m| % 64 == 0
  {
    if |m| == 0 then INITIAL
    else Compress(HashBlocks(m[..|m| - 64]), m[|m| - 64..])
  }

  /** The SHA-256 digest of a message, as eight words. FIPS 180-4 defines it
      for messages shorter than 2^64 bits. */
  function Sha256(m: seq<byte>): HashValue {
    HashBlocks(m + Padding(|m|))
  }

  const HEX_DIGITS := "0123456789abcdef"

  /** `n` hexadecimal digits, most significant first. */
  function Hex(x: nat, n: nat): (s: string)
    ensures |s| == n
  {
    if n == 0 then "" else Hex(x / 16, n - 1) + [HEX_DIGITS[x % 16]]
  }

  function HexWords(h: seq<word>): string {
    if |h| == 0 then "" else HexWords(h[..|h| - 1]) + Hex(h[|h| - 1], 8)
  }

  function Sha256Hex(m: seq<byte>): string {
    HexWords(Sha256(m))
  }

  /** One more block, seen from inside a longer message. */
  lemma HashNextBlock(m: seq<byte>, n: nat)
    requires n % 64 == 0 && n + 64 <= |m|
    ensures HashBlocks(m[..n + 64]) == Compress(HashBlocks(m[..n]), m[n..n + 64])
  {
    assert m[..n + 64][..n] == m[..n];
    assert m[..n + 64][n..] == m[n..n + 64];
  }
}
