/** Where the constants of SHA-256 come from: sections 4.2.2 and 5.3.3 of FIPS 180-4.
    The hasher and the specification share the two tables, so they are checked here
    against the roots they are taken from. */
module RoundConstants {
  import opened Words
  import opened Fips180

  /** The numbers the roots are taken of; the standard calls them the first sixty-four primes. */
  const PRIMES: seq<nat> :=
    [2, 3, 5, 7, 11, 13, 17, 19] +
    [23, 29, 31, 37, 41, 43, 47, 53] +
    [59, 61, 67, 71, 73, 79, 83, 89] +
    [97, 101, 103, 107, 109, 113, 127, 131] +
    [137, 139, 149, 151, 157, 163, 167, 173] +
    [179, 181, 191, 193, 197, 199, 211, 223] +
    [227, 229, 233, 239, 241, 251, 257, 263] +
    [269, 271, 277, 281, 283, 293, 307, 311]

  /** `k` is the first thirty-two bits of the fractional part of the cube root of `p`:
      for a whole number c, c + k / 2^32 is the root, rounded down. */
  ghost predicate IsCubeRoot(p: nat, k: word) {
    exists c: nat :: CubeRootBits(p, c, k)
  }

  predicate CubeRootBits(p: nat, c: nat, k: word) {
    var r := c * 0x1_0000_0000 + k;
    r * r * r <= p * 0x1_0000_0000_0000_0000_0000_0000 < (r + 1) * (r + 1) * (r + 1)
  }

  /** The same of the square root. */
  ghost predicate IsSquareRoot(p: nat, h: word) {
    exists c: nat :: SquareRootBits(p, c, h)
  }

  predicate SquareRootBits(p: nat, c: nat, h: word) {
    var r := c * 0x1_0000_0000 + h;
    r * r <= p * 0x1_0000_0000_0000_0000 < (r + 1) * (r + 1)
  }

  // The roots of eight primes at a time, and their places in the tables.

  lemma Roots0()
    ensures CubeRootBits(2, 1, 0x428a2f98)
    ensures CubeRootBits(3, 1, 0x71374491)
    ensures CubeRootBits(5, 1, 0xb5c0fbcf)
    ensures CubeRootBits(7, 1, 0xe9b5dba5)
    ensures CubeRootBits(11, 2, 0x3956c25b)
    ensures CubeRootBits(13, 2, 0x59f111f1)
    ensures CubeRootBits(17, 2, 0x923f82a4)
    ensures CubeRootBits(19, 2, 0xab1c5ed5)
  {
  }

  lemma CubeRootsFrom0()
    ensures forall t :: 0 <= t < 8 ==> IsCubeRoot(PRIMES[t], K[t])
  {
    hide CubeRootBits;
    Roots0();
    assert PRIMES[0] == 2 && K[0] == 0x428a2f98;
    assert PRIMES[1] == 3 && K[1] == 0x71374491;
    assert PRIMES[2] == 5 && K[2] == 0xb5c0fbcf;
    assert PRIMES[3] == 7 && K[3] == 0xe9b5dba5;
    assert PRIMES[4] == 11 && K[4] == 0x3956c25b;
    assert PRIMES[5] == 13 && K[5] == 0x59f111f1;
    assert PRIMES[6] == 17 && K[6] == 0x923f82a4;
    assert PRIMES[7] == 19 && K[7] == 0xab1c5ed5;
  }

  lemma Roots8()
    ensures CubeRootBits(23, 2, 0xd807aa98)
    ensures CubeRootBits(29, 3, 0x12835b01)
    ensures CubeRootBits(31, 3, 0x243185be)
    ensures CubeRootBits(37, 3, 0x550c7dc3)
    ensures CubeRootBits(41, 3, 0x72be5d74)
    ensures CubeRootBits(43, 3, 0x80deb1fe)
    ensures CubeRootBits(47, 3, 0x9bdc06a7)
    ensures CubeRootBits(53, 3, 0xc19bf174)
  {
  }

  lemma CubeRootsFrom8()
    ensures forall t :: 8 <= t < 16 ==> IsCubeRoot(PRIMES[t], K[t])
  {
    hide CubeRootBits;
    Roots8();
    assert PRIMES[8] == 23 && K[8] == 0xd807aa98;
    assert PRIMES[9] == 29 && K[9] == 0x12835b01;
    assert PRIMES[10] == 31 && K[10] == 0x243185be;
    assert PRIMES[11] == 37 && K[11] == 0x550c7dc3;
    assert PRIMES[12] == 41 && K[12] == 0x72be5d74;
    assert PRIMES[13] == 43 && K[13] == 0x80deb1fe;
    assert PRIMES[14] == 47 && K[14] == 0x9bdc06a7;
    assert PRIMES[15] == 53 && K[15] == 0xc19bf174;
  }

  lemma Roots16()
    ensures CubeRootBits(59, 3, 0xe49b69c1)
    ensures CubeRootBits(61, 3, 0xefbe4786)
    ensures CubeRootBits(67, 4, 0x0fc19dc6)
    ensures CubeRootBits(71, 4, 0x240ca1cc)
    ensures CubeRootBits(73, 4, 0x2de92c6f)
    ensures CubeRootBits(79, 4, 0x4a7484aa)
    ensures CubeRootBits(83, 4, 0x5cb0a9dc)
    ensures CubeRootBits(89, 4, 0x76f988da)
  {
  }

  lemma CubeRootsFrom16()
    ensures forall t :: 16 <= t < 24 ==> IsCubeRoot(PRIMES[t], K[t])
  {
    hide CubeRootBits;
    Roots16();
    assert PRIMES[16] == 59 && K[16] == 0xe49b69c1;
    assert PRIMES[17] == 61 && K[17] == 0xefbe4786;
    assert PRIMES[18] == 67 && K[18] == 0x0fc19dc6;
    assert PRIMES[19] == 71 && K[19] == 0x240ca1cc;
    assert PRIMES[20] == 73 && K[20] == 0x2de92c6f;
    assert PRIMES[21] == 79 && K[21] == 0x4a7484aa;
    assert PRIMES[22] == 83 && K[22] == 0x5cb0a9dc;
    assert PRIMES[23] == 89 && K[23] == 0x76f988da;
  }

  lemma Roots24()
    ensures CubeRootBits(97, 4, 0x983e5152)
    ensures CubeRootBits(101, 4, 0xa831c66d)
    ensures CubeRootBits(103, 4, 0xb00327c8)
    ensures CubeRootBits(107, 4, 0xbf597fc7)
    ensures CubeRootBits(109, 4, 0xc6e00bf3)
    ensures CubeRootBits(113, 4, 0xd5a79147)
    ensures CubeRootBits(127, 5, 0x06ca6351)
    ensures CubeRootBits(131, 5, 0x14292967)
  {
  }

  lemma CubeRootsFrom24()
    ensures forall t :: 24 <= t < 32 ==> IsCubeRoot(PRIMES[t], K[t])
  {
    hide CubeRootBits;
    Roots24();
    assert PRIMES[24] == 97 && K[24] == 0x983e5152;
    assert PRIMES[25] == 101 && K[25] == 0xa831c66d;
    assert PRIMES[26] == 103 && K[26] == 0xb00327c8;
    assert PRIMES[27] == 107 && K[27] == 0xbf597fc7;
    assert PRIMES[28] == 109 && K[28] == 0xc6e00bf3;
    assert PRIMES[29] == 113 && K[29] == 0xd5a79147;
    assert PRIMES[30] == 127 && K[30] == 0x06ca6351;
    assert PRIMES[31] == 131 && K[31] == 0x14292967;
  }

  lemma Roots32()
    ensures CubeRootBits(137, 5, 0x27b70a85)
    ensures CubeRootBits(139, 5, 0x2e1b2138)
    ensures CubeRootBits(149, 5, 0x4d2c6dfc)
    ensures CubeRootBits(151, 5, 0x53380d13)
    ensures CubeRootBits(157, 5, 0x650a7354)
    ensures CubeRootBits(163, 5, 0x766a0abb)
    ensures CubeRootBits(167, 5, 0x81c2c92e)
    ensures CubeRootBits(173, 5, 0x92722c85)
  {
  }

  lemma CubeRootsFrom32()
    ensures forall t :: 32 <= t < 40 ==> IsCubeRoot(PRIMES[t], K[t])
  {
    hide CubeRootBits;
    Roots32();
    assert PRIMES[32] == 137 && K[32] == 0x27b70a85;
    assert PRIMES[33] == 139 && K[33] == 0x2e1b2138;
    assert PRIMES[34] == 149 && K[34] == 0x4d2c6dfc;
    assert PRIMES[35] == 151 && K[35] == 0x53380d13;
    assert PRIMES[36] == 157 && K[36] == 0x650a7354;
    assert PRIMES[37] == 163 && K[37] == 0x766a0abb;
    assert PRIMES[38] == 167 && K[38] == 0x81c2c92e;
    assert PRIMES[39] == 173 && K[39] == 0x92722c85;
  }

  lemma Roots40()
    ensures CubeRootBits(179, 5, 0xa2bfe8a1)
    ensures CubeRootBits(181, 5, 0xa81a664b)
    ensures CubeRootBits(191, 5, 0xc24b8b70)
    ensures CubeRootBits(193, 5, 0xc76c51a3)
    ensures CubeRootBits(197, 5, 0xd192e819)
    ensures CubeRootBits(199, 5, 0xd6990624)
    ensures CubeRootBits(211, 5, 0xf40e3585)
    ensures CubeRootBits(223, 6, 0x106aa070)
  {
  }

  lemma CubeRootsFrom40()
    ensures forall t :: 40 <= t < 48 ==> IsCubeRoot(PRIMES[t], K[t])
  {
    hide CubeRootBits;
    Roots40();
    assert PRIMES[40] == 179 && K[40] == 0xa2bfe8a1;
    assert PRIMES[41] == 181 && K[41] == 0xa81a664b;
    assert PRIMES[42] == 191 && K[42] == 0xc24b8b70;
    assert PRIMES[43] == 193 && K[43] == 0xc76c51a3;
    assert PRIMES[44] == 197 && K[44] == 0xd192e819;
    assert PRIMES[45] == 199 && K[45] == 0xd6990624;
    assert PRIMES[46] == 211 && K[46] == 0xf40e3585;
    assert PRIMES[47] == 223 && K[47] == 0x106aa070;
  }

  lemma Roots48()
    ensures CubeRootBits(227, 6, 0x19a4c116)
    ensures CubeRootBits(229, 6, 0x1e376c08)
    ensures CubeRootBits(233, 6, 0x2748774c)
    ensures CubeRootBits(239, 6, 0x34b0bcb5)
    ensures CubeRootBits(241, 6, 0x391c0cb3)
    ensures CubeRootBits(251, 6, 0x4ed8aa4a)
    ensures CubeRootBits(257, 6, 0x5b9cca4f)
    ensures CubeRootBits(263, 6, 0x682e6ff3)
  {
  }

  lemma CubeRootsFrom48()
    ensures forall t :: 48 <= t < 56 ==> IsCubeRoot(PRIMES[t], K[t])
  {
    hide CubeRootBits;
    Roots48();
    assert PRIMES[48] == 227 && K[48] == 0x19a4c116;
    assert PRIMES[49] == 229 && K[49] == 0x1e376c08;
    assert PRIMES[50] == 233 && K[50] == 0x2748774c;
    assert PRIMES[51] == 239 && K[51] == 0x34b0bcb5;
    assert PRIMES[52] == 241 && K[52] == 0x391c0cb3;
    assert PRIMES[53] == 251 && K[53] == 0x4ed8aa4a;
    assert PRIMES[54] == 257 && K[54] == 0x5b9cca4f;
    assert PRIMES[55] == 263 && K[55] == 0x682e6ff3;
  }

  lemma Roots56()
    ensures CubeRootBits(269, 6, 0x748f82ee)
    ensures CubeRootBits(271, 6, 0x78a5636f)
    ensures CubeRootBits(277, 6, 0x84c87814)
    ensures CubeRootBits(281, 6, 0x8cc70208)
    ensures CubeRootBits(283, 6, 0x90befffa)
    ensures CubeRootBits(293, 6, 0xa4506ceb)
    ensures CubeRootBits(307, 6, 0xbef9a3f7)
    ensures CubeRootBits(311, 6, 0xc67178f2)
  {
  }

  lemma CubeRootsFrom56()
    ensures forall t :: 56 <= t < 64 ==> IsCubeRoot(PRIMES[t], K[t])
  {
    hide CubeRootBits;
    Roots56();
    assert PRIMES[56] == 269 && K[56] == 0x748f82ee;
    assert PRIMES[57] == 271 && K[57] == 0x78a5636f;
    assert PRIMES[58] == 277 && K[58] == 0x84c87814;
    assert PRIMES[59] == 281 && K[59] == 0x8cc70208;
    assert PRIMES[60] == 283 && K[60] == 0x90befffa;
    assert PRIMES[61] == 293 && K[61] == 0xa4506ceb;
    assert PRIMES[62] == 307 && K[62] == 0xbef9a3f7;
    assert PRIMES[63] == 311 && K[63] == 0xc67178f2;
  }

  /** Each round constant is taken from the cube root of its prime. */
  lemma {:induction false} RoundConstantsAreCubeRoots()
    ensures |K| == |PRIMES| == 64 && forall t :: 0 <= t < 64 ==> IsCubeRoot(PRIMES[t], K[t])
  {
    hide IsCubeRoot;
    CubeRootsFrom0();
    CubeRootsFrom8();
    CubeRootsFrom16();
    CubeRootsFrom24();
    CubeRootsFrom32();
    CubeRootsFrom40();
    CubeRootsFrom48();
    CubeRootsFrom56();
  }

  lemma SquareRoots()
    ensures SquareRootBits(2, 1, 0x6a09e667)
    ensures SquareRootBits(3, 1, 0xbb67ae85)
    ensures SquareRootBits(5, 2, 0x3c6ef372)
    ensures SquareRootBits(7, 2, 0xa54ff53a)
    ensures SquareRootBits(11, 3, 0x510e527f)
    ensures SquareRootBits(13, 3, 0x9b05688c)
    ensures SquareRootBits(17, 4, 0x1f83d9ab)
    ensures SquareRootBits(19, 4, 0x5be0cd19)
  {
  }

  /** Each word of the initial hash value is taken from the square root of its prime. */
  lemma {:induction false} InitialValueIsSquareRoots()
    ensures forall i :: 0 <= i < 8 ==> IsSquareRoot(PRIMES[i], INITIAL[i])
  {
    hide SquareRootBits;
    SquareRoots();
    assert PRIMES[0] == 2 && INITIAL[0] == 0x6a09e667;
    assert PRIMES[1] == 3 && INITIAL[1] == 0xbb67ae85;
    assert PRIMES[2] == 5 && INITIAL[2] == 0x3c6ef372;
    assert PRIMES[3] == 7 && INITIAL[3] == 0xa54ff53a;
    assert PRIMES[4] == 11 && INITIAL[4] == 0x510e527f;
    assert PRIMES[5] == 13 && INITIAL[5] == 0x9b05688c;
    assert PRIMES[6] == 17 && INITIAL[6] == 0x1f83d9ab;
    assert PRIMES[7] == 19 && INITIAL[7] == 0x5be0cd19;
  }
}
