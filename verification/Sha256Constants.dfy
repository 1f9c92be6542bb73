/** What the constants of SHA-256 are (sections 4.2.2 and 5.3.2 of FIPS 180-2). */
module Sha256Constants {
  import opened Sha256Spec
  import opened Words

  /** The first 64 primes. */
  const PRIMES: seq<nat> :=
    [2, 3, 5, 7, 11, 13, 17, 19] +
    [23, 29, 31, 37, 41, 43, 47, 53] +
    [59, 61, 67, 71, 73, 79, 83, 89] +
    [97, 101, 103, 107, 109, 113, 127, 131] +
    [137, 139, 149, 151, 157, 163, 167, 173] +
    [179, 181, 191, 193, 197, 199, 211, 223] +
    [227, 229, 233, 239, 241, 251, 257, 263] +
    [269, 271, 277, 281, 283, 293, 307, 311]

  /** k is the first 32 bits of the fractional part of the cube root of p: with its whole part in front, it is the root
      scaled by 2^32 and rounded down. */
  predicate IsCubeRootOf(k: Word, p: nat) {
    exists whole: nat :: whole < 7 && IsRoot3(whole * BASE + k, p)
  }

  predicate IsRoot3(c: nat, p: nat) { c * c * c <= p * BASE * BASE * BASE < (c + 1) * (c + 1) * (c + 1) }

  /** The same of the square root. */
  predicate IsSquareRootOf(k: Word, p: nat) {
    exists whole: nat :: whole < 5 && IsRoot2(whole * BASE + k, p)
  }

  predicate IsRoot2(c: nat, p: nat) { c * c <= p * BASE * BASE < (c + 1) * (c + 1) }

  lemma CubeRoot(t: nat, whole: nat, k: Word, p: nat)
    requires t < 64 && whole < 7 && K[t] == k && PRIMES[t] == p && IsRoot3(whole * BASE + k, p)
    ensures IsCubeRootOf(K[t], PRIMES[t])
  {
  }

  lemma SquareRoot(t: nat, whole: nat, k: Word, p: nat)
    requires t < 8 && whole < 5 && H0[t] == k && PRIMES[t] == p && IsRoot2(whole * BASE + k, p)
    ensures IsSquareRootOf(H0[t], PRIMES[t])
  {
  }

  /** The round constants are the cube roots of the first 64 primes. */
  lemma RoundConstants(t: nat)
    requires t < 64
    ensures IsCubeRootOf(K[t], PRIMES[t])
  {
    if t < 32 {
      if t < 8 { RoundConstants0(t); } else if t < 16 { RoundConstants8(t); }
      else if t < 24 { RoundConstants16(t); } else { RoundConstants24(t); }
    } else {
      if t < 40 { RoundConstants32(t); } else if t < 48 { RoundConstants40(t); }
      else if t < 56 { RoundConstants48(t); } else { RoundConstants56(t); }
    }
  }

  lemma RoundConstants0(t: nat)
    requires 0 <= t < 8
    ensures IsCubeRootOf(K[t], PRIMES[t])
  {
    match t
    case 0 => CubeRoot(0, 1, 0x428a2f98, 2);
    case 1 => CubeRoot(1, 1, 0x71374491, 3);
    case 2 => CubeRoot(2, 1, 0xb5c0fbcf, 5);
    case 3 => CubeRoot(3, 1, 0xe9b5dba5, 7);
    case 4 => CubeRoot(4, 2, 0x3956c25b, 11);
    case 5 => CubeRoot(5, 2, 0x59f111f1, 13);
    case 6 => CubeRoot(6, 2, 0x923f82a4, 17);
    case _ => CubeRoot(7, 2, 0xab1c5ed5, 19);
  }

  lemma RoundConstants8(t: nat)
    requires 8 <= t < 16
    ensures IsCubeRootOf(K[t], PRIMES[t])
  {
    match t
    case 8 => CubeRoot(8, 2, 0xd807aa98, 23);
    case 9 => CubeRoot(9, 3, 0x12835b01, 29);
    case 10 => CubeRoot(10, 3, 0x243185be, 31);
    case 11 => CubeRoot(11, 3, 0x550c7dc3, 37);
    case 12 => CubeRoot(12, 3, 0x72be5d74, 41);
    case 13 => CubeRoot(13, 3, 0x80deb1fe, 43);
    case 14 => CubeRoot(14, 3, 0x9bdc06a7, 47);
    case _ => CubeRoot(15, 3, 0xc19bf174, 53);
  }

  lemma RoundConstants16(t: nat)
    requires 16 <= t < 24
    ensures IsCubeRootOf(K[t], PRIMES[t])
  {
    match t
    case 16 => CubeRoot(16, 3, 0xe49b69c1, 59);
    case 17 => CubeRoot(17, 3, 0xefbe4786, 61);
    case 18 => CubeRoot(18, 4, 0x0fc19dc6, 67);
    case 19 => CubeRoot(19, 4, 0x240ca1cc, 71);
    case 20 => CubeRoot(20, 4, 0x2de92c6f, 73);
    case 21 => CubeRoot(21, 4, 0x4a7484aa, 79);
    case 22 => CubeRoot(22, 4, 0x5cb0a9dc, 83);
    case _ => CubeRoot(23, 4, 0x76f988da, 89);
  }

  lemma RoundConstants24(t: nat)
    requires 24 <= t < 32
    ensures IsCubeRootOf(K[t], PRIMES[t])
  {
    match t
    case 24 => CubeRoot(24, 4, 0x983e5152, 97);
    case 25 => CubeRoot(25, 4, 0xa831c66d, 101);
    case 26 => CubeRoot(26, 4, 0xb00327c8, 103);
    case 27 => CubeRoot(27, 4, 0xbf597fc7, 107);
    case 28 => CubeRoot(28, 4, 0xc6e00bf3, 109);
    case 29 => CubeRoot(29, 4, 0xd5a79147, 113);
    case 30 => CubeRoot(30, 5, 0x06ca6351, 127);
    case _ => CubeRoot(31, 5, 0x14292967, 131);
  }

  lemma RoundConstants32(t: nat)
    requires 32 <= t < 40
    ensures IsCubeRootOf(K[t], PRIMES[t])
  {
    match t
    case 32 => CubeRoot(32, 5, 0x27b70a85, 137);
    case 33 => CubeRoot(33, 5, 0x2e1b2138, 139);
    case 34 => CubeRoot(34, 5, 0x4d2c6dfc, 149);
    case 35 => CubeRoot(35, 5, 0x53380d13, 151);
    case 36 => CubeRoot(36, 5, 0x650a7354, 157);
    case 37 => CubeRoot(37, 5, 0x766a0abb, 163);
    case 38 => CubeRoot(38, 5, 0x81c2c92e, 167);
    case _ => CubeRoot(39, 5, 0x92722c85, 173);
  }

  lemma RoundConstants40(t: nat)
    requires 40 <= t < 48
    ensures IsCubeRootOf(K[t], PRIMES[t])
  {
    match t
    case 40 => CubeRoot(40, 5, 0xa2bfe8a1, 179);
    case 41 => CubeRoot(41, 5, 0xa81a664b, 181);
    case 42 => CubeRoot(42, 5, 0xc24b8b70, 191);
    case 43 => CubeRoot(43, 5, 0xc76c51a3, 193);
    case 44 => CubeRoot(44, 5, 0xd192e819, 197);
    case 45 => CubeRoot(45, 5, 0xd6990624, 199);
    case 46 => CubeRoot(46, 5, 0xf40e3585, 211);
    case _ => CubeRoot(47, 6, 0x106aa070, 223);
  }

  lemma RoundConstants48(t: nat)
    requires 48 <= t < 56
    ensures IsCubeRootOf(K[t], PRIMES[t])
  {
    match t
    case 48 => CubeRoot(48, 6, 0x19a4c116, 227);
    case 49 => CubeRoot(49, 6, 0x1e376c08, 229);
    case 50 => CubeRoot(50, 6, 0x2748774c, 233);
    case 51 => CubeRoot(51, 6, 0x34b0bcb5, 239);
    case 52 => CubeRoot(52, 6, 0x391c0cb3, 241);
    case 53 => CubeRoot(53, 6, 0x4ed8aa4a, 251);
    case 54 => CubeRoot(54, 6, 0x5b9cca4f, 257);
    case _ => CubeRoot(55, 6, 0x682e6ff3, 263);
  }

  lemma RoundConstants56(t: nat)
    requires 56 <= t < 64
    ensures IsCubeRootOf(K[t], PRIMES[t])
  {
    match t
    case 56 => CubeRoot(56, 6, 0x748f82ee, 269);
    case 57 => CubeRoot(57, 6, 0x78a5636f, 271);
    case 58 => CubeRoot(58, 6, 0x84c87814, 277);
    case 59 => CubeRoot(59, 6, 0x8cc70208, 281);
    case 60 => CubeRoot(60, 6, 0x90befffa, 283);
    case 61 => CubeRoot(61, 6, 0xa4506ceb, 293);
    case 62 => CubeRoot(62, 6, 0xbef9a3f7, 307);
    case _ => CubeRoot(63, 6, 0xc67178f2, 311);
  }

  /** The initial hash value is the square roots of the first eight primes. */
  lemma InitialHash(t: nat)
    requires t < 8
    ensures IsSquareRootOf(H0[t], PRIMES[t])
  {
    match t
    case 0 => SquareRoot(0, 1, 0x6a09e667, 2);
    case 1 => SquareRoot(1, 1, 0xbb67ae85, 3);
    case 2 => SquareRoot(2, 2, 0x3c6ef372, 5);
    case 3 => SquareRoot(3, 2, 0xa54ff53a, 7);
    case 4 => SquareRoot(4, 3, 0x510e527f, 11);
    case 5 => SquareRoot(5, 3, 0x9b05688c, 13);
    case 6 => SquareRoot(6, 4, 0x1f83d9ab, 17);
    case _ => SquareRoot(7, 4, 0x5be0cd19, 19);
  }
}
