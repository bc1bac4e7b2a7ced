/** The constants of SHA-256 are what sections 4.2.2 and 5.3.3 of FIPS 180-4 say they are. */
module Sha256Constants {
  import opened Sha256Spec

  // the first sixty-four primes, sixteen at a time
  const PRIMES0: seq<nat> := [2, 3, 5, 7, 11, 13, 17, 19, 23, 29, 31, 37, 41, 43, 47, 53]
  const PRIMES1: seq<nat> := [59, 61, 67, 71, 73, 79, 83, 89, 97, 101, 103, 107, 109, 113, 127, 131]
  const PRIMES2: seq<nat> := [137, 139, 149, 151, 157, 163, 167, 173, 179, 181, 191, 193, 197, 199, 211, 223]
  const PRIMES3: seq<nat> := [227, 229, 233, 239, 241, 251, 257, 263, 269, 271, 277, 281, 283, 293, 307, 311]

  function Prime(t: nat): nat
    requires t < 64
  {
    assert |PRIMES0| == |PRIMES1| == |PRIMES2| == |PRIMES3| == 16;
    if t < 16 then PRIMES0[t] else if t < 32 then PRIMES1[t - 16]
    else if t < 48 then PRIMES2[t - 32] else PRIMES3[t - 48]
  }

  /** x / 2^32 is the cube root of p, rounded down to 32 binary places. */
  predicate CubeRoot(p: nat, x: nat) {
    x * x * x <= p * 0x1_0000_0000_0000_0000_0000_0000 < (x + 1) * (x + 1) * (x + 1)
  }

  predicate SquareRoot(p: nat, x: nat) {
    x * x <= p * 0x1_0000_0000_0000_0000 < (x + 1) * (x + 1)
  }

  /** k is the first 32 bits of the fractional part of the cube root of p. */
  ghost predicate CubeRootBits(p: nat, k: nat) {
    k < 0x1_0000_0000 && exists whole: nat :: CubeRoot(p, whole * 0x1_0000_0000 + k)
  }

  ghost predicate SquareRootBits(p: nat, k: nat) {
    k < 0x1_0000_0000 && exists whole: nat :: SquareRoot(p, whole * 0x1_0000_0000 + k)
  }

  lemma HasCubeRoot(p: nat, whole: nat, k: nat)
    requires k < 0x1_0000_0000 && CubeRoot(p, whole * 0x1_0000_0000 + k)
    ensures CubeRootBits(p, k)
  {
    hide CubeRoot;
  }

  lemma HasSquareRoot(p: nat, whole: nat, k: nat)
    requires k < 0x1_0000_0000 && SquareRoot(p, whole * 0x1_0000_0000 + k)
    ensures SquareRootBits(p, k)
  {
    hide SquareRoot;
  }

  /** Section 5.3.3: the initial hash value comes from the square roots of the first eight primes. */
  lemma InitialHashValue(i: nat)
    requires i < 8
    ensures SquareRootBits(Prime(i), IV[i] as nat)
  {
    hide SquareRootBits;
    match i
    case 0 => HasSquareRoot(2, 1, 0x6a09e667);
    case 1 => HasSquareRoot(3, 1, 0xbb67ae85);
    case 2 => HasSquareRoot(5, 2, 0x3c6ef372);
    case 3 => HasSquareRoot(7, 2, 0xa54ff53a);
    case 4 => HasSquareRoot(11, 3, 0x510e527f);
    case 5 => HasSquareRoot(13, 3, 0x9b05688c);
    case 6 => HasSquareRoot(17, 4, 0x1f83d9ab);
    case 7 => HasSquareRoot(19, 4, 0x5be0cd19);
  }

  lemma RoundConstants0(t: nat)
    requires 0 <= t < 16
    ensures CubeRootBits(Prime(t), K(t) as nat)
  {
    hide CubeRootBits;
    match t
    case 0 => HasCubeRoot(2, 1, 0x428a2f98);
    case 1 => HasCubeRoot(3, 1, 0x71374491);
    case 2 => HasCubeRoot(5, 1, 0xb5c0fbcf);
    case 3 => HasCubeRoot(7, 1, 0xe9b5dba5);
    case 4 => HasCubeRoot(11, 2, 0x3956c25b);
    case 5 => HasCubeRoot(13, 2, 0x59f111f1);
    case 6 => HasCubeRoot(17, 2, 0x923f82a4);
    case 7 => HasCubeRoot(19, 2, 0xab1c5ed5);
    case 8 => HasCubeRoot(23, 2, 0xd807aa98);
    case 9 => HasCubeRoot(29, 3, 0x12835b01);
    case 10 => HasCubeRoot(31, 3, 0x243185be);
    case 11 => HasCubeRoot(37, 3, 0x550c7dc3);
    case 12 => HasCubeRoot(41, 3, 0x72be5d74);
    case 13 => HasCubeRoot(43, 3, 0x80deb1fe);
    case 14 => HasCubeRoot(47, 3, 0x9bdc06a7);
    case 15 => HasCubeRoot(53, 3, 0xc19bf174);
  }

  lemma RoundConstants1(t: nat)
    requires 16 <= t < 32
    ensures CubeRootBits(Prime(t), K(t) as nat)
  {
    hide CubeRootBits;
    match t
    case 16 => HasCubeRoot(59, 3, 0xe49b69c1);
    case 17 => HasCubeRoot(61, 3, 0xefbe4786);
    case 18 => HasCubeRoot(67, 4, 0x0fc19dc6);
    case 19 => HasCubeRoot(71, 4, 0x240ca1cc);
    case 20 => HasCubeRoot(73, 4, 0x2de92c6f);
    case 21 => HasCubeRoot(79, 4, 0x4a7484aa);
    case 22 => HasCubeRoot(83, 4, 0x5cb0a9dc);
    case 23 => HasCubeRoot(89, 4, 0x76f988da);
    case 24 => HasCubeRoot(97, 4, 0x983e5152);
    case 25 => HasCubeRoot(101, 4, 0xa831c66d);
    case 26 => HasCubeRoot(103, 4, 0xb00327c8);
    case 27 => HasCubeRoot(107, 4, 0xbf597fc7);
    case 28 => HasCubeRoot(109, 4, 0xc6e00bf3);
    case 29 => HasCubeRoot(113, 4, 0xd5a79147);
    case 30 => HasCubeRoot(127, 5, 0x06ca6351);
    case 31 => HasCubeRoot(131, 5, 0x14292967);
  }

  lemma RoundConstants2(t: nat)
    requires 32 <= t < 48
    ensures CubeRootBits(Prime(t), K(t) as nat)
  {
    hide CubeRootBits;
    match t
    case 32 => HasCubeRoot(137, 5, 0x27b70a85);
    case 33 => HasCubeRoot(139, 5, 0x2e1b2138);
    case 34 => HasCubeRoot(149, 5, 0x4d2c6dfc);
    case 35 => HasCubeRoot(151, 5, 0x53380d13);
    case 36 => HasCubeRoot(157, 5, 0x650a7354);
    case 37 => HasCubeRoot(163, 5, 0x766a0abb);
    case 38 => HasCubeRoot(167, 5, 0x81c2c92e);
    case 39 => HasCubeRoot(173, 5, 0x92722c85);
    case 40 => HasCubeRoot(179, 5, 0xa2bfe8a1);
    case 41 => HasCubeRoot(181, 5, 0xa81a664b);
    case 42 => HasCubeRoot(191, 5, 0xc24b8b70);
    case 43 => HasCubeRoot(193, 5, 0xc76c51a3);
    case 44 => HasCubeRoot(197, 5, 0xd192e819);
    case 45 => HasCubeRoot(199, 5, 0xd6990624);
    case 46 => HasCubeRoot(211, 5, 0xf40e3585);
    case 47 => HasCubeRoot(223, 6, 0x106aa070);
  }

  lemma RoundConstants3(t: nat)
    requires 48 <= t < 64
    ensures CubeRootBits(Prime(t), K(t) as nat)
  {
    hide CubeRootBits;
    match t
    case 48 => HasCubeRoot(227, 6, 0x19a4c116);
    case 49 => HasCubeRoot(229, 6, 0x1e376c08);
    case 50 => HasCubeRoot(233, 6, 0x2748774c);
    case 51 => HasCubeRoot(239, 6, 0x34b0bcb5);
    case 52 => HasCubeRoot(241, 6, 0x391c0cb3);
    case 53 => HasCubeRoot(251, 6, 0x4ed8aa4a);
    case 54 => HasCubeRoot(257, 6, 0x5b9cca4f);
    case 55 => HasCubeRoot(263, 6, 0x682e6ff3);
    case 56 => HasCubeRoot(269, 6, 0x748f82ee);
    case 57 => HasCubeRoot(271, 6, 0x78a5636f);
    case 58 => HasCubeRoot(277, 6, 0x84c87814);
    case 59 => HasCubeRoot(281, 6, 0x8cc70208);
    case 60 => HasCubeRoot(283, 6, 0x90befffa);
    case 61 => HasCubeRoot(293, 6, 0xa4506ceb);
    case 62 => HasCubeRoot(307, 6, 0xbef9a3f7);
    case 63 => HasCubeRoot(311, 6, 0xc67178f2);
  }

  /** Section 4.2.2: the round constants come from the cube roots of the first sixty-four primes. */
  lemma RoundConstants(t: nat)
    requires t < 64
    ensures CubeRootBits(Prime(t), K(t) as nat)
  {
    hide CubeRootBits, K, Prime;
    if t < 16 {
      RoundConstants0(t);
    } else if t < 32 {
      RoundConstants1(t);
    } else if t < 48 {
      RoundConstants2(t);
    } else {
      RoundConstants3(t);
    }
  }
}
