/** The word functions of SHA-256: FIPS 180-4 section 4.1.2, and the forms the code uses for them. */
module Sha256Words {
  type octet = bv8
  type word = bv32

  /** Section 3.2. */
  function RotR(x: word, n: word): word
    requires n < 32
  {
    (x >> n) | (x << (32 - n))
  }

  function ShR(x: word, n: word): word
    requires n < 32
  {
    x >> n
  }

  function Xor3(x: word, y: word, z: word): word { x ^ y ^ z }

  /** A bit is set when an odd number of the three is. */
  lemma Xor3IsParity(x: word, y: word, z: word)
    ensures Xor3(x, y, z) == (x & y & z) | (x & !y & !z) | (!x & y & !z) | (!x & !y & z)
  {
  }

  /** Addition modulo 2^32. */
  function Add(x: word, y: word): word { x + y }

  lemma AddIsModular(x: word, y: word)
    ensures Add(x, y) as bv64 == (x as bv64 + y as bv64) & 0xFFFF_FFFF
  {
  }

  function Ch(x: word, y: word, z: word): word { (x & y) ^ (!x & z) }
  function Maj(x: word, y: word, z: word): word { (x & y) ^ (x & z) ^ (y & z) }
  function BigSigma0(x: word): word { Xor3(RotR(x, 2), RotR(x, 13), RotR(x, 22)) }
  function BigSigma1(x: word): word { Xor3(RotR(x, 6), RotR(x, 11), RotR(x, 25)) }
  function SmallSigma0(x: word): word { Xor3(RotR(x, 7), RotR(x, 18), ShR(x, 3)) }
  function SmallSigma1(x: word): word { Xor3(RotR(x, 17), RotR(x, 19), ShR(x, 10)) }

  /** Four octets read as a big-endian word (section 3.1). */
  function BigEndianWord(b0: octet, b1: octet, b2: octet, b3: octet): word {
    ((b0 as word) << 24) + ((b1 as word) << 16) + ((b2 as word) << 8) + (b3 as word)
  }

  // The forms used by the code.

  function ChCode(x: word, y: word, z: word): word { z ^ (x & (y ^ z)) }
  function MajCode(x: word, y: word, z: word): word { ((x | y) & z) | (x & y) }

  function Rot(x: word, n: word): word {
    assert n & 31 <= 32;
    (x >> (n & 31)) | (x << (32 - (n & 31)))
  }

  function Sh(x: word, n: word): word
    requires n < 32
  {
    x >> n
  }

  function Sigma0(x: word): word { Xor3(Rot(x, 2), Rot(x, 13), Rot(x, 22)) }
  function Sigma1(x: word): word { Xor3(Rot(x, 6), Rot(x, 11), Rot(x, 25)) }
  function Gamma0(x: word): word { Xor3(Rot(x, 7), Rot(x, 18), Sh(x, 3)) }
  function Gamma1(x: word): word { Xor3(Rot(x, 17), Rot(x, 19), Sh(x, 10)) }

  // Bit identities are stated on the bare expressions first; the solver then only has to match terms.

  lemma ChBits(x: word, y: word, z: word)
    ensures z ^ (x & (y ^ z)) == (x & y) ^ (!x & z)
  {
  }

  lemma ChCodeIsCh(x: word, y: word, z: word)
    ensures ChCode(x, y, z) == Ch(x, y, z)
  {
    ChBits(x, y, z);
  }

  lemma MajBits(x: word, y: word, z: word)
    ensures ((x | y) & z) | (x & y) == (x & y) ^ (x & z) ^ (y & z)
  {
  }

  lemma MajCodeIsMaj(x: word, y: word, z: word)
    ensures MajCode(x, y, z) == Maj(x, y, z)
  {
    MajBits(x, y, z);
  }

  lemma RotBits(x: word, n: word)
    requires n < 32
    ensures n & 31 == n
    ensures (x >> (n & 31)) | (x << (32 - (n & 31))) == (x >> n) | (x << (32 - n))
  {
    assert n & 31 == n;
  }

  lemma RotIsRotR(x: word, n: word)
    requires n < 32
    ensures Rot(x, n) == RotR(x, n)
  {
    RotBits(x, n);
  }

  lemma Sigma0IsBigSigma0(x: word)
    ensures Sigma0(x) == BigSigma0(x)
  {
    hide Rot, RotR, Xor3, Sh, ShR;
    RotIsRotR(x, 2);
    RotIsRotR(x, 13);
    RotIsRotR(x, 22);
  }

  lemma Sigma1IsBigSigma1(x: word)
    ensures Sigma1(x) == BigSigma1(x)
  {
    hide Rot, RotR, Xor3, Sh, ShR;
    RotIsRotR(x, 6);
    RotIsRotR(x, 11);
    RotIsRotR(x, 25);
  }

  lemma ShIsShR(x: word, n: word)
    requires n < 32
    ensures Sh(x, n) == ShR(x, n)
  {
  }

  lemma Gamma0IsSmallSigma0(x: word)
    ensures Gamma0(x) == SmallSigma0(x)
  {
    hide Rot, RotR, Xor3, Sh, ShR;
    RotIsRotR(x, 7);
    RotIsRotR(x, 18);
    ShIsShR(x, 3);
  }

  lemma Gamma1IsSmallSigma1(x: word)
    ensures Gamma1(x) == SmallSigma1(x)
  {
    hide Rot, RotR, Xor3, Sh, ShR;
    RotIsRotR(x, 17);
    RotIsRotR(x, 19);
    ShIsShR(x, 10);
  }

  function Load32(y: seq<octet>): (x: word)
    requires |y| == 4
    ensures x == BigEndianWord(y[0], y[1], y[2], y[3])
  {
    ((y[0] as word) << 24) | ((y[1] as word) << 16) | ((y[2] as word) << 8) | ((y[3] as word) << 0)
  }
}

/** SHA-256 as FIPS 180-4 defines it: sections 4.1.2, 4.2.2, 5.1.1, 5.2.1, 5.3.3 and 6.2. */
module Sha256Spec {
  import opened Sha256Words

  type Hash = h: seq<word> | |h| == 8 witness IV
  type Block = b: seq<octet> | |b| == 64 witness seq(64, _ => 0)

  const U64_RANGE: nat := 0x1_0000_0000_0000_0000

  const IV: seq<word> := [
    0x6A09E667, 0xBB67AE85, 0x3C6EF372, 0xA54FF53A, 0x510E527F, 0x9B05688C, 0x1F83D9AB, 0x5BE0CD19]

  // the constants of section 4.2.2, sixteen at a time
  const K0: seq<word> := [
    0x428a2f98, 0x71374491, 0xb5c0fbcf, 0xe9b5dba5, 0x3956c25b, 0x59f111f1, 0x923f82a4, 0xab1c5ed5,
    0xd807aa98, 0x12835b01, 0x243185be, 0x550c7dc3, 0x72be5d74, 0x80deb1fe, 0x9bdc06a7, 0xc19bf174]

  const K1: seq<word> := [
    0xe49b69c1, 0xefbe4786, 0x0fc19dc6, 0x240ca1cc, 0x2de92c6f, 0x4a7484aa, 0x5cb0a9dc, 0x76f988da,
    0x983e5152, 0xa831c66d, 0xb00327c8, 0xbf597fc7, 0xc6e00bf3, 0xd5a79147, 0x06ca6351, 0x14292967]

  const K2: seq<word> := [
    0x27b70a85, 0x2e1b2138, 0x4d2c6dfc, 0x53380d13, 0x650a7354, 0x766a0abb, 0x81c2c92e, 0x92722c85,
    0xa2bfe8a1, 0xa81a664b, 0xc24b8b70, 0xc76c51a3, 0xd192e819, 0xd6990624, 0xf40e3585, 0x106aa070]

  const K3: seq<word> := [
    0x19a4c116, 0x1e376c08, 0x2748774c, 0x34b0bcb5, 0x391c0cb3, 0x4ed8aa4a, 0x5b9cca4f, 0x682e6ff3,
    0x748f82ee, 0x78a5636f, 0x84c87814, 0x8cc70208, 0x90befffa, 0xa4506ceb, 0xbef9a3f7, 0xc67178f2]

  function K(t: nat): word
    requires t < 64
  {
    assert |K0| == |K1| == |K2| == |K3| == 16;
    if t < 16 then K0[t] else if t < 32 then K1[t - 16] else if t < 48 then K2[t - 32] else K3[t - 48]
  }

  /** The big-endian word at byte 4 * i of a block (section 3.1). */
  function WordAt(block: Block, i: nat): word
    requires i < 16
  {
    BigEndianWord(block[4 * i], block[4 * i + 1], block[4 * i + 2], block[4 * i + 3])
  }

  /** The first n words of the message schedule. */
  function Schedule(block: Block, n: nat): (w: seq<word>)
    requires n <= 64
    ensures |w| == n
  {
    if n == 0 then []
    else
      var w := Schedule(block, n - 1);
      var t := n - 1;
      w + [if t < 16 then WordAt(block, t)
           else Add(Add(Add(SmallSigma1(w[t - 2]), w[t - 7]), SmallSigma0(w[t - 15])), w[t - 16])]
  }

  datatype Vars = Vars(a: word, b: word, c: word, d: word, e: word, f: word, g: word, h: word)

  function Round(v: Vars, k: word, w: word): Vars {
    var t1 := Add(Add(Add(Add(v.h, BigSigma1(v.e)), Ch(v.e, v.f, v.g)), k), w);
    var t2 := Add(BigSigma0(v.a), Maj(v.a, v.b, v.c));
    Vars(Add(t1, t2), v.a, v.b, v.c, Add(v.d, t1), v.e, v.f, v.g)
  }

  function Rounds(v: Vars, w: seq<word>, n: nat): Vars
    requires n <= |w| <= 64
  {
    if n == 0 then v else Round(Rounds(v, w, n - 1), K(n - 1), w[n - 1])
  }

  /** One step of section 6.2.2. */
  function Compress(h: Hash, block: Block): Hash {
    var v := Rounds(Vars(h[0], h[1], h[2], h[3], h[4], h[5], h[6], h[7]), Schedule(block, 64), 64);
    [Add(h[0], v.a), Add(h[1], v.b), Add(h[2], v.c), Add(h[3], v.d),
     Add(h[4], v.e), Add(h[5], v.f), Add(h[6], v.g), Add(h[7], v.h)]
  }

  /** Section 6.2.2 over all the blocks of data. */
  function Process(h: Hash, data: seq<octet>): Hash
    requires |data| % 64 == 0
    decreases |data|
  {
    if data == [] then h else Process(Compress(h, data[..64]), data[64..])
  }

  /** n modulo 256; octet addition wraps around. */
  function Octet(n: nat): octet {
    if n == 0 then 0 else Octet(n - 1) + 1
  }

  /** The n low octets of x, most significant first. */
  function BigEndian(x: nat, n: nat): (s: seq<octet>)
    ensures |s| == n
  {
    if n == 0 then [] else BigEndian(x / 256, n - 1) + [Octet(x % 256)]
  }

  function Pow256(n: nat): (p: nat)
    ensures p > 0
  {
    if n == 0 then 1 else 256 * Pow256(n - 1)
  }

  lemma {:induction false} BigEndianAt(x: nat, n: nat, i: nat)
    requires i < n
    ensures BigEndian(x, n)[i] == Octet(x / Pow256(n - 1 - i) % 256)
  {
    if i < n - 1 {
      BigEndianAt(x / 256, n - 1, i);
      DivDiv(x, Pow256(n - 2 - i));
    }
  }

  lemma DivDiv(x: nat, b: nat)
    requires b > 0
    ensures x / 256 / b == x / (256 * b)
  {
    var q, r := x / 256, x % 256;
    var q2, r2 := q / b, q % b;
    assert x == 256 * (b * q2 + r2) + r;
    assert x == (256 * b) * q2 + (256 * r2 + r);
    assert 0 <= 256 * r2 + r < 256 * b;
    QuotientIsUnique(x, 256 * b, q2, 256 * r2 + r);
  }

  lemma QuotientIsUnique(x: nat, d: nat, q: nat, r: nat)
    requires d > 0 && r < d && x == d * q + r
    ensures x / d == q
  {
    var e := x / d - q;
    assert d * e == r - x % d by {
      assert x == d * (x / d) + x % d;
    }
    if e >= 1 {
      ProductAtLeast(d, e);
    } else if e <= -1 {
      ProductAtLeast(d, -e);
    }
  }

  lemma ProductAtLeast(d: int, e: int)
    requires d > 0 && e >= 1
    ensures d * e >= d
  {
  }

  function Zeros(k: nat): (s: seq<octet>)
    ensures |s| == k
  {
    seq(k, _ => 0)
  }

  /** How many zero octets follow the '1' bit's octet: the least number that aligns the length field. */
  function ZeroCount(len: nat): (k: nat)
    ensures k < 64 && (len + 1 + k + 8) % 64 == 0
  {
    (119 - len % 64) % 64
  }

  /** Section 5.1.1. The standard covers lengths below 2^64 bits; the length field is modulo 2^64. */
  function Pad(m: seq<octet>): (p: seq<octet>)
    ensures |p| % 64 == 0
  {
    m + [0x80] + Zeros(ZeroCount(|m|)) + BigEndian(8 * |m| % U64_RANGE, 8)
  }

  /** Octet i of a word, most significant first. */
  function WordOctet(x: word, i: nat): octet
    requires i < 4
  {
    if i == 0 then ((x >> 24) & 255) as octet
    else if i == 1 then ((x >> 16) & 255) as octet
    else if i == 2 then ((x >> 8) & 255) as octet
    else (x & 255) as octet
  }

  function WordOctets(x: word): (s: seq<octet>)
    ensures |s| == 4
  {
    [WordOctet(x, 0), WordOctet(x, 1), WordOctet(x, 2), WordOctet(x, 3)]
  }

  function HashOctets(h: seq<word>): (s: seq<octet>)
    ensures |s| == 4 * |h|
  {
    if h == [] then [] else HashOctets(h[..|h| - 1]) + WordOctets(h[|h| - 1])
  }

  /** The message digest of section 6.2. */
  function Sha256(m: seq<octet>): (digest: seq<octet>)
    ensures |digest| == 32
  {
    HashOctets(Process(IV, Pad(m)))
  }

  lemma {:induction false} ProcessAppend(h: Hash, a: seq<octet>, b: seq<octet>)
    requires |a| % 64 == 0 && |b| % 64 == 0
    ensures Process(h, a + b) == Process(Process(h, a), b)
    decreases |a|
  {
    if a == [] {
      assert a + b == b;
    } else {
      assert (a + b)[..64] == a[..64] && (a + b)[64..] == a[64..] + b;
      ProcessAppend(Compress(h, a[..64]), a[64..], b);
    }
  }

  lemma ProcessBlock(h: Hash, a: seq<octet>, block: Block)
    requires |a| % 64 == 0
    ensures Process(h, a + block) == Compress(Process(h, a), block)
  {
    hide Compress;
    ProcessAppend(h, a, block);
    assert block[..64] == block && block[64..] == [];
    assert Process(Process(h, a), block) == Process(Compress(Process(h, a), block), []);
  }
}
