/** What SHA-256 writes, lengths and digests, read back: the order and the values of its octets. */
module Sha256ReadBack {
  import opened Sha256Words
  import opened Sha256Spec

  function NumberOf(o: octet): nat { o as nat }

  lemma NextOctet(o: octet)
    ensures NumberOf(o + 1) == (NumberOf(o) + 1) % 256
  {
  }

  lemma NextRemainder(n: nat)
    ensures (n % 256 + 1) % 256 == (n + 1) % 256
  {
  }

  lemma {:induction false} OctetIsRemainder(n: nat)
    ensures NumberOf(Octet(n)) == n % 256
  {
    if n > 0 {
      OctetIsRemainder(n - 1);
      NextOctet(Octet(n - 1));
      NextRemainder(n - 1);
    }
  }

  /** The number that octets stand for, most significant first. */
  function Number(s: seq<octet>): nat {
    if s == [] then 0 else 256 * Number(s[..|s| - 1]) + NumberOf(s[|s| - 1])
  }

  lemma {:induction false} BigEndianReadsBack(x: nat, n: nat)
    ensures Number(BigEndian(x, n)) == x % Pow256(n)
  {
    if n > 0 {
      BigEndianReadsBack(x / 256, n - 1);
      hide *;
      LastOctet(x, n);
      RemainderSplits(x, Pow256(n - 1));
    }
  }

  lemma LastOctet(x: nat, n: nat)
    requires n > 0
    ensures Number(BigEndian(x, n)) == 256 * Number(BigEndian(x / 256, n - 1)) + x % 256
    ensures Pow256(n) == 256 * Pow256(n - 1)
  {
    hide Number, NumberOf, Octet;
    NumberAppend(BigEndian(x / 256, n - 1), Octet(x % 256));
    OctetIsRemainder(x % 256);
  }

  lemma NumberAppend(s: seq<octet>, o: octet)
    ensures Number(s + [o]) == 256 * Number(s) + NumberOf(o)
  {
    hide NumberOf;
    assert (s + [o])[..|s|] == s;
  }

  lemma RemainderSplits(x: nat, b: nat)
    requires b > 0
    ensures x % (256 * b) == 256 * (x / 256 % b) + x % 256
  {
    var q, r := x / 256 / b, x / 256 % b;
    DivDiv(x, b);
    assert x / 256 == b * q + r;
    assert x == 256 * b * q + (256 * r + x % 256);
    assert x == 256 * b * (x / (256 * b)) + x % (256 * b);
  }

  /** The message, a '1' bit, zeros, and at the end the message's length in bits as a 64-bit number. */
  lemma PadParts(m: seq<octet>)
    ensures var p := Pad(m); var n := |p| - 8;
            && |m| < n < |m| + 65 && p[..|m|] == m && p[|m|] == 0x80
            && (forall i :: |m| < i < n ==> p[i] == 0)
            && Number(p[n..]) == 8 * |m| % U64_RANGE
  {
    hide BigEndian;
    var length := 8 * |m| % U64_RANGE;
    BigEndianReadsBack(length, 8);
    assert Pow256(8) == U64_RANGE;
    assert Pad(m)[|Pad(m)| - 8..] == BigEndian(length, 8);
  }

  lemma WordReadsBack(x: word)
    ensures Load32(WordOctets(x)) == x
  {
    WordBits(x);
  }

  lemma WordBits(x: word)
    ensures ((((x >> 24) & 255) as octet as word) << 24) + ((((x >> 16) & 255) as octet as word) << 16)
            + ((((x >> 8) & 255) as octet as word) << 8) + ((x & 255) as octet as word) == x
  {
  }

  lemma {:induction false} HashOctetsAt(h: seq<word>, i: nat)
    requires i < |h|
    ensures HashOctets(h)[4 * i..4 * i + 4] == WordOctets(h[i])
  {
    if i < |h| - 1 {
      var front := h[..|h| - 1];
      HashOctetsAt(front, i);
      assert HashOctets(h)[..4 * |front|] == HashOctets(front);
      assert HashOctets(h)[4 * i..4 * i + 4] == HashOctets(front)[4 * i..4 * i + 4];
    }
  }

  /** Read as big-endian words, the digest is the last hash value. */
  lemma DigestIsFinalHash(m: seq<octet>, i: nat)
    requires i < 8
    ensures var d := Sha256(m);
            BigEndianWord(d[4 * i], d[4 * i + 1], d[4 * i + 2], d[4 * i + 3]) == Process(IV, Pad(m))[i]
  {
    hide Process, Pad, WordOctets, BigEndianWord, Load32;
    var h := Process(IV, Pad(m));
    HashOctetsAt(h, i);
    WordReadsBack(h[i]);
    assert Sha256(m)[4 * i..4 * i + 4] == WordOctets(h[i]);
  }
}
