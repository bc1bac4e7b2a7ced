/** The edit distance of two UTF-8 strings, computed in one caller-supplied buffer. */
module Utf8Distance {
  import opened Bytes
  import opened Utf8
  import opened Utf8Strings
  import opened EditDistance

  /** The decoder's results on a string, errors included. */
  ghost function Codes(s: seq<byte>): (cs: seq<int>)
    requires NoNul(s)
    ensures |cs| <= |s|
    decreases |s|
  {
    DecodeProgress(s);
    if s == [] then [] else [Decode(s).code] + Codes(s[Decode(s).size..])
  }

  /** The string up to position pos has been converted. */
  ghost predicate Converted(str: seq<byte>, pos: nat, codes: seq<int>)
    requires NoNul(str)
  {
    pos <= |str| && |codes| <= pos && codes + Codes(str[pos..]) == Codes(str)
  }

  lemma NothingConverted(str: seq<byte>)
    requires NoNul(str)
    ensures Converted(str, 0, [])
  {
    assert str[0..] == str;
  }

  /** One code point more, or the end. */
  lemma ConvertOne(str: seq<byte>, pos: nat, codes: seq<int>)
    requires NoNul(str) && Converted(str, pos, codes)
    ensures var d := Decode(str[pos..]);
            if d.code == 0 then codes == Codes(str) else Converted(str, pos + d.size, codes + [d.code])
  {
    hide Decode;
    var rest := str[pos..];
    DecodeProgress(rest);
    if rest == [] {
      assert codes + [] == codes;
    } else {
      var d := Decode(rest);
      assert rest[d.size..] == str[pos + d.size..];
      assert codes + ([d.code] + Codes(rest[d.size..])) == (codes + [d.code]) + Codes(rest[d.size..]);
    }
  }

  /** Stores one code point behind the others. */
  method Put(mem: array<int>, out0: nat, n: nat, code: int, ghost codes: seq<int>, ghost end: nat, ghost orig: seq<int>)
    requires n == |codes| && out0 + n < end <= mem.Length
    requires Holds(mem[..], out0, codes) && SameOutside(orig, mem[..], out0, end)
    modifies mem
    ensures Holds(mem[..], out0, codes) && Holds(mem[..], out0, codes + [code])
    ensures SameOutside(orig, mem[..], out0, end)
  {
    mem[out0 + n] := code;
  }

  /** str_to_utf32_unchecked: the code points from out on, then a zero that is not counted. */
  method ToUtf32Unchecked(str: seq<byte>, mem: array<int>, out0: nat) returns (n: nat)
    requires NoNul(str) && out0 + |str| < mem.Length
    modifies mem
    ensures n == |Codes(str)| && Holds(mem[..], out0, Codes(str))
    ensures SameOutside(old(mem[..]), mem[..], out0, out0 + |str| + 1)
  {
    n := 0;
    var pos := 0;
    NothingConverted(str);
    ghost var codes, orig, end := [], mem[..], out0 + |str| + 1;
    NothingWritten(mem[..], out0, end);
    hide *;
    while true
      invariant Converted(str, pos, codes) && |codes| == n <= pos <= |str|
      invariant Holds(mem[..], out0, codes) && SameOutside(orig, mem[..], out0, end)
      decreases |str| - pos
    {
      ConvertOne(str, pos, codes);
      var code, next := StrUtf8Decode(str, pos);
      Put(mem, out0, n, code, codes, end, orig);
      if code == 0 {
        return;
      }
      WithinString(str, next, codes + [code]);
      codes := codes + [code];
      n := n + 1;
      pos := next;
    }
  }

  lemma NothingWritten(mem: seq<int>, at: nat, end: nat)
    requires at <= |mem|
    ensures Holds(mem, at, []) && SameOutside(mem, mem, at, end)
  {
  }

  lemma WithinString(str: seq<byte>, pos: nat, codes: seq<int>)
    requires NoNul(str) && Converted(str, pos, codes)
    ensures |codes| <= pos <= |str|
  {
  }

  /**
    str_utf8_dist_buffer. Both code point strings and the table of str_utf32_dist_buffer are laid
    out one behind the other in the same buffer, which the documented size always leaves room for.
  */
  method StrUtf8DistBuffer(a0: seq<byte>, b0: seq<byte>, mem: array<int>, buf: nat, bufLen: nat) returns (dist: nat)
    requires NoNul(a0) && NoNul(b0)
    requires bufLen >= 2 * (|a0| + 1 + |b0| + 1) && buf + bufLen <= mem.Length
    modifies mem
    ensures dist == Dist(Codes(a0), Codes(b0))
    ensures forall k :: 0 <= k < mem.Length && !(buf <= k < buf + bufLen) ==> mem[k] == old(mem[k])
  {
    hide Dist, Codes;
    Symmetric(Codes(a0), Codes(b0));
    var a, b := a0, b0;
    if |a| > |b| {
      a, b := b0, a0;
    }
    var aLen := ToUtf32Unchecked(a, mem, buf);
    var bLen := ToUtf32Unchecked(b, mem, buf + aLen);
    assert mem[buf..buf + aLen] == Codes(a) && mem[buf + aLen..buf + aLen + bLen] == Codes(b);
    dist := Utf32DistBuffer(mem, buf, aLen, buf + aLen, bLen, buf + aLen + bLen, bufLen - bLen - aLen);
  }

  lemma {:induction false} CodesEncode(s: seq<byte>)
    requires Valid(s) && NoNul(s)
    ensures EncodeAll(Codes(s)) == s
    decreases |s|
  {
    hide Decode, Encode;
    if s != [] {
      var c, rest := ValidUncons(s);
      CodesEncode(rest);
      assert Codes(s) == [c] + Codes(rest);
    }
  }

  /** Between valid strings the distance is zero exactly when they are equal. */
  lemma ValidStringsApart(a: seq<byte>, b: seq<byte>)
    requires Valid(a) && Valid(b) && NoNul(a) && NoNul(b)
    ensures Dist(Codes(a), Codes(b)) == 0 <==> a == b
  {
    hide Dist, Codes, Valid;
    ZeroIffEqual(Codes(a), Codes(b));
    CodesEncode(a);
    CodesEncode(b);
  }
}
