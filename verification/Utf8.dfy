/**
  The UTF-8 decoder and encoder. A null-terminated string is the sequence of its bytes before the
  terminator; reading at its end reads the terminator.
*/
module Utf8 {
  import opened Bytes

  /** The byte a pointer to the rest s of a string points at. */
  function Peek(s: seq<byte>): byte {
    if s == [] then 0 else s[0]
  }

  ghost predicate NoNul(s: seq<byte>) {
    forall i :: 0 <= i < |s| ==> s[i] != 0
  }

  /** A code point and the number of bytes read for it, or code -1. */
  datatype Decoded = Decoded(code: int, size: nat)

  /** The UTF-8 decoder of section 8.1.1 of the WHATWG Encoding Standard, run for one result. */
  function Decode(s: seq<byte>): (d: Decoded)
    ensures d.size >= 1
  {
    var b := Peek(s);
    if b <= 0x7F then Decoded(b, 1)
    else if 0xC2 <= b <= 0xDF then Tails(s[1..], 1, 0x80, 0xBF, b - 0xC0, 1)
    else if 0xE0 <= b <= 0xEF then
      Tails(s[1..], 2, if b == 0xE0 then 0xA0 else 0x80, if b == 0xED then 0x9F else 0xBF, b - 0xE0, 1)
    else if 0xF0 <= b <= 0xF4 then
      Tails(s[1..], 3, if b == 0xF0 then 0x90 else 0x80, if b == 0xF4 then 0x8F else 0xBF, b - 0xF0, 1)
    else Decoded(-1, 1)
  }

  /** The continuation bytes; only the first of them has special boundaries. */
  function Tails(s: seq<byte>, needed: nat, lower: nat, upper: nat, cp: nat, seen: nat): (d: Decoded)
    requires lower >= 0x80
    ensures d.size <= seen + needed && d.size >= seen
    ensures d.size <= seen + |s|
    decreases needed
  {
    if needed == 0 then Decoded(cp, seen)
    else if lower <= Peek(s) <= upper then
      Tails(s[1..], needed - 1, 0x80, 0xBF, 64 * cp + (Peek(s) - 0x80), seen + 1)
    else Decoded(-1, seen)
  }

  /** Section 3 of RFC 3629: surrogates have no encoding. */
  predicate IsScalar(c: int) {
    0 <= c <= 0x10FFFF && !(0xD800 <= c <= 0xDFFF)
  }

  /** The bytes str_utf8_encode stores. */
  function Encode(chr: int): (s: seq<byte>)
    ensures |s| <= 4
  {
    if chr <= 0x7F then [chr % 256]
    else if chr <= 0x7FF then [0xC0 + chr / 64 % 32, 0x80 + chr % 64]
    else if chr <= 0xFFFF then [0xE0 + chr / 4096 % 16, 0x80 + chr / 64 % 64, 0x80 + chr % 64]
    else if chr <= 0x10FFFF then
      [0xF0 + chr / 262144 % 8, 0x80 + chr / 4096 % 64, 0x80 + chr / 64 % 64, 0x80 + chr % 64]
    else []
  }

  predicate IsTail(b: byte) {
    0x80 <= b <= 0xBF
  }

  /** Unfolds the decoder on the bytes a lead byte asks for. */
  lemma DecodeCases(s: seq<byte>)
    requires s != []
    ensures
      var b, d := s[0], Decode(s);
      var t1, t2, t3 := Peek(s[1..]), if |s| >= 2 then Peek(s[2..]) else 0, if |s| >= 3 then Peek(s[3..]) else 0;
      var lower := if b == 0xE0 then 0xA0 else if b == 0xF0 then 0x90 else 0x80;
      var upper := if b == 0xED then 0x9F else if b == 0xF4 then 0x8F else 0xBF;
      && (b <= 0x7F ==> d == Decoded(b, 1))
      && (0x80 <= b <= 0xC1 || b > 0xF4 ==> d == Decoded(-1, 1))
      && (0xC2 <= b <= 0xF4 && !(lower <= t1 <= upper) ==> d == Decoded(-1, 1))
      && (0xC2 <= b <= 0xDF && IsTail(t1) ==> d == Decoded(64 * (b - 0xC0) + (t1 - 0x80), 2))
      && (0xE0 <= b <= 0xF4 && lower <= t1 <= upper ==>
            && (!IsTail(t2) ==> d == Decoded(-1, 2))
            && (b <= 0xEF && IsTail(t2) ==> d == Decoded(64 * (64 * (b - 0xE0) + (t1 - 0x80)) + (t2 - 0x80), 3))
            && (b >= 0xF0 && IsTail(t2) ==>
                  && (!IsTail(t3) ==> d == Decoded(-1, 3))
                  && (IsTail(t3) ==>
                        d == Decoded(64 * (64 * (64 * (b - 0xF0) + (t1 - 0x80)) + (t2 - 0x80)) + (t3 - 0x80), 4))))
  {
    var r := s[1..];
    if r != [] {
      assert r[1..] == s[2..];
      if r[1..] != [] {
        assert r[1..][1..] == s[3..];
      }
    }
  }

  lemma SixBitSplit(h: nat, t1: nat, t2: nat, t3: nat)
    requires t1 < 64 && t2 < 64 && t3 < 64
    ensures (64 * h + t1) / 64 == h && (64 * h + t1) % 64 == t1
    ensures var c := 64 * (64 * h + t1) + t2; c / 4096 == h && c / 64 % 64 == t1 && c % 64 == t2
    ensures var c := 64 * (64 * (64 * h + t1) + t2) + t3;
            c / 262144 == h && c / 4096 % 64 == t1 && c / 64 % 64 == t2 && c % 64 == t3
  {
  }

  lemma SixBitJoin(c: nat)
    ensures 64 * (c / 64) + c % 64 == c
    ensures 64 * (64 * (c / 4096) + c / 64 % 64) + c % 64 == c
    ensures 64 * (64 * (64 * (c / 262144) + c / 4096 % 64) + c / 64 % 64) + c % 64 == c
  {
    var q := c / 64;
    assert c == 64 * q + c % 64;
    assert q / 64 == c / 4096 && q == 64 * (q / 64) + q % 64;
    var r := q / 64;
    assert r / 64 == c / 262144 && r == 64 * (r / 64) + r % 64;
  }

  /** The first continuation byte of an encoding is inside the boundaries its lead byte sets. */
  lemma EncodeBoundaries(c: int)
    requires IsScalar(c) && c >= 0x800
    ensures c <= 0xFFFF ==>
              && c / 4096 < 16 && (c / 4096 == 0 ==> c / 64 % 64 >= 0x20) && (c / 4096 == 13 ==> c / 64 % 64 <= 0x1F)
    ensures c > 0xFFFF ==>
              && c / 262144 <= 4 && (c / 262144 == 0 ==> c / 4096 % 64 >= 0x10)
              && (c / 262144 == 4 ==> c / 4096 % 64 <= 0x0F)
  {
    var q := c / 64;
    assert q / 64 == c / 4096;
    var r := q / 64;
    assert r / 64 == c / 262144;
  }

  /** The decoder inverts the encoder on every scalar value, whatever follows. */
  lemma DecodeEncode(c: int, rest: seq<byte>)
    requires IsScalar(c)
    ensures Decode(Encode(c) + rest) == Decoded(c, |Encode(c)|)
  {
    var s := Encode(c) + rest;
    DecodeCases(s);
    SixBitJoin(c);
    hide Decode;
    if 0x80 <= c <= 0x7FF {
      DecodeEncode2(c, s);
    } else if 0x800 <= c <= 0xFFFF {
      DecodeEncode3(c, s);
    } else if 0x10000 <= c {
      DecodeEncode4(c, s);
    }
  }

  lemma DecodeEncode2(c: int, s: seq<byte>)
    requires 0x80 <= c <= 0x7FF && Encode(c) <= s
    ensures Decode(s) == Decoded(c, 2)
  {
    DecodeCases(s);
    hide Decode;
    assert s[0] == Encode(c)[0] && Peek(s[1..]) == Encode(c)[1];
    SixBitJoin(c);
  }

  lemma DecodeEncode3(c: int, s: seq<byte>)
    requires IsScalar(c) && 0x800 <= c <= 0xFFFF && Encode(c) <= s
    ensures Decode(s) == Decoded(c, 3)
  {
    DecodeCases(s);
    hide Decode;
    assert s[0] == Encode(c)[0] && Peek(s[1..]) == Encode(c)[1] && Peek(s[2..]) == Encode(c)[2];
    EncodeBoundaries(c);
    SixBitJoin(c);
  }

  lemma DecodeEncode4(c: int, s: seq<byte>)
    requires IsScalar(c) && 0x10000 <= c && Encode(c) <= s
    ensures Decode(s) == Decoded(c, 4)
  {
    DecodeCases(s);
    hide Decode;
    assert s[0] == Encode(c)[0] && Peek(s[1..]) == Encode(c)[1];
    assert Peek(s[2..]) == Encode(c)[2] && Peek(s[3..]) == Encode(c)[3];
    EncodeBoundaries(c);
    SixBitJoin(c);
  }

  /** A result that is not an error is a scalar value whose encoding is exactly the bytes read. */
  lemma DecodeSound(s: seq<byte>)
    requires Decode(s).code >= 0
    ensures IsScalar(Decode(s).code)
    ensures s == [] ==> Decode(s) == Decoded(0, 1)
    ensures s != [] ==> Decode(s).size <= |s| && s[..Decode(s).size] == Encode(Decode(s).code)
  {
    if s != [] {
      DecodeCases(s);
      hide Decode, Encode;
      if s[0] <= 0x7F {
        DecodeSoundCase(s, 1, s[0]);
      } else if s[0] <= 0xDF {
        DecodeSound2(s);
      } else if s[0] <= 0xEF {
        DecodeSound3(s);
      } else {
        DecodeSound4(s);
      }
    }
  }

  lemma DecodeSound2(s: seq<byte>)
    requires s != [] && 0xC2 <= s[0] <= 0xDF && Decode(s).code >= 0
    ensures 2 <= |s| && Decode(s).size == 2 && IsScalar(Decode(s).code) && s[..2] == Encode(Decode(s).code)
  {
    DecodeCases(s);
    hide Decode, Encode;
    var b: int := s[0];
    var t1: int := s[1] as int - 0x80;
    SixBitSplit(b - 0xC0, t1, 0, 0);
    DecodeSoundCase(s, 2, Decode(s).code);
  }

  lemma DecodeSound3(s: seq<byte>)
    requires s != [] && 0xE0 <= s[0] <= 0xEF && Decode(s).code >= 0
    ensures 3 <= |s| && Decode(s).size == 3 && IsScalar(Decode(s).code) && s[..3] == Encode(Decode(s).code)
  {
    DecodeCases(s);
    hide Decode, Encode;
    var b: int := s[0];
    var t1, t2: int := s[1] as int - 0x80, s[2] as int - 0x80;
    SixBitSplit(b - 0xE0, t1, t2, 0);
    DecodeSoundCase(s, 3, Decode(s).code);
  }

  lemma DecodeSound4(s: seq<byte>)
    requires s != [] && 0xF0 <= s[0] <= 0xF4 && Decode(s).code >= 0
    ensures 4 <= |s| && Decode(s).size == 4 && IsScalar(Decode(s).code) && s[..4] == Encode(Decode(s).code)
  {
    DecodeCases(s);
    hide Decode, Encode;
    var b: int := s[0];
    var t1, t2, t3: int := s[1] as int - 0x80, s[2] as int - 0x80, s[3] as int - 0x80;
    SixBitSplit(b - 0xF0, t1, t2, t3);
    DecodeSoundCase(s, 4, Decode(s).code);
  }

  lemma DecodeSoundCase(s: seq<byte>, n: nat, c: nat)
    requires 1 <= n <= 4 && n <= |s|
    requires n == 1 ==> c == s[0] <= 0x7F
    requires n == 2 ==> 0x80 <= c <= 0x7FF && s[0] == 0xC0 + c / 64 && s[1] == 0x80 + c % 64
    requires n == 3 ==> 0x800 <= c <= 0xFFFF && s[0] == 0xE0 + c / 4096 && s[1] == 0x80 + c / 64 % 64
                        && s[2] == 0x80 + c % 64
    requires n == 4 ==> 0x10000 <= c <= 0x10FFFF && s[0] == 0xF0 + c / 262144 && s[1] == 0x80 + c / 4096 % 64
                        && s[2] == 0x80 + c / 64 % 64 && s[3] == 0x80 + c % 64
    ensures s[..n] == Encode(c)
  {
    if n == 2 {
      Below(c / 64, 32);
    } else if n == 3 {
      Below(c / 4096, 16);
    } else if n == 4 {
      Below(c / 262144, 8);
    }
  }

  lemma Below(x: nat, m: nat)
    requires x < m
    ensures x % m == x
  {
  }

  /** The decoder always moves on, and passes the terminator only to report the end of the string. */
  lemma DecodeProgress(s: seq<byte>)
    requires NoNul(s)
    ensures 1 <= Decode(s).size <= 4
    ensures Decode(s).code == 0 <==> s == []
    ensures Decode(s).size > |s| ==> s == []
    ensures Decode(s).code >= -1
  {
    if s != [] {
      DecodeCases(s);
    }
  }

  /** The encoding of a scalar value: one start byte, then continuation bytes only. */
  lemma EncodeShape(c: int)
    requires IsScalar(c)
    ensures 1 <= |Encode(c)| && !IsTail(Encode(c)[0])
    ensures forall i :: 1 <= i < |Encode(c)| ==> IsTail(Encode(c)[i])
    ensures c > 0 ==> NoNul(Encode(c))
  {
  }

  /** An encoding cut short, and so followed by the terminator, decodes to an error. */
  lemma CutEncodingFails(c: int, n: nat)
    requires IsScalar(c) && 0 < n < |Encode(c)|
    ensures Decode(Encode(c)[..n]).code == -1
  {
    var s := Encode(c)[..n];
    EncodeShape(c);
    DecodeCases(s);
  }

  /** What the decoder says depends only on the bytes it has read. */
  lemma DecodeExtends(s: seq<byte>, rest: seq<byte>)
    requires s != [] && Decode(s).code >= 0
    ensures Decode(s + rest) == Decode(s)
  {
    DecodeSound(s);
    var d := Decode(s);
    DecodeEncode(d.code, s[d.size..] + rest);
    assert s + rest == Encode(d.code) + (s[d.size..] + rest);
    DecodeEncode(d.code, s[d.size..]);
    assert s == Encode(d.code) + s[d.size..];
  }

  // ----- the code -----

  /** str_utf8_encode. */
  method StrUtf8Encode(ptr: array<byte>, chr: int) returns (n: nat)
    requires ptr.Length >= 4
    modifies ptr
    ensures n == |Encode(chr)| && ptr[..n] == Encode(chr)
    ensures forall i :: n <= i < ptr.Length ==> ptr[i] == old(ptr[i])
  {
    if chr <= 0x7F {
      ptr[0] := chr % 256;
      return 1;
    } else if chr <= 0x7FF {
      ptr[0] := 0xC0 + chr / 64 % 32;
      ptr[1] := 0x80 + chr % 64;
      return 2;
    } else if chr <= 0xFFFF {
      ptr[0] := 0xE0 + chr / 4096 % 16;
      ptr[1] := 0x80 + chr / 64 % 64;
      ptr[2] := 0x80 + chr % 64;
      return 3;
    } else if chr <= 0x10FFFF {
      ptr[0] := 0xF0 + chr / 262144 % 8;
      ptr[1] := 0x80 + chr / 4096 % 64;
      ptr[2] := 0x80 + chr / 64 % 64;
      ptr[3] := 0x80 + chr % 64;
      return 4;
    }
    return 0;
  }

  function Shift6(x: nat, times: nat): nat
    decreases times
  {
    if times == 0 then x else Shift6(64 * x, times - 1)
  }

  lemma {:induction false} Shift6Add(x: nat, y: nat, times: nat)
    ensures Shift6(x, times) + Shift6(y, times) == Shift6(x + y, times)
    decreases times
  {
    if times > 0 {
      Shift6Add(64 * x, 64 * y, times - 1);
    }
  }

  /** One continuation byte read at position next. */
  lemma TailGoesOn(str: seq<byte>, next: nat, needed: nat, lower: nat, upper: nat, cp: nat, seen: nat)
    requires next <= |str| && needed > 0 && lower >= 0x80
    ensures var b, d := Peek(str[next..]), Tails(str[next..], needed, lower, upper, cp, seen);
            if lower <= b <= upper then
              next < |str| && d == Tails(str[next + 1..], needed - 1, 0x80, 0xBF, 64 * cp + (b - 0x80), seen + 1)
            else d == Decoded(-1, seen)
  {
    var rest := str[next..];
    if lower <= Peek(rest) <= upper {
      assert rest[1..] == str[next + 1..];
    }
  }

  lemma TailsEnd(s: seq<byte>, lower: nat, upper: nat, cp: nat, seen: nat)
    requires lower >= 0x80
    ensures Tails(s, 0, lower, upper, cp, seen) == Decoded(cp, seen)
  {
  }

  /** The first byte read at position pos. */
  lemma LeadByte(str: seq<byte>, pos: nat)
    requires pos <= |str|
    ensures
      var b, d := Peek(str[pos..]), Decode(str[pos..]);
      && (b > 0 ==> pos < |str|)
      && (b <= 0x7F ==> d == Decoded(b, 1))
      && (0xC2 <= b <= 0xDF ==> d == Tails(str[pos + 1..], 1, 0x80, 0xBF, b - 0xC0, 1))
      && (0xE0 <= b <= 0xEF ==>
            d == Tails(str[pos + 1..], 2, if b == 0xE0 then 0xA0 else 0x80, if b == 0xED then 0x9F else 0xBF,
                       b - 0xE0, 1))
      && (0xF0 <= b <= 0xF4 ==>
            d == Tails(str[pos + 1..], 3, if b == 0xF0 then 0x90 else 0x80, if b == 0xF4 then 0x8F else 0xBF,
                       b - 0xF0, 1))
      && (0x80 <= b < 0xC2 || b > 0xF4 ==> d == Decoded(-1, 1))
  {
    hide Tails;
    var rest := str[pos..];
    if rest != [] {
      assert rest[1..] == str[pos + 1..];
    }
  }

  /**
    str_utf8_decode on the string str from position pos on. The code point is kept shifted to its
    final place; the continuation bytes are added below it.
  */
  method StrUtf8Decode(str: seq<byte>, pos: nat) returns (code: int, next: nat)
    requires pos <= |str|
    ensures next > pos && Decoded(code, next - pos) == Decode(str[pos..])
  {
    hide Decode, Tails, Peek;
    var lower, upper := 0x80, 0xBF;
    var codePoint: nat := 0;
    var seen, needed := 0, 0;
    ghost var cp: nat := 0; // the code point before shifting
    next := pos;
    while true
      invariant pos <= next
      invariant needed == 0 ==> next == pos && seen == 0 && lower == 0x80 && upper == 0xBF && codePoint == 0
      invariant needed > 0 ==>
                  && seen < needed && next == pos + 1 + seen && next <= |str| && lower >= 0x80
                  && codePoint == Shift6(cp, needed - seen)
                  && Decode(str[pos..]) == Tails(str[next..], needed - seen, lower, upper, cp, 1 + seen)
      decreases needed == 0, needed - seen
    {
      var byteValue := Peek(str[next..]);
      next := next + 1;
      if needed == 0 {
        LeadByte(str, pos);
        if byteValue <= 0x7F {
          return byteValue, next;
        } else if 0xC2 <= byteValue <= 0xDF {
          needed := 1;
          codePoint := byteValue - 0xC0;
        } else if 0xE0 <= byteValue <= 0xEF {
          if byteValue == 0xE0 {
            lower := 0xA0;
          }
          if byteValue == 0xED {
            upper := 0x9F;
          }
          needed := 2;
          codePoint := byteValue - 0xE0;
        } else if 0xF0 <= byteValue <= 0xF4 {
          if byteValue == 0xF0 {
            lower := 0x90;
          }
          if byteValue == 0xF4 {
            upper := 0x8F;
          }
          needed := 3;
          codePoint := byteValue - 0xF0;
        } else {
          return -1, next;
        }
        cp := codePoint;
        codePoint := Shift6(codePoint, needed);
        continue;
      }
      TailGoesOn(str, next - 1, needed - seen, lower, upper, cp, 1 + seen);
      if !(lower <= byteValue <= upper) {
        next := next - 1;
        return -1, next;
      }
      lower, upper := 0x80, 0xBF;
      seen := seen + 1;
      Shift6Add(64 * cp, byteValue - 0x80, needed - seen);
      codePoint := codePoint + Shift6(byteValue - 0x80, needed - seen);
      cp := 64 * cp + (byteValue - 0x80);
      if seen != needed {
        continue;
      }
      TailsEnd(str[next..], 0x80, 0xBF, cp, 1 + seen);
      return codePoint, next;
    }
  }
}
