/**
  Copying, appending and truncating null-terminated UTF-8 strings without cutting a code point,
  and the conversion between byte and character offsets.
*/
module Utf8Strings {
  import opened Bytes
  import opened Utf8

  // ----- valid strings -----

  /** The whole string decodes without an error. */
  ghost predicate Valid(s: seq<byte>)
    decreases |s|
  {
    s == [] || (Decode(s).code > 0 && Decode(s).size <= |s| && Valid(s[Decode(s).size..]))
  }

  ghost predicate AllScalars(cs: seq<int>) {
    forall i :: 0 <= i < |cs| ==> IsScalar(cs[i]) && cs[i] > 0
  }

  ghost function EncodeAll(cs: seq<int>): seq<byte> {
    if cs == [] then [] else Encode(cs[0]) + EncodeAll(cs[1..])
  }

  lemma ValidHead(c: int, rest: seq<byte>)
    requires IsScalar(c) && c > 0
    ensures Encode(c) + rest != [] && Decode(Encode(c) + rest) == Decoded(c, |Encode(c)|)
    ensures (Encode(c) + rest)[|Encode(c)|..] == rest
    ensures Valid(Encode(c) + rest) <==> Valid(rest)
  {
    hide Decode, Encode;
    DecodeEncode(c, rest);
    EncodeShape(c);
    assert (Encode(c) + rest)[|Encode(c)|..] == rest;
  }

  /** A valid string starts with the encoding of its first code point. */
  lemma ValidUncons(s: seq<byte>) returns (c: int, rest: seq<byte>)
    requires Valid(s) && s != []
    ensures IsScalar(c) && c > 0 && s == Encode(c) + rest && Valid(rest) && |rest| < |s|
    ensures c == Decode(s).code && rest == s[Decode(s).size..]
  {
    hide Decode, Encode;
    DecodeSound(s);
    c := Decode(s).code;
    rest := s[Decode(s).size..];
    EncodeShape(c);
  }

  /** Valid strings are exactly the concatenations of encoded non-zero scalar values. */
  lemma {:induction false} ValidIffEncoded(s: seq<byte>)
    ensures Valid(s) <==> exists cs :: AllScalars(cs) && s == EncodeAll(cs)
    decreases |s|
  {
    hide Decode, Encode;
    if Valid(s) {
      var cs := CodePoints(s);
    }
    forall cs | AllScalars(cs) && s == EncodeAll(cs)
      ensures Valid(s)
    {
      EncodedIsValid(cs);
    }
  }

  lemma {:induction false} CodePoints(s: seq<byte>) returns (cs: seq<int>)
    requires Valid(s)
    ensures AllScalars(cs) && s == EncodeAll(cs)
    decreases |s|
  {
    hide Decode, Encode;
    if s == [] {
      cs := [];
    } else {
      var c, rest := ValidUncons(s);
      cs := CodePoints(rest);
      cs := [c] + cs;
    }
  }

  lemma {:induction false} EncodedIsValid(cs: seq<int>)
    requires AllScalars(cs)
    ensures Valid(EncodeAll(cs))
  {
    hide Decode, Encode;
    if cs != [] {
      EncodedIsValid(cs[1..]);
      ValidHead(cs[0], EncodeAll(cs[1..]));
    }
  }

  /** Behind a valid string validity only depends on what follows. */
  lemma {:induction false} ValidPrefix(a: seq<byte>, b: seq<byte>)
    requires Valid(a)
    ensures Valid(a + b) <==> Valid(b)
    decreases |a|
  {
    hide Decode, Encode;
    if a == [] {
      assert a + b == b;
    } else {
      var c, rest := ValidUncons(a);
      ValidPrefix(rest, b);
      ValidHead(c, rest + b);
      assert a + b == Encode(c) + (rest + b);
    }
  }

  lemma {:induction false} ValidNoNul(s: seq<byte>)
    requires Valid(s)
    ensures NoNul(s)
    decreases |s|
  {
    hide Decode, Encode;
    if s != [] {
      var c, rest := ValidUncons(s);
      EncodeShape(c);
      ValidNoNul(rest);
    }
  }

  // ----- truncation -----

  /** The longest valid prefix of s that has at most n bytes. */
  ghost predicate IsLongestValidPrefix(p: seq<byte>, s: seq<byte>, n: nat) {
    && p <= s && |p| <= n && Valid(p)
    && forall k :: |p| < k <= Min(n, |s|) ==> !Valid(s[..k])
  }

  /** Where the last start byte of t is; 0 when there is none. */
  ghost function LastStart(t: seq<byte>): (i: nat)
    ensures i <= |t| && (t != [] ==> i < |t|)
  {
    if t == [] then 0
    else if IsTail(t[|t| - 1]) && |t| > 1 then LastStart(t[..|t| - 1])
    else |t| - 1
  }

  /** What str_utf8_fix_truncation leaves of the string t. */
  ghost function Fixed(t: seq<byte>): seq<byte> {
    if t != [] && Decode(t[LastStart(t)..]).code == -1 then t[..LastStart(t)] else t
  }

  /** A valid string cut anywhere is a valid string and perhaps the beginning of one more encoding. */
  lemma {:induction false} Cut(s: seq<byte>, m: nat) returns (v: seq<byte>, q: seq<byte>, c: int)
    requires Valid(s) && m <= |s|
    ensures s[..m] == v + q && Valid(v)
    ensures q != [] ==> IsScalar(c) && c > 0 && |q| < |Encode(c)| && q == Encode(c)[..|q|]
    decreases |s|
  {
    hide Decode, Encode;
    if m == 0 {
      v, q, c := [], [], 1;
    } else {
      var head, rest := ValidUncons(s);
      var e := Encode(head);
      if m < |e| {
        v, q, c := [], s[..m], head;
        assert s[..m] == e[..m];
      } else {
        v, q, c := Cut(rest, m - |e|);
        ValidHead(head, v);
        assert s[..m] == e + rest[..m - |e|];
        v := e + v;
      }
    }
  }

  lemma {:induction false} LastStartOf(w: seq<byte>, e: seq<byte>)
    requires e != [] && !IsTail(e[0]) && forall i :: 1 <= i < |e| ==> IsTail(e[i])
    ensures LastStart(w + e) == |w|
    decreases |e|
  {
    var t := w + e;
    if |e| > 1 {
      var f := e[..|e| - 1];
      LastStartOf(w, f);
      assert t[..|t| - 1] == w + f;
    }
  }

  lemma {:induction false} LastCodePoint(v: seq<byte>) returns (w: seq<byte>, c: int)
    requires Valid(v) && v != []
    ensures IsScalar(c) && c > 0 && v == w + Encode(c)
    decreases |v|
  {
    hide Decode, Encode;
    var head, rest := ValidUncons(v);
    if rest == [] {
      w, c := [], head;
      assert v == [] + Encode(head);
    } else {
      w, c := LastCodePoint(rest);
      w := Encode(head) + w;
    }
  }

  lemma FixedOfCut(v: seq<byte>, q: seq<byte>, c: int)
    requires Valid(v)
    requires q != [] ==> IsScalar(c) && c > 0 && |q| < |Encode(c)| && q == Encode(c)[..|q|]
    ensures Fixed(v + q) == v
  {
    hide Decode, Encode, LastStart;
    if q != [] {
      EncodeShape(c);
      LastStartOf(v, q);
      CutEncodingFails(c, |q|);
      assert (v + q)[|v|..] == q && (v + q)[..|v|] == v;
    } else if v != [] {
      var w, d := LastCodePoint(v);
      EncodeShape(d);
      LastStartOf(w, Encode(d));
      ValidHead(d, []);
      assert v + q == v && v[|w|..] == Encode(d) == Encode(d) + [];
    }
  }

  /** Cutting a valid string and repairing the cut gives its longest prefix of whole code points. */
  lemma FixedIsLongest(s: seq<byte>, n: nat)
    requires Valid(s)
    ensures IsLongestValidPrefix(Fixed(s[..Min(n, |s|)]), s, n)
  {
    hide Decode, Encode, LastStart, Fixed, Valid;
    var m := Min(n, |s|);
    var v, q, c := Cut(s, m);
    FixedOfCut(v, q, c);
    assert v == s[..|v|];
    forall k | |v| < k <= m
      ensures !Valid(s[..k])
    {
      var part := q[..k - |v|];
      assert s[..k] == s[..m][..k] == v + part;
      ValidPrefix(v, part);
      assert part == Encode(c)[..k - |v|];
      CutIsInvalid(c, k - |v|);
    }
  }

  lemma CutIsInvalid(c: int, n: nat)
    requires IsScalar(c) && 0 < n < |Encode(c)|
    ensures !Valid(Encode(c)[..n])
  {
    hide Decode, Encode;
    CutEncodingFails(c, n);
  }

  /** In front of a valid string the longest prefix of what follows is the longest prefix of both. */
  lemma LongestBehind(c: seq<byte>, s: seq<byte>, p: seq<byte>, n: nat)
    requires Valid(c) && |c| <= n && IsLongestValidPrefix(p, c + s, n)
    ensures c <= p && IsLongestValidPrefix(p[|c|..], s, n - |c|)
  {
    hide Decode, Encode, Valid;
    assert (c + s)[..|c|] == c;
    assert |c| <= |p|;
    var rest := p[|c|..];
    assert c == p[..|c|] && p == c + rest;
    assert rest == s[..|rest|];
    ValidPrefix(c, rest);
    forall k | |rest| < k <= Min(n - |c|, |s|)
      ensures !Valid(s[..k])
    {
      ValidPrefix(c, s[..k]);
      assert (c + s)[..|c| + k] == c + s[..k];
    }
  }

  // ----- strings in memory -----

  /** The string stored at the start of a buffer. */
  ghost function Content(mem: seq<byte>): (s: seq<byte>)
    requires 0 in mem
    ensures |s| < |mem| && mem[|s|] == 0 && s == mem[..|s|] && NoNul(s)
  {
    if mem[0] == 0 then [] else [mem[0]] + Content(mem[1..])
  }

  lemma {:induction false} ContentIs(mem: seq<byte>, len: nat)
    requires len < |mem| && mem[len] == 0 && NoNul(mem[..len])
    ensures 0 in mem && Content(mem) == mem[..len]
  {
    if len > 0 {
      assert mem[..len][0] != 0;
      assert mem[1..][..len - 1] == mem[..len][1..];
      ContentIs(mem[1..], len - 1);
    }
  }

  method StrLength(mem: array<byte>) returns (len: nat)
    requires 0 in mem[..]
    ensures len == |Content(mem[..])|
  {
    len := 0;
    while mem[len] != 0
      invariant len <= |Content(mem[..])|
      decreases mem.Length - len
    {
      len := len + 1;
    }
  }

  /** str_utf8_rewind: back to the previous start byte. */
  method Rewind(mem: array<byte>, cursor: nat) returns (r: nat)
    requires cursor <= mem.Length
    ensures r == LastStart(mem[..cursor])
  {
    r := cursor;
    while r > 0
      invariant r <= cursor
      invariant r == 0 ==> cursor == 0
      invariant LastStart(mem[..r]) == LastStart(mem[..cursor])
    {
      assert mem[..r][..r - 1] == mem[..r - 1];
      r := r - 1;
      if !IsTail(mem[r]) || r == 0 {
        return;
      }
    }
  }

  /** str_utf8_fix_truncation. */
  method FixTruncation(mem: array<byte>) returns (len: nat)
    requires 0 in mem[..]
    modifies mem
    ensures 0 in mem[..] && Content(mem[..]) == Fixed(old(Content(mem[..]))) && len == |Content(mem[..])|
    ensures forall i :: old(|Content(mem[..])|) <= i < mem.Length ==> mem[i] == old(mem[i])
  {
    hide Decode, LastStart;
    ghost var t := Content(mem[..]);
    len := StrLength(mem);
    if len > 0 {
      var lastChar := Rewind(mem, len);
      assert mem[..len] == t;
      var code, next := StrUtf8Decode(mem[..len], lastChar);
      if code == -1 {
        mem[lastChar] := 0;
        assert mem[..lastChar] == t[..lastChar];
        ContentIs(mem[..], lastChar);
        return lastChar;
      }
    }
  }

  /** str_copy: strncat of at most dstSize - 1 bytes onto the empty string, then the repair. */
  method StrCopy(dst: array<byte>, src: seq<byte>, dstSize: nat) returns (len: nat)
    requires 1 <= dstSize <= dst.Length && NoNul(src)
    modifies dst
    ensures 0 in dst[..] && len == |Content(dst[..])|
    ensures Content(dst[..]) == Fixed(src[..Min(dstSize - 1, |src|)])
    ensures Valid(src) ==> IsLongestValidPrefix(Content(dst[..]), src, dstSize - 1)
    ensures forall i :: dstSize <= i < dst.Length ==> dst[i] == old(dst[i])
  {
    hide Decode, LastStart, Fixed, IsLongestValidPrefix;
    var m := Min(dstSize - 1, |src|);
    dst[0] := 0;
    MemCopy(dst, 0, src[..m]);
    dst[m] := 0;
    assert dst[..m] == src[..m];
    ContentIs(dst[..], m);
    len := FixTruncation(dst);
    if Valid(src) {
      FixedIsLongest(src, dstSize - 1);
    }
  }

  /** str_append: copy from the end of dst on while there is room, terminate, repair. */
  method StrAppend(dst: array<byte>, src: seq<byte>, dstSize: nat)
    requires 1 <= dstSize <= dst.Length && NoNul(src) && 0 in dst[..]
    modifies dst
    ensures 0 in dst[..]
    ensures var all := old(Content(dst[..])) + src; Content(dst[..]) == Fixed(all[..Min(dstSize - 1, |all|)])
    ensures old(|Content(dst[..])|) < dstSize && Valid(old(Content(dst[..]))) && Valid(src) ==>
              && old(Content(dst[..])) <= Content(dst[..])
              && IsLongestValidPrefix(Content(dst[..])[old(|Content(dst[..])|)..], src,
                                      dstSize - 1 - old(|Content(dst[..])|))
  {
    hide Decode, LastStart, Fixed, IsLongestValidPrefix, Valid;
    ghost var before := Content(dst[..]);
    ghost var all, room := before + src, dstSize - 1;
    AppendBytes(dst, src, dstSize);
    var len := FixTruncation(dst);
    if |before| < dstSize && Valid(before) && Valid(src) {
      ValidPrefix(before, src);
      FixedIsLongest(all, room);
      LongestBehind(before, src, Content(dst[..]), room);
    }
  }

  /** The copying loop of str_append and the final terminator. */
  method AppendBytes(dst: array<byte>, src: seq<byte>, dstSize: nat)
    requires 1 <= dstSize <= dst.Length && NoNul(src) && 0 in dst[..]
    modifies dst
    ensures var all := old(Content(dst[..])) + src;
            0 in dst[..] && Content(dst[..]) == all[..Min(dstSize - 1, |all|)]
  {
    ghost var all := Content(dst[..]) + src;
    var s := StrLength(dst);
    ghost var start := s;
    var i := 0;
    while s < dstSize
      invariant i <= |src| && s == start + i && (start <= dstSize ==> s <= dstSize)
      invariant s <= dst.Length && dst[..s] == all[..s]
      decreases dstSize - s
    {
      dst[s] := Peek(src[i..]);
      if i == |src| {
        break;
      }
      s := s + 1;
      i := i + 1;
      assert dst[..s] == dst[..s - 1] + [src[i - 1]];
    }
    dst[dstSize - 1] := 0;
    var m := Min(dstSize - 1, |all|);
    assert dst[..m] == all[..m];
    ContentIs(dst[..], m);
  }

  // ----- offsets -----

  /** str_utf8_forward as a function: the next decoder boundary, or the end again. */
  ghost function Forward(s: seq<byte>, pos: nat): (r: nat)
    requires NoNul(s) && pos <= |s|
    ensures pos < |s| ==> pos < r <= |s|
    ensures pos == |s| ==> r == pos
  {
    DecodeProgress(s[pos..]);
    if pos == |s| then pos else pos + Decode(s[pos..]).size
  }

  /** The k-th decoder boundary; the end of the string from the last one on. */
  ghost function Boundary(s: seq<byte>, k: nat): (r: nat)
    requires NoNul(s)
    ensures r <= |s|
  {
    if k == 0 then 0 else Forward(s, Boundary(s, k - 1))
  }

  /** The number of characters, decoding errors included. */
  ghost function CharsFrom(s: seq<byte>, pos: nat): nat
    requires NoNul(s) && pos <= |s|
    decreases |s| - pos
  {
    if pos == |s| then 0 else 1 + CharsFrom(s, Forward(s, pos))
  }

  method StrUtf8Forward(s: seq<byte>, cursor: nat) returns (r: nat)
    requires NoNul(s) && cursor <= |s|
    ensures r == Forward(s, cursor)
  {
    hide Decode;
    DecodeProgress(s[cursor..]);
    var code, next := StrUtf8Decode(s, cursor);
    if code == 0 {
      return cursor;
    }
    return next;
  }

  /** str_utf8_offset_chars_to_bytes. */
  method OffsetCharsToBytes(s: seq<byte>, charOffset: nat) returns (byteOffset: nat)
    requires NoNul(s)
    ensures byteOffset == Boundary(s, charOffset)
  {
    hide Decode, Forward;
    byteOffset := 0;
    for i := 0 to charOffset
      invariant byteOffset == Boundary(s, i)
    {
      var prev := byteOffset;
      byteOffset := StrUtf8Forward(s, byteOffset);
      if byteOffset == prev {
        StuckAtEnd(s, i, charOffset);
        break;
      }
    }
  }

  /** charOffset is the first boundary at or behind byteOffset, or the last one. */
  ghost predicate IsCharOffset(s: seq<byte>, byteOffset: nat, charOffset: nat)
    requires NoNul(s)
  {
    && (Boundary(s, charOffset) >= byteOffset || Boundary(s, charOffset) == |s|)
    && forall k :: 0 <= k < charOffset ==> Boundary(s, k) < byteOffset && Boundary(s, k) < |s|
  }

  /** str_utf8_offset_bytes_to_chars. */
  method OffsetBytesToChars(s: seq<byte>, byteOffset: nat) returns (charOffset: nat)
    requires NoNul(s)
    ensures IsCharOffset(s, byteOffset, charOffset)
  {
    hide Decode, Forward;
    charOffset := 0;
    var current := 0;
    while current < byteOffset
      invariant current == Boundary(s, charOffset)
      invariant forall k :: 0 <= k < charOffset ==> Boundary(s, k) < byteOffset && Boundary(s, k) < |s|
      decreases |s| - current, byteOffset - current
    {
      var prev := current;
      current := StrUtf8Forward(s, current);
      if current == prev {
        break;
      }
      charOffset := charOffset + 1;
    }
  }

  lemma {:induction false} StuckAtEnd(s: seq<byte>, i: nat, k: nat)
    requires NoNul(s) && i <= k && Boundary(s, i) == |s|
    ensures Boundary(s, k) == |s|
  {
    hide Decode, Forward;
    if i < k {
      StuckAtEnd(s, i, k - 1);
    }
  }

  /** Boundaries grow strictly until the end of the string. */
  lemma {:induction false} BoundariesGrow(s: seq<byte>, i: nat, k: nat)
    requires NoNul(s) && i < k
    ensures Boundary(s, i) < Boundary(s, k) || Boundary(s, i) == Boundary(s, k) == |s|
  {
    hide Decode, Forward;
    if i + 1 < k {
      BoundariesGrow(s, i, k - 1);
    }
  }

  lemma {:induction false} BoundariesEnd(s: seq<byte>, i: nat)
    requires NoNul(s)
    ensures Boundary(s, i + CharsFrom(s, Boundary(s, i))) == |s|
    ensures forall k :: i <= k < i + CharsFrom(s, Boundary(s, i)) ==> Boundary(s, k) < |s|
    decreases |s| - Boundary(s, i)
  {
    hide Decode, Forward;
    if Boundary(s, i) < |s| {
      assert Boundary(s, i + 1) == Forward(s, Boundary(s, i));
      BoundariesEnd(s, i + 1);
    }
  }

  /** The two conversions are adjoint: off reaches at most character k iff character k starts at or behind off. */
  lemma OffsetsAdjoint(s: seq<byte>, byteOffset: nat, charOffset: nat, k: nat)
    requires NoNul(s) && IsCharOffset(s, byteOffset, charOffset)
    ensures charOffset <= k <==> Min(byteOffset, |s|) <= Boundary(s, k)
  {
    hide Decode, Forward;
    if charOffset < k {
      BoundariesGrow(s, charOffset, k);
    }
  }

  lemma NotBeyond(s: seq<byte>, k: nat, charOffset: nat, j: nat)
    requires NoNul(s) && IsCharOffset(s, Boundary(s, k), charOffset)
    requires Boundary(s, j) == Boundary(s, k) || Boundary(s, j) == |s|
    ensures charOffset <= j
  {
    hide Boundary;
  }

  lemma NotBefore(s: seq<byte>, k: nat, charOffset: nat, n: nat)
    requires NoNul(s) && IsCharOffset(s, Boundary(s, k), charOffset)
    requires forall i :: 0 <= i < n ==> Boundary(s, i) < |s|
    ensures charOffset >= Min(k, n)
  {
    hide Boundary;
    if charOffset < k {
      BoundariesGrow(s, charOffset, k);
    }
  }

  /** chars -> bytes -> chars is the offset clamped to the number of characters. */
  lemma CharsRoundTrip(s: seq<byte>, k: nat, charOffset: nat)
    requires NoNul(s) && IsCharOffset(s, Boundary(s, k), charOffset)
    ensures charOffset == Min(k, CharsFrom(s, 0))
  {
    hide Decode, Forward, CharsFrom, IsCharOffset;
    var n := CharsFrom(s, 0);
    assert Boundary(s, 0) == 0;
    BoundariesEnd(s, 0);
    NotBeyond(s, k, charOffset, Min(k, n));
    NotBefore(s, k, charOffset, n);
  }

  /** bytes -> chars -> bytes is the least boundary not below the offset, clamped to the length. */
  lemma BytesRoundTrip(s: seq<byte>, byteOffset: nat, charOffset: nat)
    requires NoNul(s) && IsCharOffset(s, byteOffset, charOffset)
    ensures Min(byteOffset, |s|) <= Boundary(s, charOffset) <= |s|
    ensures forall k :: Min(byteOffset, |s|) <= Boundary(s, k) ==> Boundary(s, charOffset) <= Boundary(s, k)
  {
    hide Decode, Forward, Boundary;
    forall k: nat | Min(byteOffset, |s|) <= Boundary(s, k)
      ensures Boundary(s, charOffset) <= Boundary(s, k)
    {
      OffsetsAdjoint(s, byteOffset, charOffset, k);
      if charOffset < k {
        BoundariesGrow(s, charOffset, k);
      }
    }
  }

  // ----- truncation to a number of characters -----

  lemma {:induction false} BoundaryIsValid(s: seq<byte>, k: nat)
    requires Valid(s) && NoNul(s)
    ensures Valid(s[..Boundary(s, k)]) && Valid(s[Boundary(s, k)..])
  {
    hide Decode, Encode;
    if k > 0 {
      BoundaryIsValid(s, k - 1);
      var pos := Boundary(s, k - 1);
      if pos < |s| {
        var c, rest := ValidUncons(s[pos..]);
        ValidHead(c, []);
        ValidPrefix(s[..pos], Encode(c));
        assert Encode(c) + [] == Encode(c);
        assert s[..Boundary(s, k)] == s[..pos] + Encode(c);
        assert s[Boundary(s, k)..] == rest;
      }
    }
  }

  lemma FixedOfValid(v: seq<byte>)
    requires Valid(v)
    ensures Fixed(v) == v
  {
    FixedOfCut(v, [], 0);
    assert v + [] == v;
  }

  /** str_utf8_truncate: as many whole characters as fit, but at most truncationLen of them. */
  method StrUtf8Truncate(dst: array<byte>, dstSize: nat, src: seq<byte>, truncationLen: nat) returns (ghost chars: nat)
    requires 1 <= dstSize <= dst.Length && NoNul(src)
    modifies dst
    ensures 0 in dst[..] && chars <= truncationLen && Boundary(src, chars) < dstSize
    ensures chars == truncationLen || Boundary(src, chars) == |src| || Boundary(src, chars + 1) >= dstSize
    ensures Content(dst[..]) == Fixed(src[..Boundary(src, chars)])
    ensures Valid(src) ==> Content(dst[..]) == src[..Boundary(src, chars)]
    ensures forall i :: dstSize <= i < dst.Length ==> dst[i] == old(dst[i])
  {
    hide Decode, Forward, Valid, Fixed, IsLongestValidPrefix;
    var size: int := -1;
    var cursor, pos := 0, 0;
    chars := 0;
    while pos <= truncationLen && cursor < dstSize && size != cursor
      invariant pos <= truncationLen + 1 && cursor == Boundary(src, pos)
      invariant dst[..] == old(dst[..])
      invariant pos == 0 ==> size == -1
      invariant pos > 0 ==> chars == pos - 1 && size == Boundary(src, chars) < dstSize && size < cursor
      decreases truncationLen + 1 - pos
    {
      size := cursor;
      chars := pos;
      DecodeProgress(src[cursor..]);
      ForwardIsDecode(src, cursor);
      var code, next := StrUtf8Decode(src, cursor);
      cursor := next;
      if code == 0 {
        break;
      }
      pos := pos + 1;
    }
    assert src[..Min(size, |src|)] == src[..Boundary(src, chars)];
    var len := StrCopy(dst, src, size + 1);
    if Valid(src) {
      BoundaryIsValid(src, chars);
      FixedOfValid(src[..size]);
    }
  }

  lemma ForwardIsDecode(s: seq<byte>, pos: nat)
    requires NoNul(s) && pos <= |s|
    ensures pos < |s| ==> Forward(s, pos) == pos + Decode(s[pos..]).size
  {
  }
}
