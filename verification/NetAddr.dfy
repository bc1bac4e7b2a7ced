/** Printing network addresses into a buffer. */
module NetAddr {
  import opened Bytes
  import opened Text
  import opened AddrText

  const NETADDR_MAXSTRSIZE: nat := 1 + (8 * 4 + 7) + 1 + 1 + 5 + 1

  /** The bits of NETADDR::type. */
  datatype NetType = Ipv4 | Ipv6 | WebsocketIpv4 | WebsocketIpv6 | LinkBroadcast | Tw7

  /** struct NETADDR. */
  class NetAddress {
    var kind: set<NetType>
    const ip: array<byte>
    var port: nat

    ghost predicate Valid()
      reads this
    {
      ip.Length == 16 && port < 0x1_0000
    }

    constructor ()
      ensures Valid() && fresh(ip) && kind == {} && port == 0
    {
      kind, port := {}, 0;
      ip := new byte[16](i => 0);
    }
  }

  // ----- finding the zeros to shorten -----

  /** All runs of zeros in the first n words are no longer than the best one found, or start behind it. */
  ghost predicate BestBefore(ip: seq<word>, n: int, start: int, length: int) {
    && (forall s, l :: ZeroRun(ip, s, l) && l >= 1 && s + l <= n ==> l <= length && (l == length ==> start <= s))
    && if length == 0 then start == -1 else length >= 1 && ZeroRun(ip, start, length) && start + length <= n
  }

  /** The first part of net_addr_str_v6. */
  method FindLongestRun(ip: seq<word>) returns (longestSeqStart: int, longestSeqLen: int)
    requires |ip| == 8
    ensures RunToShorten(ip, longestSeqStart, longestSeqLen)
  {
    longestSeqLen, longestSeqStart := 0, -1;
    var seqLen, seqStart := 0, -1;
    for i := 0 to 8 + 1
      invariant seqStart == -1 ==>
        BestBefore(ip, Min(i, 8), longestSeqStart, longestSeqLen) && (0 < i <= 8 ==> ip[i - 1] != 0)
      invariant seqStart != -1 ==>
        && 0 <= seqStart < i <= 8 && seqLen == i - seqStart && ZeroRun(ip, seqStart, seqLen)
        && (seqStart > 0 ==> ip[seqStart - 1] != 0) && BestBefore(ip, seqStart, longestSeqStart, longestSeqLen)
    {
      if seqStart != -1 {
        if i == 8 || ip[i] != 0 {
          RunEnds(ip, i, seqStart, longestSeqStart, longestSeqLen);
          if longestSeqLen < seqLen {
            longestSeqLen := seqLen;
            longestSeqStart := seqStart;
          }
          NonzeroAdded(ip, i, longestSeqStart, longestSeqLen);
          seqLen := 0;
          seqStart := -1;
        } else {
          seqLen := seqLen + 1;
        }
      } else if i != 8 && ip[i] == 0 {
        seqStart := i;
        seqLen := 1;
      } else {
        NonzeroAdded(ip, i, longestSeqStart, longestSeqLen);
      }
    }
    if longestSeqLen <= 1 {
      longestSeqLen := 0;
      longestSeqStart := -1;
    }
  }

  /** Of the runs up to the end of the current one, that one is the longest unless an earlier one is. */
  lemma RunEnds(ip: seq<word>, i: int, seqStart: int, start: int, length: int)
    requires 0 <= seqStart < i <= |ip| && ZeroRun(ip, seqStart, i - seqStart)
    requires seqStart > 0 ==> ip[seqStart - 1] != 0
    requires BestBefore(ip, seqStart, start, length)
    ensures length < i - seqStart ==> BestBefore(ip, i, seqStart, i - seqStart)
    ensures length >= i - seqStart ==> BestBefore(ip, i, start, length)
  {
    forall s, l | ZeroRun(ip, s, l) && l >= 1 && s + l <= i
      ensures s + l <= seqStart || s >= seqStart
    {
    }
  }

  lemma NonzeroAdded(ip: seq<word>, i: int, start: int, length: int)
    requires 0 <= i <= |ip| == 8 && (i < 8 ==> ip[i] != 0) && BestBefore(ip, i, start, length)
    ensures BestBefore(ip, Min(i + 1, 8), start, length)
  {
  }

  // ----- printing -----

  /** The first w characters of text are in the buffer, w falling short of |text| only when the room ends there. */
  ghost predicate Holds(buffer: seq<char>, size: nat, text: string, w: nat) {
    1 <= size <= |buffer| && w == Min(|text|, size - 1) && buffer[..w] == text[..w]
  }

  /** The buffer shows as much of text as fits, terminated. */
  ghost predicate Shows(buffer: seq<char>, size: nat, text: string) {
    1 <= size <= |buffer| && var n := Min(|text|, size - 1); buffer[..n] == text[..n] && buffer[n] == '\0'
  }

  /** str_copy or str_format of ASCII text at position w of a buffer. */
  method PutText(buffer: array<char>, w: nat, bufferSize: nat, text: string, ghost before: string) returns (n: nat)
    requires 1 <= bufferSize <= buffer.Length && Holds(buffer[..], bufferSize, before, w)
    modifies buffer
    ensures Holds(buffer[..], bufferSize, before + text, w + n) && Shows(buffer[..], bufferSize, before + text)
    ensures buffer[bufferSize..] == old(buffer[bufferSize..])
  {
    n := Min(|text|, bufferSize - w - 1);
    forall i | 0 <= i < n {
      buffer[w + i] := text[i];
    }
    buffer[w + n] := '\0';
    assert (before + text)[..w + n] == before[..w] + text[..n];
    assert buffer[..w + n] == old(buffer[..w]) + text[..n];
  }

  /** What the printing loop adds for word i. */
  ghost function Piece(ip: seq<word>, start: int, length: int, i: nat): string
    requires i < |ip|
  {
    if start <= i < start + length then if i == start then "::" else ""
    else (if i == 0 || i == start + length then "" else ":") + Hex(ip[i])
  }

  lemma PieceIs(ip: seq<word>, start: int, length: int, i: nat)
    requires i < |ip|
    ensures i == start < start + length ==> Piece(ip, start, length, i) == "::"
    ensures start < i < start + length ==> Piece(ip, start, length, i) == ""
    ensures !(start <= i < start + length) ==>
              Piece(ip, start, length, i) == (if i == 0 || i == start + length then "" else ":") + Hex(ip[i])
  {
  }

  /** Words joined by colons. */
  ghost function Span(ip: seq<word>, from: int, to: int): string
    requires 0 <= from <= to <= |ip|
  {
    Join(Groups(ip[from..to]))
  }

  /** Up to the run the words joined by colons, then "::", then the words behind it. */
  ghost function TextSoFar(ip: seq<word>, start: int, length: int, i: nat): string
    requires i <= |ip| && (length == 0 || (0 <= start && 0 < length))
  {
    "[" + if length == 0 || i <= start then Span(ip, 0, i)
          else if i <= start + length then Span(ip, 0, start) + "::"
          else Span(ip, 0, start) + "::" + Span(ip, start + length, i)
  }

  lemma {:induction false} JoinSnoc(fields: seq<string>, f: string)
    ensures Join(fields + [f]) == if fields == [] then f else Join(fields) + ":" + f
    decreases |fields|
  {
    if fields != [] {
      assert (fields + [f])[1..] == fields[1..] + [f];
      JoinSnoc(fields[1..], f);
    }
  }

  lemma SpanNext(ip: seq<word>, from: nat, i: nat)
    requires from <= i < |ip|
    ensures Span(ip, from, i + 1) == Span(ip, from, i) + ((if i == from then "" else ":") + Hex(ip[i]))
    ensures Span(ip, from, from) == ""
  {
    hide Hex;
    assert Groups(ip[from..i + 1]) == Groups(ip[from..i]) + [Hex(ip[i])];
    JoinSnoc(Groups(ip[from..i]), Hex(ip[i]));
    assert Groups(ip[from..from]) == [];
  }

  lemma TextGrows(ip: seq<word>, start: int, length: int, i: nat)
    requires |ip| == 8 && RunToShorten(ip, start, length) && i < 8
    ensures TextSoFar(ip, start, length, i + 1) == TextSoFar(ip, start, length, i) + Piece(ip, start, length, i)
  {
    if length == 0 || i < start {
      TextGrowsBefore(ip, start, length, i);
    } else if i < start + length {
      TextGrowsInside(ip, start, length, i);
    } else {
      TextGrowsBehind(ip, start, length, i);
    }
  }

  lemma TextGrowsBefore(ip: seq<word>, start: int, length: int, i: nat)
    requires |ip| == 8 && i < 8 && ((length == 0 && start == -1) || (length > 0 && i < start))
    ensures TextSoFar(ip, start, length, i + 1) == TextSoFar(ip, start, length, i) + Piece(ip, start, length, i)
  {
    hide Span, Hex;
    SpanNext(ip, 0, i);
  }

  lemma TextGrowsInside(ip: seq<word>, start: int, length: int, i: nat)
    requires |ip| == 8 && i < 8 && 0 <= start <= i < start + length
    ensures TextSoFar(ip, start, length, i + 1) == TextSoFar(ip, start, length, i) + Piece(ip, start, length, i)
  {
    hide Span, Hex;
    var front := Span(ip, 0, start) + "::";
    assert front + "" == front;
  }

  lemma TextGrowsBehind(ip: seq<word>, start: int, length: int, i: nat)
    requires |ip| == 8 && i < 8 && 0 <= start && 0 < length && start + length <= i
    ensures TextSoFar(ip, start, length, i + 1) == TextSoFar(ip, start, length, i) + Piece(ip, start, length, i)
  {
    hide Span, Hex, Piece;
    SpanNext(ip, start + length, i);
    PieceIs(ip, start, length, i);
    Regroup(Span(ip, 0, start) + "::", Span(ip, start + length, i), Piece(ip, start, length, i));
  }

  lemma Regroup(front: string, so: string, piece: string)
    ensures "[" + (front + (so + piece)) == "[" + (front + so) + piece
    ensures so == "" ==> "[" + (front + so) == "[" + front
  {
  }

  /** The loop starts with the opening bracket and ends with the canonical text behind it. */
  lemma TextEnds(ip: seq<word>, start: int, length: int)
    requires |ip| == 8 && RunToShorten(ip, start, length)
    ensures TextSoFar(ip, start, length, 0) == "["
    ensures Canonical(ip, Shortened(ip, start, length))
    ensures TextSoFar(ip, start, length, 8) == "[" + Shortened(ip, start, length)
  {
    hide Join, Groups, Hex;
    SpanNext(ip, 0, 0);
    assert ip[0..8] == ip;
    if length > 0 {
      assert ip[0..start] == ip[..start] && ip[start + length..8] == ip[start + length..];
      if start + length == 8 {
        assert Groups(ip[8..]) == [] && Join([]) == "" by { NothingJoined(ip); }
      }
    }
  }

  lemma NothingJoined(ip: seq<word>)
    requires |ip| == 8
    ensures Groups(ip[8..]) == [] && Join([]) == ""
  {
  }

  function PortText(port: int): string {
    if port >= 0 then ":" + Decimal(port) else ""
  }

  /** The body of the loop of net_addr_str_v6 that prints the words. */
  method PutWord(ip: seq<word>, start: int, length: int, i: nat, buffer: array<char>, w0: nat, bufferSize: nat)
    returns (w: nat)
    requires |ip| == 8 && RunToShorten(ip, start, length) && 1 <= bufferSize <= buffer.Length && i < 8
    requires Holds(buffer[..], bufferSize, TextSoFar(ip, start, length, i), w0)
    modifies buffer
    ensures Holds(buffer[..], bufferSize, TextSoFar(ip, start, length, i + 1), w)
    ensures buffer[bufferSize..] == old(buffer[bufferSize..])
  {
    assert length == 0 || (0 <= start && 0 < length);
    hide *;
    w := w0;
    ghost var before := TextSoFar(ip, start, length, i);
    TextGrows(ip, start, length, i);
    PieceIs(ip, start, length, i);
    if start <= i < start + length {
      if i == start {
        var n := PutText(buffer, w, bufferSize, "::", before);
        w := w + n;
      } else {
        assert before + "" == before;
      }
    } else {
      var colon := if i == 0 || i == start + length then "" else ":";
      var n := PutText(buffer, w, bufferSize, colon + Hex(ip[i]), before);
      w := w + n;
    }
  }

  /** That loop. */
  method PutWords(ip: seq<word>, start: int, length: int, buffer: array<char>, w0: nat, bufferSize: nat)
    returns (w: nat)
    requires |ip| == 8 && RunToShorten(ip, start, length) && 1 <= bufferSize <= buffer.Length
    requires Holds(buffer[..], bufferSize, TextSoFar(ip, start, length, 0), w0)
    modifies buffer
    ensures Holds(buffer[..], bufferSize, TextSoFar(ip, start, length, 8), w)
    ensures buffer[bufferSize..] == old(buffer[bufferSize..])
  {
    assert length == 0 || (0 <= start && 0 < length);
    hide *;
    w := w0;
    for i := 0 to 8
      invariant Holds(buffer[..], bufferSize, TextSoFar(ip, start, length, i), w)
      invariant buffer[bufferSize..] == old(buffer[bufferSize..])
    {
      w := PutWord(ip, start, length, i, buffer, w, bufferSize);
    }
  }

  /** net_addr_str_v6. */
  method NetAddrStrV6(ip: seq<word>, port: int, buffer: array<char>, bufferSize: nat) returns (ghost text: string)
    requires |ip| == 8 && 1 <= bufferSize <= buffer.Length
    modifies buffer
    ensures Canonical(ip, text) && Shows(buffer[..], bufferSize, "[" + text + "]" + PortText(port))
    ensures buffer[bufferSize..] == old(buffer[bufferSize..])
  {
    var start, length := FindLongestRun(ip);
    TextEnds(ip, start, length);
    text := Shortened(ip, start, length);
    hide Holds, Shows, Canonical, RunToShorten, Shortened, TextSoFar, Decimal;
    NothingHeld(buffer[..], bufferSize);
    assert "" + "[" == "[";
    var w := PutText(buffer, 0, bufferSize, "[", "");
    w := PutWords(ip, start, length, buffer, w, bufferSize);
    var n := PutText(buffer, w, bufferSize, "]", "[" + text);
    w := w + n;
    assert "[" + text + "]" + "" == "[" + text + "]";
    if port >= 0 {
      n := PutText(buffer, w, bufferSize, ":" + Decimal(port), "[" + text + "]");
    }
  }

  lemma NothingHeld(buffer: seq<char>, size: nat)
    requires 1 <= size <= |buffer|
    ensures Holds(buffer, size, "", 0)
  {
  }

  /** The eight words of an address in network byte order. */
  function Words(ip: seq<byte>): (w: seq<word>)
    requires |ip| == 16
    ensures |w| == 8
  {
    seq(8, i requires 0 <= i < 8 => (ip[2 * i] as int) * 256 + ip[2 * i + 1])
  }

  function Octets(w: seq<word>): (ip: seq<byte>)
    requires |w| == 8
    ensures |ip| == 16
  {
    seq(16, i requires 0 <= i < 16 => if i % 2 == 0 then w[i / 2] / 256 else w[i / 2] % 256)
  }

  /** The number that digits stand for. */
  function InBase(digits: seq<int>, base: nat): int {
    if digits == [] then 0 else InBase(digits[..|digits| - 1], base) * base + digits[|digits| - 1]
  }

  lemma {:induction false} PairsOfDigits(w: seq<int>, ip: seq<int>)
    requires |ip| == 2 * |w| && forall i :: 0 <= i < |w| ==> w[i] == ip[2 * i] * 256 + ip[2 * i + 1]
    ensures InBase(w, 0x1_0000) == InBase(ip, 256)
    decreases |w|
  {
    if w != [] {
      var n := |w| - 1;
      var front := ip[..2 * n + 1];
      assert front[..2 * n] == ip[..2 * n];
      PairsOfDigits(w[..n], ip[..2 * n]);
      assert InBase(front, 256) == InBase(ip[..2 * n], 256) * 256 + ip[2 * n];
    }
  }

  /** Words and octets are the same 128-bit number. */
  lemma SameNumber(ip: seq<byte>, w: seq<word>)
    requires |ip| == 16 && |w| == 8
    ensures InBase(Words(ip), 0x1_0000) == InBase(ip, 256)
    ensures InBase(Octets(w), 256) == InBase(w, 0x1_0000)
  {
    PairsOfDigits(Words(ip), ip);
    PairsOfDigits(w, Octets(w));
  }

  lemma OctetsOfWords(ip: seq<byte>)
    requires |ip| == 16
    ensures Octets(Words(ip)) == ip
  {
    forall i | 0 <= i < 16
      ensures Octets(Words(ip))[i] == ip[i]
    {
      var k := i / 2;
      SplitWord(ip[2 * k], ip[2 * k + 1]);
    }
  }

  lemma SplitWord(high: byte, low: byte)
    ensures ((high as int) * 256 + low) / 256 == high && ((high as int) * 256 + low) % 256 == low
  {
  }

  function V4Text(ip: seq<byte>, port: int): string
    requires |ip| >= 4
  {
    Decimal(ip[0]) + "." + Decimal(ip[1]) + "." + Decimal(ip[2]) + "." + Decimal(ip[3]) + PortText(port)
  }

  /** The text of an address, with its port unless that is negative. */
  ghost predicate TextOf(kind: set<NetType>, ip: seq<byte>, port: int, text: string) {
    && |ip| == 16
    && if kind * {Ipv4, WebsocketIpv4} != {} then text == V4Text(ip, port)
       else exists t :: Canonical(Words(ip), t) && text == "[" + t + "]" + PortText(port)
  }

  /** net_addr_str. Other types than these four are refused by an assertion. */
  method NetAddrStr(addr: NetAddress, str: array<char>, maxLength: nat, addPort: bool) returns (ghost text: string)
    requires addr.Valid() && addr.kind * {Ipv4, WebsocketIpv4, Ipv6, WebsocketIpv6} != {}
    requires 1 <= maxLength <= str.Length
    modifies str
    ensures TextOf(addr.kind, addr.ip[..], if addPort then addr.port else -1, text) && Shows(str[..], maxLength, text)
    ensures str[maxLength..] == old(str[maxLength..])
  {
    hide Canonical, Shows, Holds, Decimal;
    var port := if addPort then addr.port else -1;
    if addr.kind * {Ipv4, WebsocketIpv4} != {} {
      text := V4Text(addr.ip[..], port);
      NothingHeld(str[..], maxLength);
      assert "" + text == text;
      var n := PutText(str, 0, maxLength, V4Text(addr.ip[..], port), "");
    } else {
      ghost var t := NetAddrStrV6(Words(addr.ip[..]), port, str, maxLength);
      text := "[" + t + "]" + PortText(port);
    }
  }

  lemma DecimalLengths(n: nat)
    ensures n < 256 ==> |Decimal(n)| <= 3
    ensures n < 0x1_0000 ==> |Decimal(n)| <= 5
  {
    hide Digits;
    assert Power(10, 1) == Power(10, 0) * 10 == 10;
    assert Power(10, 2) == Power(10, 1) * 10;
    assert Power(10, 3) == Power(10, 2) * 10;
    assert Power(10, 4) == Power(10, 3) * 10;
    assert Power(10, 5) == Power(10, 4) * 10;
    if n < 256 {
      DigitsAtMost(n, 10, 3);
    }
    if n < 0x1_0000 {
      DigitsAtMost(n, 10, 5);
    }
  }

  /** Every text fits a buffer of NETADDR_MAXSTRSIZE characters. */
  lemma TextFits(kind: set<NetType>, ip: seq<byte>, port: int, text: string)
    requires port < 0x1_0000 && TextOf(kind, ip, port, text)
    ensures |text| < NETADDR_MAXSTRSIZE
  {
    hide Canonical, Decimal;
    if port >= 0 {
      DecimalLengths(port);
    }
    if kind * {Ipv4, WebsocketIpv4} != {} {
      DecimalLengths(ip[0]);
      DecimalLengths(ip[1]);
      DecimalLengths(ip[2]);
      DecimalLengths(ip[3]);
    } else {
      var t :| Canonical(Words(ip), t) && text == "[" + t + "]" + PortText(port);
      CanonicalLength(Words(ip), t);
    }
  }
}
